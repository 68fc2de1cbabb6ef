/** Generic sequence operations behind `Array.prototype.filter`,
    a `map` whose callback may throw, and concatenation of call logs. */
module Seqs {
  import opened Wrappers

  /** `s.filter(p)`: the elements that satisfy `p`, in their original order. */
  function Filter<T>(s: seq<T>, p: T -> bool): (r: seq<T>)
    ensures |r| <= |s|
    ensures forall x :: x in r ==> x in s && p(x)
    decreases |s|
  {
    if s == [] then []
    else
      var init := Filter(s[..|s| - 1], p);
      assert forall x :: x in init ==> x in s by {
        assert forall x :: x in s[..|s| - 1] ==> x in s;
      }
      init + (if p(s[|s| - 1]) then [s[|s| - 1]] else [])
  }

  /** The positions of `s` that `Filter` keeps, in increasing order. */
  function KeptIndices<T>(s: seq<T>, p: T -> bool): (r: seq<nat>)
    ensures forall j :: 0 <= j < |r| ==> r[j] < |s|
    decreases |s|
  {
    if s == [] then []
    else KeptIndices(s[..|s| - 1], p) + (if p(s[|s| - 1]) then [|s| - 1] else [])
  }

  /** `Filter` and `KeptIndices` grow together: one step adds the last
      element and its position exactly when it satisfies `p`. */
  lemma FilterLast<T>(s: seq<T>, p: T -> bool)
    requires s != []
    ensures var n := |s| - 1;
      && Filter(s, p) == Filter(s[..n], p) + (if p(s[n]) then [s[n]] else [])
      && KeptIndices(s, p) == KeptIndices(s[..n], p) + (if p(s[n]) then [n] else [])
  {
  }

  /** The result of `Filter` is `s` read at the positions `KeptIndices`,
      each of which holds an element that satisfies `p`. */
  lemma {:induction false} FilterReadsKept<T>(s: seq<T>, p: T -> bool)
    ensures var r, ks := Filter(s, p), KeptIndices(s, p);
      && |ks| == |r|
      && (forall j :: 0 <= j < |ks| ==> p(s[ks[j]]) && r[j] == s[ks[j]])
    decreases |s|
  {
    if s != [] {
      var n := |s| - 1;
      var init, kinit := Filter(s[..n], p), KeptIndices(s[..n], p);
      FilterReadsKept(s[..n], p);
      FilterLast(s, p);
      var r, ks := Filter(s, p), KeptIndices(s, p);
      forall j | 0 <= j < |ks|
        ensures p(s[ks[j]]) && r[j] == s[ks[j]]
      {
        if j < |kinit| {
          assert ks[j] == kinit[j] && r[j] == init[j];
          assert s[..n][kinit[j]] == s[kinit[j]];
        }
      }
    }
  }

  /** `KeptIndices` is strictly increasing and holds exactly the positions
      whose element satisfies `p`. */
  lemma {:induction false} KeptIndicesExact<T>(s: seq<T>, p: T -> bool)
    ensures var ks := KeptIndices(s, p);
      && (forall j, k :: 0 <= j < k < |ks| ==> ks[j] < ks[k])
      && (forall i :: 0 <= i < |s| ==> (i in ks <==> p(s[i])))
    decreases |s|
  {
    if s != [] {
      var n := |s| - 1;
      var kinit := KeptIndices(s[..n], p);
      KeptIndicesExact(s[..n], p);
      FilterLast(s, p);
      var ks := KeptIndices(s, p);
      forall j, k | 0 <= j < k < |ks|
        ensures ks[j] < ks[k]
      {
        assert ks[j] == kinit[j];
        if k >= |kinit| {
          assert ks[k] == n;
        } else {
          assert ks[k] == kinit[k];
        }
      }
      forall i | 0 <= i < |s|
        ensures i in ks <==> p(s[i])
      {
        if i < n {
          assert s[..n][i] == s[i];
          assert i in ks <==> i in kinit;
        } else {
          assert n !in kinit;
        }
      }
    }
  }

  /** `Filter` keeps exactly the elements that satisfy `p`, in order: its
      result is `s` read at the increasing positions `KeptIndices`, which
      are all the positions whose element satisfies `p`. */
  lemma FilterIsSubsequence<T>(s: seq<T>, p: T -> bool)
    ensures var r, ks := Filter(s, p), KeptIndices(s, p);
      && |ks| == |r|
      && (forall j :: 0 <= j < |ks| ==> p(s[ks[j]]) && r[j] == s[ks[j]])
      && (forall j, k :: 0 <= j < k < |ks| ==> ks[j] < ks[k])
      && (forall i :: 0 <= i < |s| ==> (i in ks <==> p(s[i])))
  {
    FilterReadsKept(s, p);
    KeptIndicesExact(s, p);
  }

  /** A sequence with one element: kept exactly when it satisfies `p`. */
  lemma FilterSingleton<T>(x: T, p: T -> bool)
    ensures Filter([x], p) == if p(x) then [x] else []
  {
    assert [x][..0] == [];
  }

  /** Filtering distributes over concatenation. */
  lemma {:induction false} FilterAppend<T>(a: seq<T>, b: seq<T>, p: T -> bool)
    ensures Filter(a + b, p) == Filter(a, p) + Filter(b, p)
    decreases |b|
  {
    if b == [] {
      assert a + b == a;
    } else {
      var n, ab := |b| - 1, a + b;
      assert ab[..|ab| - 1] == a + b[..n] && ab[|ab| - 1] == b[n];
      var last := if p(b[n]) then [b[n]] else [];
      assert Filter(ab, p) == Filter(a + b[..n], p) + last;
      assert Filter(b, p) == Filter(b[..n], p) + last;
      FilterAppend(a, b[..n], p);
      AppendAssoc(Filter(a, p), Filter(b[..n], p), last);
    }
  }

  /** An element the predicate rejects can be removed without changing the result. */
  lemma FilterSkipsRejected<T>(a: seq<T>, x: T, b: seq<T>, p: T -> bool)
    requires !p(x)
    ensures Filter(a + [x] + b, p) == Filter(a + b, p)
  {
    FilterAppend(a + [x], b, p);
    FilterAppend(a, [x], p);
    FilterSingleton(x, p);
    FilterAppend(a, b, p);
  }

  /** `s.map(f)` where `f` may throw: the first element whose conversion
      fails ends the whole mapping with that element's error. */
  function MapOrFail<A, B, E>(s: seq<A>, f: A -> Result<B, E>): (r: Result<seq<B>, E>)
    ensures r.Success? <==> forall i :: 0 <= i < |s| ==> f(s[i]).Success?
    ensures r.Success? ==> |r.value| == |s|
    ensures r.Success? ==> forall i :: 0 <= i < |s| ==> f(s[i]).value == r.value[i]
    ensures r.Failure? ==> exists i :: 0 <= i < |s| && f(s[i]).Failure? && f(s[i]).error == r.error
                                       && forall j :: 0 <= j < i ==> f(s[j]).Success?
    decreases |s|
  {
    if s == [] then Success([])
    else
      match f(s[0])
      case Failure(e) => Failure(e)
      case Success(b) =>
        var rest := MapOrFail(s[1..], f);
        assert forall i :: 1 <= i < |s| ==> s[1..][i - 1] == s[i];
        match rest
        case Failure(e) =>
          assert exists i :: 0 <= i < |s| && f(s[i]).Failure? && f(s[i]).error == e
                             && forall j :: 0 <= j < i ==> f(s[j]).Success? by {
            var i :| 0 <= i < |s[1..]| && f(s[1..][i]).Failure? && f(s[1..][i]).error == e
                     && forall j :: 0 <= j < i ==> f(s[1..][j]).Success?;
            assert f(s[i + 1]).Failure? && forall j :: 0 <= j < i + 1 ==> f(s[j]).Success?;
          }
          Failure(e)
        case Success(bs) => Success([b] + bs)
  }

  /** `s.filter(p).map(f)` with a throwing `f`, on success: one output per
      kept element, in order, each the conversion of that element. */
  lemma FilterMapSuccess<A, B, E>(s: seq<A>, p: A -> bool, f: A -> Result<B, E>)
    requires MapOrFail(Filter(s, p), f).Success?
    ensures var out, ks := MapOrFail(Filter(s, p), f).value, KeptIndices(s, p);
      && |out| == |ks| <= |s|
      && (forall j, k :: 0 <= j < k < |ks| ==> ks[j] < ks[k])
      && (forall i :: 0 <= i < |s| ==> (i in ks <==> p(s[i])))
      && (forall j :: 0 <= j < |ks| ==> f(s[ks[j]]).Success? && f(s[ks[j]]).value == out[j])
  {
    FilterIsSubsequence(s, p);
  }

  /** A kept position `i` before the `j`-th kept position is the `m`-th one for some `m < j`. */
  lemma KeptBefore<T>(s: seq<T>, p: T -> bool, j: nat, i: nat) returns (m: nat)
    requires j < |KeptIndices(s, p)| && i < KeptIndices(s, p)[j] && p(s[i])
    ensures m < j && KeptIndices(s, p)[m] == i
  {
    KeptIndicesExact(s, p);
    var ks := KeptIndices(s, p);
    assert i in ks;
    m :| 0 <= m < |ks| && ks[m] == i;
    if m >= j {
      assert false;
    }
  }

  /** `s.filter(p).map(f)` with a throwing `f` fails with the error of the
      first element `s[i]` that is kept and whose conversion fails. */
  lemma FilterMapFailure<A, B, E>(s: seq<A>, p: A -> bool, f: A -> Result<B, E>) returns (i: nat)
    requires MapOrFail(Filter(s, p), f).Failure?
    ensures i < |s| && p(s[i]) && f(s[i]).Failure?
    ensures f(s[i]).error == MapOrFail(Filter(s, p), f).error
    ensures forall j :: 0 <= j < i && p(s[j]) ==> f(s[j]).Success?
  {
    FilterIsSubsequence(s, p);
    var kept, ks := Filter(s, p), KeptIndices(s, p);
    var r := MapOrFail(kept, f);
    var j :| 0 <= j < |kept| && f(kept[j]).Failure? && f(kept[j]).error == r.error
             && forall m :: 0 <= m < j ==> f(kept[m]).Success?;
    i := ks[j];
    assert kept[j] == s[i] && p(s[i]);
    forall i' | 0 <= i' < i && p(s[i'])
      ensures f(s[i']).Success?
    {
      var m := KeptBefore(s, p, j, i');
      assert kept[m] == s[i'];
    }
  }

  /** `s.filter(p).map(f)` with a throwing `f` fails exactly when some kept
      element's conversion fails: elements that are dropped are never converted. */
  lemma FilterMapFailsIff<A, B, E>(s: seq<A>, p: A -> bool, f: A -> Result<B, E>)
    ensures MapOrFail(Filter(s, p), f).Failure? <==>
              exists i :: 0 <= i < |s| && p(s[i]) && f(s[i]).Failure?
  {
    if MapOrFail(Filter(s, p), f).Failure? {
      var i := FilterMapFailure(s, p, f);
    } else {
      FilterIsSubsequence(s, p);
      var kept, ks := Filter(s, p), KeptIndices(s, p);
      forall i | 0 <= i < |s| && p(s[i])
        ensures f(s[i]).Success?
      {
        assert i in ks;
        var m :| 0 <= m < |ks| && ks[m] == i;
        assert f(kept[m]).Success?;
      }
    }
  }

  /** The concatenation of a sequence of sequences, in order. */
  function Concat<T>(ss: seq<seq<T>>): (r: seq<T>)
    decreases |ss|
  {
    if ss == [] then [] else ss[0] + Concat(ss[1..])
  }

  /** Concatenation peels off its first sequence. */
  lemma ConcatCons<T>(x: seq<T>, ys: seq<seq<T>>)
    ensures Concat([x] + ys) == x + Concat(ys)
  {
    assert ([x] + ys)[0] == x && ([x] + ys)[1..] == ys;
  }

  lemma AppendAssoc<T>(x: seq<T>, y: seq<T>, z: seq<T>)
    ensures x + (y + z) == (x + y) + z
  {
  }

  /** The number of occurrences of `x` in `s`. */
  function Count<T(==)>(s: seq<T>, x: T): (n: nat)
    ensures n <= |s|
    ensures n == 0 <==> x !in s
    decreases |s|
  {
    if s == [] then 0 else (if s[0] == x then 1 else 0) + Count(s[1..], x)
  }

  lemma {:induction false} CountAppend<T>(a: seq<T>, b: seq<T>, x: T)
    ensures Count(a + b, x) == Count(a, x) + Count(b, x)
    decreases |a|
  {
    if a == [] {
      assert a + b == b;
    } else {
      assert (a + b)[1..] == a[1..] + b;
      CountAppend(a[1..], b, x);
    }
  }
}
