/** `syncData` of src/sync.ts: load every remote list and its task titles,
    then, for each desired task in order, create its list when the title is
    unknown and insert the task unless its effective title is already among
    the titles loaded for that list.

    `ReconcileSpec`, `Run` and `Handle` state what a run does as functions of
    the service's answers; `SyncData` is the imperative loop, proved to make
    exactly the calls `ReconcileSpec` describes; the lemmas state what every
    run guarantees. */
module Sync {
  import opened Wrappers
  import opened Tasks
  import Seqs

  /** A desired task as `parse` returns it: dates of the unspecified type `D`;
      `notes` and `prefix` may be absent. */
  datatype DesiredTask<D> = DesiredTask(name: string, list: string, date: D, notes: Option<string>, prefix: Option<string>)

  predicate HasPrefix<D>(task: DesiredTask<D>) {
    task.prefix.Some? && task.prefix.value != ""
  }

  /** The title a desired task is created under and compared by. */
  function EffectiveTitle<D>(task: DesiredTask<D>): (title: string)
    ensures HasPrefix(task) ==> title == task.prefix.value + " - " + task.name
    ensures |task.name| <= |title| && title[|title| - |task.name|..] == task.name
    ensures title == task.name <==> !HasPrefix(task)
  {
    if HasPrefix(task) then task.prefix.value + " - " + task.name else task.name
  }

  // ---------------------------------------------------------------------------
  // The tables built by the first loop (src/sync.ts:22-36)

  /** `listIds`: title to id, each list in turn, so a later list with the same
      title overwrites an earlier one. */
  function ListIds(lists: seq<RemoteList>): map<string, string>
    decreases |lists|
  {
    if lists == [] then map[]
    else
      var last := lists[|lists| - 1];
      ListIds(lists[..|lists| - 1])[last.title := last.id]
  }

  /** `tasks`: list id to the set of titles `getTasks` returned for it. */
  function TaskTitles(lists: seq<RemoteList>, titles: string -> seq<string>): map<string, set<string>>
    decreases |lists|
  {
    if lists == [] then map[]
    else
      var last := lists[|lists| - 1];
      TaskTitles(lists[..|lists| - 1], titles)[last.id := set t | t in titles(last.id)]
  }

  /** The `getTasks` calls of the first loop, one per list, in order. */
  function LoadCalls(lists: seq<RemoteList>): (calls: seq<Call>)
    ensures |calls| == |lists|
    ensures forall i :: 0 <= i < |lists| ==> calls[i] == ListTasks(lists[i].id)
  {
    seq(|lists|, i requires 0 <= i < |lists| => ListTasks(lists[i].id))
  }

  /** Every loaded title is in `listIds`, mapped to the id of the last list
      with that title, and no other title is. */
  lemma {:induction false} ListIdsLastWins(lists: seq<RemoteList>, title: string)
    ensures title in ListIds(lists) <==> exists i :: 0 <= i < |lists| && lists[i].title == title
    ensures forall i :: 0 <= i < |lists| && lists[i].title == title
              && (forall j :: i < j < |lists| ==> lists[j].title != title)
              ==> ListIds(lists)[title] == lists[i].id
    decreases |lists|
  {
    if lists != [] {
      var n := |lists| - 1;
      ListIdsLastWins(lists[..n], title);
      assert forall i :: 0 <= i < n ==> lists[..n][i] == lists[i];
    }
  }

  /** Every loaded id is in `tasks`, holding exactly the titles `getTasks`
      returned for it; no other id is. */
  lemma {:induction false} TaskTitlesExact(lists: seq<RemoteList>, titles: string -> seq<string>, id: string)
    ensures id in TaskTitles(lists, titles) <==> exists i :: 0 <= i < |lists| && lists[i].id == id
    ensures id in TaskTitles(lists, titles) ==>
              forall t :: t in TaskTitles(lists, titles)[id] <==> t in titles(id)
    decreases |lists|
  {
    if lists != [] {
      var n := |lists| - 1;
      TaskTitlesExact(lists[..n], titles, id);
      assert forall i :: 0 <= i < n ==> lists[..n][i] == lists[i];
    }
  }

  /** The id a loaded title maps to always has a title set in `tasks`. */
  lemma {:induction false} LoadedListsHaveTitles(lists: seq<RemoteList>, titles: string -> seq<string>)
    ensures forall t :: t in ListIds(lists) ==> ListIds(lists)[t] in TaskTitles(lists, titles)
    decreases |lists|
  {
    if lists != [] {
      LoadedListsHaveTitles(lists[..|lists| - 1], titles);
    }
  }

  // ---------------------------------------------------------------------------
  // The per-task loop (src/sync.ts:38-70)

  /** The error that ends a run: a list creation without a usable id, or a
      task insert that failed. */
  datatype SyncError = CreateListFailed(title: string) | InsertFailed(listId: string, title: string)

  /** What handling one desired task did: its calls, the new `listIds`, and
      the error that ended the run, if any. */
  datatype Step = Step(calls: seq<Call>, listIds: map<string, string>, failure: Option<SyncError>)

  /** The state after a sequence of desired tasks: the whole log, `listIds`,
      the error that ended the run, and each handled task's calls in order. */
  datatype Progress = Progress(log: seq<Call>, listIds: map<string, string>, failure: Option<SyncError>, steps: seq<seq<Call>>)

  /** The create-or-skip decision: a task is skipped exactly when `tasks`
      has an entry for its list id holding its effective title. */
  predicate AlreadyExists(tasks: map<string, set<string>>, listId: string, title: string) {
    listId in tasks && title in tasks[listId]
  }

  /** The insert request for a desired task. */
  function Body<D>(toIso: D -> string, task: DesiredTask<D>): TaskBody {
    TaskBody(EffectiveTitle(task), toIso(task.date), task.notes)
  }

  /** The insert-or-skip decision for `listId`, with `log` the calls made
      before it: no call when the effective title is already there, one
      insert otherwise, which ends the run when it fails. */
  function InsertStep<D>(svc: Service, toIso: D -> string, tasks: map<string, set<string>>, log: seq<Call>,
                         listIds: map<string, string>, listId: string, task: DesiredTask<D>): (r: Step)
    ensures r.listIds == listIds && |r.calls| <= 1
    ensures r.calls == [] <==> AlreadyExists(tasks, listId, EffectiveTitle(task))
    ensures r.calls == [] ==> r.failure.None?
    ensures r.calls != [] ==> r.calls == [InsertTask(listId, Body(toIso, task))]
    ensures r.calls != [] ==> (r.failure.None? <==> svc.insertOk(log, listId, Body(toIso, task)))
    ensures r.failure.Some? ==> r.failure == Some(InsertFailed(listId, EffectiveTitle(task)))
  {
    var title := EffectiveTitle(task);
    if AlreadyExists(tasks, listId, title) then Step([], listIds, None)
    else
      var body := Body(toIso, task);
      Step([InsertTask(listId, body)], listIds,
           if svc.insertOk(log, listId, body) then None else Some(InsertFailed(listId, title)))
  }

  /** One iteration of the second loop, with `log` the calls made before it:
      find the list id (creating the list when its title is unknown), then
      insert the task unless its title is already there. */
  function Handle<D>(svc: Service, toIso: D -> string, tasks: map<string, set<string>>, log: seq<Call>,
                     listIds: map<string, string>, task: DesiredTask<D>): (r: Step)
    ensures |r.calls| <= 2
    ensures r.failure.None? ==> task.list in r.listIds
  {
    if task.list in listIds then InsertStep(svc, toIso, tasks, log, listIds, listIds[task.list], task)
    else
      var created := InsertTaskList(task.list);
      match CheckedId(svc.listReply(log, task.list))
      case None => Step([created], listIds, Some(CreateListFailed(task.list)))
      case Some(id) =>
        var s := InsertStep(svc, toIso, tasks, log + [created], listIds[task.list := id], id, task);
        Step([created] + s.calls, s.listIds, s.failure)
  }

  /** The second loop over `data`, starting from `log` and `listIds`; the
      first failure ends it. `tasks` is never changed. A run that does not
      fail handles every desired task; one that fails ends with the task
      that failed. */
  function Run<D>(svc: Service, toIso: D -> string, tasks: map<string, set<string>>, log: seq<Call>,
                  listIds: map<string, string>, data: seq<DesiredTask<D>>): (r: Progress)
    ensures |r.steps| <= |data|
    ensures r.failure.None? ==> |r.steps| == |data|
    ensures r.failure.Some? ==> |r.steps| > 0
    decreases |data|
  {
    if data == [] then Progress(log, listIds, None, [])
    else
      var s := Handle(svc, toIso, tasks, log, listIds, data[0]);
      if s.failure.Some? then Progress(log + s.calls, s.listIds, s.failure, [s.calls])
      else
        var rest := Run(svc, toIso, tasks, log + s.calls, s.listIds, data[1..]);
        Progress(rest.log, rest.listIds, rest.failure, [s.calls] + rest.steps)
  }

  /** How a whole `syncData` ends. */
  datatype SyncOutcome<E> = Completed | ParseFailed(error: E) | GatewayFailed(cause: SyncError)

  /** The calls of a whole run and how it ends. */
  datatype Report<E> = Report(log: seq<Call>, outcome: SyncOutcome<E>)

  /** `syncData` as a function of the answers: list the task lists, read the
      desired tasks (`parsed`, the result of `parse`), fetch every list's
      tasks, then handle the desired tasks in order. */
  function ReconcileSpec<D, E>(svc: Service, toIso: D -> string, log: seq<Call>,
                               parsed: Result<seq<DesiredTask<D>>, E>): (r: Report<E>)
    ensures r.outcome.ParseFailed? <==> parsed.Failure?
    ensures parsed.Failure? ==> r.log == log + [ListTaskLists] && r.outcome.error == parsed.error
    ensures parsed.Success? ==>
              && |log| + 1 + |svc.lists| <= |r.log|
              && r.log[..|log| + 1 + |svc.lists|] == log + [ListTaskLists] + LoadCalls(svc.lists)
  {
    var listed := log + [ListTaskLists];
    match parsed
    case Failure(e) => Report(listed, ParseFailed(e))
    case Success(data) =>
      var start := listed + LoadCalls(svc.lists);
      var r := Run(svc, toIso, TaskTitles(svc.lists, svc.titles), start, ListIds(svc.lists), data);
      RunLog(svc, toIso, TaskTitles(svc.lists, svc.titles), start, ListIds(svc.lists), data);
      assert r.log[..|start|] == start;
      Report(r.log, if r.failure.Some? then GatewayFailed(r.failure.value) else Completed)
  }

  // ---------------------------------------------------------------------------
  // What every run guarantees

  /** Handling a desired task whose list title is known creates no list and
      leaves `listIds` as it is. It issues no insert exactly when the list's
      entry in `tasks` holds the effective title; otherwise it issues exactly
      one insert, with the effective title, the task's date as `due` and its
      notes, which fails exactly when the service rejects it. */
  lemma HandleKnownList<D>(svc: Service, toIso: D -> string, tasks: map<string, set<string>>, log: seq<Call>,
                           listIds: map<string, string>, task: DesiredTask<D>)
    requires task.list in listIds
    ensures var s, listId := Handle(svc, toIso, tasks, log, listIds, task), listIds[task.list];
      && s.listIds == listIds
      && (AlreadyExists(tasks, listId, EffectiveTitle(task)) ==> s.calls == [] && s.failure.None?)
      && (!AlreadyExists(tasks, listId, EffectiveTitle(task)) ==>
            && s.calls == [InsertTask(listId, TaskBody(EffectiveTitle(task), toIso(task.date), task.notes))]
            && (s.failure.None? <==> svc.insertOk(log, listId, Body(toIso, task)))
            && (s.failure.Some? ==> s.failure == Some(InsertFailed(listId, EffectiveTitle(task)))))
  {
  }

  /** Handling a desired task whose list title is unknown first creates that
      list, exactly once. Without a usable id the run fails there. Otherwise
      the new id is recorded under the title and the insert, if any, comes
      after the creation, decided as for a known list. */
  lemma HandleNewList<D>(svc: Service, toIso: D -> string, tasks: map<string, set<string>>, log: seq<Call>,
                         listIds: map<string, string>, task: DesiredTask<D>)
    requires task.list !in listIds
    ensures var s, id := Handle(svc, toIso, tasks, log, listIds, task), CheckedId(svc.listReply(log, task.list));
      && (id.None? ==> s == Step([InsertTaskList(task.list)], listIds, Some(CreateListFailed(task.list))))
      && (id.Some? ==>
            && s.listIds == listIds[task.list := id.value]
            && (AlreadyExists(tasks, id.value, EffectiveTitle(task)) ==>
                  s.calls == [InsertTaskList(task.list)] && s.failure.None?)
            && (!AlreadyExists(tasks, id.value, EffectiveTitle(task)) ==>
                  && s.calls == [InsertTaskList(task.list), InsertTask(id.value, Body(toIso, task))]
                  && (s.failure.None? <==>
                        svc.insertOk(log + [InsertTaskList(task.list)], id.value, Body(toIso, task)))
                  && (s.failure.Some? ==> s.failure == Some(InsertFailed(id.value, EffectiveTitle(task))))))
  {
  }

  /** The log of a run is the calls before it followed by each handled
      task's calls, in input order. */
  lemma {:induction false} RunLog<D>(svc: Service, toIso: D -> string, tasks: map<string, set<string>>, log: seq<Call>,
                                     listIds: map<string, string>, data: seq<DesiredTask<D>>)
    ensures var r := Run(svc, toIso, tasks, log, listIds, data);
      r.log == log + Seqs.Concat(r.steps)
    decreases |data|
  {
    if data != [] {
      var s := Handle(svc, toIso, tasks, log, listIds, data[0]);
      if s.failure.Some? {
        assert Run(svc, toIso, tasks, log, listIds, data).steps == [s.calls] + [];
        Seqs.ConcatCons(s.calls, []);
        assert s.calls + [] == s.calls;
      } else {
        RunCons(svc, toIso, tasks, log, listIds, data);
        RunLog(svc, toIso, tasks, log + s.calls, s.listIds, data[1..]);
        var rest := Run(svc, toIso, tasks, log + s.calls, s.listIds, data[1..]);
        Seqs.ConcatCons(s.calls, rest.steps);
        Seqs.AppendAssoc(log, s.calls, Seqs.Concat(rest.steps));
      }
    }
  }

  /** A run against a service that hands out a usable id for every list
      creation and accepts every insert handles every desired task. */
  lemma {:induction false} RunCompletes<D>(svc: Service, toIso: D -> string, tasks: map<string, set<string>>, log: seq<Call>,
                                           listIds: map<string, string>, data: seq<DesiredTask<D>>)
    requires forall h, t :: CheckedId(svc.listReply(h, t)).Some?
    requires forall h, id, b :: svc.insertOk(h, id, b)
    ensures Run(svc, toIso, tasks, log, listIds, data).failure.None?
    decreases |data|
  {
    if data != [] {
      var s := Handle(svc, toIso, tasks, log, listIds, data[0]);
      assert s.failure.None?;
      RunCons(svc, toIso, tasks, log, listIds, data);
      RunCompletes(svc, toIso, tasks, log + s.calls, s.listIds, data[1..]);
    }
  }

  /** A failure ends the run: desired tasks after the one that failed cause
      no call at all. */
  lemma {:induction false} RunStopsAtFailure<D>(svc: Service, toIso: D -> string, tasks: map<string, set<string>>, log: seq<Call>,
                                                listIds: map<string, string>, a: seq<DesiredTask<D>>, b: seq<DesiredTask<D>>)
    requires Run(svc, toIso, tasks, log, listIds, a).failure.Some?
    ensures Run(svc, toIso, tasks, log, listIds, a + b) == Run(svc, toIso, tasks, log, listIds, a)
    decreases |a|
  {
    assert (a + b)[0] == a[0] && (a + b)[1..] == a[1..] + b;
    var s := Handle(svc, toIso, tasks, log, listIds, a[0]);
    if s.failure.None? {
      RunStopsAtFailure(svc, toIso, tasks, log + s.calls, s.listIds, a[1..], b);
    }
  }

  /** Desired tasks are handled strictly one after another: when `a` runs
      without failure, running `a ++ b` is running `a`, then running `b` from
      the log and `listIds` that `a` left. */
  lemma {:induction false} RunAppend<D>(svc: Service, toIso: D -> string, tasks: map<string, set<string>>, log: seq<Call>,
                                        listIds: map<string, string>, a: seq<DesiredTask<D>>, b: seq<DesiredTask<D>>)
    requires Run(svc, toIso, tasks, log, listIds, a).failure.None?
    ensures var ra := Run(svc, toIso, tasks, log, listIds, a);
      var rb := Run(svc, toIso, tasks, ra.log, ra.listIds, b);
      Run(svc, toIso, tasks, log, listIds, a + b) == Progress(rb.log, rb.listIds, rb.failure, ra.steps + rb.steps)
    decreases |a|
  {
    if a == [] {
      assert a + b == b;
    } else {
      var s := Handle(svc, toIso, tasks, log, listIds, a[0]);
      var ab := a + b;
      assert ab[0] == a[0] && ab[1..] == a[1..] + b;
      RunCons(svc, toIso, tasks, log, listIds, a);
      var ra := Run(svc, toIso, tasks, log + s.calls, s.listIds, a[1..]);
      var full := Run(svc, toIso, tasks, log, listIds, a);
      assert full.log == ra.log && full.listIds == ra.listIds && full.steps == [s.calls] + ra.steps;
      RunCons(svc, toIso, tasks, log, listIds, ab);
      RunAppend(svc, toIso, tasks, log + s.calls, s.listIds, a[1..], b);
      var rb := Run(svc, toIso, tasks, ra.log, ra.listIds, b);
      Seqs.AppendAssoc([s.calls], ra.steps, rb.steps);
    }
  }

  /** A desired task that does not fail is followed by the run of the rest,
      from the log and `listIds` it left. */
  lemma RunCons<D>(svc: Service, toIso: D -> string, tasks: map<string, set<string>>, log: seq<Call>,
                   listIds: map<string, string>, data: seq<DesiredTask<D>>)
    requires data != [] && Handle(svc, toIso, tasks, log, listIds, data[0]).failure.None?
    ensures var s := Handle(svc, toIso, tasks, log, listIds, data[0]);
      var rest := Run(svc, toIso, tasks, log + s.calls, s.listIds, data[1..]);
      Run(svc, toIso, tasks, log, listIds, data) == Progress(rest.log, rest.listIds, rest.failure, [s.calls] + rest.steps)
  {
  }

  /** The first handled task's calls are what handling it does. */
  lemma RunFirst<D>(svc: Service, toIso: D -> string, tasks: map<string, set<string>>, log: seq<Call>,
                    listIds: map<string, string>, data: seq<DesiredTask<D>>)
    requires data != []
    ensures var r := Run(svc, toIso, tasks, log, listIds, data);
      r.steps != [] && r.steps[0] == Handle(svc, toIso, tasks, log, listIds, data[0]).calls
  {
  }

  /** The calls of the `k`-th desired task are what handling it does in the
      state the first `k` tasks left: every task observes all earlier ones. */
  lemma RunStep<D>(svc: Service, toIso: D -> string, tasks: map<string, set<string>>, log: seq<Call>,
                   listIds: map<string, string>, data: seq<DesiredTask<D>>, k: nat)
    requires k < |Run(svc, toIso, tasks, log, listIds, data).steps|
    ensures var before := Run(svc, toIso, tasks, log, listIds, data[..k]);
      && before.failure.None?
      && Run(svc, toIso, tasks, log, listIds, data).steps[k]
         == Handle(svc, toIso, tasks, before.log, before.listIds, data[k]).calls
  {
    var pre, post := data[..k], data[k..];
    assert pre + post == data;
    var before := Run(svc, toIso, tasks, log, listIds, pre);
    if before.failure.Some? {
      RunStopsAtFailure(svc, toIso, tasks, log, listIds, pre, post);
      assert false;
    }
    RunAppend(svc, toIso, tasks, log, listIds, pre, post);
    var rb := Run(svc, toIso, tasks, before.log, before.listIds, post);
    RunFirst(svc, toIso, tasks, before.log, before.listIds, post);
    assert post[0] == data[k];
    assert Run(svc, toIso, tasks, log, listIds, data).steps == before.steps + rb.steps;
    assert |before.steps| == k;
  }

  /** In the second loop `listIds` only grows: an entry is never removed or
      overwritten, and every new title is the list title of a desired task. */
  lemma {:induction false} RunListIdsGrow<D>(svc: Service, toIso: D -> string, tasks: map<string, set<string>>, log: seq<Call>,
                                             listIds: map<string, string>, data: seq<DesiredTask<D>>)
    ensures var r := Run(svc, toIso, tasks, log, listIds, data);
      && (forall t :: t in listIds ==> t in r.listIds && r.listIds[t] == listIds[t])
      && (forall t :: t in r.listIds ==> t in listIds || exists k :: 0 <= k < |data| && data[k].list == t)
    decreases |data|
  {
    if data != [] {
      var s := Handle(svc, toIso, tasks, log, listIds, data[0]);
      if s.failure.None? {
        RunCons(svc, toIso, tasks, log, listIds, data);
        RunListIdsGrow(svc, toIso, tasks, log + s.calls, s.listIds, data[1..]);
        var r := Run(svc, toIso, tasks, log + s.calls, s.listIds, data[1..]);
        forall t | t in r.listIds && t !in listIds
          ensures exists k :: 0 <= k < |data| && data[k].list == t
        {
          if t !in s.listIds {
            var k :| 0 <= k < |data[1..]| && data[1..][k].list == t;
            assert data[k + 1].list == t;
          } else {
            assert data[0].list == t;
          }
        }
      }
    }
  }

  /** The list-creation calls one desired task makes for `title`: none when
      the title is known, at most one otherwise, and after a successful one
      the title is known. */
  lemma HandleCreatesOnce<D>(svc: Service, toIso: D -> string, tasks: map<string, set<string>>, log: seq<Call>,
                             listIds: map<string, string>, task: DesiredTask<D>, title: string)
    ensures var s := Handle(svc, toIso, tasks, log, listIds, task);
      && Seqs.Count(s.calls, InsertTaskList(title)) <= (if title in listIds then 0 else 1)
      && (title in listIds ==> title in s.listIds)
      && (s.failure.None? && Seqs.Count(s.calls, InsertTaskList(title)) > 0 ==> title in s.listIds)
  {
    var s := Handle(svc, toIso, tasks, log, listIds, task);
    var c := InsertTaskList(title);
    if task.list in listIds {
      HandleKnownList(svc, toIso, tasks, log, listIds, task);
    } else {
      HandleNewList(svc, toIso, tasks, log, listIds, task);
      if |s.calls| == 2 {
        assert s.calls == [s.calls[0]] + [s.calls[1]];
        Seqs.CountAppend([s.calls[0]], [s.calls[1]], c);
      }
    }
  }

  /** A list title is created at most once in a run, and not at all when it
      is already known. */
  lemma {:induction false} RunCreatesListOnce<D>(svc: Service, toIso: D -> string, tasks: map<string, set<string>>, log: seq<Call>,
                                                 listIds: map<string, string>, data: seq<DesiredTask<D>>, title: string)
    ensures var r := Run(svc, toIso, tasks, log, listIds, data);
      Seqs.Count(Seqs.Concat(r.steps), InsertTaskList(title)) <= if title in listIds then 0 else 1
    decreases |data|
  {
    if data != [] {
      var s := Handle(svc, toIso, tasks, log, listIds, data[0]);
      HandleCreatesOnce(svc, toIso, tasks, log, listIds, data[0], title);
      var r := Run(svc, toIso, tasks, log, listIds, data);
      if s.failure.Some? {
        assert r.steps == [s.calls] + [];
        Seqs.ConcatCons(s.calls, []);
        assert s.calls + [] == s.calls;
      } else {
        RunCreatesListOnce(svc, toIso, tasks, log + s.calls, s.listIds, data[1..], title);
        var rest := Run(svc, toIso, tasks, log + s.calls, s.listIds, data[1..]);
        assert r.steps == [s.calls] + rest.steps;
        Seqs.ConcatCons(s.calls, rest.steps);
        Seqs.CountAppend(s.calls, Seqs.Concat(rest.steps), InsertTaskList(title));
      }
    }
  }

  /** The calls of a desired task for a list with no title set: its list's
      creation alone, or calls ending with the insert of `body`. */
  predicate CreatedOrInserted(calls: seq<Call>, title: string, body: TaskBody) {
    || calls == [InsertTaskList(title)]
    || (calls != [] && calls[|calls| - 1].InsertTask? && calls[|calls| - 1].body == body)
  }

  /** The calls one desired task for `title` makes when the ids the service
      can hand out for `title` are new to `tasks`: a creation alone, which
      then failed, or calls ending with its insert. `title` keeps an id new
      to `tasks`. */
  lemma HandleFreshList<D>(svc: Service, toIso: D -> string, tasks: map<string, set<string>>, log: seq<Call>,
                           listIds: map<string, string>, task: DesiredTask<D>, title: string)
    requires forall h :: svc.listReply(h, title).Some? ==> svc.listReply(h, title).value !in tasks
    requires title in listIds ==> listIds[title] !in tasks
    ensures var s := Handle(svc, toIso, tasks, log, listIds, task);
      && (title in s.listIds ==> s.listIds[title] !in tasks)
      && (task.list == title ==> CreatedOrInserted(s.calls, title, Body(toIso, task)))
      && (s.calls == [InsertTaskList(title)] ==> s.failure == Some(CreateListFailed(title)))
  {
    if task.list in listIds {
      HandleKnownList(svc, toIso, tasks, log, listIds, task);
    } else {
      HandleNewList(svc, toIso, tasks, log, listIds, task);
    }
  }

  /** A desired task whose calls are only the creation of `title` ends the
      run: its creation failed, whenever the ids the service hands out for
      the title are new to `tasks`. */
  lemma {:induction false} CreationAloneEndsRun<D>(svc: Service, toIso: D -> string, tasks: map<string, set<string>>,
                                                   log: seq<Call>, listIds: map<string, string>,
                                                   data: seq<DesiredTask<D>>, title: string)
    requires forall h :: svc.listReply(h, title).Some? ==> svc.listReply(h, title).value !in tasks
    requires title in listIds ==> listIds[title] !in tasks
    ensures var r := Run(svc, toIso, tasks, log, listIds, data);
      forall k :: 0 <= k < |r.steps| && r.steps[k] == [InsertTaskList(title)] ==>
        k == |r.steps| - 1 && r.failure == Some(CreateListFailed(title))
    decreases |data|
  {
    if data != [] {
      var s := Handle(svc, toIso, tasks, log, listIds, data[0]);
      HandleFreshList(svc, toIso, tasks, log, listIds, data[0], title);
      var r := Run(svc, toIso, tasks, log, listIds, data);
      if s.failure.Some? {
        assert r == Progress(log + s.calls, s.listIds, s.failure, [s.calls]);
      } else {
        RunCons(svc, toIso, tasks, log, listIds, data);
        CreationAloneEndsRun(svc, toIso, tasks, log + s.calls, s.listIds, data[1..], title);
        var rest := Run(svc, toIso, tasks, log + s.calls, s.listIds, data[1..]);
        forall k | 0 <= k < |r.steps| && r.steps[k] == [InsertTaskList(title)]
          ensures k == |r.steps| - 1 && r.failure == Some(CreateListFailed(title))
        {
          if k > 0 {
            assert r.steps[k] == rest.steps[k - 1];
          }
        }
      }
    }
  }

  /** A run never records for `title` an id that already has tasks,
      whenever the ids the service hands out for the title are new to
      `tasks`. */
  lemma {:induction false} RunKeepsListFresh<D>(svc: Service, toIso: D -> string, tasks: map<string, set<string>>,
                                                log: seq<Call>, listIds: map<string, string>,
                                                data: seq<DesiredTask<D>>, title: string)
    requires forall h :: svc.listReply(h, title).Some? ==> svc.listReply(h, title).value !in tasks
    requires title in listIds ==> listIds[title] !in tasks
    ensures var r := Run(svc, toIso, tasks, log, listIds, data);
      title in r.listIds ==> r.listIds[title] !in tasks
    decreases |data|
  {
    if data != [] {
      var s := Handle(svc, toIso, tasks, log, listIds, data[0]);
      HandleFreshList(svc, toIso, tasks, log, listIds, data[0], title);
      if s.failure.None? {
        RunCons(svc, toIso, tasks, log, listIds, data);
        RunKeepsListFresh(svc, toIso, tasks, log + s.calls, s.listIds, data[1..], title);
      }
    }
  }

  /** Every desired task for `title` that the run handles either only
      creates the list or ends with its own insert, whenever the ids the
      service hands out for the title are new to `tasks`. */
  lemma FreshListTasksInserted<D>(svc: Service, toIso: D -> string, tasks: map<string, set<string>>,
                                  log: seq<Call>, listIds: map<string, string>,
                                  data: seq<DesiredTask<D>>, title: string)
    requires forall h :: svc.listReply(h, title).Some? ==> svc.listReply(h, title).value !in tasks
    requires title in listIds ==> listIds[title] !in tasks
    ensures var r := Run(svc, toIso, tasks, log, listIds, data);
      forall k :: 0 <= k < |r.steps| && data[k].list == title ==>
        CreatedOrInserted(r.steps[k], title, Body(toIso, data[k]))
  {
    var r := Run(svc, toIso, tasks, log, listIds, data);
    forall k | 0 <= k < |r.steps| && data[k].list == title
      ensures CreatedOrInserted(r.steps[k], title, Body(toIso, data[k]))
    {
      RunStep(svc, toIso, tasks, log, listIds, data, k);
      var before := Run(svc, toIso, tasks, log, listIds, data[..k]);
      RunKeepsListFresh(svc, toIso, tasks, log, listIds, data[..k], title);
      HandleFreshList(svc, toIso, tasks, before.log, before.listIds, data[k], title);
    }
  }

  /** Because the second loop never adds to `tasks`, a list created in this
      run has no title set: every desired task that targets it issues its
      insert, repeated titles included. The only exception is a creation
      that failed, which is then the last handled task and the run's error.
      This holds whenever the ids the service hands out for the title are new
      to `tasks`. */
  lemma CreatedListTasksAllInserted<D>(svc: Service, toIso: D -> string, tasks: map<string, set<string>>,
                                       log: seq<Call>, listIds: map<string, string>,
                                       data: seq<DesiredTask<D>>, title: string)
    requires forall h :: svc.listReply(h, title).Some? ==> svc.listReply(h, title).value !in tasks
    requires title in listIds ==> listIds[title] !in tasks
    ensures var r := Run(svc, toIso, tasks, log, listIds, data);
      forall k :: 0 <= k < |r.steps| && data[k].list == title ==>
        CreatedOrInserted(r.steps[k], title, Body(toIso, data[k]))
    ensures var r := Run(svc, toIso, tasks, log, listIds, data);
      forall k :: 0 <= k < |r.steps| && r.steps[k] == [InsertTaskList(title)] ==>
        k == |r.steps| - 1 && r.failure == Some(CreateListFailed(title))
  {
    FreshListTasksInserted(svc, toIso, tasks, log, listIds, data, title);
    CreationAloneEndsRun(svc, toIso, tasks, log, listIds, data, title);
  }

  /** A failing run ends with the task that failed: the last handled task,
      in the state all earlier tasks left, produces the run's error, and its
      calls are the last ones in the log. */
  lemma RunFailsAtLast<D>(svc: Service, toIso: D -> string, tasks: map<string, set<string>>, log: seq<Call>,
                          listIds: map<string, string>, data: seq<DesiredTask<D>>)
    requires Run(svc, toIso, tasks, log, listIds, data).failure.Some?
    ensures var r := Run(svc, toIso, tasks, log, listIds, data);
      var k := |r.steps| - 1;
      var before := Run(svc, toIso, tasks, log, listIds, data[..k]);
      var s := Handle(svc, toIso, tasks, before.log, before.listIds, data[k]);
      && before.failure.None?
      && s.failure.Some?
      && r == Progress(before.log + s.calls, s.listIds, s.failure, before.steps + [s.calls])
  {
    var r := Run(svc, toIso, tasks, log, listIds, data);
    var k := |r.steps| - 1;
    var pre, post := data[..k], data[k..];
    assert pre + post == data;
    RunStep(svc, toIso, tasks, log, listIds, data, k);
    var before := Run(svc, toIso, tasks, log, listIds, pre);
    RunAppend(svc, toIso, tasks, log, listIds, pre, post);
    var rb := Run(svc, toIso, tasks, before.log, before.listIds, post);
    assert r == Progress(rb.log, rb.listIds, rb.failure, before.steps + rb.steps);
    assert |before.steps| == k && |rb.steps| == 1;
    assert post[0] == data[k];
    RunLastFails(svc, toIso, tasks, before.log, before.listIds, post);
  }

  /** A failing run that handled a single task failed on its first one. */
  lemma RunLastFails<D>(svc: Service, toIso: D -> string, tasks: map<string, set<string>>, log: seq<Call>,
                        listIds: map<string, string>, data: seq<DesiredTask<D>>)
    requires data != []
    requires Run(svc, toIso, tasks, log, listIds, data).failure.Some?
    requires |Run(svc, toIso, tasks, log, listIds, data).steps| == 1
    ensures var s := Handle(svc, toIso, tasks, log, listIds, data[0]);
      && s.failure.Some?
      && Run(svc, toIso, tasks, log, listIds, data) == Progress(log + s.calls, s.listIds, s.failure, [s.calls])
  {
  }

  /** A desired task whose list title was known when the run started, and
      whose effective title is in that list's title set, causes no call,
      wherever it stands in the input. */
  lemma RunSkipsExisting<D>(svc: Service, toIso: D -> string, tasks: map<string, set<string>>, log: seq<Call>,
                            listIds: map<string, string>, data: seq<DesiredTask<D>>, k: nat)
    requires k < |Run(svc, toIso, tasks, log, listIds, data).steps|
    requires data[k].list in listIds && AlreadyExists(tasks, listIds[data[k].list], EffectiveTitle(data[k]))
    ensures Run(svc, toIso, tasks, log, listIds, data).steps[k] == []
  {
    RunStep(svc, toIso, tasks, log, listIds, data, k);
    RunListIdsGrow(svc, toIso, tasks, log, listIds, data[..k]);
    var before := Run(svc, toIso, tasks, log, listIds, data[..k]);
    HandleKnownList(svc, toIso, tasks, before.log, before.listIds, data[k]);
  }

  /** Re-running a sync does not duplicate: a desired task whose list is
      among the remote lists (the last one with that title) and whose
      effective title `getTasks` returned for it makes no call. */
  lemma ReconcileSkipsExisting<D>(svc: Service, toIso: D -> string, log: seq<Call>,
                                  data: seq<DesiredTask<D>>, k: nat)
    requires k < |data| && data[k].list in ListIds(svc.lists)
    requires EffectiveTitle(data[k]) in svc.titles(ListIds(svc.lists)[data[k].list])
    ensures var r := Run(svc, toIso, TaskTitles(svc.lists, svc.titles), log + [ListTaskLists] + LoadCalls(svc.lists),
                         ListIds(svc.lists), data);
      k < |r.steps| ==> r.steps[k] == []
  {
    var r := Run(svc, toIso, TaskTitles(svc.lists, svc.titles), log + [ListTaskLists] + LoadCalls(svc.lists),
                 ListIds(svc.lists), data);
    if k < |r.steps| {
      var id := ListIds(svc.lists)[data[k].list];
      LoadedListsHaveTitles(svc.lists, svc.titles);
      TaskTitlesExact(svc.lists, svc.titles, id);
      RunSkipsExisting(svc, toIso, TaskTitles(svc.lists, svc.titles), log + [ListTaskLists] + LoadCalls(svc.lists),
                       ListIds(svc.lists), data, k);
    }
  }


  // ---------------------------------------------------------------------------
  // The imperative loops

  /** The first loop (src/sync.ts:22-36): fetch each list's tasks, collect
      their titles into a set with `add`, and record the list in both tables. */
  method LoadTables(gw: Gateway, lists: seq<RemoteList>)
    returns (listIds: map<string, string>, tasks: map<string, set<string>>)
    modifies gw
    ensures gw.log == old(gw.log) + LoadCalls(lists)
    ensures listIds == ListIds(lists)
    ensures tasks == TaskTitles(lists, gw.service.titles)
  {
    listIds, tasks := map[], map[];
    for k := 0 to |lists|
      invariant gw.log == old(gw.log) + LoadCalls(lists[..k])
      invariant listIds == ListIds(lists[..k])
      invariant tasks == TaskTitles(lists[..k], gw.service.titles)
    {
      var list := lists[k];
      var existing := gw.GetTasks(list.id);
      var existingSet: set<string> := {};
      for m := 0 to |existing|
        invariant existingSet == set t | t in existing[..m]
      {
        existingSet := existingSet + {existing[m]};
      }
      assert existing[..|existing|] == existing;
      assert lists[..k + 1][..k] == lists[..k];
      assert LoadCalls(lists[..k + 1]) == LoadCalls(lists[..k]) + [ListTasks(list.id)];
      listIds := listIds[list.title := list.id];
      tasks := tasks[list.id := existingSet];
    }
    assert lists[..|lists|] == lists;
  }

  /** The insert-or-skip part of an iteration (src/sync.ts:50-69). */
  method InsertOrSkip<D>(gw: Gateway, toIso: D -> string, tasks: map<string, set<string>>,
                         listIds: map<string, string>, listId: string, task: DesiredTask<D>)
    returns (failure: Option<SyncError>)
    modifies gw
    ensures var s := InsertStep(gw.service, toIso, tasks, old(gw.log), listIds, listId, task);
      gw.log == old(gw.log) + s.calls && failure == s.failure
  {
    var title := EffectiveTitle(task);
    if listId in tasks && title in tasks[listId] {
      assert gw.log + [] == gw.log;
      return None;
    }
    var ok := gw.InsertTask(listId, TaskBody(title, toIso(task.date), task.notes));
    failure := if ok then None else Some(InsertFailed(listId, title));
  }

  /** One iteration of the second loop (src/sync.ts:39-69): the new
      `listIds` and the error that ends the run, if any. */
  method HandleTask<D>(gw: Gateway, toIso: D -> string, tasks: map<string, set<string>>,
                       listIds: map<string, string>, task: DesiredTask<D>)
    returns (ids: map<string, string>, failure: Option<SyncError>)
    modifies gw
    ensures var s := Handle(gw.service, toIso, tasks, old(gw.log), listIds, task);
      gw.log == old(gw.log) + s.calls && ids == s.listIds && failure == s.failure
  {
    ids := listIds;
    ghost var svc, start := gw.service, gw.log;
    if task.list in ids {
      assert Handle(svc, toIso, tasks, start, listIds, task)
        == InsertStep(svc, toIso, tasks, start, listIds, listIds[task.list], task);
      failure := InsertOrSkip(gw, toIso, tasks, ids, ids[task.list], task);
      return;
    }
    var id := CreateTaskList(gw, task.list);
    if id.None? {
      assert Handle(svc, toIso, tasks, start, listIds, task)
        == Step([InsertTaskList(task.list)], listIds, Some(CreateListFailed(task.list)));
      return ids, Some(CreateListFailed(task.list));
    }
    ids := ids[task.list := id.value];
    ghost var created := gw.log;
    ghost var s := InsertStep(svc, toIso, tasks, created, ids, id.value, task);
    assert Handle(svc, toIso, tasks, start, listIds, task) == Step([InsertTaskList(task.list)] + s.calls, s.listIds, s.failure);
    failure := InsertOrSkip(gw, toIso, tasks, ids, id.value, task);
    Seqs.AppendAssoc(start, [InsertTaskList(task.list)], s.calls);
  }

  /** `syncData` (src/sync.ts:7-73), with `parse` already run (`parsed`) and
      `toIso` standing for `Date.toISOString`. */
  method SyncData<D, E>(gw: Gateway, parsed: Result<seq<DesiredTask<D>>, E>, toIso: D -> string)
    returns (outcome: SyncOutcome<E>)
    modifies gw
    ensures gw.log == ReconcileSpec(gw.service, toIso, old(gw.log), parsed).log
    ensures outcome == ReconcileSpec(gw.service, toIso, old(gw.log), parsed).outcome
  {
    var lists := gw.GetTaskLists();
    if parsed.Failure? {
      return ParseFailed(parsed.error);
    }
    var data := parsed.value;
    var listIds, tasks := LoadTables(gw, lists);

    ghost var svc, start, ids0 := gw.service, gw.log, listIds;
    ghost var goal := Run(svc, toIso, tasks, start, ids0, data);
    var i := 0;
    while i < |data|
      invariant 0 <= i <= |data|
      invariant Run(svc, toIso, tasks, gw.log, listIds, data[i..]).log == goal.log
      invariant Run(svc, toIso, tasks, gw.log, listIds, data[i..]).failure == goal.failure
    {
      assert data[i..][0] == data[i] && data[i..][1..] == data[i + 1..];
      var ids, failure := HandleTask(gw, toIso, tasks, listIds, data[i]);
      listIds := ids;
      if failure.Some? {
        return GatewayFailed(failure.value);
      }
      i := i + 1;
    }
    return Completed;
  }
}
