/** Concrete runs of `syncData` against small services. */
module Scenarios {
  import opened Wrappers
  import opened Tasks
  import opened Sync

  /** An account with no lists whose service hands out "L1" for every new
      list and accepts every insert. */
  function EmptyAccount(): Service {
    Service([], (id: string) => [], (h: seq<Call>, t: string) => Some("L1"), (h: seq<Call>, l: string, b: TaskBody) => true)
  }

  /** Two identical desired tasks for a list that does not exist yet: the
      list is created once, and the task is inserted twice, because titles
      inserted during a run are not remembered. */
  lemma DuplicateTasksBothInserted()
    ensures var t := DesiredTask("Submit", "Work", 0, None, None);
      var r := ReconcileSpec<int, string>(EmptyAccount(), (d: int) => "2026-01-01", [], Success([t, t]));
      var body := TaskBody("Submit", "2026-01-01", None);
      && r.outcome == Completed
      && r.log == [ListTaskLists, InsertTaskList("Work"), InsertTask("L1", body), InsertTask("L1", body)]
  {
    var t := DesiredTask("Submit", "Work", 0, None, None);
    var svc := EmptyAccount();
    var toIso := (d: int) => "2026-01-01";
    var ids := map["Work" := "L1"];
    var body := TaskBody("Submit", "2026-01-01", None);
    var log1 := [ListTaskLists];
    var log2 := log1 + [InsertTaskList("Work"), InsertTask("L1", body)];
    var log3 := log2 + [InsertTask("L1", body)];
    assert ListIds(svc.lists) == map[] && TaskTitles(svc.lists, svc.titles) == map[];
    assert [] + [ListTaskLists] + LoadCalls(svc.lists) == log1;
    assert Handle(svc, toIso, map[], log1, map[], t)
      == Step([InsertTaskList("Work"), InsertTask("L1", body)], ids, None);
    assert Handle(svc, toIso, map[], log2, ids, t) == Step([InsertTask("L1", body)], ids, None);
    assert [t][1..] == [];
    assert Run(svc, toIso, map[], log2, ids, [t]) == Progress(log3, ids, None, [[InsertTask("L1", body)]]);
    assert [t, t][0] == t && [t, t][1..] == [t];
    assert Run(svc, toIso, map[], log1, map[], [t, t]).log == log3;
    assert Run(svc, toIso, map[], log1, map[], [t, t]).failure == None;
    assert log3 == [ListTaskLists, InsertTaskList("Work"), InsertTask("L1", body), InsertTask("L1", body)];
  }

  /** An account holding the list "Report" (id "R") with the task
      "Report - Submit" already in it. */
  function ReportAccount(): Service {
    Service([RemoteList("R", "Report")],
            (id: string) => if id == "R" then ["Report - Submit"] else [],
            (h: seq<Call>, t: string) => None,
            (h: seq<Call>, l: string, b: TaskBody) => true)
  }

  /** Syncing a desired task whose prefixed title is already in its list
      makes no call after the loading ones. */
  lemma ExistingTaskNotInserted()
    ensures var t := DesiredTask("Submit", "Report", 0, None, Some("Report"));
      var r := ReconcileSpec<int, string>(ReportAccount(), (d: int) => "2026-01-01", [], Success([t]));
      r.outcome == Completed && r.log == [ListTaskLists, ListTasks("R")]
  {
    var t := DesiredTask("Submit", "Report", 0, None, Some("Report"));
    var svc := ReportAccount();
    assert EffectiveTitle(t) == "Report - Submit";
    assert ListIds(svc.lists) == map["Report" := "R"];
    assert svc.lists[..0] == [];
    assert "Report - Submit" in (set x | x in svc.titles("R"));
    assert AlreadyExists(TaskTitles(svc.lists, svc.titles), "R", EffectiveTitle(t));
  }
}
