/** The remote task service as the reconciliation loop of src/sync.ts sees it
    (the wrappers of src/tasks.ts and the `service.tasks.insert` call). The
    service is abstract: what it answers is a function of the calls made so
    far, and every call is appended to a log, so properties can speak of
    which calls happen and in what order. */
module Tasks {
  import opened Wrappers

  /** A task list as `getTaskLists` returns it. */
  datatype RemoteList = RemoteList(id: string, title: string)

  /** The request body of a task insert. */
  datatype TaskBody = TaskBody(title: string, due: string, notes: Option<string>)

  /** One call to the service. */
  datatype Call =
    | ListTaskLists
    | ListTasks(listId: string)
    | InsertTaskList(title: string)
    | InsertTask(listId: string, body: TaskBody)

  /** How the service answers:
      - `lists`: the one page of at most 100 task lists that `getTaskLists`
        requests (an absent `items` field is the empty sequence);
      - `titles`: the titles of the tasks of a list, over all pages;
      - `listReply`: the `id` of the list a `tasklists.insert` creates, given
        the calls before it; `None` when the response has no id or the call fails;
      - `insertOk`: whether a task insert succeeds, given the calls before it. */
  datatype Service = Service(
    lists: seq<RemoteList>,
    titles: string -> seq<string>,
    listReply: (seq<Call>, string) -> Option<string>,
    insertOk: (seq<Call>, string, TaskBody) -> bool)

  /** A connection to the service that records every call it makes. */
  class Gateway {
    const service: Service
    var log: seq<Call>

    constructor (service: Service)
      ensures this.service == service && log == []
    {
      this.service := service;
      log := [];
    }

    /** `getTaskLists`. */
    method GetTaskLists() returns (lists: seq<RemoteList>)
      modifies this
      ensures log == old(log) + [Call.ListTaskLists]
      ensures lists == service.lists
    {
      log := log + [Call.ListTaskLists];
      lists := service.lists;
    }

    /** `getTasks`, with all pages already joined. */
    method GetTasks(listId: string) returns (titles: seq<string>)
      modifies this
      ensures log == old(log) + [Call.ListTasks(listId)]
      ensures titles == service.titles(listId)
    {
      titles := service.titles(listId);
      log := log + [Call.ListTasks(listId)];
    }

    /** `service.tasklists.insert`: the raw `id` of the response. */
    method InsertTaskList(title: string) returns (id: Option<string>)
      modifies this
      ensures log == old(log) + [Call.InsertTaskList(title)]
      ensures id == service.listReply(old(log), title)
    {
      id := service.listReply(log, title);
      log := log + [Call.InsertTaskList(title)];
    }

    /** `service.tasks.insert`: whether it succeeded. */
    method InsertTask(listId: string, body: TaskBody) returns (ok: bool)
      modifies this
      ensures log == old(log) + [Call.InsertTask(listId, body)]
      ensures ok == service.insertOk(old(log), listId, body)
    {
      ok := service.insertOk(log, listId, body);
      log := log + [Call.InsertTask(listId, body)];
    }
  }

  /** The check of `createTaskList`: a missing or empty id is a failure
      ("Failed to create task list."); any other id is the new list's id. */
  function CheckedId(id: Option<string>): (r: Option<string>)
    ensures r.Some? <==> id.Some? && id.value != ""
    ensures r.Some? ==> r == id
  {
    if id.Some? && id.value != "" then id else None
  }

  /** `createTaskList`: creates a list titled `name` and returns its id, or
      `None` when the service gave no usable id. Exactly one call is made. */
  method CreateTaskList(gw: Gateway, name: string) returns (id: Option<string>)
    modifies gw
    ensures gw.log == old(gw.log) + [InsertTaskList(name)]
    ensures id == CheckedId(gw.service.listReply(old(gw.log), name))
  {
    var raw := gw.InsertTaskList(name);
    id := CheckedId(raw);
  }
}
