# csvtasks: the sync core in Dafny

csvtasks copies a list of desired tasks, read from a CSV file or a Google
Sheet, into Google Tasks. It creates the task lists that are missing, and it
inserts a task only when no task with the same title is already in its list.

This project models three parts of it:

- **`syncData`** (src/sync.ts) is modelled imperatively. The Google Tasks
  service becomes a `Tasks.Gateway` object that logs every call. Its answers
  are the functions held in a `Tasks.Service` value, and the answers to list
  creation and task insertion may depend on the calls made before.
  - `Sync.SyncData` is the routine itself. It is built from the first loop,
    `Sync.LoadTables`, and a second loop whose body is `Sync.HandleTask`.
  - It is proved to make exactly the calls, and to end exactly as,
    `Sync.ReconcileSpec` says. That is a function built from
    `Sync.Handle` (one desired task) and `Sync.Run` (all of them in order).
  - The lemmas state what every run guarantees: which calls happen, in what
    order, and when a run stops.
- **`getTaskSheet` and `santizeTaskSheet`** (src/google/sheets.ts) are
  modelled after the cell values have been fetched.
  - The header `forEach` is a loop, `Sheets.ReadHeaders`.
  - Mapping rows to records and filtering them are functions with lemmas.
- **The filter and date conversion of `parse`** (src/csv.ts) are modelled
  over rows that have already been read.

External behaviour is taken as parameters:

- the date parser (`parseDate`), as a function returning `Option`;
- `toISOString` (`toIso`);
- `toLocaleLowerCase` (`lower`);
- the whole Google Tasks service (`Tasks.Service`);
- the result of `parse` handed to `syncData` (`parsed`).

A thrown error is modelled as a `Failure`, and for `syncData` as an outcome:
`ParseFailed` or `GatewayFailed`.

The model follows what the code does, which differs from a lazier design:

- Every remote list's tasks are fetched before any desired task is handled.
- A list created during the run gets no entry in `tasks`.
- A title is never added to a set after its insert. So two desired tasks
  with the same title are both inserted when their list was created in this
  run (`Scenarios.DuplicateTasksBothInserted`). Same-run duplicate
  suppression is therefore not a property of this code.
- There is no dry-run mode.

## Model

| member | source | states |
|---|---|---|
| Sync.SyncData | src/sync.ts:7-73 | The calls made (in order) and the outcome are exactly those of `ReconcileSpec`. List the task lists; a parse failure ends the run there; otherwise load every list, then handle the desired tasks until the first failure. |
| Sync.LoadTables | src/sync.ts:22-36 | Issues one `getTasks` per remote list, in order. `listIds` and `tasks` end as `ListIds` and `TaskTitles` of the lists, with each title set built by `add` over the fetched titles. |
| Sync.LoadCalls | src/sync.ts:22-24 | Defines the first loop's calls: one `ListTasks` per list, for that list's id, in list order. |
| Sync.ListIds | src/sync.ts:22-36 | Defines `listIds` after the first loop: each list's title set to its id, in list order. Its properties are stated by `ListIdsLastWins`. |
| Sync.TaskTitles | src/sync.ts:22-36 | Defines `tasks` after the first loop: each list's id set to the set of titles `getTasks` returned for it, in list order. Its properties are stated by `TaskTitlesExact`. |
| Sync.ListIdsLastWins | src/sync.ts:22-36 | A title is in `listIds` exactly when some loaded list has it. It maps to the id of the last list with that title, so a later list overwrites an earlier one. |
| Sync.TaskTitlesExact | src/sync.ts:29-35 | An id is in `tasks` exactly when some loaded list has it. Its set holds exactly the titles `getTasks` returned for it. |
| Sync.LoadedListsHaveTitles | src/sync.ts:34-35 | Every id in `listIds` after loading has a title set in `tasks`. |
| Sync.HasPrefix | src/sync.ts:51 | Defines when a task has a usable prefix: the prefix is present and non-empty. |
| Sync.EffectiveTitle | src/sync.ts:50-53 | With a present, non-empty prefix the title is `prefix - name`; the name is always its suffix. The title equals the name exactly when there is no usable prefix. |
| Sync.AlreadyExists | src/sync.ts:55 | Defines the skip condition: `tasks` has an entry for the list id and that set holds the title. |
| Sync.Body | src/sync.ts:62-66 | Defines the insert request: the effective title, the ISO date as `due`, and the notes. |
| Sync.InsertStep | src/sync.ts:50-69 | The insert decision for a resolved list id. There is no call exactly when the id's title set holds the effective title, and then no failure. Otherwise there is one insert with the effective title, ISO date and notes. That insert fails exactly when the service rejects it, and the failure is `InsertFailed` for the list id and title. `listIds` is unchanged. |
| Sync.Handle | src/sync.ts:38-69 | One iteration of the second loop, as a function: at most two calls. A task that does not fail leaves its list title in `listIds`. |
| Sync.ReconcileSpec | src/sync.ts:7-73 | The whole of `syncData`, as a function. It is `ParseFailed` exactly when parsing failed, and then the log ends after listing the task lists. Otherwise the log starts with the listing and one `getTasks` per remote list, in order. |
| Sync.HandleTask | src/sync.ts:38-69 | One iteration of the second loop makes exactly the calls of `Handle`, and returns its new `listIds` and its failure. |
| Sync.InsertOrSkip | src/sync.ts:50-69 | The create-or-skip part of an iteration makes exactly the calls of `InsertStep`: none when the list's title set holds the effective title, otherwise one insert, whose rejection is the run's failure. |
| Sync.HandleKnownList | src/sync.ts:46-48 | For a known list title: no list is created and `listIds` is unchanged. There is no call exactly when the list's title set has the effective title; otherwise there is exactly one insert, carrying that title, the ISO date as `due`, and the notes. It fails, with `InsertFailed`, exactly when the service rejects it. |
| Sync.HandleNewList | src/sync.ts:40-45 | For an unknown list title, a list is created first, once. Without a usable id the run fails with `CreateListFailed`. Otherwise the id is recorded under the title, and the insert decision follows, after the creation. That insert fails, with `InsertFailed`, exactly when the service rejects it given the creation before it. |
| Sync.RunLog | src/sync.ts:38-70 | The loop's log is the earlier log followed by each handled task's calls, concatenated in input order. |
| Sync.RunStep | src/sync.ts:38-70 | The calls of the k-th task are what `Handle` does in the state the first k tasks left, and those k tasks did not fail. Each task observes all earlier ones. |
| Sync.RunAppend | src/sync.ts:38-70 | Running `a ++ b` is running `a`, then `b` from the log and `listIds` that `a` left. Steps concatenate. |
| Sync.RunStopsAtFailure | src/sync.ts:38-70 | Once a task fails (list creation without an id, or a failed insert), later desired tasks cause no call: the run on `a ++ b` equals the run on `a`. |
| Sync.Run | src/sync.ts:38-70 | A run without failure handles every desired task. A failing run handles at least one and at most all of them. |
| Sync.RunCompletes | src/sync.ts:38-70 | The converse of a failure ending the run: against a service that hands out a usable id for every creation and accepts every insert, the run handles every desired task. |
| Sync.RunFailsAtLast | src/sync.ts:38-70 | A failing run ends with the task that failed: the tasks before the last handled one succeeded, and the last one's `Handle` failed, with its calls last in the log and its failure as the run's. |
| Sync.RunListIdsGrow | src/sync.ts:40-48 | In the second loop, `listIds` only grows. No entry is removed or overwritten, and any new title is the list title of some desired task. |
| Sync.HandleCreatesOnce | src/sync.ts:40-45 | One task creates a known title zero times and an unknown one at most once. After a successful creation the title is known. |
| Sync.RunCreatesListOnce | src/sync.ts:40-47 | Across a whole run, a list title is created at most once, and never when it was already known. |
| Sync.HandleFreshList | src/sync.ts:38-69 | When the ids the service hands out for a title are new to `tasks`, a task for that title either only creates the list or ends with its own insert. Calls that only create the title mean the creation failed. The title keeps an id unknown to `tasks`. |
| Sync.RunKeepsListFresh | src/sync.ts:40-45 | Across a run, the title keeps an id unknown to `tasks`, when every id the service hands out for it is. |
| Sync.FreshListTasksInserted | src/sync.ts:38-69 | Under the same condition, every handled task for the title either only creates the list or ends with its own insert. |
| Sync.CreationAloneEndsRun | src/sync.ts:40-45 | Under the same condition, a handled task whose calls only create the title is the last one handled, and the run fails with `CreateListFailed` for the title. |
| Sync.CreatedListTasksAllInserted | src/sync.ts:38-69 | `tasks` is never updated, so every desired task targeting a list created in this run is inserted, repeated titles too. The only exception is a task whose calls only create the list: its creation failed, it is the last task handled, and the run fails with `CreateListFailed`. |
| Sync.RunSkipsExisting | src/sync.ts:55-58 | A task whose list was known at the start of the loop, and whose effective title is in that list's set, causes no call wherever it stands. |
| Sync.ReconcileSkipsExisting | src/sync.ts:22-58 | Cross-run idempotence: a desired task whose list is remote and whose effective title `getTasks` returned for that list (the last list with the title) causes no call, if the run reaches it. |
| Scenarios.DuplicateTasksBothInserted | src/sync.ts:38-69 | Two identical tasks for a new list against an empty account: one list creation, then two identical inserts, and the run completes. |
| Scenarios.ExistingTaskNotInserted | src/sync.ts:22-58 | An account holding "Report - Submit" in "Report": syncing that task (prefix "Report") makes only the two loading calls. |
| Tasks.CreateTaskList | src/tasks.ts:33-44 | Issues one list insert. It returns the id only when the reply has a non-empty id; `None` stands for the thrown error. |
| Tasks.CheckedId | src/tasks.ts:42-43 | Defines the missing-id check: the id passes exactly when it is present and non-empty, and it passes unchanged. |
| Tasks.Gateway.GetTaskLists | src/tasks.ts:46-51 | Logs a list-of-lists call and returns the service's lists. |
| Tasks.Gateway.GetTasks | src/tasks.ts:53-69 | Logs one tasks-list call for the id and returns all its task titles. |
| Tasks.Gateway.InsertTaskList | src/tasks.ts:37-41 | Logs the creation and returns the service's reply for the calls before it. |
| Tasks.Gateway.InsertTask | src/sync.ts:60-67 | Logs the insert with its list id and body, and returns whether the service accepts it given the calls before it. |
| Sheets.GetTaskSheet | src/google/sheets.ts:18-50 | Missing or empty values give `InvalidSpreadsheet`. Otherwise it fails exactly when a required column is missing, reporting the lower-cased headers in column order. On success there is one record per row after the header row, in order, each mapping its columns through the header map. |
| Sheets.ReadHeaders | src/google/sheets.ts:24-28 | The header map sends each column index to its lower-cased header and holds no other index. The header set holds exactly the lower-cased names. |
| Sheets.HasRequiredHeaders | src/google/sheets.ts:30 | Defines the `every` check: each required column name is among the headers. |
| Sheets.HeaderMap | src/google/sheets.ts:24-26 | Defines the header map that `ReadHeaders` builds: the column indices, each sent to its lower-cased header. |
| Sheets.HeaderNames | src/google/sheets.ts:31 | Defines the found headers: one per column, in order, lower-cased. |
| Sheets.ColumnKey | src/google/sheets.ts:44 | Defines the key a cell is stored under: its column's header, or "undefined" past the end of the header row. |
| Sheets.RowRecord | src/google/sheets.ts:40-48 | Defines the `reduce` over one row's columns: each cell is stored under its column's key, left to right. Its properties are stated by `RowRecordLastColumnWins`. |
| Sheets.RowRecordLastColumnWins | src/google/sheets.ts:40-48 | A record's keys are exactly its columns' keys (a header, or "undefined" past the header row). A cell lands under its column's key unless a later column has the same key, in which case the later one wins. |
| Sheets.Clean | src/google/sheets.ts:58-65 | Succeeds exactly when the date is present and parses. The result keeps every other field, carries the parsed date, and has `hide` true exactly when the record's `hide` is "TRUE". Otherwise it fails with `InvalidTaskDate` for that record. |
| Sheets.Keep | src/google/sheets.ts:57 | Defines the records `santizeTaskSheet` keeps: non-empty name and date, and `hide` not "TRUE". |
| Sheets.SanitizeTaskSheet | src/google/sheets.ts:53-67 | Defines `santizeTaskSheet`: keep, then clean each, failing at the first bad date. A success has no more tasks than records, and a failure names a kept record of the input. |
| Sheets.SanitizeSuccess | src/google/sheets.ts:56-65 | The output is exactly the kept rows: non-empty name and date, and `hide` not "TRUE". They stay in order and there are no more of them than input rows. Each keeps its other fields and its parsed date, and has `hide` false. |
| Sheets.SanitizeFailure | src/google/sheets.ts:60-63 | A failure names the first kept row whose date does not parse. |
| Sheets.SanitizeFailsIff | src/google/sheets.ts:56-63 | It fails exactly when some kept row's date does not parse. |
| Csv.DateParses | src/csv.ts:40-41 | Defines the date check: `date` is present and the parser recognises it. |
| Csv.Convert | src/csv.ts:39-50 | Succeeds exactly when `date` is present and parses. The result keeps every other field unchanged and carries the parsed date. Otherwise it fails with `InvalidDate` for that row. |
| Csv.Keep | src/csv.ts:38 | Defines the rows `parse` keeps: a non-empty name, and `hide` absent or empty. |
| Csv.Parse | src/csv.ts:37-50 | Defines `parse` on read rows: keep, then convert each, failing at the first bad date. A success has no more tasks than rows, and a failure names a kept row of the input. |
| Csv.ParseSuccess | src/csv.ts:37-50 | The output is the kept rows (non-empty name; `hide` absent or empty) in input order, taken at strictly increasing positions that are exactly the kept ones. Each has all its fields, with only `date` replaced by the parsed value. |
| Csv.ParseFailure | src/csv.ts:40-44 | A failure names the first kept row whose date does not parse. |
| Csv.ParseFailsIff | src/csv.ts:38-44 | It fails exactly when some kept row's date does not parse. A dropped row never causes a date error. |
| Csv.ParseIgnoresDropped | src/csv.ts:38-44 | Inserting a dropped row anywhere, whatever its date, leaves the result unchanged. |

## Left out

- src/auth.ts: the OAuth2 flow, token storage and the user prompt. These are interactive I/O and library calls.
- src/main.ts: the command-line wiring, the sample file and the `clean` command. It calls `syncRawData(service, data)` without a dry-run flag (src/main.ts:49) and `syncCsvData(file, auth, { dryrun })` with one (src/main.ts:51). Neither function is defined in src/sync.ts, so they are not part of this model, and `syncData` has no dry-run mode.
- src/tasks.ts file and terminal helpers (`readFile`, `writeFile`, `question`, `authorize`): I/O.
- Tasks.Gateway.GetTasks: the pagination loop of `getTasks` is not modelled. It re-requests without a page token, so the code does not guarantee termination. The gateway returns a list's titles in a single answer.
- Tasks.Gateway.GetTaskLists: a failure of `getTaskLists` or `getTasks` is not modelled; they always answer.
- Tasks.Gateway.GetTaskLists: `getTaskLists` requests one page of at most 100 lists and no page token (src/tasks.ts:49). `Service.lists` is that first page. A list beyond it is unknown to `syncData`, so a desired task for it creates the list again.
- Tasks.CreateTaskList: the network error and the missing-id error of list creation both become `None`.
- The `ora` spinner calls of src/sync.ts: they only display progress.
- chrono-node `parseDate`, `Date.toISOString` and `toLocaleLowerCase`: these are foreign and depend on locale and time, so they are parameters.
- `parseCsv` stream reading (src/csv.ts:5-17) and the Sheets `values.get` request (src/google/sheets.ts:11-16): I/O. Their results are inputs.
- Sync.SyncData: `parse(csvPath)` is the parameter `parsed`, issued after `getTaskLists` as in the code. The conversion of a parsed row (`Csv.Task`) into a `Sync.DesiredTask` is not modelled, so `Csv.Parse` and `Sync.SyncData` are not composed.
- Sync.LoadTables: the non-null assertions `list.title!`, `list.id!` and `task.title!` are taken to hold. Remote lists and tasks always have a title and an id.
- Sync.DesiredTask: the list of a desired task is a string, as the TypeScript type states. No other field type is checked at run time.
- Csv.Convert: a row without a `date` column is a date error. It corresponds to `parseDate(undefined)`, which is taken not to yield a date.
- Sheets.GetTaskSheet: cells are strings; other cell types the Sheets API could return are not modelled.
- Async scheduling: every call is awaited before the next, so the log is sequential.
- src/types.ts is represented by the datatypes only. gulpfile.js is a build script.
