# Clarity to-do app: the list component and the offline service worker

This project models the two pieces of the Clarity to-do app that hold its
behaviour, and proves properties of them.

- **The `ZenTodo` component** (`src/components/ZenTodo.jsx`). It keeps named
  lists of tasks, the currently selected list and an audit log of events. Its
  handlers are: create a list, add a task, toggle a task, delete a task, list
  the incomplete tasks of the other lists, complete one of those, and copy
  one into the current list. The component is the class `App.ZenTodo`. Its
  fields are the state React keeps: the lists, the selection, the log and the
  form inputs the handlers read and reset. Each handler is a method whose new
  state is one pure step of module `Todo`. The query over the other lists
  keeps its nested loops, with the invariants that tie them to
  `Todo.IncompleteFromOthers`.
- **The service worker** (`public/sw.js`). It caches the app shell at install,
  deletes caches of other versions at activate, and answers GET requests
  cache-first with a network fallback. The origin's CacheStorage is the
  field `caches` of the class `Worker.ClarityWorker`. It is an ordered
  sequence of named caches, because `caches.match` searches the caches in
  creation order. The three handlers are methods proved against the pure
  functions of module `Cache`.

Modules:
- `Wrappers`: `Option`.
- `Text`: JavaScript's `trim()` used as a blank test, and the decimal
  rendering of a millisecond clock reading, which is how ids are made.
- `Todo`: entities, pure handler steps, lookups, the incomplete-task query
  and the lemmas about them.
- `App`: the component class.
- `Cache`: the store operations, the three handler steps and their lemmas.
- `Worker`: the service-worker class.

Points where the code's behaviour differs from what its own wording
suggests:
- The log calls copying an incomplete task into the current list "moved
  incomplete task" (`src/components/ZenTodo.jsx:64`), but the handler only
  copies it. The list it came from keeps it unchanged
  (`Todo.RecycleCopiesNotMoves`).
- A fetched response is stored only when its status is exactly 200
  (`public/sw.js:59`), not on any other success status.
- List and task ids are not guaranteed unique. Two ids taken in the same
  millisecond collide, and no handler checks for that. Every contract is
  therefore stated for every list or task carrying the id.
- Every `logEvent` call in one handler replaces the log with the log the
  handler started from plus its own record. So a handler that logs once per
  matching list or task leaves only the last record. The log is not purely
  append-only either: loading replaces it.
- The handlers run as one atomic step each. `Date.now()` and
  `new Date().toISOString()` are a `Clock` parameter. A new id is the
  decimal rendering of the clock's millisecond reading.

## Model

| member | source | states |
|---|---|---|
| Text.TrimStart | src/components/ZenTodo.jsx:85 | leading trim removes exactly a run of JavaScript whitespace and leaves a suffix that does not start with whitespace |
| Text.TrimEnd | src/components/ZenTodo.jsx:105 | trailing trim removes exactly a run of JavaScript whitespace and leaves a prefix that does not end with whitespace |
| Text.BlankIffAllWhitespace | src/components/ZenTodo.jsx:85 | the guard `!text.trim()` holds exactly when every character is whitespace (both directions) |
| Text.TrimIdempotent | src/components/ZenTodo.jsx:105 | a property of the model of `trim()` itself, which the handlers do not rely on (each trims once and tests the result): trimming a trimmed text changes nothing |
| Text.Decimal | src/components/ZenTodo.jsx:87 | `Date.now().toString()` is a nonempty string of decimal digits with no leading zero |
| Text.DecimalRoundTrip | src/components/ZenTodo.jsx:87 | reading the id back as a number gives the clock reading |
| Text.DecimalInjective | src/components/ZenTodo.jsx:110 | distinct clock readings give distinct ids |
| Todo.Describe | src/components/ZenTodo.jsx:53-65 | each narrative is exactly its template: a list creation is its opening words and the quoted list name; a task event is its opening words, the quoted task text, " to list " (added, copied) or " from list " (completed, deleted), and the quoted list name; so every narrative opens with its kind's words and ends with the quoted list name |
| Todo.DescribeDeterminesKind | src/components/ZenTodo.jsx:53-65 | the narrative's opening words identify the event type it was logged for |
| Todo.FindList | src/components/ZenTodo.jsx:148 | `lists.find` returns a list exactly when one has the id, and it is the first such list |
| Todo.FindTask | src/components/ZenTodo.jsx:149 | `tasks.find` returns a task exactly when one has the id, and the one it returns is the first with that id |
| Todo.LastList | src/components/ZenTodo.jsx:107-119 | the list whose record survives a per-list log is present exactly when a list has the id, and is the last such list |
| Todo.LastTask | src/components/ZenTodo.jsx:130-139 | a task is found exactly when one has the id (and is incomplete where required), and the one found is the last such task, whose record is the one that survives |
| Todo.LastMention | src/components/ZenTodo.jsx:126-143 | a record survives exactly when some list with the list id holds a task with the task id (incomplete where required); it names the list name and task text of the last such pair in list-then-task order |
| Todo.FindIsLastWhenUnique | src/components/ZenTodo.jsx:148 | with unique list ids, the list `find` returns is the one the log names |
| Todo.UpdateLists | src/components/ZenTodo.jsx:107-119 | `lists.map` with an id test changes exactly the lists carrying the id, in place and in order |
| Todo.UpdateTasks | src/components/ZenTodo.jsx:130-139 | `tasks.map` with an id test changes exactly the tasks carrying the id |
| Todo.RemoveTasks | src/components/ZenTodo.jsx:155 | `filter` keeps exactly the tasks with another id, and is the identity when no task has the id |
| Todo.RemoveTasksAppend | src/components/ZenTodo.jsx:155 | the filter keeps order: it distributes over concatenation |
| Todo.ToggleLists | src/components/ZenTodo.jsx:126-143 | in lists with the list id, tasks with the task id have `completed` negated; every other task and field is unchanged |
| Todo.CompleteLists | src/components/ZenTodo.jsx:186-200 | in lists with the list id, tasks with the task id become completed; everything else is unchanged |
| Todo.DeleteFromLists | src/components/ZenTodo.jsx:151-159 | lists with the id lose their tasks with the task id; other lists are unchanged |
| Todo.AppendToLists | src/components/ZenTodo.jsx:208-220 | lists with the id gain the task at the end; other lists are unchanged |
| Todo.ToggleInvolution | src/components/ZenTodo.jsx:132 | toggling the same task twice restores the lists |
| Todo.CompleteIdempotent | src/components/ZenTodo.jsx:193 | completing twice is completing once |
| Todo.DeleteIdempotent | src/components/ZenTodo.jsx:155 | deleting the same task id again changes nothing |
| Todo.IncompleteSound | src/components/ZenTodo.jsx:167-183 | every offered item is an incomplete task of a non-current list, tagged with that list's name and id |
| Todo.IncompleteComplete | src/components/ZenTodo.jsx:167-183 | every incomplete task of a non-current list is offered |
| Todo.IncompleteMembership | src/components/ZenTodo.jsx:167-183 | an item is offered exactly when it is such a task (both directions) |
| Todo.NeverFromCurrent | src/components/ZenTodo.jsx:170-172 | nothing from the current list and nothing completed is offered |
| Todo.IncompleteOfAppend | src/components/ZenTodo.jsx:171-179 | one list's offers keep task order |
| Todo.IncompleteAppend | src/components/ZenTodo.jsx:169-181 | offers come list by list: the query distributes over concatenation of the lists |
| Todo.CreateList | src/components/ZenTodo.jsx:84-102 | a blank name is a no-op; otherwise a new empty list with the untrimmed name, the chosen recurrence and time, and the clock's id is appended and selected, and `list_created` is logged |
| Todo.CreateListSelectsNewList | src/components/ZenTodo.jsx:95 | when the new id is fresh, the list shown as current is the one just created |
| Todo.AddTaskToList | src/components/ZenTodo.jsx:104-123 | blank text or no selection is a no-op; otherwise lists with the current id gain a new incomplete task, and `task_added` is logged exactly when such a list exists, and the record names the last such list and the new text at the clock reading |
| Todo.ToggleTaskCompletion | src/components/ZenTodo.jsx:125-145 | the lists are toggled; `task_completed` is logged exactly when some matching task was incomplete, and the record names the list and text of the last such task at the clock reading; the selection is kept |
| Todo.DeleteTask | src/components/ZenTodo.jsx:147-165 | current-id lists lose the task and others are unchanged; `task_deleted` is logged exactly when the first current list has the task, and the record names that list and the text of its first task with the id |
| Todo.CompleteIncompleteTask | src/components/ZenTodo.jsx:185-202 | the matching tasks are completed; `task_completed` is logged exactly when any task matched, and the record names the list and text of the last match at the clock reading |
| Todo.AddIncompleteTaskHere | src/components/ZenTodo.jsx:204-222 | with no selection nothing happens; otherwise the current list gains a fresh incomplete copy of the text, and `task_recycled` is logged exactly when that list exists, and the record names the last current list and the copied text |
| Todo.LoadState | src/components/ZenTodo.jsx:15-29 | stored lists and events replace the in-memory ones; the first stored list is selected only when nothing is selected |
| Todo.ToggleTwiceRestoresLists | src/components/ZenTodo.jsx:125-145 | two toggles of one task restore the lists and the selection |
| Todo.CompletedIsNoLongerOffered | src/components/ZenTodo.jsx:185-202 | after completing an offered task it is no longer offered, and no task is added or removed |
| Todo.RecycleCopiesNotMoves | src/components/ZenTodo.jsx:204-222 | adding an offered task here leaves its source list untouched, still holding the task |
| Todo.CreateAddToggleScenario | src/components/ZenTodo.jsx:84-145 | from a fresh app, create, add and toggle give one list holding one completed task and a three-event log naming the list |
| App.ZenTodo.constructor | src/components/ZenTodo.jsx:4-11 | the initial state: no lists, no selection, empty log, empty form, recurrence `none` at `06:00` |
| App.ZenTodo.Load | src/components/ZenTodo.jsx:15-29 | the mount-time load is the step `Todo.LoadState` |
| App.ZenTodo.SelectList | src/components/ZenTodo.jsx:324 | clicking a list selects it |
| App.ZenTodo.CreateList | src/components/ZenTodo.jsx:84-102 | the handler is the step `Todo.CreateList` and resets the form only when the name was not blank |
| App.ZenTodo.AddTaskToList | src/components/ZenTodo.jsx:104-123 | the handler is the step `Todo.AddTaskToList` and clears the text only when the guard passed |
| App.ZenTodo.ToggleTaskCompletion | src/components/ZenTodo.jsx:125-145 | the handler is the step `Todo.ToggleTaskCompletion` |
| App.ZenTodo.DeleteTask | src/components/ZenTodo.jsx:147-165 | the handler is the step `Todo.DeleteTask` |
| App.ZenTodo.IncompleteTasksFromOtherLists | src/components/ZenTodo.jsx:167-183 | the nested loops return exactly `Todo.IncompleteFromOthers`, so nothing from the current list and nothing completed |
| App.ZenTodo.CompleteIncompleteTask | src/components/ZenTodo.jsx:185-202 | the handler is the step `Todo.CompleteIncompleteTask` |
| App.ZenTodo.AddIncompleteTaskHere | src/components/ZenTodo.jsx:204-222 | the handler is the step `Todo.AddIncompleteTaskHere` |
| Cache.Match | public/sw.js:49 | `caches.match` finds a response exactly when some cache holds the key, and it is the entry of the first such cache |
| Cache.Open | public/sw.js:14 | `caches.open` makes the cache exist, appending an empty one only when it was missing, and keeps names distinct |
| Cache.SetEntry | public/sw.js:66 | `cache.put` sets the key in the caches of that name and changes nothing else |
| Cache.Filter | public/sw.js:28-36 | the kept caches are exactly those passing the test |
| Cache.FilterAppend | public/sw.js:28-36 | deleting caches keeps the survivors in their creation order: filtering distributes over concatenation |
| Cache.FilterPreservesDistinct | public/sw.js:28-36 | deleting caches keeps names distinct |
| Cache.FilterFilter | public/sw.js:30-33 | successive deletions compose into one filter |
| Cache.AddedFirst | public/sw.js:16 | `addAll` stores the same entries whether added all at once or first URL then the rest |
| Cache.PutAll | public/sw.js:16 | a successful `addAll` gives every cache of that name exactly the fetched entries, keeping names |
| Cache.Install | public/sw.js:12-23 | the whole store after install: every existing cache keeps its name and position; when `addAll` succeeds the `clarity-v1` caches gain exactly the three shell entries (each replacing any earlier entry for its URL) and keep their other entries, and every other cache keeps its entries; when it rejects nothing is stored; a `clarity-v1` cache is appended (empty, or holding just the shell) only when none existed, and no other cache is added; distinct names stay distinct |
| Cache.InstallKeepsOtherCaches | public/sw.js:12-23 | install removes no cache and changes no cache of another name |
| Cache.InstallRejectedStoresNothing | public/sw.js:16-18 | when `addAll` rejects, no entry is stored anywhere |
| Cache.InstallStoresShell | public/sw.js:5-9 | after a successful install the versioned cache maps each shell URL to its fetched response |
| Cache.Activate | public/sw.js:26-39 | after activate exactly the caches named `clarity-v1` remain, names still distinct |
| Cache.ActivateIdempotent | public/sw.js:26-39 | activating twice is activating once |
| Cache.DeleteNextName | public/sw.js:30-33 | one loop step deletes the next listed name unless it is the current version's |
| Cache.DeletedAllNames | public/sw.js:28-36 | deleting every listed name other than `clarity-v1` leaves exactly the activate result |
| Cache.HandleFetch | public/sw.js:42-83 | non-GET requests are not handled; a hit is served as is; a miss returns the network response and stores it only when cacheable; a network failure falls back to the cached offline page |
| Cache.FetchNeverRemoves | public/sw.js:42-83 | a fetch never removes or replaces an entry and keeps names distinct |
| Cache.MatchAfterOpen | public/sw.js:65 | opening a cache changes no lookup |
| Cache.MatchOtherKey | public/sw.js:66 | storing a key leaves other keys' lookups unchanged |
| Cache.MatchNewKey | public/sw.js:65-66 | a key no cache held resolves to the stored response |
| Cache.MissStoresOnlyCacheable | public/sw.js:56-69 | after a miss the request is found exactly when the response was cacheable, and no other lookup changes |
| Cache.StoredResponseIsServed | public/sw.js:49-69 | once stored, a response is served on every later request whatever the network does |
| Cache.OfflineFallback | public/sw.js:71-79 | a network failure is answered with the cached offline page or nothing; the second lookup cannot hit |
| Cache.ActivatedServesShell | public/sw.js:12-39 | after a successful install and an activate, each shell URL resolves to its installed response |
| Cache.ShellServedOfflineAfterInstall | public/sw.js:12-83 | after install and activate each shell URL is served from the cache even when the network fails |
| Worker.ClarityWorker.constructor | public/sw.js:1-9 | the worker starts on the caches the origin already holds |
| Worker.ClarityWorker.Install | public/sw.js:12-23 | the install handler's new store is `Cache.Install` of the old one |
| Worker.ClarityWorker.Activate | public/sw.js:26-39 | the deletion loop over the listed names leaves exactly `Cache.Activate` of the old store |
| Worker.ClarityWorker.Fetch | public/sw.js:42-83 | the fetch handler's answer and new store are `Cache.HandleFetch` of the old store |

## Left out

- Persistence: reading and writing `localStorage` and JSON parsing are left out. `Load` receives the already-parsed stored values, and the save effects are not modelled.
- Rendering, styling, the sidebar layout and the form `onChange` setters are not modelled; only the values the handlers read are fields.
- Service-worker registration, the install prompt and `handleDownload` are browser I/O and are left out.
- `self.skipWaiting()` and `self.clients.claim()` change which worker controls pages, not the caches, so they are left out.
- The `put` in the fetch handler is not awaited. The model stores it before the next request is handled and does not model interleaving requests.
- `response.clone()` is the identity. Cache keys are the request URL: query strings, `Vary` and URL resolution are not modelled.
- The handler's `!response` test is dropped, because `fetch` resolves to a response or rejects; it never resolves to nothing.
- Each handler takes one clock reading and uses it for every id and timestamp it makes. The source reads `Date.now()` and `new Date().toISOString()` separately (`src/components/ZenTodo.jsx:87` and `:91` when a list is made, `:110` and `:113` when a task is added, `:211` and `:214` when one is copied, and `:68` and `:71` again for every logged record), so its readings within one handler can differ by a millisecond or more; the model does not capture that.
- React's batching is modelled only as far as the log goes: each handler is one atomic step, and only the last record it logs survives.
- Undo, tags, due dates, editing and export belong to other variants of the app. They are not part of this model, and neither is `capacitor.config.ts`.
- Todo.LoadState: a stored blob whose JSON is malformed throws in the source; the model receives only parsed values.
