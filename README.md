# Task list store, verified model

A Dafny model of the state logic of a single-page task tracker. Users keep a
list of tasks, each in one of five fixed categories. They can create, edit,
complete and delete tasks. The page shows a count per category and the list
in display order: incomplete tasks first, newest first within each group.

The model covers:

- the data model (`types.dfy`, module `Types`): the closed `Category` enum,
  its string values, and the `Task` record;
- the store (`store.dfy`, module `Store`): `addTask` (both the create path
  and the edit path), `toggleTask` and `deleteTask`. Each is a copy-on-write
  function from the old list to the new one. There are lemmas for the
  invariant on ids and categories;
- the per-category tally (`stats.dfy`, module `Stats`): `categoryStats` as a
  method whose two loops fill a dictionary, proved equal to a counting
  specification;
- the display order (`display.dfy`, module `Display`): the comparator and
  `sortedTasks`. The list is copied into a fresh array and sorted in place by
  a stable insertion sort. The sort is proved equal to a functional
  insertion sort, which is sorted, a permutation and stable;
- the submit guard of the add/edit dialog (`modal.dfy`, module `Modal`):
  JavaScript `trim` and the blank-title check in front of `addTask`;
- the application as a whole (`app.dfy`, module `App`): the seed list
  `INITIAL_TASKS`, the invariant that every reachable list keeps, and the two
  derivations evaluated on the seed.

The id generator (`Date.now` plus `Math.random`) and the clock are not
modelled. Their values are parameters: `freshId` for the new id and `now`
(or `t1`..`t4` for the seed) for `createdAt`. Properties that depend on the
new id being unused take `FreshId(tasks, freshId)` as a precondition.

`Task.category` holds the enum's string value, not a `Category`. The list is
read back from storage with `JSON.parse` and is never type-checked, so a
stored task can carry any string. The tally's guard
(`if (stats[task.category])`) exists for exactly that case. While every
stored category is valid, the create and edit paths only ever store
`Value(c)` for some `Category` `c`.

Details of the code that the model keeps:

- Blank titles are refused only by the dialog (components/AddTaskModal.tsx:31).
  `addTask` itself accepts any title. The model keeps the guard in
  `Modal.Submit`, separate from `Store.AddTask`.
- Editing an id that is not in the list is a silent no-op. This is not a
  separate check: the `map` simply matches nothing (`Store.EditUnmatched`).
- `addTask` chooses between edit and create by truthiness (`if (id)`). So an
  empty-string id takes the create path (`Store.EmptyIdCreates`).
- Loading has no `try`/`catch`. A stored value that does not parse throws; it
  does not fall back to the seed list.

## Model

| member | source | states |
|---|---|---|
| Types.Value | types.ts:2-6 | each member's string value is one of the five strings "Business", "School", "Personal", "Work", "Health", and never empty |
| Types.Parse | types.ts:1-7 | a string maps to an enum member only if that member's value is that string |
| Types.CategoryValues | types.ts:1-7 | the enum has exactly five distinct string values, one for each member, and each parses back to a member |
| Types.ParseValue | types.ts:2-6 | parsing a member's string value gives back that member |
| Types.ValueInjective | types.ts:2-6 | two categories are equal exactly when their string values are equal |
| Types.AllCategoriesEnumerates | types.ts:1-7 | the iteration order Business, School, Personal, Work, Health has five entries, lists every member, and repeats none |
| Store.Create | App.tsx:38-47 | create gives one more task: at index 0 the fresh id, the given title and category, not completed, created at `now`; the old list follows unchanged and in order |
| Store.Edit | App.tsx:35-37 | edit keeps length and order; tasks with id `k` get the new title and category and keep id, completed and createdAt; all other tasks are unchanged |
| Store.EditUnmatched | App.tsx:37 | editing an id that no task has returns the list unchanged |
| Store.Truthy | App.tsx:35 | an optional id is truthy exactly when it is neither `undefined` nor the empty string |
| Store.AddTask | App.tsx:34-49 | a truthy id gives exactly the edit of that id (same length, same set of ids); any other id gives exactly the create with the fresh id and `now`, which prepends one task to the unchanged list |
| Store.EmptyIdCreates | App.tsx:35 | an empty-string id is falsy, so `addTask` creates a task instead of editing |
| Store.Toggle | App.tsx:51-53 | toggle keeps length, order, ids, titles, categories and timestamps, and negates `completed` on exactly the tasks with id `k` |
| Store.ToggleInvolution | App.tsx:51-53 | toggling the same id twice gives back the original list |
| Store.Delete | App.tsx:55-57 | delete removes exactly the tasks with id `k`: the length drops by their number, no remaining task has id `k`, and every other task keeps its multiplicity |
| Store.DeleteSubsequence | App.tsx:56 | what delete keeps stays in its original order |
| Store.DeleteUnmatched | App.tsx:55-57 | deleting an id that no task has returns the list unchanged |
| Store.DeleteIdempotent | App.tsx:55-57 | deleting the same id twice gives the same list as deleting it once |
| Store.DeleteRemovesOne | App.tsx:55-57 | when ids are unique, deleting a present id shortens the list by exactly one |
| Store.CreateValid | App.tsx:30-47 | creating with a fresh non-empty id keeps ids unique and non-empty and categories valid |
| Store.EditValid | App.tsx:35-37 | editing keeps ids unique and non-empty and categories valid |
| Store.ToggleValid | App.tsx:51-53 | toggling keeps ids unique and non-empty and categories valid |
| Store.DeleteValid | App.tsx:55-57 | deleting keeps ids unique and non-empty and categories valid |
| Stats.CategoryStats | App.tsx:70-87 | the returned dictionary has exactly the five category values as keys, and each entry holds that category's number of tasks and of completed tasks; tasks with other categories are not counted |
| Stats.TallyStep | App.tsx:79-84 | counting one more task bumps the count, and the completed count if the task is done, of its category's entry only, and leaves the dictionary unchanged when the category has no entry |
| Stats.HitsAll | App.tsx:74-76 | each valid category value is initialised exactly once, and no other string gets an entry |
| Stats.CompletedAtMostCount | App.tsx:79-84 | in every category the completed count is at most the count |
| Stats.CountsSum | App.tsx:79-84 | the five counts add up to the number of tasks whose category is valid, so tasks with invalid categories are skipped |
| Stats.CountsSumToLength | App.tsx:79-84 | when every category is valid, the counts add up to the length of the list |
| Display.Compare | App.tsx:91-94 | the comparator returns 0 exactly for equal status and equal `createdAt`, and a negative value exactly when the first task is incomplete and the second is completed, or when both have the same status and the first is newer |
| Display.CompareAntisymmetric | App.tsx:91-94 | `cmp(a, b) == -cmp(b, a)` |
| Display.CompareTransitive | App.tsx:91-94 | "goes no later than" is transitive, so the comparator is a consistent total preorder |
| Display.SortedGroups | App.tsx:89-95 | in a sorted list every incomplete task comes before every completed one, and within each group `createdAt` does not increase |
| Display.InsertSorted | App.tsx:91 | inserting into a sorted list keeps it sorted |
| Display.InsertPermutes | App.tsx:91 | inserting adds exactly the inserted task to the elements |
| Display.InsertTies | App.tsx:91 | an inserted task goes behind the tasks already tied with it |
| Display.DisplayOrder | App.tsx:91 | the stable sort's result has as many tasks as the list; DisplayOrderSorted, DisplayOrderPermutes and DisplayOrderStable pin it down as the one stable sort of the list |
| Display.DisplayOrderSorted | App.tsx:89-95 | the display order is sorted by the comparator |
| Display.DisplayOrderPermutes | App.tsx:89-95 | the display order is a permutation of the task list |
| Display.DisplayOrderStable | App.tsx:89-95 | tasks the comparator calls equal keep their relative order from the list |
| Display.ShiftGap | App.tsx:91 | one pass of the in-place sort moves right every trailing prefix element that goes after `x`, keeps everything else in place, and stops behind an element that does not go after `x` |
| Display.InsertStep | App.tsx:91 | one step of the in-place sort turns the prefix `a[..i+1]` into the functional insertion of `a[i]` into `a[..i]` and leaves the rest of the array alone |
| Display.SortInPlace | App.tsx:91 | sorting the array in place leaves it holding the display order of its old contents |
| Display.SortedTasks | App.tsx:90-95 | `sortedTasks` returns a sorted, stable permutation of the tasks, namely their display order; the input list is a value and is not changed |
| Display.DisplayExample | App.tsx:91-94 | tasks (incomplete, 100), (completed, 200), (incomplete, 150) display in the order 150, 100, 200 |
| Modal.TrimStart | components/AddTaskModal.tsx:31 | stripping leading whitespace gives a suffix that is empty or starts with a non-whitespace character, and everything stripped is whitespace |
| Modal.TrimEnd | components/AddTaskModal.tsx:31 | stripping trailing whitespace gives a prefix that is empty or ends with a non-whitespace character, everything stripped is whitespace, and the prefix is non-empty when the input starts with a non-whitespace character |
| Modal.Trim | components/AddTaskModal.tsx:31 | `title.trim()` is empty or starts and ends with a non-whitespace character, and it is empty exactly when the title is all whitespace |
| Modal.TrimMiddle | components/AddTaskModal.tsx:31 | `title.trim()` is a contiguous slice of the title with only whitespace before and after it |
| Modal.Submit | components/AddTaskModal.tsx:29-34 | submitting a blank title leaves the list unchanged; any other title goes to `addTask` untrimmed, with the id of the task being edited |
| Modal.SubmitKeepsTitles | components/AddTaskModal.tsx:29-34 | if no task has a blank title, none has one after a submit |
| App.InitialTasks | App.tsx:10-15 | the seed list has four tasks with ids "1" to "4", and only the first is completed |
| App.InitialTasksValid | App.tsx:10-15 | the seed list has unique non-empty ids, valid categories and non-blank titles |
| App.SubmitPreserves | App.tsx:34-49 | a submit through the dialog with a fresh id keeps the application invariant |
| App.TogglePreserves | App.tsx:51-53 | toggling keeps the application invariant |
| App.DeletePreserves | App.tsx:55-57 | deleting keeps the application invariant |
| App.InitialStats | App.tsx:70-87 | on the seed list the tally is Business 1/0, School 0/0, Personal 1/1, Work 1/0, Health 1/0 |
| App.InitialDisplay | App.tsx:89-95 | when the four seed timestamps are equal, the seed displays as tasks 2, 3, 4, then the completed task 1 |

## Left out

- Persistence: the `localStorage` read and write and `JSON.parse`/`JSON.stringify` (App.tsx:18-21, 26-28) are browser I/O and a foreign serialiser. The round trip `load(save(tasks))` is therefore not modelled.
- Id and time generation: `generateId` and `Date.now()` (App.tsx:11-14, 30-32, 45) are not modelled. Their results are the parameters `freshId`, `now` and `t1`..`t4`. Freshness of the id is an assumption (`FreshId`) of the lemmas that need it.
- React machinery: `useState`, `useEffect`, `useMemo`, the modal open and editing flags (App.tsx:23-24, 59-67) and all rendering (App.tsx:97-169) are UI glue.
- components/TaskItem.tsx is presentation only. components/CategoryCard.tsx computes a percentage with floating-point division and `Math.round`, which is display arithmetic.
- Stats.CategoryStats: a category string that names a property inherited by every JavaScript object (such as `"__proto__"` or `"constructor"`) also passes the guard. The increments then land on that inherited object and never on one of the five entries. The model skips such tasks, so the returned entries are the same.
- Store.Edit: the dialog copies the edited task's stored category into its state and saves it back unchanged (components/AddTaskModal.tsx:18-20, 32; App.tsx:37). The model's `Store.Edit` and `Modal.Submit` take a `Category`, so re-saving a task whose stored category is not one of the five values is not modelled.
- Display.Compare: `createdAt` is a JavaScript number. The model uses an unbounded integer, so `NaN`, infinities and rounding in `b.createdAt - a.createdAt` are not modelled.
- Display.SortInPlace: the engine's own sorting algorithm is not specified. The model uses a stable insertion sort. A stable sort by this comparator has only one possible result, so this fixes the result only, not the steps.
