# Todo-list state store and view, in Dafny

This project models the logic of a browser todo-list widget. The widget keeps an ordered list of items, each with text, a completion flag and an id, plus a three-valued filter (`All`, `Completed`, `Active`). A pure reducer maps a state and an action to the next state. The actions are:

- add an item;
- toggle the items with an id;
- delete the items with an id;
- clear the completed items;
- set the filter.

Two views are derived from the state. The *shown list* holds the items that pass the filter. The *items-left* count is the number of not-completed items in the shown list.

Files:

- `sequences.dfy` (module `Sequences`): the array operations the source is built on, on immutable sequences. `Filter` and `Map` behave like JavaScript's `Array.prototype.filter` and `Array.prototype.map`. `Count` is an independent count of matching elements. `SubsequenceOf` is the relation "obtained by deleting elements, order kept". The lemmas cover filters in general: length, order, idempotence, the complement split, and that a filter is the unique longest subsequence of passing elements.
- `todo_reducer.dfy` (module `TodoReducer`): the records `Todo`, `State` and `Action`, the reducer `Reduce`, one group of lemmas per action, and the id-uniqueness invariant.
- `todo_view.dfy` (module `TodoView`): `Shown`, `ItemsLeft`, their lemmas, and a worked session.

The reducer never assumes ids are unique; only the rendering's `key={todo.id}` (line 138) does. Toggle (src/components/reactToDoList.tsx:39) and Delete (:47) act on every item whose id matches, so lengths change by the number of matching items; `DeleteUniqueRemovesOne` gives minus one when ids are unique. Add (:33) appends the item its caller built.

## Model

| member | source | states |
|---|---|---|
| Sequences.Filter | src/components/reactToDoList.tsx:47 | the result is no longer than the input; every element of the result is in the input and passes the predicate; every passing input element is in the result |
| Sequences.Map | src/components/reactToDoList.tsx:38-42 | same length as the input, and position i holds f applied to input position i |
| Sequences.Count | src/components/reactToDoList.tsx:192 | the count of passing elements is at most the length |
| Sequences.FilterLength | src/components/reactToDoList.tsx:192 | a filter's length equals the independent count of passing elements (the `.filter(...).length` idiom) |
| Sequences.FilterIsSubsequence | src/components/reactToDoList.tsx:47 | a filter's result is a subsequence of its input, so order is preserved |
| Sequences.FilterConcat | src/components/reactToDoList.tsx:52 | filtering a concatenation gives the concatenation of the filtered parts |
| Sequences.FilterKeepsAll | src/components/reactToDoList.tsx:52 | a filter returns its input unchanged if and only if every element passes |
| Sequences.FilterDropsAll | src/components/reactToDoList.tsx:75-85 | a filter returns the empty sequence if and only if no element passes |
| Sequences.FilterIdempotent | src/components/reactToDoList.tsx:52 | filtering twice with one predicate gives the same result as filtering once |
| Sequences.CountComplement | src/components/reactToDoList.tsx:75-85 | for complementary predicates, the two counts sum to the length |
| Sequences.CountSame | src/components/reactToDoList.tsx:79-80 | counts under two predicates that agree on every element are equal (used to line up the `Active` branch with `IsActive`) |
| Sequences.CountZero | src/components/reactToDoList.tsx:192 | the count is zero if and only if no element passes |
| Sequences.FilterStep | src/components/reactToDoList.tsx:47 | one step of a filter: the first element is kept exactly when it passes, and the rest is filtered (stated on multisets) |
| Sequences.FilterPartition | src/components/reactToDoList.tsx:75-85 | for complementary predicates, the two filters' multisets add up to the input's multiset |
| Sequences.FilterIsLargestSubsequence | src/components/reactToDoList.tsx:47 | any subsequence made only of passing elements is at most as long as the filter, and one of equal length is the filter itself |
| TodoReducer.Reduce | src/components/reactToDoList.tsx:28-62 | SetFilter replaces the filter and keeps the items; every other action keeps the filter (the state spread); Add grows the list by one; Toggle keeps its length; Delete and ClearCompleted never grow it |
| TodoReducer.AddAppends | src/components/reactToDoList.tsx:30-34 | the old items are an unchanged prefix, the payload is the new last item, and the filter is unchanged |
| TodoReducer.ToggleFlipsMatching | src/components/reactToDoList.tsx:35-43 | length is kept; at every position the id and text are kept, and the flag flips exactly when the id equals the payload's id |
| TodoReducer.ToggleNoopIff | src/components/reactToDoList.tsx:35-43 | Toggle's result equals the input state if and only if no item has the payload's id |
| TodoReducer.ToggleTwice | src/components/reactToDoList.tsx:38-42 | toggling the same id twice restores the original state exactly |
| TodoReducer.DeleteRemovesId | src/components/reactToDoList.tsx:44-48 | the result is a subsequence of the items; no item in it has the id; every item with another id is kept; the length drops by the number of items with the id |
| TodoReducer.DeleteIsLargest | src/components/reactToDoList.tsx:44-48 | no subsequence of id-free items is longer than Delete's result, and one of equal length is that result |
| TodoReducer.DeleteNoopIff | src/components/reactToDoList.tsx:44-48 | Delete's result equals the input state if and only if no item has the id |
| TodoReducer.DeleteIdempotent | src/components/reactToDoList.tsx:44-48 | deleting the same id again is a no-op |
| TodoReducer.ClearRemovesCompleted | src/components/reactToDoList.tsx:49-53 | the result is a subsequence; no item in it is completed; every active item is kept; the length drops by the number of completed items |
| TodoReducer.ClearIsLargest | src/components/reactToDoList.tsx:49-53 | no subsequence of active items is longer than ClearCompleted's result, and one of equal length is that result |
| TodoReducer.ClearNoopIff | src/components/reactToDoList.tsx:49-53 | ClearCompleted's result equals the input state if and only if no item is completed |
| TodoReducer.ClearIdempotent | src/components/reactToDoList.tsx:49-53 | clearing a second time is a no-op |
| TodoReducer.ClearAfterAdd | src/components/reactToDoList.tsx:30-53 | clearing after an add gives the cleared old items, followed by the new item only if it is not completed |
| TodoReducer.UniqueIdsTail | src/components/reactToDoList.tsx:44-53 | without its first item a list with unique ids still has unique ids, and no later item shares the first one's id |
| TodoReducer.UniqueIdsCons | src/components/reactToDoList.tsx:44-53 | putting an item with an unused id in front of a list with unique ids keeps them unique |
| TodoReducer.FilterKeepsUniqueIds | src/components/reactToDoList.tsx:44-53 | filtering a list with unique ids gives a list with unique ids |
| TodoReducer.ReducePreservesUniqueIds | src/components/reactToDoList.tsx:28-62 | every action keeps ids unique, provided an added item's id is not already used (as the fresh id chosen at line 90 is meant to ensure) |
| TodoReducer.UniqueIdsCountAtMostOne | src/components/reactToDoList.tsx:44-48 | with unique ids, at most one item has a given id, and exactly one if and only if the id is present |
| TodoReducer.DeleteUniqueRemovesOne | src/components/reactToDoList.tsx:44-48 | with unique ids, Delete shortens the list by one when the id is present and by zero when it is absent |
| TodoView.Shown | src/components/reactToDoList.tsx:75-85 | the shown list is no longer than the items; every shown item is an item that passes the filter; every passing item is shown |
| TodoView.ItemsLeft | src/components/reactToDoList.tsx:191-193 | at most the shown length; 0 under `Completed`; the shown length under `Active`; the count of active items in the whole list under `All` and `Active` |
| TodoView.ShownIsSubsequence | src/components/reactToDoList.tsx:75-85 | the shown list is a subsequence of the items, so order is preserved |
| TodoView.ShownAll | src/components/reactToDoList.tsx:81-83 | under `All` the shown list is the item list itself |
| TodoView.ShownCount | src/components/reactToDoList.tsx:75-85 | the shown length is the number of items that pass the filter; under `Active` it is the number of not-completed items |
| TodoView.CompletedAndActivePartition | src/components/reactToDoList.tsx:75-85 | the `Completed` and `Active` lengths add up to the full length, and their multisets add up to the items' multiset |
| TodoView.ItemsLeftIgnoresHiddenActive | src/components/reactToDoList.tsx:145-147 | under `Completed` the count is 0 even when active items exist, because the stats component receives the shown list |
| TodoView.MountShowsSeed | src/components/reactToDoList.tsx:22-25 | the initial state with the seed list supplied on mount (line 70) shows every seed item in order, and its items-left count is the number of active seed items |
| TodoView.Session | src/components/reactToDoList.tsx:28-85 | a concrete run from the initial state holding [A]: add B, toggle A, view `Active` (shows [B], 1 left), clear completed (leaves [B]), set `Completed` (shows nothing) |

## Left out

- Identity of states: the source returns a fresh `{ ...state }` object from each handled action. The model compares states by value, not by object identity.
- Rendering: the `Todo` and `TodoStats` markup, CSS classes and icons (src/components/reactToDoList.tsx:114-250) are presentation only.
- React hooks: the `useReducer` and `useState` wiring (src/components/reactToDoList.tsx:70-71), the form-input state, and the stats bar's own highlight state (src/components/reactToDoList.tsx:181-186) are framework state, not list logic. `InitialState` records the reducer's initial value (lines 22-25); `MountShowsSeed` covers the state after the seed list is put in at line 70.
- Id generation: `crypto.randomUUID()` in `handleSubmit` (src/components/reactToDoList.tsx:90) is a random foreign call. Add takes a ready-made `Todo` instead, and `ReducePreservesUniqueIds` takes the freshness of its id as a precondition.
- The event handlers `handleSubmit`, `handleCheck`, `handleDelete`, `clearHandle` and `filterHandle` (src/components/reactToDoList.tsx:87-112) each build one `Action` and dispatch it. `handleSubmit` also cancels the form's default action (line 88), creates the item with `completed: false` (line 92), and clears the input (line 94); the model's Add accepts any `Todo`, completed or not.
- The `default:` branches of the reducer (line 59) and of the shown-list switch (line 82): the TypeScript union types leave no value that reaches them, and Dafny's `match` over the datatypes is exhaustive. For the filter, the fallback shares the `All` answer.
- Text validation: the source accepts empty text, and so does the model, since `Todo.todo` is any string.
- Reordering by drag and drop: no such code exists in src/components/reactToDoList.tsx or src/App.tsx.
- src/App.tsx: it holds seed data and a theme toggle that picks a CSS class. It is not part of this model.
