# Todo list store of the React todo app, in Dafny

The `App` component (`src/App.jsx`) keeps an ordered list of todo records
`{id, text, completed}` and an input-field string. It starts from the list
saved in browser storage or, when nothing is saved, from three fixed seed
items. It appends a trimmed, non-empty input as a new incomplete item and then
clears the input. It flips `completed` on the items with a given id, removes
the items with a given id, and shows the number of incomplete items as
"items left". Each of these builds a new array (spread, `map`, `filter`), so
the model is pure. It uses datatypes, functions over `seq<Todo>` and lemmas.

Files:

- `wrappers.dfy`: `Option`, for the nullable result of reading storage.
- `js_string.dfy` (module `JsString`): `String.prototype.trim` as section
  21.1.3.25 of ECMA-262 6th edition (ECMAScript 2015) defines it. It strips
  WhiteSpace (section 11.2) and LineTerminator (section 11.3) code points from
  both ends. The specification is `IsTrimSlice`: nothing but white space lies
  outside the slice, and the slice neither starts nor ends with white space.
  `Trim` is proved to produce such a slice, and that slice is proved unique.
- `todo_store.dfy` (module `TodoStore`): the records, the component state,
  loading, add, toggle, delete, the remaining count and their properties.

Modelling choices:

- An id is an `int`. The seed ids are 1, 2 and 3. `Date.now()` is replaced by
  the caller-supplied `freshId`. Ids are compared with `==`, which is what
  `===` does on integer numbers.
- `AppState(todos, input)` stands for the two `useState` hooks.
  `AddTodo` returns both new values because `addTodo` sets both.
- `localStorage.getItem('todos')` is a parameter of type `Option<string>`
  (`None` for `null`). `JSON.parse` is a parameter function that returns
  `None` where it would throw. `if (savedTodos)` is a truthiness test, so
  both `null` and `""` give the seed list.
- `loadTodos` does not catch the exception that `JSON.parse` throws on an
  unparseable saved value (src/App.jsx:8-10), so there is no fallback to
  the seed list in that case. `LoadTodos` returns `ParseError` there.
- `UniqueIds` and `TrimmedTexts` are invariants the code does not check.
  The lemmas show that each operation keeps them: add keeps `UniqueIds` only
  when `freshId` is new. The seed list satisfies both.

## Model

| member | source | states |
|---|---|---|
| `TodoStore.SeedTodos` | src/App.jsx:12-16 | the fallback list has three items, with ids 1, 2 and 3, none completed |
| `TodoStore.LoadTodos` | src/App.jsx:6-17 | a null or empty saved value gives the seed list; otherwise the result is the parsed list, and it is an error exactly when parsing fails |
| `TodoStore.LoadWithoutSaved` | src/App.jsx:8-16 | with nothing saved (or `""` saved), loading yields exactly the three seed records, with their texts, `completed == false` and three items left |
| `TodoStore.SeedWellFormed` | src/App.jsx:12-16 | the seed list has distinct ids and non-empty, already-trimmed texts |
| `JsString.IsWhiteSpace` | src/App.jsx:35 | the code points `trim()` strips: TAB, VT, FF, SP, NBSP, ZWNBSP, the Zs separators, LF, CR, LS and PS; all of them lie in the Basic Multilingual Plane, and the ASCII space, tab, LF and CR are among them |
| `JsString.LeadingWhiteSpace` | src/App.jsx:35 | the count of leading white-space characters: all of them are white space, and the next character is not |
| `JsString.TrailingWhiteSpace` | src/App.jsx:35 | the count of trailing white-space characters: all of them are white space, and the character before them is not |
| `JsString.Trim` | src/App.jsx:35 | `trim()` returns a slice of its input with only white space outside it and no white space at either end |
| `JsString.TrimSliceUnique` | src/App.jsx:38 | any slice that meets the trimming specification is the one `Trim` returns |
| `JsString.TrimUnique` | src/App.jsx:38 | trimming has exactly one possible result |
| `JsString.TrimEmptyIff` | src/App.jsx:35 | the trimmed input is empty exactly when every character of the input is white space (the empty input included) |
| `JsString.TrimIsTrimmed` | src/App.jsx:38 | the trimmed text has no white space at either end |
| `JsString.TrimFixedIff` | src/App.jsx:38 | a string trims to itself exactly when it has no white space at either end |
| `JsString.TrimIdempotent` | src/App.jsx:38 | trimming twice equals trimming once |
| `JsString.TrimBlank` | src/App.jsx:35 | `"   "` trims to the empty string |
| `JsString.TrimPadded` | src/App.jsx:38 | `" a "` trims to `"a"` |
| `TodoStore.AddTodo` | src/App.jsx:34-44 | a blank input leaves list and input unchanged; otherwise exactly one item `{freshId, trim(input), false}` is appended after the unchanged earlier items, the length grows by one, and the input becomes empty |
| `TodoStore.AddTodoBlankIff` | src/App.jsx:35-42 | add is a no-op (the input is not cleared) exactly when the input is all white space; otherwise the input is cleared |
| `TodoStore.AddTodoExamples` | src/App.jsx:34-44 | adding `" a "` appends `{freshId, "a", false}` and clears the input; adding `"   "` changes nothing |
| `TodoStore.AddTodoKeepsTrimmedTexts` | src/App.jsx:36-41 | after an add, every text is still non-empty and trimmed |
| `TodoStore.AddTodoKeepsUniqueIds` | src/App.jsx:37-41 | adding with an id no item has keeps ids distinct |
| `TodoStore.AddTodoRemaining` | src/App.jsx:31-44 | a successful add raises the remaining count by one, and a blank one leaves it unchanged |
| `TodoStore.ToggleTodo` | src/App.jsx:53-57 | toggling keeps the length of the list |
| `TodoStore.ToggleEffect` | src/App.jsx:54-56 | position by position, every item keeps its id and text, and `completed` is negated exactly on the items whose id matches |
| `TodoStore.ToggleAbsent` | src/App.jsx:54-56 | toggling an id no item has is the identity |
| `TodoStore.ToggleTwice` | src/App.jsx:54-56 | toggling the same id twice returns the original list |
| `TodoStore.ToggleConcat` | src/App.jsx:54-56 | toggling works item by item: the result for `a + b` is the result for `a` followed by the result for `b` |
| `TodoStore.ToggleOnly` | src/App.jsx:54-56 | when only item `t` has the id, toggling flips `t` alone, and the remaining count moves by one |
| `TodoStore.ToggleRemaining` | src/App.jsx:31-57 | with distinct ids, toggling item k moves the remaining count by +1 if it was completed and by -1 if not |
| `TodoStore.ToggleKeepsInvariants` | src/App.jsx:54-56 | toggling keeps distinct ids distinct and texts trimmed |
| `TodoStore.DeleteTodo` | src/App.jsx:60-62 | the result is no longer than the list |
| `TodoStore.DeleteMembers` | src/App.jsx:61 | an item is in the result exactly when it is in the list and its id differs |
| `TodoStore.DeleteAbsent` | src/App.jsx:61 | deleting an id no item has is the identity |
| `TodoStore.DeleteConcat` | src/App.jsx:61 | delete keeps the original order: the result for `a + b` is the result for `a` followed by the result for `b` |
| `TodoStore.DeleteSingle` | src/App.jsx:61 | a one-item list loses its item exactly when the ids match |
| `TodoStore.DeleteOnly` | src/App.jsx:61 | when only item `t` has the id, deleting removes `t` and keeps the items around it in order |
| `TodoStore.DeleteAt` | src/App.jsx:61 | with distinct ids, deleting the id of item k removes exactly that item, keeps the rest in order, and shortens the list by one |
| `TodoStore.DeleteIdempotent` | src/App.jsx:61 | no item with the id remains, so a second delete changes nothing |
| `TodoStore.DeleteKeepsUniqueIds` | src/App.jsx:61 | deleting keeps distinct ids distinct |
| `TodoStore.DeleteKeepsTrimmedTexts` | src/App.jsx:61 | deleting keeps texts non-empty and trimmed |
| `TodoStore.DeleteRemaining` | src/App.jsx:31-62 | deleting never raises the remaining count |
| `TodoStore.OnlyItemWithId` | src/App.jsx:54-61 | with distinct ids, the item at k is the only one with its id, which is what toggle and delete rely on |
| `TodoStore.UniqueIdsCons` | src/App.jsx:54-61 | ids are distinct exactly when the first id does not recur and the rest are distinct |
| `TodoStore.ActiveTodos` | src/App.jsx:31 | the filter of incomplete items is no longer than the list |
| `TodoStore.ActiveMembers` | src/App.jsx:31 | the filter keeps exactly the incomplete items |
| `TodoStore.ActiveConcat` | src/App.jsx:31 | the filter works item by item and keeps order |
| `TodoStore.RemainingCount` | src/App.jsx:31 | the remaining count is at most the list length |
| `TodoStore.RemainingConcat` | src/App.jsx:31 | the count of a concatenation is the sum of the counts |
| `TodoStore.RemainingPlusCompleted` | src/App.jsx:31 | the remaining count equals the length minus the number of completed items |
| `TodoStore.RemainingExtremes` | src/App.jsx:31 | the count equals the length exactly when nothing is completed, and is 0 exactly when everything is completed |
| `TodoStore.CompletedCountBounds` | src/App.jsx:31 | the completed count is 0 exactly when no item is completed, and equals the length exactly when all are |
| `TodoStore.SeedToggleTwo` | src/App.jsx:53-57 | from the seed list, toggling id 2 completes item 2 and leaves two items |
| `TodoStore.SeedDeleteOne` | src/App.jsx:60-62 | from the seed list, deleting id 1 leaves items 2 and 3 in that order |

## Left out

- `localStorage.getItem`/`setItem` and the `useEffect` that saves the list on every change (src/App.jsx:7, 26-28): browser I/O. The read value is a parameter of `LoadTodos`. The write is not modelled.
- `JSON.parse`/`JSON.stringify` (src/App.jsx:9, 27): library code. Parsing is a parameter function. A parsed value that is not a list of records, such as `null`, is not modelled. No save/load round trip is stated, because no serialiser is modelled.
- `Date.now()` (src/App.jsx:37): a clock. It becomes the `freshId` parameter. Two adds in the same millisecond would get the same id. Nothing prevents that, so unique ids are stated only as a conditional invariant.
- Ids that are not integers: loaded data could hold any JSON value, and `===` on `NaN` is false. The model's ids are mathematical integers.
- JSX rendering, `handleSubmit`/`preventDefault`, the `onChange` that sets the input, and React's `useState` machinery (src/App.jsx:20-23, 47-50, 63-108): UI and event plumbing.
- Editing, filtering and clear-completed: this component does not have them.
- JsString.Trim: JavaScript strings are UTF-16 code units, while Dafny's `char` is a Unicode scalar value. Every white-space code point is in the Basic Multilingual Plane, so the two agree for trimming. U+180E is not treated as white space, as in current Unicode.
