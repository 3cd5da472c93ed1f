# Todo list store, modelled in Dafny

This project models the state machine inside the `Todos` component of a
single-page todo-list application. The component keeps six state variables:

- `todos`: a list of `{id, text, completed}` entries, starting from a three-entry seed;
- `newTodo`: the text typed into the add box;
- `searchTerm`: the text typed into the search box;
- `editingTodoId`: the id of the row being edited, or null;
- `editingTodoText`: the text in that row's edit box;
- `selectedTodos`: a list of the ids of the selected rows.

Each event handler reads the current snapshot and writes new values into some
of these variables. The list of todos shown is derived by a case-insensitive
search filter.

The files:

- `seqs.dfy` (module `Seqs`) holds the array `filter` that every dropping
  update is built from, with its order and multiplicity properties.
- `text.dfy` (module `Text`) holds `trim`, with JavaScript's set of white-space
  code points, and `includes`. It also holds an ASCII stand-in for `toLowerCase`.
- `todo_list.dfy` (module `TodoList`) holds the `Todo` record, the seed list and
  the pure list work of each handler. That work is the `map`s (toggle, save,
  ids), the `filter`s (remove, clear selected, search, unselect) and the
  append. It also holds the lemmas about them.
- `store.dfy` (module `TodoStore`) holds the class `Store`, with the six
  variables as fields and one method per handler. Every method states its
  whole new state in terms of the old one. It also states which invariants it
  keeps: numbering 1..n, and selected ids naming entries. A few client sessions
  replay scenarios on the seed list.

The model follows the code as written. In particular:

- a new entry's id is the list length plus one, so ids can repeat after a
  removal (`RemoveThenAddRepeatsId`);
- the stored text is the untrimmed input;
- remove touches neither the selection nor the edit state;
- clear-all and clear-selected leave the edit state alone;
- save clears only `editingTodoId`;
- the selection is a list, not a set;
- select-all compares lengths, not membership.

Contrary to what one might expect of a todo list, the code guarantees none
of the following, and the model does not either:

- ids are unique;
- `editingTodoId` always names an entry (clear-all, for example, leaves it set).

The handlers alone do not keep selected ids naming entries, since
`handleRemoveTodo` on a selected id leaves it dangling. The interface keeps
it because it offers remove only on unselected rows
(app/components/Todo.jsx:205) and click only on listed rows
(app/components/Todo.jsx:179). The store's contracts prove it is kept for
every operation called that way.

Save also takes the row's id as a parameter instead of reading `editingTodoId`.

## Model

| member | source | states |
|---|---|---|
| Seqs.Filter | app/components/Todo.jsx:49 | the result is a subsequence of the input (same relative order) in which every passing element occurs exactly as often as in the input and no failing element occurs |
| Seqs.FilterUnique | app/components/Todo.jsx:49 | any subsequence of the input with those counts is the filter itself, so the contract of `Filter` determines its result |
| Seqs.FilterAppend | app/components/Todo.jsx:103 | filtering a concatenation is filtering each part and concatenating, so the survivors keep their relative order |
| Seqs.FilterKeepsAll | app/components/Todo.jsx:49 | when every element passes, the filter returns its input unchanged |
| Text.TrimStart | app/components/Todo.jsx:27 | the result is a suffix of the input, everything dropped is white space, and the result does not start with white space |
| Text.TrimEnd | app/components/Todo.jsx:27 | the result is a prefix of the input, everything dropped is white space, and the result does not end with white space |
| Text.Trim | app/components/Todo.jsx:27 | the result is a slice of the input with only white space before and after it, and it neither starts nor ends with white space |
| Text.TrimEmptyIffBlank | app/components/Todo.jsx:27 | `trim()` gives the empty string exactly when the input is white space only |
| Text.Includes | app/components/Todo.jsx:108 | the empty needle is always included, and an included needle is no longer than the text |
| Text.IncludesIffOccurs | app/components/Todo.jsx:108 | `includes` holds exactly when the needle occurs at some position of the text |
| Text.AsciiLower | app/components/Todo.jsx:108 | the lowered string has the same length, each ASCII capital becomes its own small letter, and every other character is kept |
| TodoList.Ids | app/components/Todo.jsx:98 | the ids of the list, one per entry, in list order |
| TodoList.Seed | app/components/Todo.jsx:6-10 | the seed holds three uncompleted entries numbered 1, 2, 3, so its ids are unique |
| TodoList.NumberedIdsAreUnique | app/components/Todo.jsx:29 | a list numbered 1..n has no repeated id |
| TodoList.AppendKeepsNumbering | app/components/Todo.jsx:28-33 | appending the new entry to a list numbered 1..n gives a list numbered 1..n+1 whose ids are the old ids followed by n+1 |
| TodoList.AppendKeepsSelection | app/components/Todo.jsx:33 | appending an entry keeps every selected id present in the list |
| TodoList.Toggled | app/components/Todo.jsx:38-44 | same length, ids and texts; completion flips exactly on the entries whose id matches |
| TodoList.ToggleTwiceRestores | app/components/Todo.jsx:38-44 | toggling the same id twice restores the original list |
| TodoList.Renamed | app/components/Todo.jsx:61-66 | same length, ids and completion flags; the text becomes the edit text exactly on the entries whose id matches |
| TodoList.RenameAbsentIsIdentity | app/components/Todo.jsx:61-66 | saving under an id no entry carries leaves the list unchanged |
| TodoList.WithoutId | app/components/Todo.jsx:46-50 | the result is a subsequence of the list keeping every entry whose id differs, with its multiplicity, and no other; the id no longer occurs; an absent id leaves the list unchanged |
| TodoList.RemoveUnselectedKeepsSelection | app/components/Todo.jsx:46-50 | removing an id that is not selected keeps every selected id present in the list |
| TodoList.WithoutSelected | app/components/Todo.jsx:102-105 | the result is a subsequence of the list keeping every entry whose id is not selected, with its multiplicity, and no other; no selected id remains; an empty selection keeps the list |
| TodoList.Matching | app/components/Todo.jsx:107-109 | the result is a subsequence of the list keeping, with its multiplicity, every entry whose lowered text contains the lowered term at some position, and no other; an empty lowered term shows every entry |
| TodoList.SearchIgnoresCase | app/components/Todo.jsx:108 | under ASCII folding the term "ADD" matches the seed entry "Add your tasks" |
| TodoList.Clicked | app/components/Todo.jsx:87-91 | a selected id loses every occurrence while the other ids stay in order with their repeats (a subsequence with the same counts); an unselected id is appended at the end |
| TodoList.ClickTwiceRestores | app/components/Todo.jsx:87-91 | two clicks on an unselected id give back the selection exactly, order included |
| TodoList.ClickKeepsSelection | app/components/Todo.jsx:80-92 | clicking a row whose id is in the list keeps every selected id present in the list |
| TodoList.SelectedAll | app/components/Todo.jsx:94-100 | a selection as long as the list becomes empty; any other becomes all ids in list order; either way only present ids are selected |
| TodoList.RemoveThenAddRepeatsId | app/components/Todo.jsx:29 | in any list numbered 1..n with n >= 2, such as the seed, removing id 1 and then adding gives a list of n entries whose last two are both numbered n, so the ids are no longer unique |
| TodoList.RemoveFirstOfNumbered | app/components/Todo.jsx:46-50 | in a non-empty list numbered 1..n, removing id 1 drops exactly the first entry and keeps the rest in order |
| TodoList.ClickTwiceOnSelectedMoves | app/components/Todo.jsx:87-91 | two clicks on a selected id give the selection without any occurrence of the id, in order, followed by the id once; when the id was not last, the selection is not restored |
| TodoList.SelectAllComparesLengths | app/components/Todo.jsx:95 | three selected ids that name no entry are cleared, not replaced by the seed's ids, because only lengths are compared |
| TodoStore.Store.constructor | app/components/Todo.jsx:13-18 | the store starts with the seed list, empty texts, no edit row and no selection |
| TodoStore.Store.FilteredTodos | app/components/Todo.jsx:107-109 | the shown list is the subsequence of the list keeping, with its multiplicity, every entry whose lowered text contains the lowered search term, and no other; an empty lowered term shows all |
| TodoStore.Store.SetNewTodo | app/components/Todo.jsx:20-22 | only the add box's text changes |
| TodoStore.Store.SetSearchTerm | app/components/Todo.jsx:138 | only the search term changes |
| TodoStore.Store.SetEditingTodoText | app/components/Todo.jsx:186 | only the edit box's text changes |
| TodoStore.Store.AddTodo | app/components/Todo.jsx:24-36 | blank input changes nothing; otherwise one uncompleted entry with id old length + 1 and the untrimmed text is appended and the input is emptied; numbering 1..n and the selection invariant are kept |
| TodoStore.Store.ToggleTodo | app/components/Todo.jsx:38-44 | the list becomes its toggle under the id and nothing else changes; numbering and the selection invariant are kept |
| TodoStore.Store.RemoveTodo | app/components/Todo.jsx:46-50 | the list loses every entry with the id; selection and edit state are untouched; the selection invariant is kept when the id is not selected |
| TodoStore.Store.EditTodo | app/components/Todo.jsx:55-59 | the edit row and edit text are set; the list and the selection are untouched |
| TodoStore.Store.SaveTodo | app/components/Todo.jsx:61-68 | the matching entries take the edit text, the edit row is cleared, and the edit text is kept |
| TodoStore.Store.CancelEdit | app/components/Todo.jsx:70-73 | the edit row is cleared and the edit text emptied, whatever they were, so a second cancel changes nothing |
| TodoStore.Store.ClearAll | app/components/Todo.jsx:75-78 | the list and the selection become empty; the edit state stays as it was |
| TodoStore.Store.TodoClick | app/components/Todo.jsx:80-92 | the list becomes its toggle under the id and the selection its click update; the selection invariant is kept for a listed id |
| TodoStore.Store.SelectAll | app/components/Todo.jsx:94-100 | the selection becomes its select-all update; only present ids are then selected |
| TodoStore.Store.ClearSelected | app/components/Todo.jsx:102-105 | only the unselected entries remain, in order, and the selection is emptied; the edit state stays |

## Left out

- Rendering (app/components/Todo.jsx:111-232) only displays state. This covers the markup, the styling, the icons and the empty-list message.
- app/page.js only mounts the component and is not part of this model.
- React plumbing is not modelled. Each handler is one atomic step over the snapshot it reads, without the scheduling or batching of state updates. The `console.log` call and the `stopPropagation` calls are also left out.
- Event bubbling is not modelled. In edit mode, clicks on the edit box, the Save button and the Cancel button (app/components/Todo.jsx:183-200) also reach the row's click handler. That is browser behaviour, so the store treats them as separate steps. In the program both handlers of a Save click read the same render's `todos`, and the row click's list update is applied last, so a Save click as wired toggles the row's completion, toggles its selection and leaves edit mode, but the edited text is lost.
- Strings are modelled as sequences of Unicode scalar values, while JavaScript strings are sequences of UTF-16 code units that may hold lone surrogates. On well-formed text `trim` and `includes` behave the same either way.
- Numbers are modelled as unbounded integers. The ids the code makes stay far below the range where JavaScript numbers lose precision.
- TodoList.Matching: does not model Unicode `toLowerCase`. The case mapping is a parameter, and `Text.AsciiLower` is an ASCII-only stand-in for the worked sessions.
- TodoStore.Store.FilteredTodos: does not model Unicode `toLowerCase`, for the same reason.
- The select-all button is commented out in the markup (app/components/Todo.jsx:143-148). Its handler is modelled anyway.
- The toggle handler (app/components/Todo.jsx:38-44) is wired to no control; rows are completed through the row click. It is modelled anyway.
