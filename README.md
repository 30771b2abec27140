# Todo list state of `react-todo-app`, in Dafny

This project models the todo-list state held by the `App` component of
`react-todo-app` (`src/App.js`) and proves what its event handlers do.
The component keeps three pieces of state:

- `todos`: the items, each `{id, text, completed}`, in insertion order;
- `text`: the input buffer bound to the form's text field;
- `editId`: `null` (add mode) or the id of the item being edited.

Its handlers change that state:

- `addTodo` (form submit): rejects a buffer that `trim()`s to empty; otherwise
  in edit mode it rewrites the text of the edited item and leaves edit mode,
  in add mode it appends a new item; then it clears the buffer;
- `toggleTodo(id)`: flips `completed` on the items with that id;
- `startEdit(id, value)`: enters edit mode and loads the item's text;
- `deleteTodo(id)`: filters out the items with that id;
- the input's `onChange`: replaces the buffer with what was typed.

Layout:

- `wrappers.dfy`, module `Wrappers`: `Option`, for the nullable `editId`.
- `js_string.dfy`, module `JsString`: JavaScript's `String.prototype.trim`
  over the ECMAScript white-space and line-terminator characters, and the
  fact that `!s.trim()` holds exactly for blank strings.
- `todos.dfy`, module `Todos`: the `Todo` record and the pure list transforms
  each handler hands to `setTodos` (`Toggled`, `Edited`, `Appended`,
  `Without`), with lemmas about them (toggling twice is the identity,
  acting on an absent id changes nothing, deleting keeps relative order,
  every transform keeps ids pairwise distinct and introduces no blank text).
- `app.dfy`, module `App`: class `TodoApp` with the three state fields and
  one method per handler; each method's postcondition gives the whole new
  state as a function of the old one, and says which invariants it keeps.
  The same file holds three client methods, described under "Example
  sessions" below.

Modelling decisions:

- Ids are positive integers (`Todos.Id`). The component takes them from
  `Date.now()`, which is a positive number of milliseconds, so the
  truthiness test `if (editId)` is exactly `editId.Some?`. The fresh id for
  an add is a parameter of `AddTodo`; nothing in the component makes it
  unique, so distinct ids are preserved only under the assumption that the
  supplied id is not already in the list.
- No handler demands distinct ids of its caller, so the methods have no
  such precondition; each one states that it keeps the ids distinct when
  they were distinct before (for an add, when the fresh id is new).
- Deleting the item being edited leaves `editId` pointing at it; the next
  accepted submit then changes no item and only clears the buffer and the
  edit mode (`Todos.EditAfterDelete`).
- The model keeps two invariants in `App.TodoApp.Valid()`: ids are pairwise
  distinct, and no item has a blank text. Item texts are written only behind
  the blank test, so every handler keeps the second; keeping the first needs each
  fresh id to be new.

## Model

| member | source | states |
|---|---|---|
| `JsString.TrimStart` | react-todo-app/src/App.js:14 | the result is a suffix of the input, everything dropped is white space, and it does not start with white space |
| `JsString.TrimEnd` | react-todo-app/src/App.js:14 | the result is a prefix of the input, everything dropped is white space, and it does not end with white space |
| `JsString.Trim` | react-todo-app/src/App.js:14 | the result is no longer than the input and neither starts nor ends with white space; `JsString.TrimIsInfix` states that it is the infix left once the white space on both sides is dropped |
| `JsString.TrimEmptyIffBlank` | react-todo-app/src/App.js:14 | `text.trim()` is empty (falsy) exactly when every character of `text` is white space, in both directions |
| `JsString.TrimIsInfix` | react-todo-app/src/App.js:14 | `trim()` keeps one contiguous infix of the input, starting where `trimStart()` does, and drops only white space on either side |
| `Todos.Toggled` | react-todo-app/src/App.js:25 | same length, ids and texts at every position; `completed` is flipped exactly on the items whose id is the given one |
| `Todos.Edited` | react-todo-app/src/App.js:16 | same length, ids and `completed` at every position; the text is replaced exactly on the items whose id is the edited one |
| `Todos.Appended` | react-todo-app/src/App.js:19 | every earlier item keeps its value and position, and one item with the fresh id, the untrimmed buffer and `completed == false` is added at the end |
| `Todos.Without` | react-todo-app/src/App.js:34 | no surviving item has the id, and an item survives exactly when it was in the list with another id |
| `Todos.ToggledTwice` | react-todo-app/src/App.js:25 | toggling the same id twice restores the original list |
| `Todos.ToggledAbsent` | react-todo-app/src/App.js:25 | toggling an id that no item carries leaves the list unchanged |
| `Todos.EditedAbsent` | react-todo-app/src/App.js:15-17 | editing an id that no item carries leaves the list unchanged |
| `Todos.EditedTwice` | react-todo-app/src/App.js:16 | editing the same id twice is the same as editing it once with the second text |
| `Todos.WithoutAbsent` | react-todo-app/src/App.js:34 | deleting an id that no item carries is a no-op |
| `Todos.WithoutConcat` | react-todo-app/src/App.js:34 | deleting distributes over concatenation, so the survivors keep their original relative order |
| `Todos.WithoutIdempotent` | react-todo-app/src/App.js:34 | deleting the same id twice is deleting it once |
| `Todos.WithoutCount` | react-todo-app/src/App.js:34 | a delete removes exactly as many items as carry the id |
| `Todos.EditAfterDelete` | react-todo-app/src/App.js:15-17 | after the edited item has been deleted, an accepted edit-mode submit leaves the list as the delete left it |
| `Todos.SameIdsPreserveDistinct` | react-todo-app/src/App.js:16-25 | a rewrite that keeps every id in place (toggle, edit) keeps pairwise-distinct ids distinct |
| `Todos.AppendedPreservesDistinct` | react-todo-app/src/App.js:19 | appending an item whose id is not in the list keeps pairwise-distinct ids distinct |
| `Todos.WithoutPreservesDistinct` | react-todo-app/src/App.js:34 | deleting keeps pairwise-distinct ids distinct |
| `Todos.EditedPreservesNoBlankTexts` | react-todo-app/src/App.js:14-16 | an edit whose text passed the blank test leaves no item with a blank text |
| `Todos.AppendedPreservesNoBlankTexts` | react-todo-app/src/App.js:14-19 | appending a text that passed the blank test leaves no item with a blank text |
| `Todos.ToggledPreservesNoBlankTexts` | react-todo-app/src/App.js:25 | toggling keeps every text, so no blank text appears |
| `Todos.WithoutPreservesNoBlankTexts` | react-todo-app/src/App.js:34 | deleting keeps every survivor's text, so no blank text appears |
| `App.TodoApp.constructor` | react-todo-app/src/App.js:8-10 | the initial state is an empty list, an empty buffer and add mode |
| `App.TodoApp.Input` | react-todo-app/src/App.js:69 | the buffer becomes the typed value; the list and the edit mode are unchanged |
| `App.TodoApp.AddTodo` | react-todo-app/src/App.js:12-22 | blank buffer: nothing changes, the buffer is not cleared; edit mode: the list becomes `Edited` with the buffer, edit mode ends, the buffer is cleared; add mode: the list becomes `Appended` with the fresh id and the untrimmed buffer, the buffer is cleared; no blank text ever enters the list, and distinct ids are kept when the fresh id is new |
| `App.TodoApp.ToggleTodo` | react-todo-app/src/App.js:24-26 | the list becomes `Toggled`; buffer and edit mode unchanged; distinct ids and non-blank texts are kept |
| `App.TodoApp.StartEdit` | react-todo-app/src/App.js:28-31 | edit mode on the given id, the buffer holds the given value, the list is untouched |
| `App.TodoApp.DeleteTodo` | react-todo-app/src/App.js:33-35 | the list becomes `Without` the id; buffer and edit mode unchanged, even when the edited item is removed; distinct ids and non-blank texts are kept |

## Example sessions

`App.SessionAdd`, `App.SessionEdit` and `App.SessionToggleDelete` in
`app.dfy` drive a `TodoApp` the way a user would. They add two items, edit
one, toggle it twice, delete it and submit a blank buffer, and they assert
the concrete list each step leaves. They restate no source lines, so the
table above does not list them; they show that the handlers' contracts
alone determine these outcomes.

## Left out

- Rendering: the JSX markup, the header, footer and the "Add"/"Update" button label (App.js:37-116) only display state.
- Tab navigation (`page`, `setPage`, App.js:5 and 41-58): a view selector that touches no todo state.
- The clock: `Date.now()` (App.js:19) is replaced by the `freshId` parameter of `AddTodo`; the model does not claim the clock yields distinct ids.
- `e.preventDefault()` (App.js:13) and React's `useState` batching and re-rendering: framework behaviour. Each handler is modelled as running to completion on the state it reads, with its `set…` calls applied in order.
- The About and Contact pages (`src/pages/about.js`, `src/pages/contact.js`): static markup; the contact form has no submit handler.
- JavaScript strings are UTF-16 code units, Dafny strings Unicode scalar values: lone surrogates are not modelled. All white space `trim()` removes lies in the Basic Multilingual Plane, so the blank test is unaffected.
