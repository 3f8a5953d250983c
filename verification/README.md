# Vibe Todo: a verified model of the list handlers and the add form

This project models the logic of the `exam01` browser todo list in Dafny:

- The page component `Home` (`exam01/src/app/page.tsx`) holds a `todos` list. Three handlers each replace that list with a new one:
  - `addTodo` puts a fresh, open entry in front.
  - `toggleTodo` flips `completed` on the entries with a given id.
  - `deleteTodo` drops the entries with a given id.
- The page also shows `completedCount`, the number of finished entries.
- The add form `AddTodo` (`exam01/src/components/AddTodo.tsx`) keeps one text field. On submit it ignores blank input. Otherwise it passes the trimmed text to `onAdd` and clears the field.

Files and modules:

- `js_string.dfy`, module `JsString`: ECMAScript's `String.prototype.trim`, built from `trimStart` and `trimEnd`. The whitespace set is the language's WhiteSpace and LineTerminator code points.
- `add_todo.dfy`, module `AddTodo`: class `Form`. Its field `text` is the input's value. The ghost field `added` is the history of the arguments passed to `onAdd`. `HandleSubmit` also returns the argument it passed, or `None`.
- `todo_list.dfy`, module `TodoList`:
  - the `Todo` datatype;
  - the list transforms `Added`, `Toggled`, `Without` and `CompletedCount`, written as functions on `seq<Todo>`;
  - the lemmas about those transforms;
  - class `Home`, whose `todos` field the handler methods reassign. `Home.SubmitForm` models the wiring `<AddTodo onAdd={addTodo} />`.

The fields of `Todo` are taken from the object literal built in `addTodo`. `types/todo.ts` is not part of this model. `crypto.randomUUID()` and `Date.now()` become the `id` and `createdAt` parameters of `Home.AddTodo` and `Home.SubmitForm`.

## Model

| member | source | states |
|---|---|---|
| `JsString.TrimStart` | exam01/src/components/AddTodo.tsx:16-17 | The result is a suffix of the input. Every character cut off is whitespace. The result is empty or starts with a non-whitespace character. |
| `JsString.TrimEnd` | exam01/src/components/AddTodo.tsx:16-17 | The result is a prefix of the input. Every character cut off is whitespace. The result is empty or ends with a non-whitespace character. |
| `JsString.Trim` | exam01/src/components/AddTodo.tsx:17 | The trimmed text is no longer than the input. It is empty or neither starts nor ends with whitespace. |
| `JsString.TrimIsInfix` | exam01/src/components/AddTodo.tsx:17 | The trimmed text is the contiguous piece of the input that starts where `trimStart`'s result starts. |
| `JsString.TrimCutsOnlyWhitespace` | exam01/src/components/AddTodo.tsx:17 | Every input character before or after that piece is whitespace. |
| `JsString.TrimEmptyIffBlank` | exam01/src/components/AddTodo.tsx:16 | `trim` gives the empty string (the falsy case of the guard) exactly when the input is all whitespace. |
| `JsString.TrimIdempotent` | exam01/src/components/AddTodo.tsx:17 | Trimming the trimmed text again gives the same text. |
| `AddTodo.Form.constructor` | exam01/src/components/AddTodo.tsx:12 | The field starts as `""` and nothing has been passed to `onAdd`. |
| `AddTodo.Form.OnChange` | exam01/src/components/AddTodo.tsx:33 | `text` becomes the typed value. The `onAdd` history is unchanged. |
| `AddTodo.Form.HandleSubmit` | exam01/src/components/AddTodo.tsx:14-20 | Whitespace-only text calls nothing and leaves `text` as it was. Other text calls `onAdd` exactly once with the trimmed text and then sets `text` to `""`. That argument is non-empty, has no whitespace at either end, and trims to itself. |
| `TodoList.Added` | exam01/src/app/page.tsx:34-41 | The list grows by one. Entry 0 has the given id, text and createdAt and is not completed. The old entries follow, unchanged and in order. |
| `TodoList.Toggled` | exam01/src/app/page.tsx:44-49 | The length is kept. Every entry keeps its id, text and createdAt. `completed` is negated exactly on entries whose id matches. Every other entry is unchanged. |
| `TodoList.Without` | exam01/src/app/page.tsx:52-53 | The result holds exactly the entries with a different id, because membership holds in both directions. Its length is the old length minus the number of matching entries. It is a subsequence of the old list, so order is kept. |
| `TodoList.CompletedCount` | exam01/src/app/page.tsx:56 | The count is between 0 and the list length. It is 0 exactly when nothing is completed. It equals the length exactly when everything is completed. |
| `TodoList.AddedDistinctIff` | exam01/src/app/page.tsx:34-41 | After adding, ids are distinct if and only if they were distinct before and the new id was fresh. |
| `TodoList.AddedCompletedCount` | exam01/src/app/page.tsx:38 | Adding does not change the completed count, because a new entry starts open. |
| `TodoList.ToggledTwice` | exam01/src/app/page.tsx:47 | Toggling the same id twice gives back the original list. |
| `TodoList.ToggledUnchangedIff` | exam01/src/app/page.tsx:46-48 | Toggling leaves the list unchanged if and only if no entry has the id. |
| `TodoList.ToggledKeepsDistinct` | exam01/src/app/page.tsx:47 | Toggling keeps distinct ids distinct. |
| `TodoList.ToggledCompletedCount` | exam01/src/app/page.tsx:44-56 | Suppose ids are distinct and entry k has the id. Toggling lowers the completed count by one if entry k was completed and raises it by one otherwise. |
| `TodoList.WithoutUnique` | exam01/src/app/page.tsx:53 | `Without`'s contract fixes its result. Take any subsequence of the list that avoids the id and is as long as the number of entries with another id: it equals the filtered list. |
| `TodoList.WithoutUnchangedIff` | exam01/src/app/page.tsx:53 | Deleting leaves the list unchanged if and only if no entry has the id. |
| `TodoList.WithoutIdempotent` | exam01/src/app/page.tsx:53 | Deleting the same id twice gives the same list as deleting it once. |
| `TodoList.WithoutKeepsDistinct` | exam01/src/app/page.tsx:53 | Deleting keeps distinct ids distinct. |
| `TodoList.WithoutCompletedCount` | exam01/src/app/page.tsx:52-56 | Deleting never raises the completed count. |
| `TodoList.Home.constructor` | exam01/src/app/page.tsx:11 | The list starts empty. |
| `TodoList.Home.AddTodo` | exam01/src/app/page.tsx:34-42 | The new `todos` is the old list with the new entry in front. Ids stay distinct exactly when the supplied id is fresh. The completed count is unchanged. |
| `TodoList.Home.ToggleTodo` | exam01/src/app/page.tsx:44-50 | The new `todos` is the old list toggled at the id. Distinct ids stay distinct. The list is unchanged exactly when the id is absent. |
| `TodoList.Home.DeleteTodo` | exam01/src/app/page.tsx:52-54 | The new `todos` is the filtered list, and no entry has the id. Distinct ids stay distinct. The completed count does not rise. |
| `TodoList.Home.SubmitForm` | exam01/src/app/page.tsx:89 | Submitting a blank field leaves the list and the form as they were. Otherwise the list gains the trimmed text as a new open entry in front, the field is cleared, and `onAdd` has been called once with that text. |

## Left out

- Loading `todos` from `localStorage` and saving it back (`exam01/src/app/page.tsx:15-32`) is left out. It is browser storage I/O with `JSON.parse`/`JSON.stringify`, so the model's list always starts empty.
- The `isLoaded` hydration guard and React's effect scheduling are left out. They are framework lifecycle, not list logic.
- `crypto.randomUUID()` and `Date.now()` are not modelled. They are nondeterministic calls into the runtime, so their values are parameters. The model does not assume the id is fresh: freshness is a hypothesis of `TodoList.AddedDistinctIff` and `TodoList.Home.AddTodo`.
- The `progress` percentage and `Math.round` (`exam01/src/app/page.tsx:57, 107`) are left out. They are floating-point display arithmetic.
- `e.preventDefault()` in `handleSubmit` is left out. It stops the browser's own form submission and has no effect on the state.
- Everything that renders is left out: the JSX, the `framer-motion` animations, the CSS classes, and `exam01/src/components/TodoItem.tsx`, whose only logic is locale date formatting.
- Strings are modelled as sequences of Unicode scalar values, not UTF-16 code units. Every whitespace character that `trim` removes lies in the Basic Multilingual Plane, so trimming treats both forms alike.
- The weather-feed decoder and the product-catalog screens are not part of this model. They belong to other applications in the repository.
