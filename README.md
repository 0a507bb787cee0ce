# To-do page state controller

A Dafny model of the client-side state of the to-do list page (`front-end/src/App.tsx`).
The page holds three pieces of state: the list of todos shown in the table, the draft
`{title, description}` bound to the form inputs, and the id picked for deletion (`number | null`).
A handful of events change that state. The page loads the list once on mounting. Saving the draft
posts it, and the server's record is appended when the answer arrives. Picking a row for deletion and
confirming sends a delete request, and the id is filtered out of the list when the answer arrives.
Typing in an input changes one draft field.

Modules:

- `Wrappers` (`wrappers.dfy`): `Option`, the model of `number | null`.
- `JsString` (`js_string.dfy`): `String.prototype.trim` as ECMA-262 defines it (its WhiteSpace and
  LineTerminator characters written out) and the blank-title test `!title.trim()`.
- `TodoList` (`todo_list.dfy`): the `Todo` record, the `{title, description}` pair (`TodoCreate`),
  the two list transforms `[...prev, item]` (`Appended`) and `prev.filter(t => t.id !== id)`
  (`WithoutId`), and the lemmas about them: order, multiplicities, idempotence, commutation of
  completions, distinct ids.
- `TodoApp` (`app.dfy`): the class `App` with fields `todos`, `newTodo` and `todoToDelete` and one
  method per event. Each asynchronous call is split in two. The method that issues a request returns
  the `Request` it would send. A separate completion method (`LoadComplete`, `CreateComplete`,
  `DeleteComplete`) applies the response, and completions may be applied in any order. `PostResponse`
  is the record the server's create handler answers with (`back-end/app.py:87`): the submitted fields
  with a new id. The client methods `SubmitDraft` and `PickAndDelete` chain the events, and the
  `Scenario…` methods follow four concrete runs of the page.

The early `return` for a blank title (`App.tsx:68`) comes before the draft reset (`App.tsx:80`), so a blank or
whitespace-only title leaves the draft exactly as typed. It is not cleared. `AddNewTodo` and
`ScenarioBlankTitle` state this.

## Model

| member | source | states |
|---|---|---|
| JsString.IsWhiteSpace | front-end/src/App.tsx:68 | the characters `trim` strips are the ECMA-262 WhiteSpace and LineTerminator characters, written out; every one lies in the Basic Multilingual Plane, so it is a single UTF-16 code unit |
| JsString.TrimStart | front-end/src/App.tsx:68 | the result is the suffix of the title left after dropping the leading white space, and it does not start with white space |
| JsString.TrimEnd | front-end/src/App.tsx:68 | the result is the prefix left after dropping the trailing white space, and it does not end with white space |
| JsString.Trim | front-end/src/App.tsx:68 | `title.trim()` is the contiguous slice of the title left after removing the leading and trailing white space; everything removed is white space, and the result is empty or starts and ends with a character that is not white space |
| JsString.IsBlank | front-end/src/App.tsx:68 | `!title.trim()` holds exactly when every character of the title is white space or a line terminator (so the empty title too) |
| TodoList.Appended | front-end/src/App.tsx:77 | the new list is one longer, the old list is an unchanged prefix and the response record is the last element |
| TodoList.WithoutId | front-end/src/App.tsx:88 | the filtered list is no longer than the old one and holds exactly the old items whose id differs from the deleted id |
| TodoList.IdsWithoutId | front-end/src/App.tsx:88 | after the filter the set of ids is the old set minus the deleted id |
| TodoList.WithoutIdKeepsOrder | front-end/src/App.tsx:88 | the kept items appear in their original relative order (the result is a subsequence of the old list) |
| TodoList.WithoutIdCounts | front-end/src/App.tsx:88 | every copy of an item with another id is kept, every copy with the deleted id is dropped, and nothing is added |
| TodoList.WithoutIdUnchangedIff | front-end/src/App.tsx:88 | the filter leaves the list unchanged if and only if the id does not occur in it |
| TodoList.WithoutIdIdempotent | front-end/src/App.tsx:88 | applying the same delete completion twice equals applying it once |
| TodoList.WithoutIdConcat | front-end/src/App.tsx:88 | filtering a concatenation is concatenating the filtered parts |
| TodoList.WithoutIdCommutes | front-end/src/App.tsx:87-89 | two delete completions give the same list in either order |
| TodoList.CreateDeleteCommute | front-end/src/App.tsx:75-89 | a create completion and a delete completion for another id give the same list in either order; a delete of the created id removes it again |
| TodoList.AppendedUniqueIff | front-end/src/App.tsx:77 | appending keeps the ids distinct if and only if they were distinct and the new id is not already present |
| TodoList.UniqueCons | front-end/src/App.tsx:88 | a list has distinct ids exactly when its tail has and its head's id is not in the tail (the step behind the filter keeping ids distinct) |
| TodoList.WithoutIdKeepsUnique | front-end/src/App.tsx:88 | filtering never introduces a repeated id |
| TodoApp.PostResponse | back-end/app.py:87 | the create handler's answer carries the new id, and dropping that id gives back exactly the submitted title and description |
| TodoApp.App.constructor | front-end/src/App.tsx:49-52 | a mounted page starts with an empty list, an empty draft and no selection |
| TodoApp.App.LoadComplete | front-end/src/App.tsx:57-62 | the load response replaces the whole list; draft and selection are unchanged |
| TodoApp.App.EditTitle | front-end/src/App.tsx:114-116 | typing in the title input sets the title and leaves the description, the list and the selection unchanged |
| TodoApp.App.EditDescription | front-end/src/App.tsx:122-124 | typing in the description input sets the description and leaves the title, the list and the selection unchanged |
| TodoApp.App.AddNewTodo | front-end/src/App.tsx:67-81 | a blank title sends nothing and leaves the draft as typed; otherwise the untrimmed draft is posted and the draft is reset to empty at once; the list and the selection are never touched |
| TodoApp.App.CreateComplete | front-end/src/App.tsx:75-78 | the response record is appended at the end; the ids stay distinct if and only if they were and the new id is fresh; draft and selection are unchanged |
| TodoApp.App.SelectForDelete | front-end/src/App.tsx:180 | the selection becomes the clicked row's id and nothing else changes |
| TodoApp.App.DeleteTodo | front-end/src/App.tsx:86-92 | a delete request for the id is sent and the selection is cleared regardless of the outcome; the list is not touched |
| TodoApp.App.ConfirmDelete | front-end/src/App.tsx:197-201 | with no selection nothing is sent and nothing changes; with a selection the delete request is for the selected id, and the selection is cleared |
| TodoApp.App.DeleteComplete | front-end/src/App.tsx:87-89 | the list loses every item with the id and keeps the others in order; an absent id leaves it unchanged; distinct ids stay distinct; draft and selection are unchanged |
| TodoApp.SubmitDraft | front-end/src/App.tsx:67-81 | when the server echoes the submitted fields with a fresh id (as its create handler does), saving a non-blank draft appends exactly that record and keeps ids distinct; a blank title changes nothing |
| TodoApp.PickAndDelete | front-end/src/App.tsx:180-201 | picking an id and confirming leaves no selection whether or not the delete completes; if it completes the id is filtered out, otherwise the list is unchanged |

## Left out

- The HTTP client module (`./services/api`) is not part of this model. Requests are returned as `Request` values, and responses are parameters of the completion methods.
- The initial `GET /todos` is issued by the mount effect and is not returned by the constructor. Only its completion (`LoadComplete`) is modelled.
- `console.log` of the loaded list is a side effect with no effect on state.
- Failed requests are not modelled, because the code has no failure branch. A request whose completion never arrives is a completion method that is never called.
- Interleaving of in-flight completions is not modelled as concurrency. Each completion is an independent event, and the commutation lemmas say which orders agree.
- The page never checks that ids are unique. Uniqueness is stated only conditionally, on the server assigning a fresh id.
- `SelectForDelete` takes any id. The page only calls it with the id of a rendered row, and the model does not require that id to be in the list.
- The handlers at lines 114-116 and 122-124 spread the `newTodo` captured by the last render. With events handled one at a time that is the current draft, and the model uses the current draft.
- JavaScript strings are UTF-16 code units, while this model uses Unicode scalar values. Every character `trim` removes is a single code unit, so blankness is the same.
- Ids are JavaScript numbers, modelled as unbounded integers. Non-integer or NaN ids do not arise from the server, whose ids are integers.
- Rendering, the dialogs, the table, styling and the `Total:` footer are presentation only (lines 94-220).
- The back end's routing, CORS, database connections and SQL are out of scope. Only the shape of the create response is used, in `PostResponse`.
