# TodoList component, modelled in Dafny

A model of the `TodoList` React component of the todo-react repository
(`src/assets/todo.jsx`). The component keeps three pieces of state: the list of
task texts, the text of the input field, and the index of the task being edited
(or `null`). Its event handlers are transitions on that state.

- `whitespace.dfy` (module `Whitespace`): `String.prototype.trim` and the
  "blank input" test. The white-space set is the WhiteSpace and LineTerminator
  code points of ECMA-262 (sections 12.2 and 12.3).
- `todo_state.dfy` (module `TodoState`): the state as a value, and each handler
  as a function from the state before the event to the state committed after it.
  It also holds JavaScript's `splice`, the delete as written, and the delete as
  evidently intended.
- `todo_properties.dfy` (module `TodoProperties`): lemmas that relate the
  handlers to the invariants and to one another. These cover the edit/submit
  round trip, the two deletes, and concrete scenarios.
- `todo_runs.dfy` (module `TodoRuns`): the events the view delivers, runs of
  several events, and the invariants that hold along every run.
- `todo_list.dfy` (module `TodoComponent`): the component as a class
  `TodoList`. Its three fields are the state cells, and it has one method per
  handler. Each method is proved to commit exactly the state that its
  `TodoState` function gives.

The model follows the code, not the intent where the two differ. `handleDelete`
passes the result of `tasks.splice(index, 1)` to `setTasks`. That result is the
array of *removed* elements, so after a delete the list is the deleted task
alone. The model keeps this behaviour (`TodoState.Delete`,
`TodoComponent.TodoList.HandleDelete`) and adds the intended delete beside it
(`TodoState.IntendedDelete`). Neither delete shifts the edit index, because the
code does not. A design that shifts it would be a policy the code lacks.

## Model

| member | source | states |
|---|---|---|
| `Whitespace.TrimStart` | src/assets/todo.jsx:9 | the result is a suffix of the input; it is empty or starts with a non-white-space character; everything cut off is white space |
| `Whitespace.TrimEnd` | src/assets/todo.jsx:9 | the result is a prefix of the input; it is empty or ends with a non-white-space character; everything cut off is white space |
| `Whitespace.Trim` | src/assets/todo.jsx:9 | `trim()` is the prefix of what remains after the leading white space is cut off, and what it leaves off that remainder is white space; it is the empty string exactly when the input is blank (white space only); otherwise it neither starts nor ends with white space |
| `TodoState.Init` | src/assets/todo.jsx:4-6 | the mount state has both invariants, shows the empty-list message, labels the button "Add" and has an empty field |
| `TodoState.Label` | src/assets/todo.jsx:121 | the button reads "Update" exactly when an edit index is set, and "Add" otherwise |
| `TodoState.ShowsEmptyMessage` | src/assets/todo.jsx:205 | the "No tasks yet" message shows exactly when the list is empty |
| `TodoState.Change` | src/assets/todo.jsx:82 | `onChange` stores any text in the field and leaves the list and the edit index unchanged |
| `TodoState.Submit` | src/assets/todo.jsx:8-21 | blank input changes nothing at all; otherwise, with no edit index or with an edit index equal to the length of the list (where the indexed write lands one past the end), the untrimmed input is appended (length +1, earlier tasks unchanged); with an edit index `i` inside the list, only position `i` is replaced (length kept, other tasks unchanged); in both non-blank cases the field becomes "" and the edit index null |
| `TodoState.KeyPress` | src/assets/todo.jsx:34-36 | the Enter key is exactly a submit; every other key leaves the whole state unchanged |
| `TodoState.Edit` | src/assets/todo.jsx:29-32 | the field gets the task's text, the edit index becomes the task's index (so the edit index is in range and the label is "Update"), and the list is unchanged |
| `TodoState.Splice` | src/assets/todo.jsx:24 | `splice(start, count)` splits the array into removed and kept parts; the removed part re-inserted at the clamped start rebuilds the array; the removed part has `count` elements, fewer at the end of the array |
| `TodoState.EditIndexAfterDelete` | src/assets/todo.jsx:26 | the edit index is cleared exactly when it was the deleted index (or already null), and otherwise keeps its numeric value |
| `TodoState.Delete` | src/assets/todo.jsx:23-27 | as written: the list becomes the one deleted task (empty for an index past the end); the field is unchanged; the edit index is cleared exactly when it equalled the index, with no shift |
| `TodoState.IntendedDelete` | src/assets/todo.jsx:24-25 | the task at the index is removed: one task fewer, earlier tasks kept, later tasks moved down by one, the removed task and the rest together make up the old list |
| `TodoProperties.SubmitPreservesInvariants` | src/assets/todo.jsx:8-21 | submit keeps the edit index in range and every task non-blank |
| `TodoProperties.EditPreservesInvariants` | src/assets/todo.jsx:29-32 | editing a shown task keeps both invariants |
| `TodoProperties.ChangePreservesInvariants` | src/assets/todo.jsx:82 | typing keeps both invariants |
| `TodoProperties.DeletePreservesNonBlank` | src/assets/todo.jsx:24-25 | the delete as written keeps every task non-blank |
| `TodoProperties.DeleteNeverEmpties` | src/assets/todo.jsx:24-25 | deleting a shown task with the delete as written never empties the list |
| `TodoProperties.EditThenSubmitRestores` | src/assets/todo.jsx:9-32 | editing a non-blank task and submitting the loaded text unchanged leaves the list exactly as it was, with the field "" and the edit index null |
| `TodoProperties.DeleteMatchesIntendedIff` | src/assets/todo.jsx:24-25 | for a shown index, the delete as written equals the intended delete if and only if the list is two equal tasks |
| `TodoProperties.DeleteFirstOfThree` | src/assets/todo.jsx:24-25 | deleting index 0 of ["a","b","c"] leaves ["a"] as written, where ["b","c"] was intended |
| `TodoProperties.EditSecondOfThree` | src/assets/todo.jsx:11-20 | edit index 1 of ["a","b","c"], type "B", submit: the list is ["a","B","c"], the field "" and the edit index null |
| `TodoProperties.DeleteLeavesEditIndexStale` | src/assets/todo.jsx:24-26 | edit index 2 of ["a","b","c"], then delete index 0: the edit index stays 2 and is out of range under both deletes; after the delete as written a submit of the loaded text would write beyond the end of the list |
| `TodoProperties.SubmitAtLengthAppends` | src/assets/todo.jsx:11-17 | a non-blank submit with the edit index equal to the length of the list appends the input, exactly as a submit with no edit index does |
| `TodoProperties.IntendedDeleteThenSubmitDuplicates` | src/assets/todo.jsx:11-15 | the state the intended delete leaves in that session, ["b","c"] with field "c" and edit index 2, submits to ["b","c","c"]: the edited task is duplicated, not updated |
| `TodoProperties.DeleteThenSubmitAppends` | src/assets/todo.jsx:11-26 | edit index 1 of ["a","b"], then delete index 0 as written: the list is ["a"] with field "b" and edit index 1, equal to the length, and the submit appends "b" again, giving ["a","b"] |
| `TodoProperties.IntendedDeleteRetargetsEdit` | src/assets/todo.jsx:24-26 | edit index 1 of ["a","b","c"], then the intended delete of index 0: the list is ["b","c"], the field still "b", and the edit index 1, in range but now naming "c" |
| `TodoProperties.DeleteEditedTaskEndsEdit` | src/assets/todo.jsx:26 | deleting the task being edited clears the edit index, so the label is "Add" again |
| `TodoRuns.Step` | src/assets/todo.jsx:8-36 | one event keeps every task non-blank; any event but a delete keeps the edit index in range; no event empties a non-empty list |
| `TodoRuns.Run` | src/assets/todo.jsx:8-36 | no events leave the state as it was; one defined event gives exactly its handler's state, and an undefined first event gives no state; along every run every task stays non-blank; along a run without a delete the edit index stays in range; once the list has a task no run empties it, so the empty-list message never returns |
| `TodoRuns.RunAppend` | src/assets/todo.jsx:8-36 | running `a + b` is running `a` and then `b` from the state `a` reaches; so a run stops with no state at its first undefined event, wherever it lies, and a run of defined events reaches the state its handlers give one after another |
| `TodoRuns.ReachableTasksNonBlank` | src/assets/todo.jsx:4 | every state reached from mount has only non-blank tasks |
| `TodoComponent.TodoList.constructor` | src/assets/todo.jsx:4-6 | the fields start as the mount state |
| `TodoComponent.TodoList.SetInputValue` | src/assets/todo.jsx:82 | the new state is `Change` of the old state |
| `TodoComponent.TodoList.HandleAddOrUpdate` | src/assets/todo.jsx:8-21 | the new state is `Submit` of the old state |
| `TodoComponent.TodoList.HandleDelete` | src/assets/todo.jsx:23-27 | the new state is `Delete` (as written) of the old state |
| `TodoComponent.TodoList.HandleEdit` | src/assets/todo.jsx:29-32 | the new state is `Edit` of the old state |
| `TodoComponent.TodoList.HandleKeyPress` | src/assets/todo.jsx:34-36 | the new state is `KeyPress` of the old state |
| `TodoComponent.AddThree` | src/assets/todo.jsx:8-36 | mounting and adding "a", "b" (with the Enter key) and "c" through the component gives the list ["a","b","c"], an empty field and no edit index |
| `TodoComponent.StaleEditSession` | src/assets/todo.jsx:8-36 | adding "a", "b", "c", editing "c" and deleting "a" through the component leaves the list ["a"], the field "c" and the edit index 2, past the end |

## Findings

| source | as written | input that shows it | evidently intended | confidence | as-written member | corrected member |
|---|---|---|---|---|---|---|
| src/assets/todo.jsx:24-25 | `setTasks` receives the array that `splice` returns, which holds the removed element | tasks ["a","b","c"], delete index 0: the list becomes ["a"] | the list keeps what `splice` leaves, ["b","c"] | high; not executed | `TodoState.Delete` (with `TodoProperties.DeleteMatchesIntendedIff` and `TodoProperties.DeleteFirstOfThree`) | `TodoState.IntendedDelete` |

The intended delete keeps the code's handling of the edit index: it clears the
index only when the edited task itself is deleted and never shifts it (line
26). So even the corrected delete can leave a stale edit index, and a later submit
of the loaded text (line 13) goes wrong in one of two ways:
- the index is in range but names a different task than the one loaded in the
  field (`TodoProperties.IntendedDeleteRetargetsEdit`), and the submit writes
  the loaded text over that task;
- the index equals the length of the list (`TodoProperties.DeleteLeavesEditIndexStale`),
  and the submit appends the loaded text as a duplicate of the task being
  edited (`TodoProperties.IntendedDeleteThenSubmitDuplicates`).

The model records this and does not choose a shift policy for it.

The component class keeps the delete as written, so that its methods stay
faithful to the code. `TodoState.IntendedDelete` is the corrected definition,
and its contract proves the intended removal.

## Left out

- JSX layout, inline styles, and the focus, blur and hover handlers that write
  DOM `style` properties: presentation only.
- React's scheduling and batching of `useState` updates. Each handler is one
  atomic step from the state before to the committed state after. `splice` also
  mutates the old state array in place before `setTasks` replaces it; that array
  is never read again, so the model omits the mutation.
- `TodoState.Submit` (and `TodoComponent.TodoList.HandleAddOrUpdate`): requires
  that a non-blank submit has no edit index greater than the length of the
  list. Beyond the length, the indexed write would grow a sparse array with
  holes, which the model does not represent. An edit index equal to the length
  is modelled: the write appends (`TodoProperties.SubmitAtLengthAppends`).
  `TodoProperties.DeleteLeavesEditIndexStale` shows that the delete as written
  can reach an excluded state.
- `TodoState.KeyPress` (and `TodoComponent.TodoList.HandleKeyPress`): for the
  Enter key, the same requirement as `TodoState.Submit`, for the same reason.
- `TodoRuns.Defined`: gives the Click event, and the KeyDown event of the Enter
  key, no meaning in such a state either, for the same reason.
- `TodoState.Edit` (and `TodoComponent.TodoList.HandleEdit`): requires an index
  of a shown task. For any other index, `tasks[index]` is `undefined`, and the
  model does not represent `undefined` in the text field.
- `TodoRuns.Defined`: treats the Edit and Delete buttons as existing only for
  shown tasks, which is how the view renders them. The delete function itself
  is total and also models `splice` past the end.
- Key events are reduced to their `key` string, and change events to the new
  text. Nothing else in the event objects is read by the handlers.
- Strings are sequences of Unicode scalar values, not of UTF-16 code units as
  in JavaScript, so a lone surrogate has no counterpart in the model. Every
  code point `trim` removes lies in the Basic Multilingual Plane outside the
  surrogate range, so trimming and the blank test are unaffected.
- No policy shifts the edit index after a delete. The code has none, and the
  model does not invent one.
