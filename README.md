# Today's todo: the todo-list state

A model of the one piece of logic in the "today's todo" launcher command: the list of tasks it
keeps, the three handlers that turn the current list into the next one, and the guard of the
effect that loads the list from local storage.

- `ToDoList` (todo_list.dfy): the task record `ToDo(id, title, isCompleted)` and the handlers
  `AddToDo` (append an open task whose id is the length plus one), `DeleteToDo` (a `filter` on the
  id) and `ToggleIsCompleted` (a `map` that flips the flag of every task with the id). Each is a
  pure function of the current list, as in the source, with the lemmas about it.
- `Command` (command.dfy): the load effect as a function `LoadStored` of the current list, the
  stored value and the parser, and a class `Command` whose `todos` field each handler replaces
  wholesale, as `setTodos` does.

Ids are derived from the list length, so they are unique only as long as nothing is deleted
(`AddAllHasUniqueIds`); after a delete an add can hand out an id that is still in use
(`AddAfterDeleteCanDuplicateId`, `DuplicateIdScenario`). The model states this as it is and
does not replace the id scheme.

## Model

| member | source | states |
|---|---|---|
| `ToDoList.AddToDo` | today-s-todo/src/index.tsx:37-39 | the list grows by exactly one; every earlier task is unchanged at its index; the new last task has the given title, is open and has id old length + 1 |
| `ToDoList.DeleteToDo` | today-s-todo/src/index.tsx:42-44 | never longer than the input; no survivor carries the id; an absent id leaves the list unchanged |
| `ToDoList.ToggleIsCompleted` | today-s-todo/src/index.tsx:47-53 | the `map` callback of lines 49-51 is the helper `ToggleOne`; same length; id and title unchanged at every index; the flag flips exactly where the id matches; tasks with another id are identical; an absent id is a no-op |
| `ToDoList.DeleteMembers` | today-s-todo/src/index.tsx:43 | a task is in the result of a delete if and only if it is in the input and carries another id |
| `ToDoList.KeptIndicesInRange` | today-s-todo/src/index.tsx:43 | every position a delete keeps is in range and holds a task with another id |
| `ToDoList.KeptIndicesIncreasing` | today-s-todo/src/index.tsx:43 | the kept positions are listed strictly increasing |
| `ToDoList.KeptIndicesComplete` | today-s-todo/src/index.tsx:43 | every position whose task carries another id is kept |
| `ToDoList.DeleteFollowsKeptIndices` | today-s-todo/src/index.tsx:43 | the k-th survivor of a delete is the task at the k-th kept position, so relative order is kept and every duplicate of the id is dropped |
| `ToDoList.DeleteConcat` | today-s-todo/src/index.tsx:43 | deleting from a concatenation is deleting from each part |
| `ToDoList.DeleteSnoc` | today-s-todo/src/index.tsx:43 | deleting from a list with one more task at the end keeps that task exactly when its id differs |
| `ToDoList.DeleteUniqueLast` | today-s-todo/src/index.tsx:43 | with unique ids, deleting the id of the last task removes just that task |
| `ToDoList.DeleteIdempotent` | today-s-todo/src/index.tsx:43 | deleting the same id twice equals deleting it once |
| `ToDoList.DeleteKeepsUniqueIds` | today-s-todo/src/index.tsx:43 | a delete keeps ids unique |
| `ToDoList.ToggleTwiceIsIdentity` | today-s-todo/src/index.tsx:48-52 | toggling the same id twice gives back the list |
| `ToDoList.ToggleKeepsUniqueIds` | today-s-todo/src/index.tsx:48-52 | a toggle keeps ids unique |
| `ToDoList.ToggleDeleteCommute` | today-s-todo/src/index.tsx:43-52 | toggling one id and deleting another (or the same) commute |
| `ToDoList.AddKeepsUniqueIdsIff` | today-s-todo/src/index.tsx:38 | on a list with unique ids, an add keeps them unique if and only if no task already carries length + 1 |
| `ToDoList.DeleteUndoesAdd` | today-s-todo/src/index.tsx:38-43 | when length + 1 is not in use, deleting it after an add gives back the list |
| `ToDoList.AddAll` | today-s-todo/src/index.tsx:38 | adding n titles to the empty list gives n tasks |
| `ToDoList.AddAllNumbersFromOne` | today-s-todo/src/index.tsx:38 | without deletes the i-th task is open, has the i-th title and id i + 1 |
| `ToDoList.AddAllHasUniqueIds` | today-s-todo/src/index.tsx:38 | without deletes ids are unique |
| `ToDoList.AddAfterDeleteCanDuplicateId` | today-s-todo/src/index.tsx:38-43 | the list built by three adds to the empty list (ids 1, 2, 3) has unique ids; deleting id 1 from it and adding gives three tasks of which the second and third both carry id 3, so ids are no longer unique; hence some list with unique ids loses uniqueness through a delete followed by an add |
| `ToDoList.DeleteLastThenAddReusesId` | today-s-todo/src/index.tsx:38-43 | deleting the last task when its id is the length, then adding, gives the new task that same id |
| `Command.LoadStored` | today-s-todo/src/index.tsx:15-28 | the `!todoJson` test of line 17 is the helper `NothingStored` (no value, or the empty text); then the list is left as it is; otherwise the list becomes what the parser returns, and a parse failure is the re-thrown error |
| `Command.NothingStoredKeepsEmptyList` | today-s-todo/src/index.tsx:12-17 | with nothing stored the initial empty list stays empty and nothing is thrown |
| `Command.Command.constructor` | today-s-todo/src/index.tsx:12 | the state starts as the empty list |
| `Command.Command.Load` | today-s-todo/src/index.tsx:15-28 | the state becomes the loaded list, or stays as it was and the parse error is returned |
| `Command.Command.HandleAddToDo` | today-s-todo/src/index.tsx:37-39 | the state is replaced by `AddToDo` of the old state |
| `Command.Command.HandleDeleteToDo` | today-s-todo/src/index.tsx:42-44 | the state is replaced by `DeleteToDo` of the old state |
| `Command.Command.HandleToggleIsCompleted` | today-s-todo/src/index.tsx:47-53 | the state is replaced by `ToggleIsCompleted` of the old state |
| `Command.DuplicateIdScenario` | today-s-todo/src/index.tsx:12-43 | a fresh command with nothing stored, after three adds, a delete of id 1 and one add, holds three tasks of which two carry id 3 |

## Left out

- Rendering: the list, form, action panel, icons, keyboard shortcuts and the navigation `pop()` are host UI (index.tsx lines 55-140).
- React scheduling: the order in which the asynchronous load and user actions interleave, and the `isLoading` flag, are framework behaviour; the model applies one operation at a time.
- The write-back effect (`LocalStorage.setItem` of the serialised list on every change) is asynchronous foreign I/O and is not modelled.
- LoadError: the re-thrown error carries no content; what the exception raised by `JSON.parse` holds is not modelled.
- Local storage and JSON: the stored value is a parameter of the load, and `JSON.parse` is a parameter `parse` that returns the list or fails; the model does not check that parsed data has the record shape (the source casts it unchecked) and contains no serialiser.
- Ids are JavaScript numbers in the source; the model uses unbounded integers, so NaN, fractional ids and precision loss above 2^53 are not modelled.
- Titles are not validated, as in the source: any string, including the empty one, is accepted.
