/**
  The todo list of the "today's todo" command: the `ToDoType` record and the three
  handlers that compute the next list from the current one (add, delete, toggle).
  Each handler is a pure function of the current list; the component replaces its
  state with the result.
 */
module ToDoList {

  /** One task: `ToDoType`. Ids are JavaScript numbers in the source; here they are integers. */
  datatype ToDo = ToDo(id: int, title: string, isCompleted: bool)

  /** Some task of the list carries `id`. */
  predicate HasId(todos: seq<ToDo>, id: int)
  {
    exists i :: 0 <= i < |todos| && todos[i].id == id
  }

  /** No two tasks of the list share an id. */
  predicate UniqueIds(todos: seq<ToDo>)
  {
    forall i, j :: 0 <= i < j < |todos| ==> todos[i].id != todos[j].id
  }

  /** `handleAddToDo`: append an open task whose id is the current length plus one. */
  function AddToDo(todos: seq<ToDo>, title: string): (r: seq<ToDo>)
    ensures |r| == |todos| + 1
    ensures forall i :: 0 <= i < |todos| ==> r[i] == todos[i]
    ensures r[|todos|].id == |todos| + 1 && r[|todos|].title == title && !r[|todos|].isCompleted
  {
    todos + [ToDo(|todos| + 1, title, false)]
  }

  /** `handleDeleteToDo`: keep the tasks whose id differs from `id` (a `filter`). */
  function DeleteToDo(todos: seq<ToDo>, id: int): (r: seq<ToDo>)
    ensures |r| <= |todos|
    ensures forall i :: 0 <= i < |r| ==> r[i].id != id
    ensures !HasId(todos, id) ==> r == todos
  {
    if todos == [] then []
    else
      assert !HasId(todos, id) ==> !HasId(todos[1..], id) by {
        if HasId(todos[1..], id) {
          var i :| 0 <= i < |todos[1..]| && todos[1..][i].id == id;
          assert todos[i + 1].id == id;
        }
      }
      if todos[0].id != id then [todos[0]] + DeleteToDo(todos[1..], id)
      else DeleteToDo(todos[1..], id)
  }

  /** The body of the `map` callback of `handleToggleIsCompleted`. */
  function ToggleOne(todo: ToDo, id: int): (r: ToDo)
  {
    if todo.id != id then todo else ToDo(id, todo.title, !todo.isCompleted)
  }

  /** `handleToggleIsCompleted`: flip `isCompleted` of every task whose id is `id` (a `map`). */
  function ToggleIsCompleted(todos: seq<ToDo>, id: int): (r: seq<ToDo>)
    ensures |r| == |todos|
    ensures forall i :: 0 <= i < |todos| ==> r[i].id == todos[i].id && r[i].title == todos[i].title
    ensures forall i :: 0 <= i < |todos| ==>
              r[i].isCompleted == (if todos[i].id == id then !todos[i].isCompleted else todos[i].isCompleted)
    ensures forall i :: 0 <= i < |todos| && todos[i].id != id ==> r[i] == todos[i]
    ensures !HasId(todos, id) ==> r == todos
  {
    if todos == [] then []
    else [ToggleOne(todos[0], id)] + ToggleIsCompleted(todos[1..], id)
  }

  // ---------------------------------------------------------------------------
  // Delete: which positions survive, and in which order

  /** The positions of `todos` whose task does not carry `id`, in increasing order. */
  ghost function KeptIndices(todos: seq<ToDo>, id: int): (r: seq<nat>)
    decreases |todos|
  {
    if todos == [] then []
    else
      var n := |todos| - 1;
      KeptIndices(todos[..n], id) + (if todos[n].id != id then [n] else [])
  }

  /** Every kept position is in range and holds a task with another id. */
  lemma {:induction false} KeptIndicesInRange(todos: seq<ToDo>, id: int)
    ensures forall k :: 0 <= k < |KeptIndices(todos, id)| ==>
              KeptIndices(todos, id)[k] < |todos| && todos[KeptIndices(todos, id)[k]].id != id
    decreases |todos|
  {
    if todos != [] {
      var n := |todos| - 1;
      var front := todos[..n];
      var kept, frontKept := KeptIndices(todos, id), KeptIndices(front, id);
      KeptIndicesInRange(front, id);
      assert kept == frontKept + (if todos[n].id != id then [n] else []);
      forall k | 0 <= k < |frontKept|
        ensures kept[k] < |todos| && todos[kept[k]].id != id
      {
        assert kept[k] == frontKept[k] && front[frontKept[k]] == todos[frontKept[k]];
      }
    }
  }

  /** The kept positions are listed strictly increasing. */
  lemma {:induction false} KeptIndicesIncreasing(todos: seq<ToDo>, id: int)
    ensures forall k, l :: 0 <= k < l < |KeptIndices(todos, id)| ==>
              KeptIndices(todos, id)[k] < KeptIndices(todos, id)[l]
    decreases |todos|
  {
    if todos != [] {
      var n := |todos| - 1;
      var front := todos[..n];
      var kept, frontKept := KeptIndices(todos, id), KeptIndices(front, id);
      KeptIndicesIncreasing(front, id);
      KeptIndicesInRange(front, id);
      assert kept == frontKept + (if todos[n].id != id then [n] else []);
    }
  }

  /** Every position holding a task with another id is kept. */
  lemma {:induction false} KeptIndicesComplete(todos: seq<ToDo>, id: int)
    ensures forall i :: 0 <= i < |todos| && todos[i].id != id ==> i in KeptIndices(todos, id)
    decreases |todos|
  {
    if todos != [] {
      var n := |todos| - 1;
      var front := todos[..n];
      var kept, frontKept := KeptIndices(todos, id), KeptIndices(front, id);
      KeptIndicesComplete(front, id);
      assert kept == frontKept + (if todos[n].id != id then [n] else []);
      forall i | 0 <= i < |todos| && todos[i].id != id
        ensures i in kept
      {
        if i < n {
          assert front[i] == todos[i];
          assert i in frontKept;
        }
      }
    }
  }

  /** Deleting from a concatenation deletes from each part. */
  lemma {:induction false} DeleteConcat(a: seq<ToDo>, b: seq<ToDo>, id: int)
    ensures DeleteToDo(a + b, id) == DeleteToDo(a, id) + DeleteToDo(b, id)
    decreases |a|
  {
    if a != [] {
      assert (a + b)[1..] == a[1..] + b;
      DeleteConcat(a[1..], b, id);
    } else {
      assert a + b == b;
    }
  }

  /** Deleting from a list with one more task at the end. */
  lemma DeleteSnoc(front: seq<ToDo>, last: ToDo, id: int)
    ensures DeleteToDo(front + [last], id)
         == DeleteToDo(front, id) + (if last.id != id then [last] else [])
  {
    DeleteConcat(front, [last], id);
    assert [last][1..] == [];
  }

  /** The k-th survivor of a delete is the task at the k-th kept position: delete keeps every
      task whose id differs, drops every task carrying `id`, and keeps the relative order. */
  lemma {:induction false} DeleteFollowsKeptIndices(todos: seq<ToDo>, id: int)
    ensures |DeleteToDo(todos, id)| == |KeptIndices(todos, id)|
    ensures forall k :: 0 <= k < |KeptIndices(todos, id)| ==>
              KeptIndices(todos, id)[k] < |todos| &&
              DeleteToDo(todos, id)[k] == todos[KeptIndices(todos, id)[k]]
    decreases |todos|
  {
    if todos != [] {
      var n := |todos| - 1;
      var front, last := todos[..n], todos[n];
      assert todos == front + [last];
      DeleteSnoc(front, last, id);
      DeleteFollowsKeptIndices(front, id);
    }
  }

  /** A task survives a delete exactly when it is in the list and carries another id. */
  lemma {:induction false} DeleteMembers(todos: seq<ToDo>, id: int, x: ToDo)
    ensures x in DeleteToDo(todos, id) <==> x in todos && x.id != id
    decreases |todos|
  {
    if todos != [] {
      assert todos == [todos[0]] + todos[1..];
      DeleteMembers(todos[1..], id, x);
    }
  }

  /** Deleting the same id twice is deleting it once. */
  lemma DeleteIdempotent(todos: seq<ToDo>, id: int)
    ensures DeleteToDo(DeleteToDo(todos, id), id) == DeleteToDo(todos, id)
  {
  }

  /** Deleting keeps ids unique. */
  lemma DeleteKeepsUniqueIds(todos: seq<ToDo>, id: int)
    requires UniqueIds(todos)
    ensures UniqueIds(DeleteToDo(todos, id))
  {
    DeleteFollowsKeptIndices(todos, id);
    KeptIndicesIncreasing(todos, id);
  }

  // ---------------------------------------------------------------------------
  // Toggle

  /** Toggling the same id twice gives back the list. */
  lemma ToggleTwiceIsIdentity(todos: seq<ToDo>, id: int)
    ensures ToggleIsCompleted(ToggleIsCompleted(todos, id), id) == todos
  {
  }

  /** Toggling keeps ids unique, since it keeps every id where it was. */
  lemma ToggleKeepsUniqueIds(todos: seq<ToDo>, id: int)
    requires UniqueIds(todos)
    ensures UniqueIds(ToggleIsCompleted(todos, id))
  {
  }

  /** Toggling and deleting commute, whichever ids they are given. */
  lemma {:induction false} ToggleDeleteCommute(todos: seq<ToDo>, toggled: int, deleted: int)
    ensures DeleteToDo(ToggleIsCompleted(todos, toggled), deleted)
         == ToggleIsCompleted(DeleteToDo(todos, deleted), toggled)
    decreases |todos|
  {
    if todos != [] {
      var t := ToggleIsCompleted(todos, toggled);
      assert t == [ToggleOne(todos[0], toggled)] + ToggleIsCompleted(todos[1..], toggled);
      assert t[1..] == ToggleIsCompleted(todos[1..], toggled);
      ToggleDeleteCommute(todos[1..], toggled, deleted);
      if todos[0].id != deleted {
        var d := DeleteToDo(todos[1..], deleted);
        assert ([todos[0]] + d)[1..] == d;
      }
    }
  }

  // ---------------------------------------------------------------------------
  // Add and the ids it hands out

  /** Adding keeps ids unique exactly when no task already carries the length plus one. */
  lemma AddKeepsUniqueIdsIff(todos: seq<ToDo>, title: string)
    requires UniqueIds(todos)
    ensures UniqueIds(AddToDo(todos, title)) <==> !HasId(todos, |todos| + 1)
  {
  }

  /** When the new id is not in use, deleting it undoes the add. */
  lemma DeleteUndoesAdd(todos: seq<ToDo>, title: string)
    requires !HasId(todos, |todos| + 1)
    ensures DeleteToDo(AddToDo(todos, title), |todos| + 1) == todos
  {
    DeleteSnoc(todos, ToDo(|todos| + 1, title, false), |todos| + 1);
  }

  /** The list obtained from the empty list by adding `titles` one after the other. */
  function AddAll(titles: seq<string>): (r: seq<ToDo>)
    ensures |r| == |titles|
    decreases |titles|
  {
    if titles == [] then []
    else AddToDo(AddAll(titles[..|titles| - 1]), titles[|titles| - 1])
  }

  /** Without deletes, the i-th task carries id i + 1 and the i-th title, still open. */
  lemma {:induction false} AddAllNumbersFromOne(titles: seq<string>)
    ensures forall i :: 0 <= i < |titles| ==> AddAll(titles)[i] == ToDo(i + 1, titles[i], false)
    decreases |titles|
  {
    if titles != [] {
      var n := |titles| - 1;
      AddAllNumbersFromOne(titles[..n]);
    }
  }

  /** Without deletes, ids are unique. */
  lemma AddAllHasUniqueIds(titles: seq<string>)
    ensures UniqueIds(AddAll(titles))
  {
    AddAllNumbersFromOne(titles);
  }

  /** Ids are not unique in general: three adds to the empty list, then deleting id 1 and
      adding again, gives two tasks with id 3. */
  lemma AddAfterDeleteCanDuplicateId()
    ensures UniqueIds(AddAll(["a", "b", "c"]))
    ensures var again := AddToDo(DeleteToDo(AddAll(["a", "b", "c"]), 1), "d");
              |again| == 3 && again[1].id == 3 && again[2].id == 3 && !UniqueIds(again)
    ensures exists todos: seq<ToDo>, title: string ::
              UniqueIds(todos) && !UniqueIds(AddToDo(DeleteToDo(todos, 1), title))
  {
    var todos := AddAll(["a", "b", "c"]);
    AddAllNumbersFromOne(["a", "b", "c"]);
    assert todos == [ToDo(1, "a", false), ToDo(2, "b", false), ToDo(3, "c", false)];
    AddAllHasUniqueIds(["a", "b", "c"]);
    var deleted := DeleteToDo(todos, 1);
    assert deleted == [todos[1], todos[2]];
    var again := AddToDo(deleted, "d");
    assert again[1].id == 3 && again[2].id == 3;
  }

  /** With unique ids, deleting the id of the last task removes just that task. */
  lemma DeleteUniqueLast(todos: seq<ToDo>)
    requires UniqueIds(todos) && |todos| > 0
    ensures DeleteToDo(todos, todos[|todos| - 1].id) == todos[..|todos| - 1]
  {
    var n := |todos| - 1;
    var front, last := todos[..n], todos[n];
    forall i | 0 <= i < n
      ensures front[i].id != last.id
    {
      assert front[i] == todos[i];
    }
    assert !HasId(front, last.id);
    assert todos == front + [last];
    DeleteSnoc(front, last, last.id);
    assert front + [] == front;
  }

  /** Deleting the last task when it carries the length as id, then adding, hands the very
      same id to the new task. */
  lemma DeleteLastThenAddReusesId(todos: seq<ToDo>, title: string)
    requires UniqueIds(todos) && |todos| > 0 && todos[|todos| - 1].id == |todos|
    ensures AddToDo(DeleteToDo(todos, |todos|), title)
         == todos[..|todos| - 1] + [ToDo(|todos|, title, false)]
  {
    DeleteUniqueLast(todos);
  }
}
