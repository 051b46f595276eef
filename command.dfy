/**
  The command component: its `todos` state, the one-time load from local storage and the
  three event handlers, each of which replaces the whole list with the value the matching
  function of ToDoList computes.
 */
module Command {
  import opened Wrappers
  import opened ToDoList

  /** The exception the load effect re-throws when the stored text does not parse; what the
      parser's own exception carries is not modelled. */
  datatype LoadError = ParseError

  /** A stored value that JavaScript treats as false in `if (!todoJson)`: no value, or the empty text. */
  predicate NothingStored(stored: Option<string>): (r: bool)
  {
    stored == None || stored == Some("")
  }

  /**
    The load effect: `stored` is what local storage holds under the key "todos", `parse`
    stands for JSON.parse (None when it throws). The result is the list the state holds
    afterwards, or the error the effect throws.
   */
  function LoadStored(todos: seq<ToDo>, stored: Option<string>, parse: string -> Option<seq<ToDo>>)
    : (r: Result<seq<ToDo>, LoadError>)
    ensures NothingStored(stored) ==> r == Success(todos)
    ensures !NothingStored(stored) ==> (r.Success? <==> parse(stored.value).Some?)
    ensures !NothingStored(stored) && r.Success? ==> r.value == parse(stored.value).value
    ensures r.Failure? ==> !NothingStored(stored) && parse(stored.value).None?
  {
    match stored
    case None => Success(todos)
    case Some(json) =>
      if json == "" then Success(todos)
      else
        match parse(json)
        case Some(parsed) => Success(parsed)
        case None => Failure(ParseError)
  }

  /** With nothing in storage, loading leaves the initial empty list as it is and throws nothing. */
  lemma NothingStoredKeepsEmptyList(stored: Option<string>, parse: string -> Option<seq<ToDo>>)
    requires NothingStored(stored)
    ensures LoadStored([], stored, parse) == Success([])
  {
  }

  /** The state of the component: the list that `setTodos` replaces. */
  class Command {
    var todos: seq<ToDo>

    /** `useState<ToDoType[]>([])`: the list starts empty. */
    constructor ()
      ensures todos == []
    {
      todos := [];
    }

    /** The load effect; on a parse error the list is left as it was and the error is returned. */
    method Load(stored: Option<string>, parse: string -> Option<seq<ToDo>>) returns (thrown: Option<LoadError>)
      modifies this
      ensures LoadStored(old(todos), stored, parse).Success? ==>
                todos == LoadStored(old(todos), stored, parse).value && thrown == None
      ensures LoadStored(old(todos), stored, parse).Failure? ==>
                todos == old(todos) && thrown == Some(LoadStored(old(todos), stored, parse).error)
    {
      var r := LoadStored(todos, stored, parse);
      match r
      case Success(loaded) =>
        todos := loaded;
        thrown := None;
      case Failure(e) =>
        thrown := Some(e);
    }

    /** `handleAddToDo`. */
    method HandleAddToDo(title: string)
      modifies this
      ensures todos == AddToDo(old(todos), title)
    {
      todos := AddToDo(todos, title);
    }

    /** `handleDeleteToDo`. */
    method HandleDeleteToDo(id: int)
      modifies this
      ensures todos == DeleteToDo(old(todos), id)
    {
      todos := DeleteToDo(todos, id);
    }

    /** `handleToggleIsCompleted`. */
    method HandleToggleIsCompleted(id: int)
      modifies this
      ensures todos == ToggleIsCompleted(old(todos), id)
    {
      todos := ToggleIsCompleted(todos, id);
    }
  }

  /** A client of the component: a fresh command with nothing stored, three adds, a delete of
      id 1 and one more add end with two tasks that carry id 3. */
  method DuplicateIdScenario() returns (c: Command)
    ensures |c.todos| == 3 && c.todos[1].id == 3 && c.todos[2].id == 3
  {
    c := new Command();
    var thrown := c.Load(None, (json: string) => None);
    assert thrown == None && c.todos == [];
    c.HandleAddToDo("a");
    c.HandleAddToDo("b");
    c.HandleAddToDo("c");
    assert c.todos == [ToDo(1, "a", false), ToDo(2, "b", false), ToDo(3, "c", false)];
    c.HandleDeleteToDo(1);
    assert c.todos == [ToDo(2, "b", false), ToDo(3, "c", false)];
    c.HandleAddToDo("d");
  }
}
