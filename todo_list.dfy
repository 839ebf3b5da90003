/** The `TodoList` component as an object: its three state cells are fields, and
    each event handler is a method that overwrites them. Every method is proved to
    commit exactly the state its `TodoState` function describes. */
module TodoComponent {
  import opened Whitespace
  import opened TodoState

  class TodoList {
    var tasks: seq<string>
    var inputValue: string
    var editIndex: Option<nat>

    /** The committed state, as the view reads it. */
    function Snapshot(): State
      reads this
    {
      State(tasks, inputValue, editIndex)
    }

    /** Mount: `useState([])`, `useState("")`, `useState(null)`. */
    constructor ()
      ensures Snapshot() == Init()
    {
      tasks := [];
      inputValue := "";
      editIndex := None;
    }

    /** The text field's `onChange`. */
    method SetInputValue(text: string)
      modifies this
      ensures Snapshot() == Change(old(Snapshot()), text)
    {
      inputValue := text;
    }

    /** `handleAddOrUpdate`, run by the Add/Update button. */
    method HandleAddOrUpdate()
      requires SubmitDefined(Snapshot())
      modifies this
      ensures Snapshot() == Submit(old(Snapshot()))
    {
      if Trim(inputValue) == "" {
        return;
      }
      ghost var before := Snapshot();
      if editIndex != None {
        var updatedTasks := tasks;
        // Assigning at index `|updatedTasks|` grows the array by one element.
        if editIndex.value < |updatedTasks| {
          updatedTasks := updatedTasks[editIndex.value := inputValue];
        } else {
          updatedTasks := updatedTasks + [inputValue];
        }
        tasks := updatedTasks;
        editIndex := None;
      } else {
        tasks := tasks + [inputValue];
      }
      inputValue := "";
      assert Snapshot() == Submit(before);
    }

    /** `handleDelete`, run by a task's Delete button, as written: the list is set
        to the elements `splice` removed. */
    method HandleDelete(index: nat)
      modifies this
      ensures Snapshot() == Delete(old(Snapshot()), index)
    {
      var filtered := Splice(tasks, index, 1).removed;
      tasks := filtered;
      if editIndex == Some(index) {
        editIndex := None;
      }
    }

    /** `handleEdit`, run by a task's Edit button. */
    method HandleEdit(index: nat)
      requires index < |tasks|
      modifies this
      ensures Snapshot() == Edit(old(Snapshot()), index)
    {
      inputValue := tasks[index];
      editIndex := Some(index);
    }

    /** `handleKeyPress`, run on every key pressed in the text field. */
    method HandleKeyPress(key: string)
      requires key == "Enter" ==> SubmitDefined(Snapshot())
      modifies this
      ensures Snapshot() == KeyPress(old(Snapshot()), key)
    {
      if key == "Enter" {
        HandleAddOrUpdate();
      }
    }
  }

  /** Mount the component and add "a", "b" and "c", the second with the Enter key. */
  method AddThree() returns (list: TodoList)
    ensures fresh(list)
    ensures list.Snapshot() == State(["a", "b", "c"], "", None)
    ensures EditInRange(list.Snapshot()) && TasksNonBlank(list.Snapshot())
  {
    list := new TodoList();
    list.SetInputValue("a");
    assert !IsBlank("a") by { assert !IsWs("a"[0]); }
    list.HandleAddOrUpdate();
    assert list.Snapshot() == State(["a"], "", None);
    list.SetInputValue("b");
    assert !IsBlank("b") by { assert !IsWs("b"[0]); }
    list.HandleKeyPress("Enter");
    assert list.Snapshot() == State(["a", "b"], "", None);
    list.SetInputValue("c");
    assert !IsBlank("c") by { assert !IsWs("c"[0]); }
    list.HandleAddOrUpdate();
    assert list.tasks == ["a", "b", "c"];
  }

  /** A session driven through the component: add three tasks, start editing the
      last, delete the first. The list collapses to the deleted task and the edit
      index is left past its end. */
  method StaleEditSession() returns (list: TodoList)
    ensures list.Snapshot() == State(["a"], "c", Some(2))
    ensures !EditInRange(list.Snapshot())
  {
    list := AddThree();
    list.HandleEdit(2);
    list.HandleDelete(0);
  }
}
