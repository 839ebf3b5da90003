/** The state of the `TodoList` component and its event handlers, as values: each
    handler is a function from the state before the event to the state React
    commits after it. */
module TodoState {
  import opened Whitespace

  datatype Option<T> = None | Some(value: T)

  /** The three `useState` cells: the task texts, the text field, and the index of
      the task being edited (`null` is `None`). */
  datatype State = State(tasks: seq<string>, input: string, editIndex: Option<nat>)

  /** The edit index, when set, names an existing task. */
  predicate EditInRange(s: State) {
    s.editIndex.None? || s.editIndex.value < |s.tasks|
  }

  /** No task trims to the empty string. */
  predicate TasksNonBlank(s: State) {
    forall k :: 0 <= k < |s.tasks| ==> !IsBlank(s.tasks[k])
  }

  /** The state at mount: no tasks, an empty field, nothing being edited. */
  function Init(): (s: State)
    ensures EditInRange(s) && TasksNonBlank(s) && ShowsEmptyMessage(s)
    ensures Label(s) == "Add" && s.input == ""
  {
    State([], "", None)
  }

  /** The derived label of the submit button: "Update" while a task is being
      edited, "Add" otherwise. */
  function Label(s: State): (r: string)
    ensures r == "Update" || r == "Add"
    ensures r == "Update" <==> s.editIndex.Some?
  {
    if s.editIndex != None then "Update" else "Add"
  }

  /** The derived flag that shows the "No tasks yet" message. */
  function ShowsEmptyMessage(s: State): (r: bool)
    ensures r <==> s.tasks == []
  {
    |s.tasks| == 0
  }

  /** The text field's `onChange`: it stores the new text, whatever it is, and
      touches nothing else. */
  function Change(s: State, text: string): (r: State)
    ensures r.input == text
    ensures r.tasks == s.tasks && r.editIndex == s.editIndex
  {
    s.(input := text)
  }

  /** Submitting is defined unless it would write a non-blank input to an edit
      index beyond the end of the list, which in JavaScript leaves a hole in the
      array. An edit index equal to the length is defined: the write appends. */
  predicate SubmitDefined(s: State) {
    IsBlank(s.input) || s.editIndex.None? || s.editIndex.value <= |s.tasks|
  }

  /** `handleAddOrUpdate`: blank input (`trim()` gives "", see `Trim`) is ignored;
      otherwise the untrimmed input replaces the task being edited, or is appended
      when nothing is edited (or when the edit index is the length of the list,
      where the indexed write lands one past the end), and the field and the edit
      index are cleared. */
  function Submit(s: State): (r: State)
    requires SubmitDefined(s)
    ensures IsBlank(s.input) ==> r == s
    ensures !IsBlank(s.input) ==> r.input == "" && r.editIndex == None
    ensures !IsBlank(s.input) && !EditInRange(s) ==> s.editIndex == Some(|s.tasks|)
    ensures !IsBlank(s.input) && (s.editIndex.None? || s.editIndex == Some(|s.tasks|)) ==>
      |r.tasks| == |s.tasks| + 1 && r.tasks[..|s.tasks|] == s.tasks &&
      r.tasks[|s.tasks|] == s.input
    ensures !IsBlank(s.input) && s.editIndex.Some? && s.editIndex.value < |s.tasks| ==>
      |r.tasks| == |s.tasks| && r.tasks[s.editIndex.value] == s.input &&
      forall k :: 0 <= k < |s.tasks| && k != s.editIndex.value ==> r.tasks[k] == s.tasks[k]
  {
    if IsBlank(s.input) then s
    else match s.editIndex
      case Some(i) =>
        if i < |s.tasks| then State(s.tasks[i := s.input], "", None)
        else State(s.tasks + [s.input], "", None)
      case None => State(s.tasks + [s.input], "", None)
  }

  /** `handleKeyPress`: the Enter key submits, every other key changes nothing. */
  function KeyPress(s: State, key: string): (r: State)
    requires key == "Enter" ==> SubmitDefined(s)
    ensures key != "Enter" ==> r == s
    ensures key == "Enter" ==> r == Submit(s)
  {
    if key == "Enter" then Submit(s) else s
  }

  /** `handleEdit`: the field is loaded with the task's text and the task becomes
      the one being edited; the list is not changed. */
  function Edit(s: State, index: nat): (r: State)
    requires index < |s.tasks|
    ensures r.tasks == s.tasks && r.input == s.tasks[index] && r.editIndex == Some(index)
    ensures EditInRange(r) && Label(r) == "Update"
  {
    State(s.tasks, s.tasks[index], Some(index))
  }

  /** The result of JavaScript's `a.splice(start, count)` for a non-negative
      `start`: the elements it removes and the array it leaves behind. */
  datatype Spliced<T> = Spliced(removed: seq<T>, kept: seq<T>)

  function Splice<T>(a: seq<T>, start: nat, count: nat): (r: Spliced<T>)
    ensures var at := if start < |a| then start else |a|;
      at <= |r.kept| && a == r.kept[..at] + r.removed + r.kept[at..]
    ensures |r.removed| == if start + count <= |a| then count
                           else if start < |a| then |a| - start else 0
  {
    var at := if start < |a| then start else |a|;
    var end := if at + count < |a| then at + count else |a|;
    Spliced(a[at..end], a[..at] + a[end..])
  }

  /** The edit index after deleting `index`: cleared when it named that task,
      otherwise left as it was (never shifted). */
  function EditIndexAfterDelete(e: Option<nat>, index: nat): (r: Option<nat>)
    ensures r.None? <==> (e.None? || e.value == index)
    ensures r.Some? ==> r == e
  {
    if e == Some(index) then None else e
  }

  /** `handleDelete` as written: `setTasks` receives what `splice` REMOVED, so the
      list becomes the deleted task alone (or empty, for an index past the end). */
  function Delete(s: State, index: nat): (r: State)
    ensures index < |s.tasks| ==> r.tasks == [s.tasks[index]]
    ensures index >= |s.tasks| ==> r.tasks == []
    ensures r.input == s.input
    ensures r.editIndex == EditIndexAfterDelete(s.editIndex, index)
  {
    State(Splice(s.tasks, index, 1).removed, s.input, EditIndexAfterDelete(s.editIndex, index))
  }

  /** `handleDelete` as evidently intended: the list keeps what `splice` LEFT, i.e.
      the task at `index` is removed and the later ones move down by one. The
      edit index is treated exactly as in the code. */
  function IntendedDelete(s: State, index: nat): (r: State)
    ensures index < |s.tasks| ==>
      |r.tasks| == |s.tasks| - 1 &&
      (forall k :: 0 <= k < index ==> r.tasks[k] == s.tasks[k]) &&
      (forall k :: index <= k < |r.tasks| ==> r.tasks[k] == s.tasks[k + 1])
    ensures index >= |s.tasks| ==> r.tasks == s.tasks
    ensures multiset(r.tasks) + (if index < |s.tasks| then multiset{s.tasks[index]} else multiset{})
            == multiset(s.tasks)
    ensures r.input == s.input
    ensures r.editIndex == EditIndexAfterDelete(s.editIndex, index)
  {
    SpliceOne(s.tasks, index);
    State(Splice(s.tasks, index, 1).kept, s.input, EditIndexAfterDelete(s.editIndex, index))
  }

  /** Splicing out one element at a valid index removes exactly that element and
      keeps the others in order; past the end it removes nothing. */
  lemma SpliceOne<T>(a: seq<T>, index: nat)
    ensures index < |a| ==> Splice(a, index, 1) == Spliced([a[index]], a[..index] + a[index + 1..])
    ensures index < |a| ==> multiset(a) == multiset(a[..index] + a[index + 1..]) + multiset{a[index]}
    ensures index >= |a| ==> Splice(a, index, 1) == Spliced([], a)
  {
    if index < |a| {
      assert a == a[..index] + [a[index]] + a[index + 1..];
    } else {
      assert a[..|a|] + a[|a|..] == a;
    }
  }
}
