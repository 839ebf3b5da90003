/** Properties of the handlers in `TodoState`, each relating one or more of them to
    the invariants or to one another. */
module TodoProperties {
  import opened Whitespace
  import opened TodoState

  /** Submitting keeps the edit index in range and the tasks non-blank. */
  lemma SubmitPreservesInvariants(s: State)
    requires SubmitDefined(s)
    ensures EditInRange(s) ==> EditInRange(Submit(s))
    ensures TasksNonBlank(s) ==> TasksNonBlank(Submit(s))
  {
  }

  /** Loading a task into the field keeps both invariants. */
  lemma EditPreservesInvariants(s: State, index: nat)
    requires index < |s.tasks|
    ensures EditInRange(Edit(s, index))
    ensures TasksNonBlank(s) ==> TasksNonBlank(Edit(s, index))
  {
  }

  /** Typing keeps both invariants. */
  lemma ChangePreservesInvariants(s: State, text: string)
    ensures EditInRange(s) ==> EditInRange(Change(s, text))
    ensures TasksNonBlank(s) ==> TasksNonBlank(Change(s, text))
  {
  }

  /** The delete as written keeps the tasks non-blank: the one task left is one
      that was already there. */
  lemma DeletePreservesNonBlank(s: State, index: nat)
    ensures TasksNonBlank(s) ==> TasksNonBlank(Delete(s, index))
  {
  }

  /** With the delete as written, deleting a shown task never empties the list:
      the "No tasks yet" message cannot come back once a task exists. */
  lemma DeleteNeverEmpties(s: State, index: nat)
    requires index < |s.tasks|
    ensures !ShowsEmptyMessage(Delete(s, index))
  {
  }

  /** Round trip: editing a non-blank task and submitting the loaded text unchanged
      leaves the list exactly as it was and ends the edit with an empty field. */
  lemma EditThenSubmitRestores(s: State, index: nat)
    requires index < |s.tasks| && !IsBlank(s.tasks[index])
    ensures SubmitDefined(Edit(s, index))
    ensures Submit(Edit(s, index)) == State(s.tasks, "", None)
  {
  }

  /** The delete as written agrees with the intended one, for an index on screen,
      only on a list of two equal tasks: there the deleted task and the task left
      behind happen to be the same text. */
  lemma DeleteMatchesIntendedIff(s: State, index: nat)
    requires index < |s.tasks|
    ensures Delete(s, index) == IntendedDelete(s, index) <==>
            |s.tasks| == 2 && s.tasks[0] == s.tasks[1]
  {
    SpliceOne(s.tasks, index);
    var d, e := Delete(s, index), IntendedDelete(s, index);
    assert d.tasks == [s.tasks[index]];
    assert e.tasks == s.tasks[..index] + s.tasks[index + 1..];
    if |s.tasks| == 2 {
      assert e.tasks == [s.tasks[1 - index]];
    } else {
      assert |e.tasks| != |d.tasks|;
    }
  }

  /** Deleting "a" from ["a", "b", "c"] leaves ["a"] as written, where ["b", "c"]
      was intended. */
  lemma DeleteFirstOfThree()
    ensures Delete(State(["a", "b", "c"], "", None), 0).tasks == ["a"]
    ensures IntendedDelete(State(["a", "b", "c"], "", None), 0).tasks == ["b", "c"]
  {
  }

  /** Editing the second of three tasks, typing "B" and submitting replaces that task
      only. */
  lemma EditSecondOfThree()
    ensures var s := Change(Edit(State(["a", "b", "c"], "", None), 1), "B");
      SubmitDefined(s) && Submit(s) == State(["a", "B", "c"], "", None)
  {
    var s := Change(Edit(State(["a", "b", "c"], "", None), 1), "B");
    assert !IsBlank(s.input) by { assert !IsWs(s.input[0]); }
  }

  /** Neither delete shifts the edit index, so it can be left past the end of the
      list: edit "c" in ["a", "b", "c"], then delete "a". After the delete as
      written a submit of the loaded text would write beyond the end, leaving a
      hole. */
  lemma DeleteLeavesEditIndexStale()
    ensures var s := Edit(State(["a", "b", "c"], "", None), 2);
      Delete(s, 0) == State(["a"], "c", Some(2)) &&
      !EditInRange(Delete(s, 0)) && !SubmitDefined(Delete(s, 0)) &&
      IntendedDelete(s, 0) == State(["b", "c"], "c", Some(2)) &&
      !EditInRange(IntendedDelete(s, 0))
  {
    var s := Edit(State(["a", "b", "c"], "", None), 2);
    assert s.input == "c";
    assert !IsBlank("c") by { assert !IsWs("c"[0]); }
    assert IntendedDelete(s, 0).tasks == ["b", "c"];
  }

  /** An edit index equal to the length of the list is left by a delete, never by
      an edit. The submit then appends the input as a new last task, exactly as
      if nothing were being edited. */
  lemma SubmitAtLengthAppends(s: State)
    requires !IsBlank(s.input) && s.editIndex == Some(|s.tasks|)
    ensures SubmitDefined(s)
    ensures Submit(s) == Submit(s.(editIndex := None)) == State(s.tasks + [s.input], "", None)
  {
  }

  /** After the intended delete in the same session the state is
      `State(["b", "c"], "c", Some(2))` (see `DeleteLeavesEditIndexStale`): the stale
      edit index equals the length of the list, so the submit of the loaded text
      appends a second "c" rather than updating the task being edited. */
  lemma IntendedDeleteThenSubmitDuplicates()
    ensures SubmitDefined(State(["b", "c"], "c", Some(2)))
    ensures Submit(State(["b", "c"], "c", Some(2))) == State(["b", "c", "c"], "", None)
  {
    assert !IsBlank("c") by { assert !IsWs("c"[0]); }
    SubmitAtLengthAppends(State(["b", "c"], "c", Some(2)));
  }

  /** With the delete as written, editing the last of two tasks and deleting the
      first leaves the edit index equal to the length of the list; the submit of
      the loaded text then appends it, giving back the original list. */
  lemma DeleteThenSubmitAppends()
    ensures var s := Delete(Edit(State(["a", "b"], "", None), 1), 0);
      s == State(["a"], "b", Some(1)) && !EditInRange(s) && SubmitDefined(s) &&
      Submit(s) == State(["a", "b"], "", None)
  {
    var s := Delete(Edit(State(["a", "b"], "", None), 1), 0);
    assert s.tasks == ["a"];
    assert !IsBlank("b") by { assert !IsWs("b"[0]); }
  }

  /** Since the intended delete does not shift the edit index either, an edit index
      still in range can come to name another task: edit "b" in ["a", "b", "c"],
      then delete "a", and the field holds "b" while the edit index names "c". */
  lemma IntendedDeleteRetargetsEdit()
    ensures var s := IntendedDelete(Edit(State(["a", "b", "c"], "", None), 1), 0);
      s == State(["b", "c"], "b", Some(1)) && EditInRange(s) && s.tasks[1] == "c"
  {
    var e := Edit(State(["a", "b", "c"], "", None), 1);
    assert IntendedDelete(e, 0).tasks == ["b", "c"];
  }

  /** Deleting the task being edited ends the edit. */
  lemma DeleteEditedTaskEndsEdit(s: State, index: nat)
    requires s.editIndex == Some(index)
    ensures Delete(s, index).editIndex == None && Label(Delete(s, index)) == "Add"
    ensures IntendedDelete(s, index).editIndex == None
  {
  }
}
