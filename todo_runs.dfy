/** Sequences of user events as the rendered view delivers them, and the
    invariants that hold along every run of the component. */
module TodoRuns {
  import opened TodoState
  import opened TodoProperties

  /** What the view can send: typing in the field (`onChange`), the Add/Update
      button, a key in the field (`onKeyDown`), and the Edit and Delete buttons of
      the task at `index`. */
  datatype Event =
    | Type(text: string)
    | Click
    | KeyDown(key: string)
    | EditClick(index: nat)
    | DeleteClick(index: nat)

  /** The events the model gives a meaning to in state `s`: the buttons of a task
      exist only for the tasks shown, and a submit must not write beyond the end. */
  predicate Defined(s: State, e: Event) {
    match e
    case Type(_) => true
    case Click => SubmitDefined(s)
    case KeyDown(key) => key == "Enter" ==> SubmitDefined(s)
    case EditClick(index) => index < |s.tasks|
    case DeleteClick(index) => index < |s.tasks|
  }

  /** One event, dispatched to its handler as the view wires them. Every handler
      keeps the tasks non-blank; every handler but delete keeps the edit index in
      range; the as-written delete never empties the list. */
  function Step(s: State, e: Event): (r: State)
    requires Defined(s, e)
    ensures TasksNonBlank(s) ==> TasksNonBlank(r)
    ensures EditInRange(s) && !e.DeleteClick? ==> EditInRange(r)
    ensures s.tasks != [] ==> r.tasks != []
  {
    match e
    case Type(text) =>
      ChangePreservesInvariants(s, text); Change(s, text)
    case Click =>
      SubmitPreservesInvariants(s); Submit(s)
    case KeyDown(key) =>
      if key == "Enter" then SubmitPreservesInvariants(s); KeyPress(s, key)
      else KeyPress(s, key)
    case EditClick(index) =>
      EditPreservesInvariants(s, index); Edit(s, index)
    case DeleteClick(index) =>
      DeletePreservesNonBlank(s, index); Delete(s, index)
  }

  /** The state after the events `es`, or `None` once an event arrives that the
      model gives no meaning to. Along every run no task is ever blank, a run with
      no delete keeps the edit index in range, and, with the delete as written, a
      list that has a task never becomes empty again (the "No tasks yet" message
      does not come back). */
  function Run(s: State, es: seq<Event>): (r: Option<State>)
    ensures es == [] ==> r == Some(s)
    ensures es != [] && !Defined(s, es[0]) ==> r == None
    ensures |es| == 1 && Defined(s, es[0]) ==> r == Some(Step(s, es[0]))
    ensures r.Some? && TasksNonBlank(s) ==> TasksNonBlank(r.value)
    ensures r.Some? && EditInRange(s) && (forall k :: 0 <= k < |es| ==> !es[k].DeleteClick?) ==>
      EditInRange(r.value)
    ensures r.Some? && s.tasks != [] ==> !ShowsEmptyMessage(r.value)
    decreases es
  {
    if es == [] then Some(s)
    else if !Defined(s, es[0]) then None
    else Run(Step(s, es[0]), es[1..])
  }

  /** Running `a` and then `b` is running `a + b`: a run stops for good at its
      first undefined event, wherever that event lies, and otherwise the state
      reached after `a` is where `b` starts. */
  lemma {:induction false} RunAppend(s: State, a: seq<Event>, b: seq<Event>)
    ensures Run(s, a + b) == if Run(s, a).Some? then Run(Run(s, a).value, b) else None
    decreases a
  {
    if a == [] {
      assert a + b == b;
    } else {
      assert (a + b)[0] == a[0];
      assert (a + b)[1..] == a[1..] + b;
      if Defined(s, a[0]) {
        RunAppend(Step(s, a[0]), a[1..], b);
      }
    }
  }

  /** From mount, every state a run reaches has only non-blank tasks. */
  lemma ReachableTasksNonBlank(es: seq<Event>)
    requires Run(Init(), es).Some?
    ensures TasksNonBlank(Run(Init(), es).value)
  {
  }
}
