/** The conventional Some/None wrapper, used for the storage slot that may be empty. */
module Wrappers {
  datatype Option<+T> = None | Some(value: T)
}

/**
 * Tasks as the application records them, and the two pure list computations
 * of the task store: removing the entry at a position and keeping one state.
 */
module Tasks {

  /** The three values offered by the state selector of the new-task form. */
  datatype TaskState = Done | NotDone | DoingRightNow

  /** The values of the state selector, in the order it lists them. */
  const SelectorValues: seq<string> := ["Done", "Not done", "Doing right now"]

  /** The label a state is displayed, compared and stored as: one of the selector's values. */
  function Label(s: TaskState): (r: string)
    ensures r in SelectorValues
  {
    match s
    case Done => "Done"
    case NotDone => "Not done"
    case DoingRightNow => "Doing right now"
  }

  /** Distinct states have distinct labels, so comparing labels compares states. */
  lemma LabelInjective(a: TaskState, b: TaskState)
    ensures Label(a) == Label(b) <==> a == b
  {
  }

  /** A task: four strings, the state restricted to the three labels. */
  datatype Task = Task(title: string, summary: string, state: TaskState, deadline: string)

  /**
   * The entries of `s` whose position differs from `index`, in order.
   * Positions outside `s` match nothing, so the whole sequence is kept.
   */
  function WithoutIndex(s: seq<Task>, index: int): (r: seq<Task>)
    ensures 0 <= index < |s| ==> r == s[..index] + s[index + 1..]
    ensures !(0 <= index < |s|) ==> r == s
    decreases |s|
  {
    if s == [] then []
    else
      var rest := WithoutIndex(s[1..], index - 1);
      if index == 0 then rest else [s[0]] + rest
  }

  /** Deleting a valid position removes exactly one occurrence of the entry there. */
  lemma WithoutIndexRemovesOne(s: seq<Task>, index: int)
    requires 0 <= index < |s|
    ensures multiset(WithoutIndex(s, index)) + multiset{s[index]} == multiset(s)
  {
    SplitAt(s, index);
  }

  lemma SplitAt(s: seq<Task>, index: nat)
    requires index < |s|
    ensures multiset(s[..index] + s[index + 1..]) + multiset{s[index]} == multiset(s)
  {
    assert s == s[..index] + [s[index]] + s[index + 1..];
  }

  /** The entries of `s` whose state is `st`, in their original order. */
  function OfState(s: seq<Task>, st: TaskState): (r: seq<Task>)
    ensures |r| <= |s|
    ensures forall i :: 0 <= i < |r| ==> r[i].state == st
    ensures forall t :: multiset(r)[t] == if t.state == st then multiset(s)[t] else 0
    decreases |s|
  {
    if s == [] then []
    else
      assert s == [s[0]] + s[1..];
      var rest := OfState(s[1..], st);
      if s[0].state == st then [s[0]] + rest else rest
  }

  /** Filtering commutes with concatenation: relative order is preserved. */
  lemma {:induction false} OfStateAppend(a: seq<Task>, b: seq<Task>, st: TaskState)
    ensures OfState(a + b, st) == OfState(a, st) + OfState(b, st)
    decreases |a|
  {
    if a == [] {
      assert a + b == b;
    } else {
      assert (a + b)[1..] == a[1..] + b;
      OfStateAppend(a[1..], b, st);
    }
  }

  /** A sequence whose entries all have state `st` passes the filter unchanged. */
  lemma {:induction false} OfStateKeepsUniform(s: seq<Task>, st: TaskState)
    requires forall i :: 0 <= i < |s| ==> s[i].state == st
    ensures OfState(s, st) == s
    decreases |s|
  {
    if s != [] {
      OfStateKeepsUniform(s[1..], st);
    }
  }

  /** Filtering twice by the same state is filtering once. */
  lemma OfStateIdempotent(s: seq<Task>, st: TaskState)
    ensures OfState(OfState(s, st), st) == OfState(s, st)
  {
    OfStateKeepsUniform(OfState(s, st), st);
  }
}
