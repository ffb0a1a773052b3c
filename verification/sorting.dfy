/**
 * The reordering behind the "Sort by State" and "Sort by Deadline" buttons: a
 * stable sort of a copy of the task list, comparing one string key per task.
 * `Sort` is the specification (insertion of each entry, last to first, into
 * the sorted prefix); `InsertionSort` does the same in place on an array.
 */
module Sorting {
  import opened Tasks
  import opened Lexicographic
  import opened Dates

  /** The two sort criteria the store recognises, "state" and "deadline". */
  datatype Criterion = ByState | ByDeadline

  /** What a task is grouped and compared by: its state, or its deadline text. */
  datatype SortKey = StateKey(state: TaskState) | DeadlineKey(deadline: string)

  function Key(crit: Criterion, t: Task): SortKey
  {
    match crit
    case ByState => StateKey(t.state)
    case ByDeadline => DeadlineKey(t.deadline)
  }

  /** The string the comparator reads for a key: the state label, or the deadline. */
  function KeyText(k: SortKey): string
  {
    match k
    case StateKey(st) => Label(st)
    case DeadlineKey(d) => d
  }

  /** The rank of each state in the order of its label. */
  function StateRank(st: TaskState): nat
  {
    match st
    case DoingRightNow => 0
    case Done => 1
    case NotDone => 2
  }

  /**
   * The comparator reports `t` strictly before `u`. States compare by rank,
   * which `BeforeIsKeyOrder` shows to be the string order of their labels.
   */
  predicate Before(crit: Criterion, t: Task, u: Task): (r: bool)
    ensures r && crit == ByDeadline ==> |u.deadline| > 0
  {
    match crit
    case ByState => StateRank(t.state) < StateRank(u.state)
    case ByDeadline => Less(t.deadline, u.deadline)
  }

  lemma BeforeDistinctKeys(crit: Criterion, t: Task, u: Task)
    ensures Before(crit, t, u) ==> Key(crit, t) != Key(crit, u)
  {
    if crit == ByDeadline {
      Irreflexive(t.deadline);
    }
  }

  /**
   * The label order of the three states is "Doing right now" < "Done" <
   * "Not done".
   */
  lemma StateLabelOrder(a: TaskState, b: TaskState)
    ensures Less(Label(a), Label(b)) <==> StateRank(a) < StateRank(b)
  {
    var doing, done, notDone := Label(DoingRightNow), Label(Done), Label(NotDone);
    assert Less(doing, done) by {
      assert doing[1..] == "oing right now" && done[1..] == "one";
      assert doing[2..] == "ing right now" && done[2..] == "ne";
    }
    assert Less(done, notDone);
    Transitive(doing, done, notDone);
    Irreflexive(Label(a));
    Asymmetric(doing, done);
    Asymmetric(done, notDone);
    Asymmetric(doing, notDone);
  }

  /** Under either criterion the comparator is the string order of the keys. */
  lemma BeforeIsKeyOrder(crit: Criterion, t: Task, u: Task)
    ensures Before(crit, t, u) <==> Less(KeyText(Key(crit, t)), KeyText(Key(crit, u)))
  {
    if crit == ByState {
      StateLabelOrder(t.state, u.state);
    }
  }

  lemma BeforeAsymmetric(crit: Criterion, t: Task, u: Task)
    ensures Before(crit, t, u) ==> !Before(crit, u, t)
  {
    if crit == ByDeadline {
      Asymmetric(t.deadline, u.deadline);
    }
  }

  /** Strictly before, then not after: strictly before. */
  lemma BeforeThenNotAfter(crit: Criterion, t: Task, u: Task, v: Task)
    requires Before(crit, t, u) && !Before(crit, v, u)
    ensures Before(crit, t, v)
  {
    if crit == ByDeadline {
      Trichotomy(u.deadline, v.deadline);
      if Less(u.deadline, v.deadline) {
        Transitive(t.deadline, u.deadline, v.deadline);
      }
    }
  }

  /** Not after, then not after: not after. */
  lemma NotAfterTransitive(crit: Criterion, t: Task, u: Task, v: Task)
    requires !Before(crit, u, t) && !Before(crit, v, u)
    ensures !Before(crit, v, t)
  {
    if crit == ByDeadline {
      NotLessTransitive(t.deadline, u.deadline, v.deadline);
    }
  }

  /** No entry is strictly before an entry to its left. */
  predicate IsSorted(s: seq<Task>, crit: Criterion)
  {
    forall i, j :: 0 <= i < j < |s| ==> !Before(crit, s[j], s[i])
  }

  /** The entries of `s` whose key is `k`, in their order in `s`. */
  function WithKey(s: seq<Task>, crit: Criterion, k: SortKey): seq<Task>
    decreases |s|
  {
    if s == [] then []
    else if Key(crit, s[0]) == k then [s[0]] + WithKey(s[1..], crit, k)
    else WithKey(s[1..], crit, k)
  }

  /** Selecting from `[t] + s`: `t` first if it has the key, then the selection from `s`. */
  lemma WithKeyCons(t: Task, s: seq<Task>, crit: Criterion, k: SortKey)
    ensures WithKey([t] + s, crit, k)
         == (if Key(crit, t) == k then [t] else []) + WithKey(s, crit, k)
  {
    assert ([t] + s)[0] == t && ([t] + s)[1..] == s;
  }

  lemma {:induction false} WithKeyAppend(a: seq<Task>, b: seq<Task>, crit: Criterion, k: SortKey)
    ensures WithKey(a + b, crit, k) == WithKey(a, crit, k) + WithKey(b, crit, k)
    decreases |a|
  {
    if a == [] {
      assert a + b == b;
    } else {
      assert a + b == [a[0]] + (a[1..] + b);
      WithKeyCons(a[0], a[1..] + b, crit, k);
      WithKeyAppend(a[1..], b, crit, k);
      WithKeyCons(a[0], a[1..], crit, k);
      assert a == [a[0]] + a[1..];
    }
  }

  /** `x` is strictly before no entry of `s`. */
  predicate NotBeforeAny(crit: Criterion, x: Task, s: seq<Task>)
  {
    forall i :: 0 <= i < |s| ==> !Before(crit, x, s[i])
  }

  /** `x` is strictly before every entry of `s`. */
  predicate BeforeAll(crit: Criterion, x: Task, s: seq<Task>)
  {
    forall i :: 0 <= i < |s| ==> Before(crit, x, s[i])
  }

  /** If every entry is strictly after `x`, none shares the key of `x`. */
  lemma {:induction false} NoneWithKeyAbove(s: seq<Task>, crit: Criterion, x: Task)
    requires BeforeAll(crit, x, s)
    ensures WithKey(s, crit, Key(crit, x)) == []
    decreases |s|
  {
    if s != [] {
      BeforeDistinctKeys(crit, x, s[0]);
      NoneWithKeyAbove(s[1..], crit, x);
    }
  }

  /** For the state criterion, selecting one key is the state filter. */
  lemma {:induction false} WithStateKey(s: seq<Task>, st: TaskState)
    ensures WithKey(s, ByState, StateKey(st)) == OfState(s, st)
    decreases |s|
  {
    if s != [] {
      WithStateKey(s[1..], st);
    }
  }

  /** `x` placed before the first entry of `p` that is strictly after it. */
  function Insert(p: seq<Task>, x: Task, crit: Criterion): seq<Task>
    decreases |p|
  {
    if p == [] then [x]
    else if Before(crit, x, p[0]) then [x] + p
    else [p[0]] + Insert(p[1..], x, crit)
  }

  /** Insertion adds `x` and loses nothing. */
  lemma {:induction false} InsertPermutes(p: seq<Task>, x: Task, crit: Criterion)
    ensures multiset(Insert(p, x, crit)) == multiset(p) + multiset{x}
    decreases |p|
  {
    if p != [] && !Before(crit, x, p[0]) {
      InsertPermutes(p[1..], x, crit);
      assert p == [p[0]] + p[1..];
    }
  }

  /** In a sorted sequence, an entry strictly before the first is strictly before all. */
  lemma BeforeHeadBeforeAll(p: seq<Task>, x: Task, crit: Criterion)
    requires IsSorted(p, crit) && p != [] && Before(crit, x, p[0])
    ensures BeforeAll(crit, x, p)
  {
    forall i | 0 < i < |p|
      ensures Before(crit, x, p[i])
    {
      BeforeThenNotAfter(crit, x, p[0], p[i]);
    }
  }

  /** No entry of `s` is strictly before `h`. */
  predicate NoneBefore(crit: Criterion, s: seq<Task>, h: Task)
  {
    forall i :: 0 <= i < |s| ==> !Before(crit, s[i], h)
  }

  /** A sorted sequence stays sorted behind a head that none of it is strictly before. */
  lemma SortedCons(h: Task, s: seq<Task>, crit: Criterion)
    requires IsSorted(s, crit) && NoneBefore(crit, s, h)
    ensures IsSorted([h] + s, crit)
  {
    var r := [h] + s;
    forall i, j | 0 <= i < j < |r|
      ensures !Before(crit, r[j], r[i])
    {
      assert r[j] == s[j - 1];
      if i > 0 {
        assert r[i] == s[i - 1];
      }
    }
  }

  /** The entries of a sorted sequence after its head are none strictly before it. */
  lemma SortedTail(p: seq<Task>, crit: Criterion)
    requires IsSorted(p, crit) && p != []
    ensures IsSorted(p[1..], crit) && NoneBefore(crit, p[1..], p[0])
  {
  }

  /** What holds of every entry of `p` and of `x` holds of every entry of a rearrangement. */
  lemma NoneBeforePermuted(q: seq<Task>, p: seq<Task>, x: Task, h: Task, crit: Criterion)
    requires multiset(q) == multiset(p) + multiset{x}
    requires NoneBefore(crit, p, h) && !Before(crit, x, h)
    ensures NoneBefore(crit, q, h)
  {
    forall j | 0 <= j < |q|
      ensures !Before(crit, q[j], h)
    {
      assert q[j] in multiset(q);
      if q[j] != x {
        assert q[j] in multiset(p);
        var k :| 0 <= k < |p| && p[k] == q[j];
      }
    }
  }

  /** Inserting into a sorted sequence keeps it sorted. */
  lemma {:induction false} InsertKeepsSorted(p: seq<Task>, x: Task, crit: Criterion)
    requires IsSorted(p, crit)
    ensures IsSorted(Insert(p, x, crit), crit)
    decreases |p|
  {
    if p == [] {
    } else if Before(crit, x, p[0]) {
      BeforeHeadBeforeAll(p, x, crit);
      forall j | 0 <= j < |p|
        ensures !Before(crit, p[j], x)
      {
        BeforeAsymmetric(crit, x, p[j]);
      }
      SortedCons(x, p, crit);
    } else {
      var q := Insert(p[1..], x, crit);
      SortedTail(p, crit);
      InsertKeepsSorted(p[1..], x, crit);
      InsertPermutes(p[1..], x, crit);
      NoneBeforePermuted(q, p[1..], x, p[0], crit);
      SortedCons(p[0], q, crit);
    }
  }

  /** Inserting into a sorted sequence adds `x` after every entry with its key. */
  lemma {:induction false} InsertKeepsKeyOrder(p: seq<Task>, x: Task, crit: Criterion, k: SortKey)
    requires IsSorted(p, crit)
    ensures WithKey(Insert(p, x, crit), crit, k)
         == WithKey(p, crit, k) + (if Key(crit, x) == k then [x] else [])
    decreases |p|
  {
    if p == [] {
      WithKeyCons(x, [], crit, k);
      assert [x] + [] == [x];
    } else if Before(crit, x, p[0]) {
      WithKeyCons(x, p, crit, k);
      if Key(crit, x) == k {
        BeforeHeadBeforeAll(p, x, crit);
        NoneWithKeyAbove(p, crit, x);
      }
    } else {
      var q := Insert(p[1..], x, crit);
      InsertKeepsKeyOrder(p[1..], x, crit, k);
      WithKeyCons(p[0], q, crit, k);
      WithKeyCons(p[0], p[1..], crit, k);
      assert p == [p[0]] + p[1..];
    }
  }

  /**
   * Where the insertion lands: after the entries `x` is not strictly before,
   * ahead of those it is strictly before.
   */
  lemma {:induction false} InsertBetween(a: seq<Task>, b: seq<Task>, x: Task, crit: Criterion)
    requires NotBeforeAny(crit, x, a) && BeforeAll(crit, x, b)
    ensures Insert(a + b, x, crit) == a + [x] + b
    decreases |a|
  {
    if a == [] {
      assert a + b == b;
      assert b != [] ==> Before(crit, x, b[0]);
    } else {
      InsertPastHead(a[0], a[1..] + b, x, crit);
      InsertBetween(a[1..], b, x, crit);
      assert a + b == [a[0]] + (a[1..] + b);
      assert a + [x] + b == [a[0]] + (a[1..] + [x] + b);
    }
  }

  /** Inserting past a head that `x` is not strictly before keeps that head first. */
  lemma InsertPastHead(t: Task, s: seq<Task>, x: Task, crit: Criterion)
    requires !Before(crit, x, t)
    ensures Insert([t] + s, x, crit) == [t] + Insert(s, x, crit)
  {
    assert ([t] + s)[0] == t && ([t] + s)[1..] == s;
  }

  /**
   * In a sorted sequence, the insertion point is found by scanning back from
   * the end past the entries `x` is strictly before.
   */
  lemma InsertionPoint(p: seq<Task>, x: Task, crit: Criterion, j: nat)
    requires IsSorted(p, crit) && j <= |p|
    requires j == 0 || !Before(crit, x, p[j - 1])
    requires forall k :: j <= k < |p| ==> Before(crit, x, p[k])
    ensures Insert(p, x, crit) == p[..j] + [x] + p[j..]
  {
    forall k | 0 <= k < j
      ensures !Before(crit, x, p[..j][k])
    {
      if k < j - 1 {
        NotAfterTransitive(crit, p[k], p[j - 1], x);
      }
    }
    assert p[..j] + p[j..] == p;
    InsertBetween(p[..j], p[j..], x, crit);
  }

  /** Inserting an entry that nothing is after appends it. */
  lemma InsertAtEnd(p: seq<Task>, x: Task, crit: Criterion)
    requires forall i :: 0 <= i < |p| ==> !Before(crit, x, p[i])
    ensures Insert(p, x, crit) == p + [x]
  {
    assert p + [] == p;
    InsertBetween(p, [], x, crit);
  }

  /** The stable sort of `s`: each entry inserted into the sorted entries before it. */
  function Sort(s: seq<Task>, crit: Criterion): (r: seq<Task>)
    ensures IsSorted(r, crit)
    ensures multiset(r) == multiset(s)
    decreases |s|
  {
    if s == [] then []
    else
      var init, last := s[..|s| - 1], s[|s| - 1];
      assert s == init + [last];
      InsertKeepsSorted(Sort(init, crit), last, crit);
      InsertPermutes(Sort(init, crit), last, crit);
      Insert(Sort(init, crit), last, crit)
  }

  lemma SortLength(s: seq<Task>, crit: Criterion)
    ensures |Sort(s, crit)| == |s|
  {
    assert |multiset(Sort(s, crit))| == |multiset(s)|;
  }

  /**
   * Stability: the entries that share any one key come out in the order they
   * went in. With the sortedness and the permutation stated on `Sort`, this
   * determines the result.
   */
  lemma {:induction false} SortIsStable(s: seq<Task>, crit: Criterion, k: SortKey)
    ensures WithKey(Sort(s, crit), crit, k) == WithKey(s, crit, k)
    decreases |s|
  {
    if s != [] {
      var init, last := s[..|s| - 1], s[|s| - 1];
      assert s == init + [last];
      SortIsStable(init, crit, k);
      InsertKeepsKeyOrder(Sort(init, crit), last, crit, k);
      WithKeyAppend(init, [last], crit, k);
    }
  }

  /** A sequence that is already sorted comes out unchanged. */
  lemma {:induction false} SortOfSorted(s: seq<Task>, crit: Criterion)
    requires IsSorted(s, crit)
    ensures Sort(s, crit) == s
    decreases |s|
  {
    if s != [] {
      var init, last := s[..|s| - 1], s[|s| - 1];
      assert s == init + [last];
      SortOfSorted(init, crit);
      InsertAtEnd(init, last, crit);
    }
  }

  /** Sorting twice by one criterion is sorting once. */
  lemma SortIdempotent(s: seq<Task>, crit: Criterion)
    ensures Sort(Sort(s, crit), crit) == Sort(s, crit)
  {
    SortOfSorted(Sort(s, crit), crit);
  }

  /**
   * Sorting by state leaves the labels in non-decreasing string order, which
   * for the three labels groups "Doing right now", then "Done", then "Not done".
   */
  lemma StateSortOrdersLabels(s: seq<Task>)
    ensures forall i, j :: 0 <= i < j < |Sort(s, ByState)| ==>
      !Less(Label(Sort(s, ByState)[j].state), Label(Sort(s, ByState)[i].state))
      && StateRank(Sort(s, ByState)[i].state) <= StateRank(Sort(s, ByState)[j].state)
  {
    var r := Sort(s, ByState);
    forall i, j | 0 <= i < j < |r|
      ensures !Less(Label(r[j].state), Label(r[i].state))
    {
      StateLabelOrder(r[j].state, r[i].state);
    }
  }

  /** Sorting by state keeps, within each state, the original order. */
  lemma StateSortKeepsEachState(s: seq<Task>, st: TaskState)
    ensures OfState(Sort(s, ByState), st) == OfState(s, st)
  {
    SortIsStable(s, ByState, StateKey(st));
    WithStateKey(Sort(s, ByState), st);
    WithStateKey(s, st);
  }

  /**
   * Sorting by deadline when every deadline is a calendar date puts them in
   * chronological order.
   */
  lemma DeadlineSortIsChronological(s: seq<Task>)
    requires forall i :: 0 <= i < |s| ==> IsDateFormat(s[i].deadline)
    ensures forall i, j :: 0 <= i < j < |Sort(s, ByDeadline)| ==>
      IsDateFormat(Sort(s, ByDeadline)[i].deadline)
      && IsDateFormat(Sort(s, ByDeadline)[j].deadline)
      && !Earlier(Sort(s, ByDeadline)[j].deadline, Sort(s, ByDeadline)[i].deadline)
  {
    var r := Sort(s, ByDeadline);
    forall i | 0 <= i < |r|
      ensures IsDateFormat(r[i].deadline)
    {
      assert r[i] in multiset(s);
    }
    forall i, j | 0 <= i < j < |r|
      ensures !Earlier(r[j].deadline, r[i].deadline)
    {
      StringOrderIsChronological(r[j].deadline, r[i].deadline);
    }
  }

  /** Sorting a prefix one entry longer inserts that entry. */
  lemma SortExtend(s: seq<Task>, i: nat, crit: Criterion)
    requires i < |s|
    ensures Sort(s[..i + 1], crit) == Insert(Sort(s[..i], crit), s[i], crit)
  {
    assert s[..i + 1][..i] == s[..i];
  }

  /** The array contents after the shifting loop: `x` placed at `j` within `p`. */
  lemma ShiftedInsert(b: seq<Task>, p: seq<Task>, x: Task, j: nat)
    requires |b| == |p| + 1 && j <= |p|
    requires forall k :: 0 <= k < j ==> b[k] == p[k]
    requires b[j] == x
    requires forall k :: j < k < |b| ==> b[k] == p[k - 1]
    ensures b == p[..j] + [x] + p[j..]
  {
  }

  /**
   * Moves `a[i]` left past the entries it is strictly before, so that the
   * sorted prefix `a[..i]` grows by one; entries after `i` are not touched.
   */
  method InsertLast(a: array<Task>, i: nat, crit: Criterion)
    requires i < a.Length && IsSorted(a[..i], crit)
    modifies a
    ensures a[..i + 1] == Insert(old(a[..i]), old(a[i]), crit)
    ensures forall k :: i < k < a.Length ==> a[k] == old(a[k])
  {
    var x := a[i];
    ghost var whole := a[..];
    ghost var p := whole[..i];
    var j := i;
    while j > 0 && Before(crit, x, a[j - 1])
      invariant 0 <= j <= i
      invariant forall k :: 0 <= k < j ==> a[k] == whole[k]
      invariant forall k :: j < k <= i ==> a[k] == whole[k - 1]
      invariant forall k :: i < k < a.Length ==> a[k] == whole[k]
      invariant forall k :: j <= k < i ==> Before(crit, x, whole[k])
    {
      a[j] := a[j - 1];
      j := j - 1;
    }
    a[j] := x;
    InsertionPoint(p, x, crit, j);
    ShiftedInsert(a[..i + 1], p, x, j);
  }

  /** Sorts `a` in place, stably, by the key of `crit`. */
  method InsertionSort(a: array<Task>, crit: Criterion)
    modifies a
    ensures a[..] == Sort(old(a[..]), crit)
  {
    ghost var s := a[..];
    var i := 0;
    while i < a.Length
      invariant 0 <= i <= a.Length
      invariant a[..i] == Sort(s[..i], crit)
      invariant forall k :: i <= k < a.Length ==> a[k] == s[k]
    {
      InsertLast(a, i, crit);
      SortExtend(s, i, crit);
      i := i + 1;
    }
    assert a[..] == a[..a.Length] && s == s[..a.Length];
  }

  /** A sorted copy of `s`, as the store sorts a copy of its list. */
  method SortedCopy(s: seq<Task>, crit: Criterion) returns (r: seq<Task>)
    ensures r == Sort(s, crit)
  {
    var a := new Task[|s|](i requires 0 <= i < |s| => s[i]);
    assert a[..] == s;
    InsertionSort(a, crit);
    r := a[..];
  }
}
