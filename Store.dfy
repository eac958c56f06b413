/** The in-memory note store (`DataManager.java`): the active and the completed list, each
    change written straight back to the preferences file. */
module Store {
  import opened Nullable
  import opened Tasks
  import opened Prefs
  import opened Lists

  /** Every task of the list with `setCompleted(true)` applied, nothing else changed. */
  function MarkAll(ts: seq<TaskRecord>): (r: seq<TaskRecord>)
    ensures |r| == |ts|
    ensures forall k :: 0 <= k < |r| ==> r[k].completed && r[k].(completed := ts[k].completed) == ts[k]
  {
    seq(|ts|, k requires 0 <= k < |ts| => ts[k].(completed := true))
  }

  /** Positions that are valid indices of a list of length `n`, none repeated: what the list
      adapter hands over (its selection never holds a position twice). */
  predicate ValidPositions(ps: seq<int>, n: nat) {
    Distinct(ps) && forall k :: 0 <= k < |ps| ==> 0 <= ps[k] < n
  }

  /** In a list sorted largest first without repeats, the element at `i` is smaller than every
      element before it, and taking it adds it to the set of those taken. */
  lemma {:induction false} DescendingStep(order: seq<int>, i: nat)
    requires StrictlyDescending(order) && i < |order|
    ensures forall q :: q in Elements(order[..i]) ==> q > order[i]
    ensures Elements(order[..i + 1]) == Elements(order[..i]) + {order[i]}
  {
    forall q | q in Elements(order[..i]) ensures q > order[i] {
      var j :| 0 <= j < i && order[..i][j] == q;
      assert order[j] == q;
    }
    assert order[..i + 1] == order[..i] + [order[i]];
  }

  /** A rearrangement of valid positions holds only valid positions. */
  lemma {:induction false} RearrangedInRange(positions: seq<int>, n: nat, order: seq<int>, i: nat)
    requires forall k :: 0 <= k < |positions| ==> 0 <= positions[k] < n
    requires multiset(order) == multiset(positions) && i < |order|
    ensures 0 <= order[i] < n
  {
    assert order[i] in multiset(order);
    assert order[i] in multiset(positions);
    var k :| 0 <= k < |positions| && positions[k] == order[i];
  }

  /** One step of the removal loop on `s`: the element still found at `order[i]` is the original
      one, removing it leaves `s` without the positions handled so far, and it is the next one
      to move in front of those already picked. */
  lemma {:induction false} RemovalStep(s: seq<TaskRecord>, positions: seq<int>, order: seq<int>, i: nat)
    requires ValidPositions(positions, |s|) && order == SortDescending(positions) && i < |order|
    ensures 0 <= order[i] < |s| && order[i] < |Without(s, Elements(order[..i]))|
    ensures Without(s, Elements(order[..i]))[order[i]] == s[order[i]]
    ensures RemoveAt(Without(s, Elements(order[..i])), order[i]) == Without(s, Elements(order[..i + 1]))
    ensures MarkAll(Picked(s, Elements(order[..i + 1])))
      == [s[order[i]].(completed := true)] + MarkAll(Picked(s, Elements(order[..i])))
  {
    RearrangedInRange(positions, |s|, order, i);
    DescendingStep(order, i);
    RemoveBelow(s, Elements(order[..i]), order[i]);
    PickBelow(s, Elements(order[..i]), order[i]);
    MarkAllCons(s[order[i]], Picked(s, Elements(order[..i])));
  }

  lemma {:induction false} MarkAllCons(t: TaskRecord, ts: seq<TaskRecord>)
    ensures MarkAll([t] + ts) == [t.(completed := true)] + MarkAll(ts)
  {
  }

  /** Before the loop nothing has been handled. */
  lemma {:induction false} RemovalStart(s: seq<TaskRecord>, order: seq<int>)
    ensures Without(s, Elements(order[..0])) == s && Picked(s, Elements(order[..0])) == []
  {
    assert Elements(order[..0]) == {};
    WithoutNothing(s, {});
  }

  /** Once the loop is through, the handled set is the set of positions given. */
  lemma {:induction false} DescendingDone(positions: seq<int>, order: seq<int>)
    requires order == SortDescending(positions)
    ensures Elements(order[..|order|]) == Elements(positions)
  {
    assert order[..|order|] == order;
    forall x ensures x in order <==> x in positions {
      assert x in order <==> x in multiset(order);
      assert x in positions <==> x in multiset(positions);
    }
  }

  /** Deleting `positions` from `s` removes exactly that many tasks; completing them moves that
      many, every one of them marked completed, in front of the completed list `c`. */
  lemma {:induction false} CompleteMovesTasks(s: seq<TaskRecord>, c: seq<TaskRecord>, positions: seq<int>)
    requires ValidPositions(positions, |s|)
    ensures |Without(s, Elements(positions))| == |s| - |positions|
    ensures |MarkAll(Picked(s, Elements(positions))) + c| == |c| + |positions|
    ensures multiset(Without(s, Elements(positions))) + multiset(Picked(s, Elements(positions))) == multiset(s)
    ensures forall k :: 0 <= k < |positions| ==> (MarkAll(Picked(s, Elements(positions))) + c)[k].completed
  {
    var e := Elements(positions);
    DistinctElements(positions);
    assert forall q :: q in e ==> 0 <= q < |s|;
    WithoutSize(s, e);
    PickedSize(s, e);
    WithoutPickedSplit(s, e);
  }

  /** The worked example: completing positions 0 and 2 of [a, b, c, d] leaves [b, d] active and
      puts a and c, in that order, in front of the completed list. */
  lemma {:induction false} CompleteExample(a: TaskRecord, b: TaskRecord, c: TaskRecord, d: TaskRecord)
    ensures Without([a, b, c, d], {0, 2}) == [b, d]
    ensures Picked([a, b, c, d], {0, 2}) == [a, c]
  {
    var e: set<int> := {0, 2};
    var s1, s2, s3, s4 := [a], [a, b], [a, b, c], [a, b, c, d];
    assert s4[..3] == s3 && s3[..2] == s2 && s2[..1] == s1 && s1[..0] == [];
    assert Without(s1, e) == [] && Picked(s1, e) == [a] by {
      WithoutLast(s1, e);
      PickedLast(s1, e);
    }
    assert Without(s2, e) == [b] && Picked(s2, e) == [a] by {
      WithoutLast(s2, e);
      PickedLast(s2, e);
    }
    assert Without(s3, e) == [b] && Picked(s3, e) == [a, c] by {
      WithoutLast(s3, e);
      PickedLast(s3, e);
    }
    WithoutLast(s4, e);
    PickedLast(s4, e);
  }

  class DataManager {
    var tasks: seq<TaskRecord>
    var completedTasks: seq<TaskRecord>
    const prefManager: SharedPrefManager

    /** The private constructor: both lists are read from the preferences file once. */
    constructor (prefs: Preferences, clock: nat -> int)
      ensures prefManager.prefs == prefs
      ensures tasks == LoadTasks(prefs.values, clock)
      ensures completedTasks == LoadCompleted(prefs.values)
    {
      var m := new SharedPrefManager(prefs);
      var ts := m.GetTasks(clock);
      var cs := m.GetCompletedTasks();
      prefManager := m;
      tasks := ts;
      completedTasks := cs;
    }

    /** A new task goes to the top of the active list. */
    method AddTask(task: TaskRecord)
      modifies this, prefManager.prefs
      ensures tasks == [task] + old(tasks) && completedTasks == old(completedTasks)
      ensures prefManager.prefs.values == old(prefManager.prefs.values)[KeyTasks := Some(tasks)]
    {
      tasks := [task] + tasks;
      prefManager.SaveTasks(tasks);
    }

    /** The task at `position` is replaced; `List.set` throws for a position out of range. */
    method UpdateTask(position: int, task: TaskRecord)
      requires 0 <= position < |tasks|
      modifies this, prefManager.prefs
      ensures tasks == old(tasks)[position := task] && completedTasks == old(completedTasks)
      ensures prefManager.prefs.values == old(prefManager.prefs.values)[KeyTasks := Some(tasks)]
    {
      tasks := tasks[position := task];
      prefManager.SaveTasks(tasks);
    }

    /** Removes the tasks at `positions`. */
    method DeleteTasks(positions: seq<int>)
      requires ValidPositions(positions, |tasks|)
      modifies this, prefManager.prefs
      ensures tasks == Without(old(tasks), Elements(positions))
      ensures completedTasks == old(completedTasks)
      ensures prefManager.prefs.values == old(prefManager.prefs.values)[KeyTasks := Some(tasks)]
    {
      tasks := RemoveAll(tasks, positions);
      prefManager.SaveTasks(tasks);
    }

    /** Moves the tasks at `positions` to the top of the completed list, each marked completed
      and in the order they had in the active list. */
    method CompleteTasks(positions: seq<int>)
      requires ValidPositions(positions, |tasks|)
      modifies this, prefManager.prefs
      ensures tasks == Without(old(tasks), Elements(positions))
      ensures completedTasks == MarkAll(Picked(old(tasks), Elements(positions))) + old(completedTasks)
      ensures prefManager.prefs.values
        == old(prefManager.prefs.values)[KeyTasks := Some(tasks)][KeyCompletedTasks := Some(completedTasks)]
    {
      tasks, completedTasks := MoveAll(tasks, completedTasks, positions);
      prefManager.SaveTasks(tasks);
      prefManager.SaveCompletedTasks(completedTasks);
    }

    /** Removes the completed tasks at `positions`. */
    method DeleteCompletedTasks(positions: seq<int>)
      requires ValidPositions(positions, |completedTasks|)
      modifies this, prefManager.prefs
      ensures completedTasks == Without(old(completedTasks), Elements(positions))
      ensures tasks == old(tasks)
      ensures prefManager.prefs.values == old(prefManager.prefs.values)[KeyCompletedTasks := Some(completedTasks)]
    {
      completedTasks := RemoveAll(completedTasks, positions);
      prefManager.SaveCompletedTasks(completedTasks);
    }
  }

  /** The removal loop of `deleteTasks` and `deleteCompletedTasks`: `list.remove(position)` for
      each position, largest first, so that the smaller ones still name the tasks they named
      before. */
  method RemoveAll(s: seq<TaskRecord>, positions: seq<int>) returns (r: seq<TaskRecord>)
    requires ValidPositions(positions, |s|)
    ensures r == Without(s, Elements(positions))
  {
    var order := SortDescending(positions);
    r := s;
    var i := 0;
    RemovalStart(s, order);
    while i < |order|
      invariant 0 <= i <= |order|
      invariant r == Without(s, Elements(order[..i]))
    {
      var p := order[i];
      RemovalStep(s, positions, order, i);
      r := RemoveAt(r, p);
      i := i + 1;
    }
    DescendingDone(positions, order);
  }

  /** The loop of `completeTasks`: for each position, largest first, the task there is marked
      completed, put at the top of the completed list and removed from the active one. */
  method MoveAll(s: seq<TaskRecord>, c: seq<TaskRecord>, positions: seq<int>)
    returns (active: seq<TaskRecord>, completed: seq<TaskRecord>)
    requires ValidPositions(positions, |s|)
    ensures active == Without(s, Elements(positions))
    ensures completed == MarkAll(Picked(s, Elements(positions))) + c
  {
    var order := SortDescending(positions);
    active, completed := s, c;
    var i := 0;
    RemovalStart(s, order);
    while i < |order|
      invariant 0 <= i <= |order|
      invariant active == Without(s, Elements(order[..i]))
      invariant completed == MarkAll(Picked(s, Elements(order[..i]))) + c
    {
      MoveStep(s, c, positions, order, i);
      completed := [active[order[i]].(completed := true)] + completed;
      active := RemoveAt(active, order[i]);
      i := i + 1;
    }
    DescendingDone(positions, order);
  }

  /** One step of the loop of `completeTasks`, in the terms of its invariants. */
  lemma MoveStep(s: seq<TaskRecord>, c: seq<TaskRecord>, positions: seq<int>, order: seq<int>, i: nat)
    requires ValidPositions(positions, |s|) && order == SortDescending(positions) && i < |order|
    ensures 0 <= order[i] < |Without(s, Elements(order[..i]))|
    ensures RemoveAt(Without(s, Elements(order[..i])), order[i]) == Without(s, Elements(order[..i + 1]))
    ensures [Without(s, Elements(order[..i]))[order[i]].(completed := true)]
        + (MarkAll(Picked(s, Elements(order[..i]))) + c)
      == MarkAll(Picked(s, Elements(order[..i + 1]))) + c
  {
    RemovalStep(s, positions, order, i);
    var m := MarkAll(Picked(s, Elements(order[..i])));
    assert [s[order[i]].(completed := true)] + (m + c) == [s[order[i]].(completed := true)] + m + c;
  }

  /** The process-wide holder of the single store (Java's static `instance` field). */
  class Process {
    var instance: DataManager?

    constructor ()
      ensures instance == null
    {
      instance := null;
    }

    /** `getInstance(context)`: the first call builds the store from the preferences file; every
        later call returns that same store and ignores its arguments. */
    method GetInstance(prefs: Preferences, clock: nat -> int) returns (dm: DataManager)
      modifies this
      ensures instance == dm
      ensures old(instance) != null ==> dm == old(instance)
      ensures old(instance) == null ==> fresh(dm) && dm.prefManager.prefs == prefs
      ensures old(instance) == null ==> dm.tasks == LoadTasks(prefs.values, clock)
      ensures old(instance) == null ==> dm.completedTasks == LoadCompleted(prefs.values)
    {
      if instance == null {
        instance := new DataManager(prefs, clock);
      }
      dm := instance;
    }
  }
}
