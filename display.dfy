/**
 * The display ordering of App.tsx (`sortedTasks`): a copy of the task list
 * sorted in place by a comparator that puts incomplete tasks first and,
 * within each group, newer tasks (larger `createdAt`) first. The sort is
 * stable: tasks the comparator calls equal keep their relative order.
 */
module Display {
  import opened Types

  /** Two tasks the comparator cannot tell apart: same status, same timestamp. */
  predicate Tied(a: Task, b: Task)
  {
    a.completed == b.completed && a.createdAt == b.createdAt
  }

  /**
   * The comparator: negative when `a` goes first, positive when `b` does,
   * zero for a tie.
   */
  function Compare(a: Task, b: Task): (r: int)
    ensures r == 0 <==> Tied(a, b)
    ensures r < 0 <==> (!a.completed && b.completed) || (a.completed == b.completed && a.createdAt > b.createdAt)
  {
    if a.completed == b.completed then b.createdAt - a.createdAt
    else if a.completed then 1 else -1
  }

  /** The comparator is sign-antisymmetric. */
  lemma CompareAntisymmetric(a: Task, b: Task)
    ensures Compare(a, b) == -Compare(b, a)
  {
  }

  /** "Goes no later than" is transitive. */
  lemma CompareTransitive(a: Task, b: Task, c: Task)
    requires Compare(a, b) <= 0 && Compare(b, c) <= 0
    ensures Compare(a, c) <= 0
  {
  }

  /** Every earlier task goes no later than every later one. */
  ghost predicate Sorted(s: seq<Task>)
  {
    forall i, j :: 0 <= i < j < |s| ==> Compare(s[i], s[j]) <= 0
  }

  /** In a sorted list incomplete tasks precede completed ones, and each group runs newest first. */
  lemma SortedGroups(s: seq<Task>)
    requires Sorted(s)
    ensures forall i, j :: 0 <= i < j < |s| && s[i].completed ==> s[j].completed
    ensures forall i, j :: 0 <= i < j < |s| && s[i].completed == s[j].completed ==> s[i].createdAt >= s[j].createdAt
  {
  }

  /** The tasks of `s` that are tied with `y`, in the order of `s`. */
  function Ties(s: seq<Task>, y: Task): seq<Task>
  {
    if s == [] then []
    else Ties(s[..|s| - 1], y) + (if Tied(s[|s| - 1], y) then [s[|s| - 1]] else [])
  }

  /**
   * Inserts `x` into a list from the back: it moves in front of every
   * trailing element that the comparator puts after it, and stops behind
   * the first one that is not.
   */
  function Insert(s: seq<Task>, x: Task): (r: seq<Task>)
    ensures |r| == |s| + 1
  {
    if s == [] then [x]
    else
      var front, last := s[..|s| - 1], s[|s| - 1];
      if Compare(last, x) > 0 then Insert(front, x) + [last] else s + [x]
  }

  /** Inserting adds exactly `x` to the list's elements. */
  lemma {:induction false} InsertPermutes(s: seq<Task>, x: Task)
    ensures multiset(Insert(s, x)) == multiset(s) + multiset{x}
  {
    if s != [] {
      var front, last := s[..|s| - 1], s[|s| - 1];
      assert s == front + [last];
      if Compare(last, x) > 0 {
        InsertPermutes(front, x);
      }
    }
  }

  /** The display order: a stable insertion sort of the list by `Compare`. */
  function DisplayOrder(s: seq<Task>): (r: seq<Task>)
    ensures |r| == |s|
  {
    if s == [] then [] else Insert(DisplayOrder(s[..|s| - 1]), s[|s| - 1])
  }

  /** Inserting into a sorted list keeps it sorted. */
  lemma InsertSorted(s: seq<Task>, x: Task)
    requires Sorted(s)
    ensures Sorted(Insert(s, x))
  {
    var j := LandingPoint(s, x);
    var t := s[..j] + [x] + s[j..];
    forall p, q | 0 <= p < q < |t| ensures Compare(t[p], t[q]) <= 0 {
      if q < j {
        assert t[p] == s[p] && t[q] == s[q];
      } else if p < j && q == j {
        assert t[p] == s[p];
        if p < j - 1 { CompareTransitive(s[p], s[j - 1], x); }
      } else if p < j {
        assert t[p] == s[p] && t[q] == s[q - 1];
      } else if p == j {
        assert t[q] == s[q - 1];
      } else {
        assert t[p] == s[p - 1] && t[q] == s[q - 1];
      }
    }
  }

  /** Inserting `x` adds it to its tie class behind the tasks already tied with it. */
  lemma {:induction false} InsertTies(s: seq<Task>, x: Task, y: Task)
    ensures Ties(Insert(s, x), y) == Ties(s, y) + (if Tied(x, y) then [x] else [])
  {
    if s == [] {
      assert Insert(s, x) == [x];
      assert [x][..0] == [];
    } else {
      var front, last := s[..|s| - 1], s[|s| - 1];
      var r := Insert(s, x);
      if Compare(last, x) > 0 {
        InsertTies(front, x, y);
        var ins := Insert(front, x);
        assert r[..|r| - 1] == ins;
        assert !(Tied(x, y) && Tied(last, y));
      } else {
        assert r[..|r| - 1] == s;
      }
    }
  }

  /** The display order is sorted. */
  lemma {:induction false} DisplayOrderSorted(s: seq<Task>)
    ensures Sorted(DisplayOrder(s))
  {
    if s != [] {
      DisplayOrderSorted(s[..|s| - 1]);
      InsertSorted(DisplayOrder(s[..|s| - 1]), s[|s| - 1]);
    }
  }

  /** The display order is a permutation of the list. */
  lemma {:induction false} DisplayOrderPermutes(s: seq<Task>)
    ensures multiset(DisplayOrder(s)) == multiset(s)
  {
    if s != [] {
      var front, last := s[..|s| - 1], s[|s| - 1];
      assert multiset(s) == multiset(front) + multiset{last} by {
        assert s == front + [last];
      }
      DisplayOrderPermutes(front);
      InsertPermutes(DisplayOrder(front), last);
    }
  }

  /** The display order is stable: each tie class keeps its order from the list. */
  lemma {:induction false} DisplayOrderStable(s: seq<Task>, y: Task)
    ensures Ties(DisplayOrder(s), y) == Ties(s, y)
  {
    if s != [] {
      DisplayOrderStable(s[..|s| - 1], y);
      InsertTies(DisplayOrder(s[..|s| - 1]), s[|s| - 1], y);
    }
  }

  /**
   * Where `x` lands: behind position `j` when the element before `j` goes
   * no later than `x` and every element from `j` on goes after it.
   */
  lemma {:induction false} InsertLands(s: seq<Task>, x: Task, j: nat)
    requires j <= |s|
    requires j == 0 || Compare(s[j - 1], x) <= 0
    requires forall k :: j <= k < |s| ==> Compare(s[k], x) > 0
    ensures Insert(s, x) == s[..j] + [x] + s[j..]
  {
    if j == |s| {
      assert s[..j] == s && s[j..] == [];
    } else {
      var front, last := s[..|s| - 1], s[|s| - 1];
      InsertLands(front, x, j);
      assert front[..j] == s[..j];
      assert front[j..] + [last] == s[j..];
    }
  }

  /** The position at which `Insert` places `x`. */
  lemma {:induction false} LandingPoint(s: seq<Task>, x: Task) returns (j: nat)
    ensures j <= |s|
    ensures j == 0 || Compare(s[j - 1], x) <= 0
    ensures forall k :: j <= k < |s| ==> Compare(s[k], x) > 0
    ensures Insert(s, x) == s[..j] + [x] + s[j..]
  {
    if s == [] {
      j := 0;
    } else if Compare(s[|s| - 1], x) > 0 {
      var front := s[..|s| - 1];
      j := LandingPoint(front, x);
      assert forall k :: j <= k < |front| ==> s[k] == front[k];
    } else {
      j := |s|;
    }
    InsertLands(s, x, j);
  }

  /**
   * Opens a gap for `x` in the sorted prefix `a[..i]`: moves one place to
   * the right every trailing element that goes after `x`, and returns the
   * index of the gap.
   */
  method ShiftGap(a: array<Task>, i: nat, x: Task) returns (j: nat)
    requires i < a.Length
    modifies a
    ensures j <= i
    ensures forall k :: 0 <= k < j ==> a[k] == old(a[k])
    ensures forall k :: j < k <= i ==> a[k] == old(a[k - 1])
    ensures forall k :: i < k < a.Length ==> a[k] == old(a[k])
    ensures j == 0 || Compare(old(a[j - 1]), x) <= 0
    ensures forall k :: j <= k < i ==> Compare(old(a[k]), x) > 0
  {
    j := i;
    while j > 0 && Compare(a[j - 1], x) > 0
      invariant j <= i
      invariant forall k :: 0 <= k < j ==> a[k] == old(a[k])
      invariant forall k :: j < k <= i ==> a[k] == old(a[k - 1])
      invariant forall k :: i < k < a.Length ==> a[k] == old(a[k])
      invariant forall k :: j <= k < i ==> Compare(old(a[k]), x) > 0
    {
      a[j] := a[j - 1];
      j := j - 1;
    }
  }

  /** One step of the in-place sort: moves `a[i]` into its place in the sorted prefix `a[..i]`. */
  method InsertStep(a: array<Task>, i: nat)
    requires i < a.Length
    modifies a
    ensures a[..i + 1] == Insert(old(a[..i]), old(a[i]))
    ensures a[i + 1..] == old(a[i + 1..])
  {
    ghost var s := a[..i];
    var x := a[i];
    var j := ShiftGap(a, i, x);
    a[j] := x;
    InsertLands(s, x, j);
    assert a[..i + 1] == s[..j] + [x] + s[j..] by {
      var t := s[..j] + [x] + s[j..];
      forall k | 0 <= k <= i ensures a[k] == t[k] {
        if k < j { assert t[k] == s[k]; }
        else if k > j { assert t[k] == s[k - 1]; }
      }
    }
    assert a[i + 1..] == old(a[i + 1..]);
  }

  /** Sorts the array in place into display order. */
  method SortInPlace(a: array<Task>)
    modifies a
    ensures a[..] == DisplayOrder(old(a[..]))
  {
    ghost var orig := a[..];
    for i := 0 to a.Length
      invariant a[..i] == DisplayOrder(orig[..i])
      invariant a[i..] == orig[i..]
    {
      ghost var before := a[..];
      assert before[..i] == DisplayOrder(orig[..i]) && before[i] == orig[i];
      InsertStep(a, i);
      assert a[..i + 1] == DisplayOrder(orig[..i + 1]) by {
        assert orig[..i + 1][..i] == orig[..i];
      }
      assert a[i + 1..] == orig[i + 1..] by {
        assert before[i + 1..] == before[i..][1..];
      }
    }
    assert orig[..a.Length] == orig;
  }

  /**
   * `sortedTasks`: copies the list into a fresh array and sorts the copy,
   * so the list itself is left as it was.
   */
  method SortedTasks(tasks: seq<Task>) returns (r: seq<Task>)
    ensures r == DisplayOrder(tasks)
    ensures Sorted(r)
    ensures multiset(r) == multiset(tasks)
    ensures forall y :: Ties(r, y) == Ties(tasks, y)
  {
    var a := new Task[|tasks|](i requires 0 <= i < |tasks| => tasks[i]);
    assert a[..] == tasks;
    SortInPlace(a);
    r := a[..];
    DisplayOrderSorted(tasks);
    DisplayOrderPermutes(tasks);
    forall y ensures Ties(r, y) == Ties(tasks, y) {
      DisplayOrderStable(tasks, y);
    }
  }

  /** Incomplete at 100, complete at 200, incomplete at 150 display as 150, 100, 200. */
  lemma DisplayExample()
    ensures var a := Task("a", "A", "Work", false, 100);
            var b := Task("b", "B", "Work", true, 200);
            var c := Task("c", "C", "Work", false, 150);
            DisplayOrder([a, b, c]) == [c, a, b]
  {
    var a := Task("a", "A", "Work", false, 100);
    var b := Task("b", "B", "Work", true, 200);
    var c := Task("c", "C", "Work", false, 150);
    assert [a, b, c][..2] == [a, b];
    assert [a, b][..1] == [a];
    assert [a][..0] == [];
    assert DisplayOrder([a]) == [a];
    assert DisplayOrder([a, b]) == [a, b];
    assert [a, b][..1] == [a];
    assert Insert([a], c) == [c, a];
    assert DisplayOrder([a, b, c]) == Insert([a, b], c) == Insert([a], c) + [b];
  }
}
