/**
 * The per-category tally of App.tsx (`categoryStats`): a dictionary with an
 * entry for each of the five categories, filled in by one pass over the tasks.
 */
module Stats {
  import opened Types

  /** One dictionary entry: how many tasks the category has, and how many of them are done. */
  datatype Stat = Stat(count: nat, completed: nat)

  /** The number of tasks whose category is `cat`. */
  function CountIn(tasks: seq<Task>, cat: string): nat
  {
    if tasks == [] then 0
    else CountIn(tasks[..|tasks| - 1], cat) + (if tasks[|tasks| - 1].category == cat then 1 else 0)
  }

  /** The number of completed tasks whose category is `cat`. */
  function CompletedIn(tasks: seq<Task>, cat: string): nat
  {
    if tasks == [] then 0
    else
      var t := tasks[|tasks| - 1];
      CompletedIn(tasks[..|tasks| - 1], cat) + (if t.category == cat && t.completed then 1 else 0)
  }

  /** The entry the tally should hold for the category value `cat`. */
  function Expected(tasks: seq<Task>, cat: string): Stat
  {
    Stat(CountIn(tasks, cat), CompletedIn(tasks, cat))
  }

  /** The dictionary `categoryStats` should return: one entry per category value. */
  function Tally(tasks: seq<Task>): map<string, Stat>
  {
    map cat | cat in CategoryValues() :: Expected(tasks, cat)
  }

  /** The entry after counting one more task `t`. */
  function Bump(entry: Stat, t: Task): Stat
  {
    Stat(entry.count + 1, if t.completed then entry.completed + 1 else entry.completed)
  }

  /**
   * `categoryStats`: every category starts at zero, then each task whose
   * category has an entry bumps that entry's count, and its completed count
   * when the task is done. Tasks with any other category are skipped.
   */
  method CategoryStats(tasks: seq<Task>) returns (stats: map<string, Stat>)
    ensures stats.Keys == CategoryValues()
    ensures forall cat :: cat in stats ==> stats[cat] == Expected(tasks, cat)
  {
    stats := map[];
    for i := 0 to |AllCategories|
      invariant stats.Keys == set j | 0 <= j < i :: Value(AllCategories[j])
      invariant forall cat :: cat in stats ==> stats[cat] == Stat(0, 0)
    {
      stats := stats[Value(AllCategories[i]) := Stat(0, 0)];
    }
    CategoryValuesListed();
    assert stats == Tally(tasks[..0]);
    for i := 0 to |tasks|
      invariant stats == Tally(tasks[..i])
    {
      var t := tasks[i];
      TallyStep(tasks, i);
      if t.category in stats {
        stats := stats[t.category := Bump(stats[t.category], t)];
      }
    }
    assert tasks[..|tasks|] == tasks;
  }

  /** The values of `AllCategories` are exactly the five category values. */
  lemma CategoryValuesListed()
    ensures (set j | 0 <= j < |AllCategories| :: Value(AllCategories[j])) == CategoryValues()
  {
    var listed := set j | 0 <= j < |AllCategories| :: Value(AllCategories[j]);
    assert Value(AllCategories[0]) in listed;
    assert Value(AllCategories[1]) in listed;
    assert Value(AllCategories[2]) in listed;
    assert Value(AllCategories[3]) in listed;
    assert Value(AllCategories[4]) in listed;
  }

  /** Counting one more task bumps the entry of its category, if it has one, and nothing else. */
  lemma TallyStep(tasks: seq<Task>, i: nat)
    requires i < |tasks|
    ensures var before, t := Tally(tasks[..i]), tasks[i];
            Tally(tasks[..i + 1]) ==
              if t.category in before then before[t.category := Bump(before[t.category], t)] else before
  {
    assert tasks[..i + 1][..i] == tasks[..i];
  }

  /** A category never has more completed tasks than tasks. */
  lemma {:induction false} CompletedAtMostCount(tasks: seq<Task>, cat: string)
    ensures CompletedIn(tasks, cat) <= CountIn(tasks, cat)
  {
    if tasks != [] {
      CompletedAtMostCount(tasks[..|tasks| - 1], cat);
    }
  }

  /** The sum of the counts of the listed categories. */
  function SumCounts(tasks: seq<Task>, cats: seq<Category>): nat
  {
    if cats == [] then 0 else CountIn(tasks, Value(cats[0])) + SumCounts(tasks, cats[1..])
  }

  /** How many of the listed categories have the value `v`. */
  function Hits(cats: seq<Category>, v: string): nat
  {
    if cats == [] then 0 else (if Value(cats[0]) == v then 1 else 0) + Hits(cats[1..], v)
  }

  /** In a list without repeats, a value is hit once if some listed category has it, else never. */
  lemma {:induction false} HitsDistinct(cats: seq<Category>, v: string)
    requires forall i, j :: 0 <= i < j < |cats| ==> cats[i] != cats[j]
    ensures Hits(cats, v) == if exists i :: 0 <= i < |cats| && Value(cats[i]) == v then 1 else 0
  {
    if cats != [] {
      var rest := cats[1..];
      HitsDistinct(rest, v);
      if Value(cats[0]) == v {
        forall i | 0 <= i < |rest| ensures Value(rest[i]) != v {
          ValueInjective(cats[0], rest[i]);
          assert rest[i] == cats[i + 1];
        }
      } else {
        if exists i :: 0 <= i < |cats| && Value(cats[i]) == v {
          var i :| 0 <= i < |cats| && Value(cats[i]) == v;
          assert rest[i - 1] == cats[i];
        }
      }
    }
  }

  /** Each valid category value is listed once in `AllCategories`, any other string never. */
  lemma HitsAll(v: string)
    ensures Hits(AllCategories, v) == if v in CategoryValues() then 1 else 0
  {
    AllCategoriesEnumerates();
    HitsDistinct(AllCategories, v);
    if v in CategoryValues() {
      var c := Parse(v).value;
      var i :| 0 <= i < |AllCategories| && AllCategories[i] == c;
      assert Value(AllCategories[i]) == v;
    }
  }

  /** Counting one more task adds, to the sum, the number of listed categories it belongs to. */
  lemma {:induction false} SumCountsStep(tasks: seq<Task>, cats: seq<Category>)
    requires tasks != []
    ensures SumCounts(tasks, cats) == SumCounts(tasks[..|tasks| - 1], cats) + Hits(cats, tasks[|tasks| - 1].category)
  {
    if cats != [] {
      SumCountsStep(tasks, cats[1..]);
    }
  }

  /** With no tasks every count is zero. */
  lemma {:induction false} SumCountsEmpty(cats: seq<Category>)
    ensures SumCounts([], cats) == 0
  {
    if cats != [] {
      SumCountsEmpty(cats[1..]);
    }
  }

  /** The number of tasks whose category is one of the five. */
  function WellTypedCount(tasks: seq<Task>): (n: nat)
    ensures n <= |tasks|
    ensures n == |tasks| <==> forall i :: 0 <= i < |tasks| ==> WellTyped(tasks[i])
  {
    if tasks == [] then 0
    else
      var front := tasks[..|tasks| - 1];
      assert forall i :: 0 <= i < |front| ==> front[i] == tasks[i];
      WellTypedCount(front) + (if WellTyped(tasks[|tasks| - 1]) then 1 else 0)
  }

  /** The per-category counts add up to the number of tasks with a valid category. */
  lemma {:induction false} CountsSum(tasks: seq<Task>)
    ensures SumCounts(tasks, AllCategories) == WellTypedCount(tasks)
  {
    if tasks != [] {
      var front, last := tasks[..|tasks| - 1], tasks[|tasks| - 1];
      CountsSum(front);
      SumCountsStep(tasks, AllCategories);
      HitsAll(last.category);
      assert SumCounts(tasks, AllCategories) == SumCounts(front, AllCategories) + Hits(AllCategories, last.category);
      assert WellTypedCount(tasks) == WellTypedCount(front) + if WellTyped(last) then 1 else 0;
    } else {
      SumCountsEmpty(AllCategories);
    }
  }

  /** When every task has a valid category, the counts add up to the length of the list. */
  lemma CountsSumToLength(tasks: seq<Task>)
    requires forall i :: 0 <= i < |tasks| ==> WellTyped(tasks[i])
    ensures SumCounts(tasks, AllCategories) == |tasks|
  {
    CountsSum(tasks);
  }
}
