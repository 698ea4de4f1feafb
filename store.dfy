/**
 * The task-list store of App.tsx: create, edit, toggle and delete, each a
 * copy-on-write transformation from the previous list to the next one.
 * The id generator and the clock are not modelled; their values arrive as
 * the parameters `freshId` and `now`.
 */
module Store {
  import opened Wrappers
  import opened Types

  /** The ids present in the list. */
  function Ids(tasks: seq<Task>): set<string>
  {
    set i | 0 <= i < |tasks| :: tasks[i].id
  }

  /** No two tasks share an id. */
  ghost predicate UniqueIds(tasks: seq<Task>)
  {
    forall i, j :: 0 <= i < j < |tasks| ==> tasks[i].id != tasks[j].id
  }

  /** Every id is a non-empty string, so every id is truthy. */
  ghost predicate NonEmptyIds(tasks: seq<Task>)
  {
    forall i :: 0 <= i < |tasks| ==> tasks[i].id != ""
  }

  /** Every task's category is one of the enum's values. */
  ghost predicate AllWellTyped(tasks: seq<Task>)
  {
    forall i :: 0 <= i < |tasks| ==> WellTyped(tasks[i])
  }

  /** The store's invariant on ids and categories. */
  ghost predicate ValidStore(tasks: seq<Task>)
  {
    UniqueIds(tasks) && NonEmptyIds(tasks) && AllWellTyped(tasks)
  }

  /** An id that the generator may hand out: non-empty and not yet in use. */
  ghost predicate FreshId(tasks: seq<Task>, freshId: string)
  {
    freshId != "" && freshId !in Ids(tasks)
  }

  /** The number of tasks whose id is `k`. */
  function CountId(tasks: seq<Task>, k: string): (n: nat)
    ensures n <= |tasks|
    ensures n == 0 <==> k !in Ids(tasks)
  {
    if tasks == [] then 0
    else (if tasks[0].id == k then 1 else 0) + CountId(tasks[1..], k)
  }

  // ---------------------------------------------------------------- create

  /** The create branch of `addTask`: a new, incomplete task goes to the front. */
  function Create(tasks: seq<Task>, title: string, category: Category, freshId: string, now: int): (r: seq<Task>)
    ensures |r| == |tasks| + 1
    ensures r[0].id == freshId && r[0].title == title && r[0].category == Value(category)
    ensures !r[0].completed && r[0].createdAt == now
    ensures r[1..] == tasks
  {
    [Task(freshId, title, Value(category), false, now)] + tasks
  }

  // ---------------------------------------------------------------- edit

  /** The edit branch of `addTask`: every task with id `k` gets the new title and category. */
  function Edit(tasks: seq<Task>, k: string, title: string, category: Category): (r: seq<Task>)
    ensures |r| == |tasks|
    ensures forall i :: 0 <= i < |r| ==>
              r[i].id == tasks[i].id && r[i].completed == tasks[i].completed && r[i].createdAt == tasks[i].createdAt
    ensures forall i :: 0 <= i < |r| && tasks[i].id == k ==>
              r[i].title == title && r[i].category == Value(category)
    ensures forall i :: 0 <= i < |r| && tasks[i].id != k ==> r[i] == tasks[i]
  {
    if tasks == [] then []
    else
      var t := tasks[0];
      [if t.id == k then t.(title := title, category := Value(category)) else t] + Edit(tasks[1..], k, title, category)
  }

  /** Editing an id that is not in the list returns the list unchanged. */
  lemma EditUnmatched(tasks: seq<Task>, k: string, title: string, category: Category)
    requires k !in Ids(tasks)
    ensures Edit(tasks, k, title, category) == tasks
  {
    var r := Edit(tasks, k, title, category);
    forall i | 0 <= i < |tasks| ensures r[i] == tasks[i] {
      assert tasks[i].id in Ids(tasks);
    }
  }

  // ---------------------------------------------------------------- addTask

  /** JavaScript truthiness of the optional id: `undefined` and `""` are falsy. */
  predicate Truthy(id: Option<string>): (b: bool)
    ensures b <==> id != None && id != Some("")
  {
    id.Some? && id.value != ""
  }

  /** `addTask`: edits when the id is truthy, creates otherwise. */
  function AddTask(tasks: seq<Task>, title: string, category: Category, id: Option<string>,
                   freshId: string, now: int): (r: seq<Task>)
    ensures Truthy(id) ==> |r| == |tasks| && Ids(r) == Ids(tasks)
    ensures !Truthy(id) ==> |r| == |tasks| + 1 && r[0].id == freshId && r[1..] == tasks
    ensures Truthy(id) ==> r == Edit(tasks, id.value, title, category)
    ensures !Truthy(id) ==> r == Create(tasks, title, category, freshId, now)
  {
    if Truthy(id) then
      var r := Edit(tasks, id.value, title, category);
      assert Ids(r) == Ids(tasks) by {
        assert forall i :: 0 <= i < |r| ==> r[i].id == tasks[i].id;
      }
      r
    else Create(tasks, title, category, freshId, now)
  }

  /** An empty-string id is falsy, so it takes the create path. */
  lemma EmptyIdCreates(tasks: seq<Task>, title: string, category: Category, freshId: string, now: int)
    ensures |AddTask(tasks, title, category, Some(""), freshId, now)| == |tasks| + 1
    ensures AddTask(tasks, title, category, Some(""), freshId, now) == Create(tasks, title, category, freshId, now)
  {
  }

  // ---------------------------------------------------------------- toggle

  /** `toggleTask`: flips `completed` on every task with id `k`. */
  function Toggle(tasks: seq<Task>, k: string): (r: seq<Task>)
    ensures |r| == |tasks|
    ensures forall i :: 0 <= i < |r| ==>
              r[i].id == tasks[i].id && r[i].title == tasks[i].title && r[i].category == tasks[i].category
              && r[i].createdAt == tasks[i].createdAt
              && r[i].completed == (tasks[i].completed != (tasks[i].id == k))
  {
    if tasks == [] then []
    else
      var t := tasks[0];
      [if t.id == k then t.(completed := !t.completed) else t] + Toggle(tasks[1..], k)
  }

  /** Toggling the same id twice restores the list. */
  lemma {:induction false} ToggleInvolution(tasks: seq<Task>, k: string)
    ensures Toggle(Toggle(tasks, k), k) == tasks
  {
    if tasks != [] {
      ToggleInvolution(tasks[1..], k);
      assert Toggle(tasks, k)[1..] == Toggle(tasks[1..], k);
    }
  }

  // ---------------------------------------------------------------- delete

  /** `deleteTask`: keeps the tasks whose id is not `k`, in order. */
  function Delete(tasks: seq<Task>, k: string): (r: seq<Task>)
    ensures |r| == |tasks| - CountId(tasks, k)
    ensures forall i :: 0 <= i < |r| ==> r[i].id != k
    ensures forall t :: multiset(r)[t] == if t.id == k then 0 else multiset(tasks)[t]
  {
    if tasks == [] then []
    else
      assert tasks == [tasks[0]] + tasks[1..];
      (if tasks[0].id == k then [] else [tasks[0]]) + Delete(tasks[1..], k)
  }

  /** `sub` is `s` with some elements dropped, the rest kept in order. */
  ghost predicate IsSubsequence(sub: seq<Task>, s: seq<Task>)
    decreases |s|
  {
    if sub == [] then true
    else if s == [] then false
    else if sub[0] == s[0] then IsSubsequence(sub[1..], s[1..])
    else IsSubsequence(sub, s[1..])
  }

  /** What delete leaves is a subsequence of the original list. */
  lemma {:induction false} DeleteSubsequence(tasks: seq<Task>, k: string)
    ensures IsSubsequence(Delete(tasks, k), tasks)
  {
    if tasks != [] {
      DeleteSubsequence(tasks[1..], k);
      var r, rest := Delete(tasks, k), Delete(tasks[1..], k);
      if tasks[0].id != k {
        assert r == [tasks[0]] + rest;
        assert r[1..] == rest;
      } else {
        assert r == rest;
        assert r != [] ==> r[0].id != k;
      }
    }
  }

  /** Deleting an id that is not in the list returns the list unchanged. */
  lemma {:induction false} DeleteUnmatched(tasks: seq<Task>, k: string)
    requires k !in Ids(tasks)
    ensures Delete(tasks, k) == tasks
  {
    if tasks != [] {
      assert tasks[0].id in Ids(tasks);
      assert Ids(tasks[1..]) <= Ids(tasks) by {
        forall x | x in Ids(tasks[1..]) ensures x in Ids(tasks) {
          var i :| 0 <= i < |tasks[1..]| && tasks[1..][i].id == x;
          assert tasks[i + 1].id == x;
        }
      }
      DeleteUnmatched(tasks[1..], k);
    }
  }

  /** Deleting twice is the same as deleting once. */
  lemma DeleteIdempotent(tasks: seq<Task>, k: string)
    ensures Delete(Delete(tasks, k), k) == Delete(tasks, k)
  {
    var r := Delete(tasks, k);
    assert k !in Ids(r);
    DeleteUnmatched(r, k);
  }

  /** With unique ids, deleting a present id removes exactly one task. */
  lemma {:induction false} DeleteRemovesOne(tasks: seq<Task>, k: string)
    requires UniqueIds(tasks)
    requires k in Ids(tasks)
    ensures |Delete(tasks, k)| == |tasks| - 1
  {
    var i :| 0 <= i < |tasks| && tasks[i].id == k;
    CountIdAt(tasks, k, i);
  }

  /** A unique id present at index `i` is counted exactly once. */
  lemma {:induction false} CountIdAt(tasks: seq<Task>, k: string, i: nat)
    requires UniqueIds(tasks)
    requires i < |tasks| && tasks[i].id == k
    ensures CountId(tasks, k) == 1
  {
    if i == 0 {
      var rest := tasks[1..];
      forall j | 0 <= j < |rest| ensures rest[j].id != k {
        assert rest[j] == tasks[j + 1];
      }
    } else {
      CountIdAt(tasks[1..], k, i - 1);
    }
  }

  // ---------------------------------------------------------------- invariant

  /** Creating with a fresh id keeps the store valid. */
  lemma CreateValid(tasks: seq<Task>, title: string, category: Category, freshId: string, now: int)
    requires ValidStore(tasks)
    requires FreshId(tasks, freshId)
    ensures ValidStore(Create(tasks, title, category, freshId, now))
  {
    var r := Create(tasks, title, category, freshId, now);
    forall j | 0 <= j < |tasks| ensures tasks[j].id != freshId {
      assert tasks[j].id in Ids(tasks);
    }
    ConsUnique(r[0], tasks);
    assert r == [r[0]] + tasks;
    forall i | 0 <= i < |r| ensures r[i].id != "" && WellTyped(r[i]) {
      if i > 0 { assert r[i] == tasks[i - 1]; }
    }
  }

  /** Editing keeps the store valid. */
  lemma EditValid(tasks: seq<Task>, k: string, title: string, category: Category)
    requires ValidStore(tasks)
    ensures ValidStore(Edit(tasks, k, title, category))
  {
  }

  /** Toggling keeps the store valid. */
  lemma ToggleValid(tasks: seq<Task>, k: string)
    requires ValidStore(tasks)
    ensures ValidStore(Toggle(tasks, k))
  {
  }

  /** Deleting keeps the store valid. */
  lemma {:induction false} DeleteValid(tasks: seq<Task>, k: string)
    requires ValidStore(tasks)
    ensures ValidStore(Delete(tasks, k))
  {
    DeleteKeepsUnique(tasks, k);
    var r := Delete(tasks, k);
    forall i | 0 <= i < |r| ensures r[i].id != "" && WellTyped(r[i]) {
      var j := DeleteOrigin(tasks, k, i);
    }
  }

  /** Every task that delete keeps comes from some index of the original list. */
  lemma DeleteOrigin(tasks: seq<Task>, k: string, j: nat) returns (m: nat)
    requires j < |Delete(tasks, k)|
    ensures m < |tasks| && tasks[m] == Delete(tasks, k)[j]
  {
    var r := Delete(tasks, k);
    assert r[j] in multiset(r);
    assert r[j] in multiset(tasks);
    m :| 0 <= m < |tasks| && tasks[m] == r[j];
  }

  /** Dropping the head keeps ids unique. */
  lemma TailUnique(tasks: seq<Task>)
    requires tasks != [] && UniqueIds(tasks)
    ensures UniqueIds(tasks[1..])
  {
    forall i, j | 0 <= i < j < |tasks[1..]| ensures tasks[1..][i].id != tasks[1..][j].id {
      assert tasks[1..][i] == tasks[i + 1] && tasks[1..][j] == tasks[j + 1];
    }
  }

  /** Putting a task with a new id in front of a list with unique ids keeps them unique. */
  lemma ConsUnique(t: Task, rest: seq<Task>)
    requires UniqueIds(rest)
    requires forall j :: 0 <= j < |rest| ==> rest[j].id != t.id
    ensures UniqueIds([t] + rest)
  {
    var r := [t] + rest;
    forall i, j | 0 <= i < j < |r| ensures r[i].id != r[j].id {
      assert r[j] == rest[j - 1];
      if i > 0 { assert r[i] == rest[i - 1]; }
    }
  }

  /** Deleting keeps ids unique. */
  lemma {:induction false} DeleteKeepsUnique(tasks: seq<Task>, k: string)
    requires UniqueIds(tasks)
    ensures UniqueIds(Delete(tasks, k))
  {
    if tasks != [] {
      TailUnique(tasks);
      DeleteKeepsUnique(tasks[1..], k);
      var rest := Delete(tasks[1..], k);
      if tasks[0].id != k {
        forall j | 0 <= j < |rest| ensures rest[j].id != tasks[0].id {
          var m := DeleteOrigin(tasks[1..], k, j);
          assert tasks[m + 1] == rest[j];
        }
        ConsUnique(tasks[0], rest);
      }
    }
  }
}
