/**
 * The application state of App.tsx as a whole: the seed list used when
 * nothing is stored, the invariant every reachable list keeps, and the
 * derivations evaluated on the seed.
 */
module App {
  import opened Wrappers
  import opened Types
  import opened Store
  import opened Stats
  import opened Display
  import opened Modal

  /**
   * `INITIAL_TASKS`: four sample tasks. Each `createdAt` is a separate
   * reading of the clock, passed in as `t1` .. `t4`.
   */
  function InitialTasks(t1: int, t2: int, t3: int, t4: int): (r: seq<Task>)
    ensures |r| == 4
    ensures Ids(r) == {"1", "2", "3", "4"}
    ensures r[0].completed && !r[1].completed && !r[2].completed && !r[3].completed
  {
    var r := [
      Task("1", "Wake up by 6am", Value(Personal), true, t1),
      Task("2", "Check emails", Value(Work), false, t2),
      Task("3", "Lunch with team", Value(Business), false, t3),
      Task("4", "Meditation", Value(Health), false, t4)
    ];
    assert r[0].id == "1" && r[1].id == "2" && r[2].id == "3" && r[3].id == "4";
    r
  }

  /** What holds of every list the application can reach. */
  ghost predicate AppInvariant(tasks: seq<Task>)
  {
    ValidStore(tasks) && NonBlankTitles(tasks)
  }

  /** The seed list satisfies the invariant. */
  lemma InitialTasksValid(t1: int, t2: int, t3: int, t4: int)
    ensures AppInvariant(InitialTasks(t1, t2, t3, t4))
  {
    var r := InitialTasks(t1, t2, t3, t4);
    assert r[0].title[0] == 'W' && r[1].title[0] == 'C' && r[2].title[0] == 'L' && r[3].title[0] == 'M';
  }

  /** Saving from the dialog with a fresh id keeps the invariant. */
  lemma SubmitPreserves(tasks: seq<Task>, title: string, category: Category, editingId: Option<string>,
                        freshId: string, now: int)
    requires AppInvariant(tasks)
    requires FreshId(tasks, freshId)
    ensures AppInvariant(Submit(tasks, title, category, editingId, freshId, now))
  {
    SubmitKeepsTitles(tasks, title, category, editingId, freshId, now);
    if !IsBlank(title) {
      if Truthy(editingId) {
        EditValid(tasks, editingId.value, title, category);
      } else {
        CreateValid(tasks, title, category, freshId, now);
      }
    }
  }

  /** Toggling keeps the invariant. */
  lemma TogglePreserves(tasks: seq<Task>, k: string)
    requires AppInvariant(tasks)
    ensures AppInvariant(Toggle(tasks, k))
  {
    ToggleValid(tasks, k);
  }

  /** Deleting keeps the invariant. */
  lemma DeletePreserves(tasks: seq<Task>, k: string)
    requires AppInvariant(tasks)
    ensures AppInvariant(Delete(tasks, k))
  {
    DeleteValid(tasks, k);
    var r := Delete(tasks, k);
    forall i | 0 <= i < |r| ensures !IsBlank(r[i].title) {
      var j := DeleteOrigin(tasks, k, i);
    }
  }

  /** The tally of the seed list: one task in each category but School, only the Personal one done. */
  lemma InitialStats(t1: int, t2: int, t3: int, t4: int)
    ensures var seed := InitialTasks(t1, t2, t3, t4);
            && Expected(seed, "Business") == Stat(1, 0)
            && Expected(seed, "School") == Stat(0, 0)
            && Expected(seed, "Personal") == Stat(1, 1)
            && Expected(seed, "Work") == Stat(1, 0)
            && Expected(seed, "Health") == Stat(1, 0)
  {
    var seed := InitialTasks(t1, t2, t3, t4);
    var w, c, l, m := seed[0], seed[1], seed[2], seed[3];
    assert seed == [w, c, l, m];
    assert seed[..3] == [w, c, l] && [w, c, l][..2] == [w, c] && [w, c][..1] == [w] && [w][..0] == [];
    assert "Business"[0] == 'B' && "School"[0] == 'S' && "Personal"[0] == 'P' && "Work"[0] == 'W' && "Health"[0] == 'H';
    assert w.category == "Personal" && w.completed;
    assert c.category == "Work" && !c.completed;
    assert l.category == "Business" && !l.completed;
    assert m.category == "Health" && !m.completed;
    forall cat: string ensures Expected([w], cat) == if cat == "Personal" then Stat(1, 1) else Stat(0, 0) {
      assert [w][..0] == [];
      assert CountIn([w], cat) == CountIn([], cat) + if w.category == cat then 1 else 0;
      assert CompletedIn([w], cat) == CompletedIn([], cat) + if w.category == cat && w.completed then 1 else 0;
    }
    forall cat: string ensures Expected([w, c], cat) == Expected([w], cat).(count := CountIn([w], cat) + if cat == "Work" then 1 else 0) {
      assert [w, c][..1] == [w];
    }
    forall cat: string ensures Expected([w, c, l], cat) == Expected([w, c], cat).(count := CountIn([w, c], cat) + if cat == "Business" then 1 else 0) {
      assert [w, c, l][..2] == [w, c];
    }
    forall cat: string ensures Expected(seed, cat) == Expected([w, c, l], cat).(count := CountIn([w, c, l], cat) + if cat == "Health" then 1 else 0) {
      assert seed[..3] == [w, c, l];
    }
  }

  /**
   * When the four clock readings coincide, the seed displays its incomplete
   * tasks in list order and the completed one last.
   */
  lemma InitialDisplay(t: int)
    ensures var seed := InitialTasks(t, t, t, t);
            DisplayOrder(seed) == [seed[1], seed[2], seed[3], seed[0]]
  {
    var seed := InitialTasks(t, t, t, t);
    var w, c, l, m := seed[0], seed[1], seed[2], seed[3];
    assert seed == [w, c, l, m];
    assert seed[..3] == [w, c, l] && [w, c, l][..2] == [w, c] && [w, c][..1] == [w] && [w][..0] == [];
    assert DisplayOrder([w]) == [w];
    assert [w][..0] == [] && [c, w][..1] == [c] && [c, l, w][..2] == [c, l];
    assert Insert([], c) == [c];
    assert Insert([w], c) == [c, w];
    assert DisplayOrder([w, c]) == [c, w];
    assert Insert([c], l) == [c, l];
    assert Insert([c, w], l) == [c, l, w];
    assert DisplayOrder([w, c, l]) == [c, l, w];
    assert Insert([c, l], m) == [c, l, m];
    assert Insert([c, l, w], m) == [c, l, m, w];
  }
}
