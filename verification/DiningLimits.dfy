/** Where the guarantees stop: one philosopher alone deadlocks, and once two philosophers can eat at the
    same time a take of rice that is a test, a load and a store hands the same pound out twice. */
module DiningLimits {
  import opened Dining
  import opened DiningSafety
  import opened DiningProgress

  function Last(run: seq<Table>): Table
    requires run != []
  {
    run[|run| - 1]
  }

  lemma Extend(run: seq<Table>, n: nat, rice: nat, atomic: bool, i: nat) returns (run': seq<Table>)
    requires IsRun(run, n, rice, atomic) && |Last(run).chop| == |Last(run).phils| && Enabled(Last(run), i)
    ensures run' != [] && IsRun(run', n, rice, atomic) && Last(run') == Step(Last(run), i, atomic)
  {
    run' := run + [Step(Last(run), i, atomic)];
    forall j | 0 <= j < |run'| - 1 ensures Next(run'[j], run'[j + 1], atomic) {
      if j < |run| - 1 {
        assert Next(run[j], run[j + 1], atomic);
      }
    }
  }

  ghost predicate Sits(s: Table, n: nat, i: nat, p: Phil) {
    |s.chop| == |s.phils| == n && i < n && s.phils[i] == p
  }

  /** One iteration of the thread's loop that only changes its own flag. */
  lemma LoopOnce(run: seq<Table>, n: nat, rice: nat, atomic: bool, i: nat,
                 v: VState, e: nat, x: int) returns (run': seq<Table>)
    requires IsRun(run, n, rice, atomic) && v in {EATING, THINKING}
    requires Sits(Last(run), n, i, Phil(Check, v, e, 0, x)) && Last(run).rice > 0
    ensures run' != [] && IsRun(run', n, rice, atomic)
    ensures var v' := if v == EATING then THINKING else HUNGRY;
            Last(run') == Last(run).(phils := Last(run).phils[i := Phil(Check, v', e, 0, x)])
  {
    var s := Last(run);
    hide IsRun;
    run' := Extend(run, n, rice, atomic, i);
    assert Last(run') == s.(phils := s.phils[i := Phil(Act, v, e, 0, x)]);
    run' := Extend(run', n, rice, atomic, i);
  }

  /** With rice left a philosopher goes from the start to its first chopstick without touching anything shared. */
  lemma GetHungry(run: seq<Table>, n: nat, rice: nat, atomic: bool, i: nat) returns (run': seq<Table>)
    requires IsRun(run, n, rice, atomic)
    requires Sits(Last(run), n, i, Phil(Start, VACATION, 0, 0, 0)) && Last(run).rice > 0
    ensures run' != [] && IsRun(run', n, rice, atomic)
    ensures Last(run') == Last(run).(phils := Last(run).phils[i := Phil(First, WAITING, 0, 0, 0)])
  {
    var s := Last(run);
    hide IsRun;
    run' := Extend(run, n, rice, atomic, i);
    assert Last(run') == s.(phils := s.phils[i := Phil(Check, EATING, 0, 0, 0)]);
    run' := LoopOnce(run', n, rice, atomic, i, EATING, 0, 0);
    assert Last(run') == s.(phils := s.phils[i := Phil(Check, THINKING, 0, 0, 0)]);
    run' := ReachOut(run', n, rice, atomic, i, 0, 0);
    assert Last(run') == s.(phils := s.phils[i := Phil(First, WAITING, 0, 0, 0)]);
  }

  /** From thinking to the first chopstick. */
  lemma ReachOut(run: seq<Table>, n: nat, rice: nat, atomic: bool, i: nat, e: nat, x: int)
    returns (run': seq<Table>)
    requires IsRun(run, n, rice, atomic)
    requires Sits(Last(run), n, i, Phil(Check, THINKING, e, 0, x)) && Last(run).rice > 0
    ensures run' != [] && IsRun(run', n, rice, atomic)
    ensures Last(run') == Last(run).(phils := Last(run).phils[i := Phil(First, WAITING, e, 0, x)])
  {
    var s := Last(run);
    hide IsRun;
    run' := LoopOnce(run, n, rice, atomic, i, THINKING, e, x);
    assert Last(run') == s.(phils := s.phils[i := Phil(Check, HUNGRY, e, 0, x)]);
    run' := Extend(run', n, rice, atomic, i);
    assert Last(run') == s.(phils := s.phils[i := Phil(Act, HUNGRY, e, 0, x)]);
    run' := Extend(run', n, rice, atomic, i);
  }

  lemma InitIsRun(n: nat, rice: nat, atomic: bool)
    ensures IsRun([Init(n, rice)], n, rice, atomic)
  {
  }

  // ---- One philosopher ----

  ghost predicate DeadlockFree(n: nat, rice: nat, atomic: bool) {
    forall run :: IsRun(run, n, rice, atomic) && Stuck(Last(run)) ==> AllDone(Last(run))
  }

  /** Alone, the left and the right chopstick are the same one. */
  lemma AloneIsStuck(rice: nat, atomic: bool) returns (run: seq<Table>)
    requires rice > 0
    ensures IsRun(run, 1, rice, atomic) && Stuck(Last(run)) && !AllDone(Last(run))
  {
    InitIsRun(1, rice, atomic);
    run := GetHungry([Init(1, rice)], 1, rice, atomic, 0);
    run := Extend(run, 1, rice, atomic, 0);
    assert Last(run) == Table(rice, [0], [Phil(Second, WAITING, 0, 0, 0)]);
  }

  /** Without rice nobody ever reaches for a chopstick. */
  ghost predicate NobodyEats(s: Table) {
    && s.rice == 0 && Handed(s.phils) == 0
    && forall i :: 0 <= i < |s.phils| ==> s.phils[i].pc in {Start, Check, Leave, Done}
  }

  lemma NobodyEatsStep(s: Table, i: nat, atomic: bool)
    requires |s.chop| == |s.phils| && NobodyEats(s) && Enabled(s, i)
    ensures NobodyEats(Step(s, i, atomic))
  {
    HandedUpdate(s.phils, i, LocalStep(i, At(s, i), atomic).phil);
  }

  lemma {:induction false} WithoutRiceNobodyEats(run: seq<Table>, n: nat, atomic: bool, j: nat)
    requires IsRun(run, n, 0, atomic) && j < |run|
    ensures |run[j].chop| == |run[j].phils| == n && NobodyEats(run[j])
  {
    hide Step, NobodyEats;
    if j == 0 {
      InitLosesNothing(n, 0);
    } else {
      WithoutRiceNobodyEats(run, n, atomic, j - 1);
      assert Next(run[j - 1], run[j - 1 + 1], atomic);
      var i: nat :| Enabled(run[j - 1], i) && run[j] == Step(run[j - 1], i, atomic);
      NobodyEatsStep(run[j - 1], i, atomic);
    }
  }

  lemma NobodyEatsIsFree(s: Table)
    requires NobodyEats(s) && Stuck(s)
    ensures AllDone(s)
  {
    forall i: nat | i < |s.phils| ensures s.phils[i].pc == Done {
      assert !Enabled(s, i);
    }
  }

  /** No run gets stuck before everybody has left exactly when there is not one philosopher alone with rice to eat. */
  lemma DeadlockFreeIff(n: nat, rice: nat, atomic: bool)
    ensures DeadlockFree(n, rice, atomic) <==> n != 1 || rice == 0
  {
    if n == 1 && rice > 0 {
      var run := AloneIsStuck(rice, atomic);
    } else {
      forall run | IsRun(run, n, rice, atomic) && Stuck(Last(run)) ensures AllDone(Last(run)) {
        if n >= 2 {
          RunsKeepInv(run, n, rice, atomic, |run| - 1);
          StuckMeansDone(Last(run));
        } else if n == 1 {
          WithoutRiceNobodyEats(run, n, atomic, |run| - 1);
          NobodyEatsIsFree(Last(run));
        } else {
          NobodySits(run, rice, atomic);
        }
      }
    }
  }

  /** At an empty table nothing ever happens. */
  lemma NobodySits(run: seq<Table>, rice: nat, atomic: bool)
    requires IsRun(run, 0, rice, atomic)
    ensures |run| == 1
  {
    assert !Next(Init(0, rice), if |run| > 1 then run[0 + 1] else run[0], atomic);
  }

  // ---- Rice as a load and a store ----

  /** No rice is lost: what was handed out together with what is left, or will be stored back, is the initial
      amount or more. */
  ghost predicate NothingLost(s: Table, rice: nat) {
    && s.rice + Handed(s.phils) >= rice
    && forall i :: 0 <= i < |s.phils| && s.phils[i].pc == Store ==> s.phils[i].tmp + Handed(s.phils) >= rice
  }

  lemma NothingLostStep(s: Table, i: nat, rice: nat)
    requires Inv(s) && NothingLost(s, rice) && Enabled(s, i)
    ensures NothingLost(Step(s, i, false), rice)
  {
    HandedUpdate(s.phils, i, LocalStep(i, At(s, i), false).phil);
  }

  lemma {:induction false} NoRiceIsLost(run: seq<Table>, n: nat, rice: nat, j: nat)
    requires n >= 2 && IsRun(run, n, rice, false) && j < |run|
    ensures NothingLost(run[j], rice)
  {
    hide Step, Inv, LocalStep, Handed, NothingLost;
    if j == 0 {
      InitLosesNothing(n, rice);
    } else {
      NoRiceIsLost(run, n, rice, j - 1);
      RunsKeepInv(run, n, rice, false, j - 1);
      assert Next(run[j - 1], run[j - 1 + 1], false);
      var i: nat :| Enabled(run[j - 1], i) && run[j] == Step(run[j - 1], i, false);
      NothingLostStep(run[j - 1], i, rice);
    }
  }

  lemma InitLosesNothing(n: nat, rice: nat)
    ensures NothingLost(Init(n, rice), rice) && Exact(Init(n, rice), rice)
    ensures rice == 0 ==> NobodyEats(Init(n, rice))
  {
    NothingHanded(n, rice);
  }

  // ---- When the count is exact ----

  /** What is left and what was handed out add up, nobody is about to store an outdated value, and who has seen
      rice still finds it. */
  ghost predicate Exact(s: Table, rice: nat) {
    && s.rice >= 0 && s.rice + Handed(s.phils) == rice
    && (forall i :: 0 <= i < |s.phils| && s.phils[i].pc in {Load, Store} ==> s.rice > 0)
    && (forall i :: 0 <= i < |s.phils| && s.phils[i].pc == Store ==> s.phils[i].tmp == s.rice)
  }

  lemma AtMostOne(e: set<nat>, i: nat, j: nat)
    requires i in e && j in e && |e| <= 1
    ensures i == j
  {
    var rest := e - {i};
    assert e == rest + {i} && |rest| == 0;
  }

  lemma SoleEater(s: Table, i: nat, j: nat)
    requires Owned(s) && |s.phils| <= 3 && i < |s.phils| && j < |s.phils|
    requires Eating(s.phils[i]) && Eating(s.phils[j])
    ensures i == j
  {
    AtMostHalfEat(s);
    assert i in Eaters(s) && j in Eaters(s);
    AtMostOne(Eaters(s), i, j);
  }

  lemma ExactStep(s: Table, i: nat, rice: nat)
    requires Inv(s) && Exact(s, rice) && Enabled(s, i) && |s.phils| <= 3
    ensures Exact(Step(s, i, false), rice)
  {
    HandedUpdate(s.phils, i, LocalStep(i, At(s, i), false).phil);
    forall j | 0 <= j < |s.phils| && j != i && s.phils[j].pc in {Load, Store} && Eating(s.phils[i]) ensures false {
      SoleEater(s, i, j);
    }
  }

  lemma {:induction false} FewPhilosophersAreExact(run: seq<Table>, n: nat, rice: nat, j: nat)
    requires 2 <= n && (n <= 3 || rice == 0) && IsRun(run, n, rice, false) && j < |run|
    ensures Exact(run[j], rice) && (rice == 0 ==> NobodyEats(run[j]))
  {
    hide Step, Inv, LocalStep, Handed;
    if j == 0 {
      InitLosesNothing(n, rice);
    } else {
      FewPhilosophersAreExact(run, n, rice, j - 1);
      RunsKeepInv(run, n, rice, false, j - 1);
      assert Next(run[j - 1], run[j - 1 + 1], false);
      var i: nat :| Enabled(run[j - 1], i) && run[j] == Step(run[j - 1], i, false);
      if rice == 0 {
        NobodyEatsStep(run[j - 1], i, false);
      } else {
        ExactStep(run[j - 1], i, rice);
      }
    }
  }

  /** From its first chopstick to holding a loaded value of Rice that it has not stored back yet. */
  lemma LoadRice(run: seq<Table>, n: nat, rice: nat, i: nat) returns (run': seq<Table>)
    requires n >= 2 && IsRun(run, n, rice, false)
    requires Sits(Last(run), n, i, Phil(First, WAITING, 0, 0, 0)) && Last(run).rice > 0
    requires Last(run).chop[FirstChop(i, n)] == 1 && Last(run).chop[SecondChop(i, n)] == 1
    ensures run' != [] && IsRun(run', n, rice, false)
    ensures var s := Last(run);
            Last(run') == Table(s.rice, s.chop[FirstChop(i, n) := 0][SecondChop(i, n) := 0],
                                s.phils[i := Phil(Store, EATING, 0, 0, s.rice)])
  {
    assert run != [];
    hide IsRun;
    TwoChopsticks(i, n);
    run' := Extend(run, n, rice, false, i);
    run' := Extend(run', n, rice, false, i);
    assert Last(run').phils[i] == Phil(Take, WAITING, 0, 0, 0);
    run' := Extend(run', n, rice, false, i);
    run' := Extend(run', n, rice, false, i);
  }

  /** Philosophers 0 and 2 load the same amount and both store it back less one. */
  lemma TwoTakeTheSamePound(n: nat, rice: nat) returns (run: seq<Table>)
    requires n >= 4 && rice >= 1
    ensures IsRun(run, n, rice, false) && Last(run).rice + Handed(Last(run).phils) == rice + 1
    ensures forall i :: 0 <= i < |Last(run).phils| ==> Last(run).phils[i].pc != Store
  {
    hide IsRun, LocalStep;
    InitIsRun(n, rice, false);
    run := GetHungry([Init(n, rice)], n, rice, false, 0);
    run := LoadRice(run, n, rice, 0);
    run := GetHungry(run, n, rice, false, 2);
    run := LoadRice(run, n, rice, 2);
    var s := Last(run);
    var holding := Phil(Store, EATING, 0, 0, rice);
    assert s.rice == rice && s.phils[0] == holding && s.phils[2] == holding;
    assert s.phils == Init(n, rice).phils[0 := s.phils[0]][2 := s.phils[2]];
    StorePound(s, 0);
    run := Extend(run, n, rice, false, 0);
    StorePound(Last(run), 2);
    run := Extend(run, n, rice, false, 2);
    NothingHanded(n, rice);
    HandedUpdate(Init(n, rice).phils, 0, s.phils[0]);
    HandedUpdate(Init(n, rice).phils[0 := s.phils[0]], 2, s.phils[2]);
  }

  lemma StorePound(s: Table, i: nat)
    requires |s.chop| == |s.phils| && i < |s.phils| && s.phils[i].pc == Store
    ensures Enabled(s, i) && Step(s, i, false).rice == s.phils[i].tmp - 1
    ensures Step(s, i, false).phils == s.phils[i := s.phils[i].(pc := PutFirst, pound := s.phils[i].pound + 1)]
    ensures Handed(Step(s, i, false).phils) == Handed(s.phils) + 1
  {
    HandedUpdate(s.phils, i, LocalStep(i, At(s, i), false).phil);
  }

  ghost predicate CountIsExact(n: nat, rice: nat) {
    forall run :: IsRun(run, n, rice, false) ==> Last(run).rice + Handed(Last(run).phils) == rice
  }

  /** One philosopher gets one chopstick at most, so it never eats. */
  ghost predicate Alone(s: Table, rice: nat) {
    && |s.phils| == |s.chop| == 1 && s.rice == rice
    && s.phils[0].eaten == s.phils[0].pound == 0
    && (if s.phils[0].pc == Second then s.chop[0] == 0
        else s.chop[0] == 1 && s.phils[0].pc in {Start, Check, Act, First, Leave, Done})
    && (s.phils[0].pc in {Leave, Done} ==> rice == 0)
  }

  lemma AloneStep(s: Table, rice: nat, i: nat, atomic: bool)
    requires Alone(s, rice) && Enabled(s, i)
    ensures Alone(Step(s, i, atomic), rice)
  {
  }

  lemma {:induction false} AloneInRuns(run: seq<Table>, rice: nat, atomic: bool, j: nat)
    requires IsRun(run, 1, rice, atomic) && j < |run|
    ensures Alone(run[j], rice)
  {
    hide Step, Alone;
    if j == 0 {
      StartsAlone(rice);
    } else {
      AloneInRuns(run, rice, atomic, j - 1);
      assert Next(run[j - 1], run[j - 1 + 1], atomic);
      var i: nat :| Enabled(run[j - 1], i) && run[j] == Step(run[j - 1], i, atomic);
      AloneStep(run[j - 1], rice, i, atomic);
    }
  }

  lemma StartsAlone(rice: nat)
    ensures Alone(Init(1, rice), rice)
  {
  }

  /** The count of a table that never changed or where nobody eats. */
  lemma FewerThanTwoAreExact(run: seq<Table>, n: nat, rice: nat, atomic: bool, j: nat)
    requires IsRun(run, n, rice, atomic) && n <= 1 && j < |run|
    ensures |run[j].phils| == n && run[j].rice == rice && Handed(run[j].phils) == 0
  {
    if n == 0 {
      NobodySits(run, rice, atomic);
      assert run[j] == run[0] == Init(0, rice);
    } else {
      AloneInRuns(run, rice, atomic, j);
      var phils := run[j].phils;
      assert Handed(phils) == phils[0].eaten + phils[0].pound + Handed(phils[1..]) && phils[1..] == [];
    }
  }

  /** With the take split into its accesses, rice left and rice handed out add up in every run exactly
      when no two philosophers can eat at once or there is no rice at all. */
  lemma CountIsExactIff(n: nat, rice: nat)
    ensures CountIsExact(n, rice) <==> n <= 3 || rice == 0
  {
    if n <= 3 || rice == 0 {
      forall run | IsRun(run, n, rice, false) ensures Last(run).rice + Handed(Last(run).phils) == rice {
        if n >= 2 {
          FewPhilosophersAreExact(run, n, rice, |run| - 1);
        } else {
          FewerThanTwoAreExact(run, n, rice, false, |run| - 1);
        }
      }
    } else {
      var run := TwoTakeTheSamePound(n, rice);
    }
  }
}
