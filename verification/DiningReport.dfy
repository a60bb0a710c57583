/** What main prints. It waits until it finds no rice left and then for the last philosopher created only, because
    the constructors share one thread handle; then it adds up RiceConsume while the others may still be eating. */
module DiningReport {
  import opened Dining
  import opened DiningSafety
  import opened DiningProgress
  import opened DiningLimits
  import opened DiningRace

  /** The thread of the philosopher created last has ended. */
  ghost predicate LastIsDone(s: Table) {
    s.phils != [] ==> s.phils[|s.phils| - 1].pc == Done
  }

  /** Main finds no rice at moment t, sees the last thread's end at moment g, and then reads the count of
      philosopher i at moment `moments[i]`. */
  ghost predicate Reading(run: seq<Table>, n: nat, t: nat, g: nat, moments: seq<nat>) {
    && t <= g < |run| && run[t].rice <= 0 && LastIsDone(run[g]) && |moments| == n
    && (forall j :: 0 <= j < |run| ==> |run[j].phils| == n)
    && (forall i :: 0 <= i < n ==> g <= moments[i] < |run|)
  }

  /** The philosophers as main sees them. */
  ghost function Seen(run: seq<Table>, n: nat, t: nat, g: nat, moments: seq<nat>): (seen: seq<Phil>)
    requires Reading(run, n, t, g, moments)
    ensures |seen| == n && forall i :: 0 <= i < n ==> seen[i] == run[moments[i]].phils[i]
  {
    seq(n, i requires 0 <= i < n => run[moments[i]].phils[i])
  }

  ghost function Share(p: Phil): nat {
    p.eaten + p.pound
  }

  /** Nobody has less in `b`. */
  ghost predicate SharesGrow(a: seq<Phil>, b: seq<Phil>) {
    |a| == |b| && forall i :: 0 <= i < |a| ==> Share(a[i]) <= Share(b[i])
  }

  lemma {:induction false} MoreShares(a: seq<Phil>, b: seq<Phil>)
    requires SharesGrow(a, b)
    ensures Handed(a) <= Handed(b)
  {
    if a == [] {
    } else {
      assert Share(a[0]) <= Share(b[0]);
      MoreShares(a[1..], b[1..]);
    }
  }

  /** What was handed out and not yet counted is in somebody's hands. */
  lemma {:induction false} EatenOrInHand(phils: seq<Phil>)
    ensures Eaten(phils) <= Handed(phils)
    ensures Eaten(phils) == Handed(phils) <==> forall i :: 0 <= i < |phils| ==> phils[i].pound == 0
  {
    if phils == [] {
    } else {
      EatenOrInHand(phils[1..]);
      if Eaten(phils) == Handed(phils) {
        forall i | 0 <= i < |phils| ensures phils[i].pound == 0 {
          assert i > 0 ==> phils[i] == phils[1..][i - 1];
        }
      }
    }
  }

  lemma ShareStep(s: Table, i: nat, atomic: bool)
    requires Inv(s) && Enabled(s, i)
    ensures SharesGrow(s.phils, Step(s, i, atomic).phils)
  {
  }

  lemma {:induction false} SharesGrowInRuns(run: seq<Table>, n: nat, rice: nat, atomic: bool, g: nat, j: nat)
    requires n >= 2 && IsRun(run, n, rice, atomic) && g <= j < |run|
    ensures |run[g].phils| == n && SharesGrow(run[g].phils, run[j].phils)
    decreases j
  {
    hide Step, Inv, Share;
    RunsKeepInv(run, n, rice, atomic, g);
    if j == g {
    } else {
      SharesGrowInRuns(run, n, rice, atomic, g, j - 1);
      RunsKeepInv(run, n, rice, atomic, j - 1);
      assert Next(run[j - 1], run[j - 1 + 1], atomic);
      var i: nat :| Enabled(run[j - 1], i) && run[j] == Step(run[j - 1], i, atomic);
      ShareStep(run[j - 1], i, atomic);
    }
  }

  // ---- What is handed out ----

  lemma NothingIsMissing(run: seq<Table>, n: nat, rice: nat, atomic: bool, j: nat)
    requires IsRun(run, n, rice, atomic) && j < |run|
    ensures run[j].rice + Handed(run[j].phils) >= rice
  {
    if n < 2 {
      FewerThanTwoAreExact(run, n, rice, atomic, j);
    } else if atomic {
      RiceIsConserved(run, n, rice, j);
    } else {
      NoRiceIsLost(run, n, rice, j);
    }
  }

  lemma NothingIsOver(run: seq<Table>, n: nat, rice: nat, atomic: bool, j: nat)
    requires IsRun(run, n, rice, atomic) && j < |run| && (atomic || n <= 3 || rice == 0)
    ensures Handed(run[j].phils) <= rice
  {
    if n < 2 {
      FewerThanTwoAreExact(run, n, rice, atomic, j);
    } else if atomic {
      RiceIsConserved(run, n, rice, j);
    } else {
      FewPhilosophersAreExact(run, n, rice, j);
    }
  }

  /** Main sees no less than there was when it found no rice, and no more than there is in the end. */
  lemma SeenBetween(run: seq<Table>, n: nat, rice: nat, atomic: bool, t: nat, g: nat, moments: seq<nat>)
    requires n >= 2 && IsRun(run, n, rice, atomic) && Reading(run, n, t, g, moments)
    ensures Handed(run[t].phils) <= Handed(Seen(run, n, t, g, moments)) <= Handed(run[|run| - 1].phils)
  {
    hide IsRun, Share, Handed, Seen;
    var seen := Seen(run, n, t, g, moments);
    forall i | 0 <= i < n
      ensures Share(run[t].phils[i]) <= Share(seen[i]) <= Share(run[|run| - 1].phils[i])
    {
      SharesGrowInRuns(run, n, rice, atomic, t, moments[i]);
      SharesGrowInRuns(run, n, rice, atomic, moments[i], |run| - 1);
    }
    MoreShares(run[t].phils, seen);
    MoreShares(seen, run[|run| - 1].phils);
  }

  lemma SeenAlone(run: seq<Table>, n: nat, rice: nat, atomic: bool, t: nat, g: nat, moments: seq<nat>)
    requires n <= 1 && IsRun(run, n, rice, atomic) && Reading(run, n, t, g, moments)
    ensures rice == Handed(Seen(run, n, t, g, moments)) == 0
  {
    var seen := Seen(run, n, t, g, moments);
    FewerThanTwoAreExact(run, n, rice, atomic, t);
    if n == 1 {
      AloneInRuns(run, rice, atomic, moments[0]);
      assert seen == [seen[0]] && Handed(seen[1..]) == 0;
    }
  }

  /** What main counts, together with what is in hand where it is not yet counted, is never less than the initial rice.
      If a pound is taken in one step, or with at most three philosophers, or without rice, the printed total is never
      more than the initial rice, and equals it exactly when nobody has a pound in hand when its count is read. */
  lemma PrintedTotal(run: seq<Table>, n: nat, rice: nat, atomic: bool, t: nat, g: nat, moments: seq<nat>)
    requires IsRun(run, n, rice, atomic) && Reading(run, n, t, g, moments)
    ensures Handed(Seen(run, n, t, g, moments)) >= rice
    ensures atomic || n <= 3 || rice == 0 ==>
              var seen := Seen(run, n, t, g, moments);
              && Handed(seen) == rice && Eaten(seen) <= rice
              && (Eaten(seen) == rice <==> forall i :: 0 <= i < n ==> run[moments[i]].phils[i].pound == 0)
  {
    var seen, last := Seen(run, n, t, g, moments), |run| - 1;
    EatenOrInHand(seen);
    if n <= 1 {
      SeenAlone(run, n, rice, atomic, t, g, moments);
    } else {
      hide Seen, IsRun;
      SeenBetween(run, n, rice, atomic, t, g, moments);
      NothingIsMissing(run, n, rice, atomic, t);
      if atomic || n <= 3 || rice == 0 {
        NothingIsOver(run, n, rice, atomic, last);
      }
    }
  }

  // ---- When it is exact ----

  ghost predicate PrintedIsExact(n: nat, rice: nat, atomic: bool) {
    forall run, t, g, moments ::
      IsRun(run, n, rice, atomic) && Reading(run, n, t, g, moments) ==> Eaten(Seen(run, n, t, g, moments)) == rice
  }

  ghost predicate PrintedIsAtMost(n: nat, rice: nat, atomic: bool) {
    forall run, t, g, moments ::
      IsRun(run, n, rice, atomic) && Reading(run, n, t, g, moments) ==> Eaten(Seen(run, n, t, g, moments)) <= rice
  }

  function Free(n: nat): (chop: seq<nat>)
    ensures |chop| == n && forall c :: 0 <= c < n ==> chop[c] == 1
  {
    seq(n, _ => 1)
  }

  /** Everybody at the start, except philosopher 0. */
  function Others(n: nat, p: Phil): (phils: seq<Phil>)
    requires n >= 1
    ensures |phils| == n
  {
    Init(n, 0).phils[0 := p]
  }

  /** Philosopher 0 takes both chopsticks. */
  lemma TakeChopsticks(run: seq<Table>, n: nat, rice: nat, atomic: bool, e: nat, x: int) returns (run': seq<Table>)
    requires n >= 2 && IsRun(run, n, rice, atomic) && e < rice
    requires Last(run) == Table(rice - e, Free(n), Others(n, Phil(Check, THINKING, e, 0, x)))
    ensures run' != [] && IsRun(run', n, rice, atomic)
    ensures Last(run') == Table(rice - e, Free(n)[1 := 0][0 := 0], Others(n, Phil(Take, WAITING, e, 0, x)))
  {
    assert run != [];
    hide IsRun;
    run' := ReachOut(run, n, rice, atomic, 0, e, x);
    assert Last(run') == Table(rice - e, Free(n), Others(n, Phil(First, WAITING, e, 0, x)));
    run' := Extend(run', n, rice, atomic, 0);
    assert Last(run') == Table(rice - e, Free(n)[1 := 0], Others(n, Phil(Second, WAITING, e, 0, x)));
    run' := Extend(run', n, rice, atomic, 0);
  }

  /** Philosopher 0 takes a pound and holds both chopsticks. */
  lemma TakePound(run: seq<Table>, n: nat, rice: nat, atomic: bool, e: nat, x: int) returns (run': seq<Table>)
    requires n >= 2 && IsRun(run, n, rice, atomic) && e < rice
    requires Last(run) == Table(rice - e, Free(n), Others(n, Phil(Check, THINKING, e, 0, x)))
    ensures run' != [] && IsRun(run', n, rice, atomic)
    ensures Last(run') == Table(rice - e - 1, Free(n)[1 := 0][0 := 0],
                                Others(n, Phil(PutFirst, EATING, e, 1, if atomic then x else rice - e)))
  {
    hide IsRun, Free;
    run' := TakeChopsticks(run, n, rice, atomic, e, x);
    var chop := Last(run').chop;
    run' := Extend(run', n, rice, atomic, 0);
    if !atomic {
      assert Last(run') == Table(rice - e, chop, Others(n, Phil(Load, EATING, e, 0, x)));
      run' := Extend(run', n, rice, atomic, 0);
      assert Last(run') == Table(rice - e, chop, Others(n, Phil(Store, EATING, e, 0, rice - e)));
      run' := Extend(run', n, rice, atomic, 0);
    }
  }

  /** Then it puts the chopsticks back and counts the pound. */
  lemma CountPound(run: seq<Table>, n: nat, rice: nat, atomic: bool, e: nat, x: int, r: int) returns (run': seq<Table>)
    requires n >= 2 && IsRun(run, n, rice, atomic)
    requires Last(run) == Table(r, Free(n)[1 := 0][0 := 0], Others(n, Phil(PutFirst, EATING, e, 1, x)))
    ensures run' != [] && IsRun(run', n, rice, atomic)
    ensures Last(run') == Table(r, Free(n), Others(n, Phil(Check, THINKING, e + 1, 0, x)))
  {
    assert run != [];
    hide IsRun;
    run' := Extend(run, n, rice, atomic, 0);
    assert Last(run') == Table(r, Free(n)[0 := 0], Others(n, Phil(PutSecond, EATING, e, 1, x)));
    run' := Extend(run', n, rice, atomic, 0);
    assert Last(run') == Table(r, Free(n), Others(n, Phil(Return, EATING, e, 1, x)));
    run' := Extend(run', n, rice, atomic, 0);
  }

  /** Philosopher 0 eats e pounds alone; x is the value of Rice it loaded last. */
  lemma {:induction false} EatAlone(n: nat, rice: nat, atomic: bool, e: nat) returns (run: seq<Table>, x: int)
    requires n >= 2 && e < rice
    ensures run != [] && IsRun(run, n, rice, atomic)
    ensures Last(run) == Table(rice - e, Free(n), Others(n, Phil(Check, THINKING, e, 0, x)))
  {
    if e == 0 {
      InitIsRun(n, rice, atomic);
      run := Extend([Init(n, rice)], n, rice, atomic, 0);
      assert Last(run) == Table(rice, Free(n), Others(n, Phil(Check, EATING, 0, 0, 0)));
      run := LoopOnce(run, n, rice, atomic, 0, EATING, 0, 0);
      x := 0;
    } else {
      run, x := EatAlone(n, rice, atomic, e - 1);
      run := TakePound(run, n, rice, atomic, e - 1, x);
      x := if atomic then x else rice - e + 1;
      run := CountPound(run, n, rice, atomic, e - 1, x, rice - e);
    }
  }

  /** A philosopher that starts without rice goes straight on vacation. */
  lemma LeaveAtOnce(run: seq<Table>, n: nat, rice: nat, atomic: bool, i: nat) returns (run': seq<Table>)
    requires IsRun(run, n, rice, atomic)
    requires Sits(Last(run), n, i, Phil(Start, VACATION, 0, 0, 0)) && Last(run).rice == 0
    ensures run' != [] && IsRun(run', n, rice, atomic)
    ensures Last(run') == Last(run).(phils := Last(run).phils[i := Phil(Done, VACATION, 0, 0, 0)])
  {
    var s := Last(run);
    hide IsRun;
    run' := Extend(run, n, rice, atomic, i);
    run' := Extend(run', n, rice, atomic, i);
    assert Last(run') == s.(phils := s.phils[i := Phil(Leave, EATING, 0, 0, 0)]);
    run' := Extend(run', n, rice, atomic, i);
  }

  lemma {:induction false} SizesInRun(run: seq<Table>, n: nat, rice: nat, atomic: bool)
    requires IsRun(run, n, rice, atomic)
    ensures forall j :: 0 <= j < |run| ==> |run[j].phils| == |run[j].chop| == n
  {
    if |run| == 1 {
    } else {
      var m := |run| - 1;
      forall j | 0 <= j < m - 1 ensures Next(run[..m][j], run[..m][j + 1], atomic) {
        assert Next(run[j], run[j + 1], atomic);
      }
      SizesInRun(run[..m], n, rice, atomic);
      assert run[..m][m - 1] == run[m - 1];
      assert Next(run[m - 1], run[m - 1 + 1], atomic);
    }
  }

  lemma {:induction false} NoneEaten(phils: seq<Phil>)
    requires forall i :: 0 <= i < |phils| ==> phils[i].eaten == 0
    ensures Eaten(phils) == 0
  {
    if phils == [] {
    } else {
      NoneEaten(phils[1..]);
    }
  }

  lemma OnlyFirstAte(n: nat, rice: nat, seen: seq<Phil>)
    requires n >= 2 && rice >= 1 && |seen| == n && seen[0].eaten == rice - 1
    requires forall i :: 1 <= i < n ==> seen[i].eaten == 0
    ensures Eaten(seen) == rice - 1
  {
    NoneEaten(seen[1..]);
  }

  /** Main reads everything in the last state of a run. */
  function AllAt(n: nat, j: nat): (moments: seq<nat>)
    ensures |moments| == n && forall i :: 0 <= i < n ==> moments[i] == j
  {
    seq(n, _ => j)
  }

  lemma ReadAtTheEnd(run: seq<Table>, n: nat, rice: nat, atomic: bool)
    requires IsRun(run, n, rice, atomic) && Last(run).rice <= 0 && LastIsDone(Last(run))
    ensures var j := |run| - 1;
            Reading(run, n, j, j, AllAt(n, j)) && Seen(run, n, j, j, AllAt(n, j)) == Last(run).phils
  {
    SizesInRun(run, n, rice, atomic);
  }

  /** Philosopher 0 has the last pound in hand when the last philosopher finds no rice and leaves: main goes on
      and counts one pound too few. */
  lemma MainPrintsLess(n: nat, rice: nat, atomic: bool) returns (run: seq<Table>, g: nat, moments: seq<nat>)
    requires n >= 2 && rice >= 1
    ensures IsRun(run, n, rice, atomic) && Reading(run, n, g, g, moments)
    ensures Eaten(Seen(run, n, g, g, moments)) == rice - 1
  {
    hide IsRun, Seen;
    var x;
    run, x := EatAlone(n, rice, atomic, rice - 1);
    run := TakePound(run, n, rice, atomic, rice - 1, x);
    var s, last := Last(run), n - 1;
    assert s.rice == 0 && s.phils[last] == Phil(Start, VACATION, 0, 0, 0);
    run := LeaveAtOnce(run, n, rice, atomic, last);
    g, moments := |run| - 1, AllAt(n, |run| - 1);
    ReadAtTheEnd(run, n, rice, atomic);
    OnlyFirstAte(n, rice, Last(run).phils);
  }

  /** A run can go on until everybody has left; a surplus r stays. */
  lemma {:induction false} GoOn(run: seq<Table>, n: nat, rice: nat, r: nat) returns (run': seq<Table>)
    requires n >= 2 && IsRun(run, n, rice, false) && NothingLost(Last(run), r)
    ensures IsRun(run', n, rice, false) && Stuck(Last(run')) && NothingLost(Last(run'), r)
    decreases RaceMeasure(Last(run))
  {
    var s := Last(run);
    RunsKeepInv(run, n, rice, false, |run| - 1);
    hide IsRun, NothingLost, Step, RaceMeasure;
    if Stuck(s) {
      run' := run;
    } else {
      var i: nat :| Enabled(s, i);
      NothingLostStep(s, i, r);
      RaceDecreases(s, i, false);
      run' := Extend(run, n, rice, false, i);
      run' := GoOn(run', n, rice, r);
    }
  }

  /** With four philosophers the pound that two of them stored back is counted twice. */
  lemma MainPrintsMore(n: nat, rice: nat) returns (run: seq<Table>, g: nat, moments: seq<nat>)
    requires n >= 4 && rice >= 1
    ensures IsRun(run, n, rice, false) && Reading(run, n, g, g, moments)
    ensures Eaten(Seen(run, n, g, g, moments)) > rice
  {
    hide IsRun, Seen, Stuck;
    run := TwoTakeTheSamePound(n, rice);
    run := GoOn(run, n, rice, rice + 1);
    assert run != [] by { IsNotEmpty(run, n, rice, false); }
    RacedRunsFinish(run, n, rice);
    g, moments := |run| - 1, AllAt(n, |run| - 1);
    ReadAtTheEnd(run, n, rice, false);
    RunsKeepInv(run, n, rice, false, |run| - 1);
    EatenIsHanded(Last(run).phils);
  }

  lemma IsNotEmpty(run: seq<Table>, n: nat, rice: nat, atomic: bool)
    requires IsRun(run, n, rice, atomic)
    ensures run != []
  {
  }

  /** The printed total is the initial rice in every run exactly when there is at most one philosopher or no rice. */
  lemma PrintedIsExactIff(n: nat, rice: nat, atomic: bool)
    ensures PrintedIsExact(n, rice, atomic) <==> n <= 1 || rice == 0
  {
    hide IsRun, Reading, Seen;
    if n <= 1 || rice == 0 {
      forall run, t, g, moments | IsRun(run, n, rice, atomic) && Reading(run, n, t, g, moments)
        ensures Eaten(Seen(run, n, t, g, moments)) == rice
      {
        PrintedTotal(run, n, rice, atomic, t, g, moments);
        if n <= 1 {
          SeenAlone(run, n, rice, atomic, t, g, moments);
        }
      }
    } else {
      var run, g, moments := MainPrintsLess(n, rice, atomic);
    }
  }

  /** It is never more than the initial rice exactly when a pound is taken in one step, there are at most three
      philosophers, or there is no rice. */
  lemma PrintedIsAtMostIff(n: nat, rice: nat, atomic: bool)
    ensures PrintedIsAtMost(n, rice, atomic) <==> atomic || n <= 3 || rice == 0
  {
    hide IsRun, Reading, Seen;
    if atomic || n <= 3 || rice == 0 {
      forall run, t, g, moments | IsRun(run, n, rice, atomic) && Reading(run, n, t, g, moments)
        ensures Eaten(Seen(run, n, t, g, moments)) <= rice
      {
        PrintedTotal(run, n, rice, atomic, t, g, moments);
      }
    } else {
      var run, g, moments := MainPrintsMore(n, rice);
    }
  }
}
