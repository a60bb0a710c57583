/** Every run ends, and ends with all the rice eaten. The take of a pound of rice is one step here. */
module DiningProgress {
  import opened Numbers
  import opened Dining
  import opened DiningSafety

  // ---- Conservation ----

  function Handed(phils: seq<Phil>): nat {
    if phils == [] then 0 else phils[0].eaten + phils[0].pound + Handed(phils[1..])
  }

  lemma {:induction false} HandedUpdate(phils: seq<Phil>, i: nat, p: Phil)
    requires i < |phils|
    ensures Handed(phils[i := p]) == Handed(phils) - (phils[i].eaten + phils[i].pound) + (p.eaten + p.pound)
  {
    if i == 0 {
      assert phils[i := p][1..] == phils[1..];
    } else {
      assert phils[i := p][1..] == phils[1..][i - 1 := p];
      HandedUpdate(phils[1..], i - 1, p);
    }
  }

  lemma {:induction false} NothingHanded(n: nat, rice: nat)
    ensures Handed(Init(n, rice).phils) == 0
  {
    if n == 0 {
    } else {
      NothingHanded(n - 1, rice);
      assert Init(n, rice).phils[1..] == Init(n - 1, rice).phils;
    }
  }

  /** Rice is never negative, and who has found none left leaves for good. */
  ghost predicate RiceOk(s: Table) {
    && s.rice >= 0
    && forall i :: 0 <= i < |s.phils| ==>
         s.phils[i].pc !in {Load, Store} && (s.phils[i].pc in {Leave, Done} ==> s.rice == 0)
  }

  lemma RiceStep(s: Table, i: nat)
    requires Inv(s) && RiceOk(s) && Enabled(s, i)
    ensures RiceOk(Step(s, i, true))
    ensures Step(s, i, true).rice + Handed(Step(s, i, true).phils) == s.rice + Handed(s.phils)
  {
    HandedUpdate(s.phils, i, LocalStep(i, At(s, i), true).phil);
  }

  /** In every state the rice left and the pounds handed out add up to the initial amount. */
  lemma {:induction false} RiceIsConserved(run: seq<Table>, n: nat, rice: nat, j: nat)
    requires n >= 2 && IsRun(run, n, rice, true) && j < |run|
    ensures RiceOk(run[j]) && run[j].rice + Handed(run[j].phils) == rice
  {
    hide Step, Inv, LocalStep, Handed;
    if j == 0 {
      NothingHanded(n, rice);
    } else {
      RiceIsConserved(run, n, rice, j - 1);
      RunsKeepInv(run, n, rice, true, j - 1);
      assert Next(run[j - 1], run[j - 1 + 1], true);
      var i: nat :| Enabled(run[j - 1], i) && run[j] == Step(run[j - 1], i, true);
      RiceStep(run[j - 1], i);
    }
  }

  // ---- Termination ----

  /** The most steps the philosopher can take before it has changed Rice, or in all once the rice is gone. */
  function Rank(p: Phil, more: bool): (r: nat)
    ensures r <= 13
  {
    match p.pc
    case Start => if more then 13 else 3
    case Check => if !more then 2 else if p.vState == EATING then 12 else if p.vState == THINKING then 10 else 8
    case Act => if !more then (if p.vState == HUNGRY then 11 else 3)
                else if p.vState == EATING then 11 else if p.vState == THINKING then 9 else 7
    case First => if more then 6 else 10
    case Second => if more then 5 else 9
    case Take => if more then 4 else 8
    case Load => if more then 3 else 7
    case Store => if more then 2 else 6
    case PutFirst => if more then 13 else 5
    case PutSecond => if more then 12 else 4
    case Return => if more then 11 else 3
    case Leave => 1
    case Done => 0
  }

  function Ranks(phils: seq<Phil>, more: bool): (r: nat)
    ensures r <= 13 * |phils|
  {
    if phils == [] then 0 else Rank(phils[0], more) + Ranks(phils[1..], more)
  }

  lemma {:induction false} RanksUpdate(phils: seq<Phil>, i: nat, p: Phil, more: bool)
    requires i < |phils|
    ensures Ranks(phils[i := p], more) == Ranks(phils, more) - Rank(phils[i], more) + Rank(p, more)
  {
    if i == 0 {
      assert phils[i := p][1..] == phils[1..];
    } else {
      assert phils[i := p][1..] == phils[1..][i - 1 := p];
      RanksUpdate(phils[1..], i - 1, p, more);
    }
  }

  function Measure(s: Table): (m: nat)
    requires s.rice >= 0
  {
    s.rice * (13 * |s.phils| + 1) + Ranks(s.phils, s.rice > 0)
  }

  lemma LocalProgress(i: nat, l: Local)
    requires i < |l.chop| && CanStep(i, l) && FlagsOk(l.phil) && l.phil.pc !in {Load, Store} && l.rice >= 0
    requires l.phil.pc in {Leave, Done} ==> l.rice == 0
    ensures var l' := LocalStep(i, l, true);
            (l'.rice == l.rice && Rank(l'.phil, l.rice > 0) < Rank(l.phil, l.rice > 0)) || l'.rice == l.rice - 1 >= 0
  {
  }

  lemma StepDecreases(s: Table, i: nat)
    requires Inv(s) && RiceOk(s) && Enabled(s, i)
    ensures Step(s, i, true).rice >= 0 && Measure(Step(s, i, true)) < Measure(s)
  {
    var l := LocalStep(i, At(s, i), true);
    LocalProgress(i, At(s, i));
    RanksUpdate(s.phils, i, l.phil, s.rice > 0);
    if l.rice < s.rice {
      MulSucc(13 * |s.phils| + 1, s.rice - 1);
    }
  }

  /** A bound on the length of every run of n philosophers. */
  function Bound(n: nat, rice: nat): nat {
    rice * (13 * n + 1) + 13 * n
  }

  lemma {:induction false} MeasureBoundsSteps(run: seq<Table>, n: nat, rice: nat, j: nat)
    requires n >= 2 && IsRun(run, n, rice, true) && j < |run|
    ensures run[j].rice >= 0 && j + Measure(run[j]) <= Bound(n, rice)
  {
    hide Step, Inv, LocalStep, Ranks;
    if j == 0 {
    } else {
      MeasureBoundsSteps(run, n, rice, j - 1);
      RunsKeepInv(run, n, rice, true, j - 1);
      RiceIsConserved(run, n, rice, j - 1);
      assert Next(run[j - 1], run[j - 1 + 1], true);
      var i: nat :| Enabled(run[j - 1], i) && run[j] == Step(run[j - 1], i, true);
      StepDecreases(run[j - 1], i);
    }
  }

  /** Every run is finite: it takes at most Bound(n, rice) steps. */
  lemma RunsAreBounded(run: seq<Table>, n: nat, rice: nat)
    requires n >= 2 && IsRun(run, n, rice, true)
    ensures |run| - 1 <= Bound(n, rice)
  {
    MeasureBoundsSteps(run, n, rice, |run| - 1);
  }

  // ---- Where runs end ----

  function Eaten(phils: seq<Phil>): nat {
    if phils == [] then 0 else phils[0].eaten + Eaten(phils[1..])
  }

  lemma {:induction false} EatenIsHanded(phils: seq<Phil>)
    requires forall i :: 0 <= i < |phils| ==> phils[i].pound == 0
    ensures Eaten(phils) == Handed(phils)
  {
    if phils == [] {
    } else {
      EatenIsHanded(phils[1..]);
    }
  }

  /** Everybody is on vacation, the table is laid as at the start, and the philosophers ate the rice. */
  ghost predicate Finished(s: Table, rice: nat) {
    && (forall i :: 0 <= i < |s.phils| ==> s.phils[i].pc == Done && s.phils[i].vState == VACATION)
    && (forall c :: 0 <= c < |s.chop| ==> s.chop[c] == 1)
    && s.rice == 0 && Eaten(s.phils) == rice
  }

  lemma DoneIsFinished(s: Table, rice: nat)
    requires Inv(s) && RiceOk(s) && AllDone(s) && s.rice + Handed(s.phils) == rice
    ensures Finished(s, rice)
  {
    assert s.phils[0].pc == Done;
    EatenIsHanded(s.phils);
    TableIsLaid(s);
  }

  /** A run that cannot go on has finished. */
  lemma MaximalRunsFinish(run: seq<Table>, n: nat, rice: nat)
    requires n >= 2 && IsRun(run, n, rice, true) && Stuck(run[|run| - 1])
    ensures Finished(run[|run| - 1], rice)
  {
    hide Inv, RiceOk, Finished, Stuck, AllDone;
    RunsKeepInv(run, n, rice, true, |run| - 1);
    RiceIsConserved(run, n, rice, |run| - 1);
    StuckMeansDone(run[|run| - 1]);
    DoneIsFinished(run[|run| - 1], rice);
  }
}
