/** Termination without assuming that a pound of rice is taken in one step. A stale store can put rice back,
    so the measure weighs Rice and every loaded value not yet stored exponentially: what a store puts back
    weighs less than the loaded value it uses up. */
module DiningRace {
  import opened Numbers
  import opened Dining
  import opened DiningSafety
  import opened DiningProgress
  import opened DiningLimits

  function Pow(b: nat, e: nat): nat {
    if e == 0 then 1 else b * Pow(b, e - 1)
  }

  /** The weight of an amount of rice. */
  function Weight(b: nat, x: int): nat {
    Pow(b, if x < 0 then 0 else x)
  }

  lemma {:induction false} WeightPositive(b: nat, x: int)
    requires b >= 1
    ensures Weight(b, x) >= 1
    decreases x
  {
    if x <= 0 {
    } else {
      WeightPositive(b, x - 1);
      assert b * Weight(b, x - 1) >= 1 * Weight(b, x - 1);
    }
  }

  lemma WeightStep(b: nat, x: int)
    requires x >= 1
    ensures Weight(b, x) == b * Weight(b, x - 1)
  {
  }

  /** The amount a philosopher works with: what it has loaded, or Rice as it is. */
  function Amount(p: Phil, rice: int): int {
    if p.pc == Store then p.tmp else rice
  }

  function Weights(b: nat, phils: seq<Phil>, rice: int): nat {
    if phils == [] then 0 else Weight(b, Amount(phils[0], rice)) + Weights(b, phils[1..], rice)
  }

  lemma {:induction false} WeightsUpdate(b: nat, phils: seq<Phil>, rice: int, i: nat, p: Phil)
    requires i < |phils|
    ensures Weights(b, phils[i := p], rice)
         == Weights(b, phils, rice) - Weight(b, Amount(phils[i], rice)) + Weight(b, Amount(p, rice))
  {
    if i == 0 {
      assert phils[i := p][1..] == phils[1..];
    } else {
      assert phils[i := p][1..] == phils[1..][i - 1 := p];
      WeightsUpdate(b, phils[1..], rice, i - 1, p);
    }
  }

  /** Rice changing under the philosophers adds at most its new weight for each, and nothing if it shrinks. */
  lemma {:induction false} WeightsChange(b: nat, phils: seq<Phil>, rice: int, rice': int)
    ensures Weights(b, phils, rice') <= Weights(b, phils, rice) + |phils| * Weight(b, rice')
    ensures Weight(b, rice') <= Weight(b, rice) ==> Weights(b, phils, rice') <= Weights(b, phils, rice)
  {
    if phils == [] {
    } else {
      WeightsChange(b, phils[1..], rice, rice');
      MulSucc(Weight(b, rice'), |phils| - 1);
    }
  }

  function Total(s: Table): nat {
    var b := |s.phils| + 2;
    Weights(b, s.phils, s.rice) + Weight(b, s.rice)
  }

  function RaceMeasure(s: Table): nat {
    Total(s) * (13 * |s.phils| + 1) + Ranks(s.phils, s.rice > 0)
  }

  /** Why a store lowers the total: `all` and `all1` are the weights before and after Rice changes from weight w to
      weight w1, `t` is the weight of the loaded amount. */
  lemma StoreArithmetic(n: nat, all: int, all1: int, w: int, w1: int, t: int)
    requires all1 <= all + n * w1 && t == (n + 2) * w1 && w >= 1
    ensures all1 - t + w1 + w1 < all + w
  {
    MulSucc(w1, n);
    MulSucc(w1, n + 1);
  }

  lemma WeightAtLeastTwice(n: nat, x: int)
    requires x >= 1
    ensures Weight(n + 2, x) >= 2 * Weight(n + 2, x - 1) && Weight(n + 2, x - 1) >= 1
  {
    WeightStep(n + 2, x);
    WeightPositive(n + 2, x - 1);
    MulMono(Weight(n + 2, x - 1), 2, n + 2);
  }

  /** Storing t - 1 where t was loaded. */
  lemma StoreTotal(phils: seq<Phil>, rice: int, i: nat, q: Phil)
    requires i < |phils| && phils[i].pc == Store && q.pc != Store
    ensures var b, rice' := |phils| + 2, phils[i].tmp - 1;
            var before := Weights(b, phils, rice) + Weight(b, rice);
            var after := Weights(b, phils[i := q], rice') + Weight(b, rice');
            after < before || (after == before && rice <= 0 && rice' <= 0)
  {
    hide Weights;
    var n, t := |phils|, phils[i].tmp;
    var b, rice' := n + 2, t - 1;
    WeightsUpdate(b, phils, rice', i, q);
    WeightsChange(b, phils, rice, rice');
    WeightPositive(b, rice);
    if t >= 1 {
      WeightStep(b, t);
      hide Weight;
      StoreArithmetic(n, Weights(b, phils, rice), Weights(b, phils, rice'),
                      Weight(b, rice), Weight(b, rice'), Weight(b, t));
    } else {
      assert Weight(b, rice') == 1 == Weight(b, t);
      if rice >= 1 {
        WeightAtLeastTwice(n, rice);
      }
      hide Weight;
    }
  }

  /** Taking a pound in one step. */
  lemma TakeTotal(phils: seq<Phil>, rice: int, i: nat, q: Phil)
    requires i < |phils| && phils[i].pc != Store && q.pc != Store && rice >= 1
    ensures var b := |phils| + 2;
            Weights(b, phils[i := q], rice - 1) + Weight(b, rice - 1) < Weights(b, phils, rice) + Weight(b, rice)
  {
    var b := |phils| + 2;
    WeightStep(b, rice);
    WeightPositive(b, rice - 1);
    assert b * Weight(b, rice - 1) >= 2 * Weight(b, rice - 1);
    WeightsUpdate(b, phils, rice - 1, i, q);
    WeightsChange(b, phils, rice, rice - 1);
  }

  /** Every other step leaves Rice alone and keeps the total: a load only moves Rice into the thread. */
  lemma QuietTotal(phils: seq<Phil>, rice: int, i: nat, q: Phil)
    requires i < |phils| && phils[i].pc != Store && (q.pc == Store ==> q.tmp == rice)
    ensures Weights(|phils| + 2, phils[i := q], rice) == Weights(|phils| + 2, phils, rice)
  {
    WeightsUpdate(|phils| + 2, phils, rice, i, q);
  }

  lemma LocalRace(i: nat, l: Local, atomic: bool)
    requires i < |l.chop| && CanStep(i, l) && FlagsOk(l.phil)
    ensures var l', p := LocalStep(i, l, atomic), l.phil;
            && (l'.phil.pc == Store ==> l'.phil.tmp == l.rice)
            && (l'.rice == l.rice || p.pc == Store || (p.pc == Take && atomic && l.rice >= 1 && l'.rice == l.rice - 1))
            && (p.pc == Store ==> l'.rice == p.tmp - 1)
            && (p.pc == Store || l'.rice != l.rice ==> l'.phil.pc != Store)
            && ((p.pc == Store && l.rice > 0) || (l'.rice != l.rice && p.pc == Take)
                || Rank(l'.phil, l.rice > 0) < Rank(p, l.rice > 0))
  {
  }

  lemma RaceTotal(s: Table, i: nat, atomic: bool)
    requires Inv(s) && Enabled(s, i)
    ensures var s' := Step(s, i, atomic);
            Total(s') < Total(s) || (Total(s') == Total(s) && (s'.rice > 0 <==> s.rice > 0)
                                     && Rank(s'.phils[i], s.rice > 0) < Rank(s.phils[i], s.rice > 0))
  {
    hide LocalStep, Weights, Weight;
    var l := LocalStep(i, At(s, i), atomic);
    LocalRace(i, At(s, i), atomic);
    if s.phils[i].pc == Store {
      StoreTotal(s.phils, s.rice, i, l.phil);
    } else if l.rice == s.rice {
      QuietTotal(s.phils, s.rice, i, l.phil);
    } else {
      TakeTotal(s.phils, s.rice, i, l.phil);
    }
  }

  lemma RaceDecreases(s: Table, i: nat, atomic: bool)
    requires Inv(s) && Enabled(s, i)
    ensures RaceMeasure(Step(s, i, atomic)) < RaceMeasure(s)
  {
    var s', n := Step(s, i, atomic), |s.phils|;
    RaceTotal(s, i, atomic);
    hide Inv, Enabled, Total, LocalStep;
    if Total(s') < Total(s) {
      MulMono(13 * n + 1, Total(s') + 1, Total(s));
      MulSucc(13 * n + 1, Total(s'));
    } else {
      RanksUpdate(s.phils, i, s'.phils[i], s.rice > 0);
    }
  }

  /** A bound on the length of every run, however the threads interleave. */
  function RaceBound(n: nat, rice: nat): nat {
    RaceMeasure(Init(n, rice))
  }

  lemma {:induction false} RaceBoundsSteps(run: seq<Table>, n: nat, rice: nat, atomic: bool, j: nat)
    requires n >= 2 && IsRun(run, n, rice, atomic) && j < |run|
    ensures j + RaceMeasure(run[j]) <= RaceBound(n, rice)
  {
    hide Step, Inv, RaceMeasure;
    if j == 0 {
    } else {
      RaceBoundsSteps(run, n, rice, atomic, j - 1);
      RunsKeepInv(run, n, rice, atomic, j - 1);
      assert Next(run[j - 1], run[j - 1 + 1], atomic);
      var i: nat :| Enabled(run[j - 1], i) && run[j] == Step(run[j - 1], i, atomic);
      RaceDecreases(run[j - 1], i, atomic);
    }
  }

  /** Every run is finite even when the test, the load and the store of Rice are separate steps. */
  lemma RacedRunsAreBounded(run: seq<Table>, n: nat, rice: nat, atomic: bool)
    requires n >= 2 && IsRun(run, n, rice, atomic)
    ensures |run| - 1 <= RaceBound(n, rice)
  {
    RaceBoundsSteps(run, n, rice, atomic, |run| - 1);
  }

  // ---- Where these runs end ----

  /** While rice is left somebody is still at the table. */
  ghost predicate SomeoneStays(s: Table) {
    s.rice > 0 ==> exists i :: 0 <= i < |s.phils| && s.phils[i].pc !in {Leave, Done}
  }

  lemma SomeoneStaysStep(s: Table, i: nat)
    requires Inv(s) && SomeoneStays(s) && Enabled(s, i)
    ensures SomeoneStays(Step(s, i, false))
  {
    var s' := Step(s, i, false);
    if s'.rice > 0 {
      if s'.phils[i].pc in {Leave, Done} {
        var j :| 0 <= j < |s.phils| && s.phils[j].pc !in {Leave, Done};
        assert s'.phils[j].pc !in {Leave, Done};
      } else {
        assert s'.phils[i].pc !in {Leave, Done};
      }
    }
  }

  lemma {:induction false} SomeoneStaysInRuns(run: seq<Table>, n: nat, rice: nat, j: nat)
    requires n >= 2 && IsRun(run, n, rice, false) && j < |run|
    ensures SomeoneStays(run[j])
  {
    hide Step, Inv, SomeoneStays;
    if j == 0 {
      StartStays(n, rice);
    } else {
      SomeoneStaysInRuns(run, n, rice, j - 1);
      RunsKeepInv(run, n, rice, false, j - 1);
      assert Next(run[j - 1], run[j - 1 + 1], false);
      var i: nat :| Enabled(run[j - 1], i) && run[j] == Step(run[j - 1], i, false);
      SomeoneStaysStep(run[j - 1], i);
    }
  }

  lemma StartStays(n: nat, rice: nat)
    requires n >= 2
    ensures SomeoneStays(Init(n, rice))
  {
    assert Init(n, rice).phils[0].pc == Start;
  }

  /** A run that cannot go on ends with everybody on vacation, the table laid, no rice left and no pound missing;
      with at most three philosophers the pounds eaten are exactly the rice there was. */
  lemma RacedRunsFinish(run: seq<Table>, n: nat, rice: nat)
    requires n >= 2 && IsRun(run, n, rice, false) && Stuck(run[|run| - 1])
    ensures var s := run[|run| - 1];
            && (forall i :: 0 <= i < |s.phils| ==> s.phils[i].pc == Done && s.phils[i].vState == VACATION)
            && (forall c :: 0 <= c < |s.chop| ==> s.chop[c] == 1)
            && s.rice <= 0 && Eaten(s.phils) >= rice
            && (n <= 3 ==> s.rice == 0 && Eaten(s.phils) == rice)
  {
    var last := |run| - 1;
    var s := run[last];
    RunsKeepInv(run, n, rice, false, last);
    SomeoneStaysInRuns(run, n, rice, last);
    NoRiceIsLost(run, n, rice, last);
    StuckMeansDone(s);
    hide IsRun, Stuck;
    EatenIsHanded(s.phils);
    TableIsLaid(s);
    if n <= 3 {
      FewPhilosophersAreExact(run, n, rice, last);
    }
  }
}
