/** The competitive factor k / (k - h + 1) cannot be improved: on a cycle of k + 1 pages FIFO and LRU with k frames
    fault every time, while h frames suffice to fault k - h + 1 times in k references. */
module CompetitiveLimits {
  import opened Numbers
  import opened Paging
  import opened PagingRuns
  import opened Belady
  import opened FifoOrder
  import opened Competitive

  /** The page of reference x: x modulo k + 1. */
  function Page(k: nat, x: nat): nat {
    Slot(x, k + 1)
  }

  /** The pages 0 to k again and again. */
  function Cycle(k: nat, t: nat): (refs: seq<nat>)
    ensures |refs| == t && forall i :: 0 <= i < t ==> refs[i] == Page(k, i)
  {
    seq(t, i requires i >= 0 => Page(k, i))
  }

  // ---- FIFO and LRU ----

  /** The history is the pages used last. */
  ghost predicate LastOnes(h: seq<int>, k: nat, i: nat) {
    |h| == Min(i, k) && forall j :: 0 <= j < |h| ==> h[j] == Page(k, i - 1 - j)
  }

  lemma MissesNext(alg: Algorithm, h: seq<int>, k: nat, i: nat)
    requires k >= 1 && LastOnes(h, k, i)
    ensures Page(k, i) !in h && LastOnes(NextHistory(alg, h, Page(k, i), k), k, i + 1)
  {
    forall j | 0 <= j < |h| ensures h[j] != Page(k, i) {
      OtherSlot(i - 1 - j, i, k + 1);
    }
  }

  lemma {:induction false} AlwaysFaults(alg: Algorithm, k: nat, t: nat, i: nat)
    requires !alg.OPTIMUM? && k >= 2 && i <= t
    ensures LastOnes(StateAt(alg, k, Cycle(k, t), i).history, k, i)
    ensures FaultsBefore(alg, k, Cycle(k, t), i) == i
  {
    hide Step, StateAt, FaultsBefore, Coherent, ListStep, LastOnes, NextHistory, Page;
    var refs := Cycle(k, t);
    StartState(alg, k, refs);
    if i == 0 {
      assert LastOnes([], k, 0) by { NothingYet(k); }
    } else {
      var j := i - 1;
      var st, st' := StateAt(alg, k, refs, j), StateAt(alg, k, refs, i);
      AlwaysFaults(alg, k, t, j);
      RunsStayCoherent(alg, k, refs, j);
      RunStep(alg, k, refs, j);
      HistoryStep(alg, refs[j], st, st');
      ResidentIffListed(st, refs[j]);
      MissesNext(alg, st.history, k, j);
      NextState(alg, k, refs, j);
    }
  }

  lemma FaultsEveryTime(alg: Algorithm, k: nat, t: nat)
    requires !alg.OPTIMUM? && k >= 2
    ensures Faults(alg, k, Cycle(k, t)) == t
  {
    hide FaultsBefore, StateAt;
    AlwaysFaults(alg, k, t, t);
  }

  lemma NothingYet(k: nat)
    ensures LastOnes([], k, 0)
  {
  }

  // ---- A policy with h frames ----

  /** A moment of the cycle, in phases of k references. */
  datatype Moment = Moment(start: nat, offset: nat)

  function MomentAt(k: nat, t: nat): (m: Moment)
    requires k >= 1
    ensures m.start + m.offset == t && m.offset < k
  {
    if t == 0 then Moment(0, 0)
    else
      var m := MomentAt(k, t - 1);
      if m.offset + 1 == k then Moment(t, 0) else Moment(m.start, m.offset + 1)
  }

  /** The pages of references `from` to `to` - 1. */
  ghost function Stretch(k: nat, from: nat, to: nat): (s: set<int>) {
    set x | from <= x < to :: Page(k, x) as int
  }

  lemma {:induction false} StretchSize(k: nat, from: nat, to: nat)
    requires from <= to
    ensures |Stretch(k, from, to)| <= to - from
  {
    hide Page;
    if from == to {
      assert Stretch(k, from, to) == {};
    } else {
      StretchSize(k, from, to - 1);
      assert Stretch(k, from, to) == Stretch(k, from, to - 1) + {Page(k, to - 1) as int};
    }
  }

  /** At the offset in the phase that starts with reference `s`: the page used last before the phase and the first
      h - 2 pages of the phase, which all stay, and the next page or the one used last. */
  ghost function Kept(k: nat, h: nat, s: nat, offset: nat): (b: set<int>)
    requires 1 <= h <= k
  {
    Stretch(k, s + k, s + k + h - 1) + {Page(k, s + k + if offset < h then h - 1 else offset) as int}
  }

  lemma SamePage(k: nat, x: nat)
    ensures Page(k, x + k + 1) == Page(k, x)
  {
    SlotFacts(x, k + 1);
  }

  lemma KeptSize(k: nat, h: nat, s: nat, offset: nat)
    requires 1 <= h <= k
    ensures |Kept(k, h, s, offset)| <= h
  {
    hide Page;
    StretchSize(k, s + k, s + k + h - 1);
  }

  /** The first h - 1 references of a phase are hits, the others may replace the page used last. */
  lemma KeptStep(k: nat, h: nat, s: nat, offset: nat)
    requires 1 <= h <= k && offset < k
    ensures DemandStep(h, Page(k, s + offset), Kept(k, h, s, offset), Kept(k, h, s, offset + 1))
    ensures offset < h - 1 ==> Page(k, s + offset) in Kept(k, h, s, offset)
  {
    hide Page, Stretch;
    SamePage(k, s + offset);
    KeptSize(k, h, s, offset + 1);
    assert Page(k, s + offset) == Page(k, s + k + offset + 1);
    if offset + 1 < h - 1 {
      InStretch(k, s + k, s + k + h - 1, s + k + offset + 1);
    }
  }

  lemma InStretch(k: nat, from: nat, to: nat, x: nat)
    requires from <= x < to
    ensures Page(k, x) in Stretch(k, from, to)
  {
  }

  /** The end of a phase is the start of the next one. */
  lemma NextPhase(k: nat, h: nat, s: nat)
    requires 1 <= h <= k
    ensures Kept(k, h, s, k) == Kept(k, h, s + k, 0)
  {
    hide Page;
    var b, b' := Kept(k, h, s, k), Kept(k, h, s + k, 0);
    forall p | p in b ensures p in b' {
      if p != Page(k, s + k + k) {
        var x :| s + k <= x < s + k + h - 1 && p == Page(k, x);
        SamePage(k, x);
        assert x + k + 1 == s + k + k + h - 1 || x + k + 1 < s + k + k + h - 1;
      }
    }
    forall p | p in b' ensures p in b {
      var x :| s + k + k <= x <= s + k + k + h - 1 && p == Page(k, x);
      if x > s + k + k {
        SamePage(k, x - k - 1);
      }
    }
  }

  ghost function Keeping(k: nat, h: nat, t: nat): (b: set<int>)
    requires 1 <= h <= k
  {
    Kept(k, h, MomentAt(k, t).start, MomentAt(k, t).offset)
  }

  lemma KeepingStep(k: nat, h: nat, t: nat)
    requires 1 <= h <= k
    ensures DemandStep(h, Page(k, t), Keeping(k, h, t), Keeping(k, h, t + 1))
    ensures MomentAt(k, t).offset < h - 1 ==> Page(k, t) in Keeping(k, h, t)
  {
    hide Kept, Page, DemandStep;
    var m := MomentAt(k, t);
    KeptStep(k, h, m.start, m.offset);
    if m.offset + 1 == k {
      NextPhase(k, h, m.start);
    }
  }

  /** What the policy may still be ahead of k - h + 1 faults in k references. */
  function Slack(k: nat, h: nat, offset: nat): int {
    (k - h + 1) * offset - if offset < h then 0 else k * (offset - h + 1)
  }

  lemma SlackStep(k: nat, h: nat, offset: nat)
    requires 1 <= h <= k
    ensures Slack(k, h, offset + 1) == Slack(k, h, offset) + (k - h + 1) - if offset < h - 1 then 0 else k
  {
    MulSucc(k - h + 1, offset);
    if offset >= h {
      MulSucc(k, offset - h + 1);
    }
  }

  lemma SlackEnds(k: nat, h: nat)
    requires 1 <= h <= k
    ensures Slack(k, h, 0) == Slack(k, h, k) == 0
  {
    var a := k - h + 1;
    assert a * k == k * a;
  }

  lemma SlackIsLeft(k: nat, h: nat, offset: nat)
    requires 1 <= h <= k && offset <= k
    ensures Slack(k, h, offset) >= 0
  {
    var a := k - h + 1;
    if offset >= h {
      var r := k - offset;
      assert offset == k - r && offset - h + 1 == a - r;
      assert a * (k - r) == a * k - a * r;
      assert k * (a - r) == k * a - k * r;
      MulMono(r, a, k);
    } else {
      MulMono(a, 0, offset);
    }
  }

  /** The run on the cycle that keeps pages from the start. */
  ghost function KeepingRun(k: nat, h: nat, t: nat): (b: seq<set<int>>)
    requires 1 <= h <= k
    ensures |b| == t + 1 && forall i :: 0 <= i <= t ==> b[i] == Keeping(k, h, i)
  {
    seq(t + 1, i requires 0 <= i => Keeping(k, h, i))
  }

  lemma {:induction false} KeepingFaults(k: nat, h: nat, t: nat, i: nat)
    requires 1 <= h <= k && i <= t
    ensures k * RunFaults(Cycle(k, t), KeepingRun(k, h, t), i) + Slack(k, h, MomentAt(k, i).offset) <= (k - h + 1) * i
  {
    hide Keeping, Page, Slack;
    SlackEnds(k, h);
    if i == 0 {
    } else {
      var f, o := RunFaults(Cycle(k, t), KeepingRun(k, h, t), i - 1), MomentAt(k, i - 1).offset;
      KeepingFaults(k, h, t, i - 1);
      KeepingStep(k, h, i - 1);
      SlackStep(k, h, o);
      MulSucc(k, f);
      MulSucc(k - h + 1, i - 1);
    }
  }

  // ---- Starting with nothing ----

  ghost function Referenced(refs: seq<nat>, i: nat): (s: set<int>)
    requires i <= |refs|
  {
    set j | 0 <= j < i :: refs[j] as int
  }

  lemma ReferencedNext(refs: seq<nat>, i: nat)
    requires i < |refs|
    ensures Referenced(refs, i + 1) == Referenced(refs, i) + {refs[i]}
  {
  }

  /** A run that starts with pages in its frames. */
  ghost predicate WarmRun(k: nat, refs: seq<nat>, b: seq<set<int>>) {
    |b| == |refs| + 1 && forall i :: 0 <= i < |refs| ==> DemandStep(k, refs[i], b[i], b[i + 1])
  }

  lemma {:induction false} UnusedIsOld(k: nat, refs: seq<nat>, b: seq<set<int>>, i: nat, p: int)
    requires WarmRun(k, refs, b) && i <= |refs| && p in b[i] && p !in Referenced(refs, i)
    ensures p in b[0]
  {
    if i == 0 {
    } else {
      ReferencedNext(refs, i - 1);
      assert DemandStep(k, refs[i - 1], b[i - 1], b[i]);
      UnusedIsOld(k, refs, b, i - 1, p);
    }
  }

  /** The same run without the pages nobody has asked for. */
  ghost function Cold(refs: seq<nat>, b: seq<set<int>>): (c: seq<set<int>>)
    requires |b| == |refs| + 1
    ensures |c| == |b| && forall i :: 0 <= i < |c| ==> c[i] == b[i] * Referenced(refs, i)
  {
    seq(|b|, i requires 0 <= i < |b| => b[i] * Referenced(refs, i))
  }

  lemma ColdIsDemandRun(k: nat, refs: seq<nat>, b: seq<set<int>>)
    requires WarmRun(k, refs, b)
    ensures DemandRun(k, refs, Cold(refs, b))
  {
    var c := Cold(refs, b);
    forall i | 0 <= i < |refs| ensures DemandStep(k, refs[i], c[i], c[i + 1]) {
      ReferencedNext(refs, i);
      SubsetSize(c[i + 1], b[i + 1]);
    }
  }

  /** It faults at most once more for every page there was at the start. */
  lemma {:induction false} ColdFaults(k: nat, refs: seq<nat>, b: seq<set<int>>, i: nat)
    requires WarmRun(k, refs, b) && i <= |refs|
    ensures RunFaults(refs, Cold(refs, b), i) <= RunFaults(refs, b, i) + |b[0] * Referenced(refs, i)|
  {
    if i == 0 {
    } else {
      var j := i - 1;
      ColdFaults(k, refs, b, j);
      ReferencedNext(refs, j);
      SubsetSize(b[0] * Referenced(refs, j), b[0] * Referenced(refs, i));
      if refs[j] in b[j] && refs[j] !in Referenced(refs, j) {
        UnusedIsOld(k, refs, b, j, refs[j]);
        assert b[0] * Referenced(refs, i) == b[0] * Referenced(refs, j) + {refs[j] as int};
      }
    }
  }

  // ---- The factor ----

  /** FIFO and LRU with k frames fault at each of the t references, OPTIMUM with h frames on no more than
      (k - h + 1) / k of them and h. */
  lemma CycleIsHard(alg: Algorithm, k: nat, h: nat, t: nat)
    requires !alg.OPTIMUM? && k >= 2 && 1 <= h <= k
    ensures Faults(alg, k, Cycle(k, t)) == t
    ensures k * Faults(OPTIMUM, h, Cycle(k, t)) <= (k - h + 1) * t + k * h
  {
    hide Faults, RunFaults, Keeping, Slack, DemandStep, DemandRun, Page, Referenced, MomentAt;
    var refs, b := Cycle(k, t), KeepingRun(k, h, t);
    assert Faults(alg, k, refs) == t by { FaultsEveryTime(alg, k, t); }
    forall i | 0 <= i < t ensures DemandStep(h, refs[i], b[i], b[i + 1]) {
      KeepingStep(k, h, i);
    }
    ColdIsDemandRun(h, refs, b);
    ColdFaults(h, refs, b, t);
    OptimumIsOptimal(h, refs, Cold(refs, b));
    KeepingFaults(k, h, t, t);
    SlackIsLeft(k, h, MomentAt(k, t).offset);
    KeptAtMost(k, h, refs, t);
    Afford(k, h, Faults(OPTIMUM, h, refs), RunFaults(refs, b, t));
  }

  lemma Afford(k: nat, h: nat, o: nat, f: nat)
    requires o <= f + h
    ensures k * o <= k * f + k * h
  {
    MulMono(k, o, f + h);
    assert k * (f + h) == k * f + k * h;
  }

  lemma KeptAtMost(k: nat, h: nat, refs: seq<nat>, t: nat)
    requires 1 <= h <= k && t <= |refs|
    ensures |Keeping(k, h, 0) * Referenced(refs, t)| <= h
  {
    KeptSize(k, h, 0, 0);
    SubsetSize(Keeping(k, h, 0) * Referenced(refs, t), Keeping(k, h, 0));
  }

  /** q times the faults with k frames are at most p times OPTIMUM's with h frames, up to a constant. */
  ghost predicate Competes(alg: Algorithm, k: nat, h: nat, p: nat, q: nat, c: nat)
    requires k >= 1 && h >= 1
  {
    forall refs: seq<nat> :: q * Faults(alg, k, refs) <= p * Faults(OPTIMUM, h, refs) + c
  }

  lemma CompetesIfSmall(alg: Algorithm, k: nat, h: nat, p: nat, q: nat, c: nat)
    requires !alg.OPTIMUM? && k >= 2 && 1 <= h <= k && q * k <= p * (k - h + 1)
    ensures Competes(alg, k, h, p, q, c)
  {
    hide Faults;
    var a := k - h + 1;
    forall refs: seq<nat> ensures q * Faults(alg, k, refs) <= p * Faults(OPTIMUM, h, refs) + c {
      ListPoliciesAreCompetitive(alg, k, h, refs);
      Divide(a, k, p, q, Faults(alg, k, refs), Faults(OPTIMUM, h, refs));
    }
  }

  lemma Divide(a: int, k: nat, p: nat, q: nat, f: nat, o: nat)
    requires a >= 1 && a * f <= k * o && q * k <= p * a
    ensures q * f <= p * o
  {
    MulMono(q, a * f, k * o);
    MulMono(o, q * k, p * a);
    Regroup(a, q, f);
    Regroup(k, q, o);
    Regroup(a, p, o);
    Cancel(a, q * f, p * o);
  }

  lemma Regroup(x: int, y: int, z: int)
    ensures y * (x * z) == x * (y * z) == (y * x) * z
  {
  }

  lemma Cancel(a: int, x: int, y: int)
    requires a >= 1 && a * x <= a * y
    ensures x <= y
  {
    if x > y {
      MulMono(a, y + 1, x);
      MulSucc(a, y);
    }
  }

  lemma SmallIfCompetes(alg: Algorithm, k: nat, h: nat, p: nat, q: nat, c: nat)
    requires !alg.OPTIMUM? && k >= 2 && 1 <= h <= k && Competes(alg, k, h, p, q, c)
    ensures q * k <= p * (k - h + 1)
  {
    hide Faults;
    forall t: nat ensures CostsAtMost(h, Cycle(k, t), p, q, c, t, k, k - h + 1, k * h) {
      CycleIsHard(alg, k, h, t);
      assert q * Faults(alg, k, Cycle(k, t)) <= p * Faults(OPTIMUM, h, Cycle(k, t)) + c;
    }
    hide CostsAtMost;
    LongCycle(k, h, p, q, c, k - h + 1, k * h);
  }

  ghost predicate CostsAtMost(h: nat, refs: seq<nat>, p: nat, q: nat, c: nat, t: nat, k: nat, a: int, e: nat)
    requires h >= 1
  {
    var o := Faults(OPTIMUM, h, refs);
    q * t <= p * o + c && k * o <= a * t + e
  }

  lemma LongCycle(k: nat, h: nat, p: nat, q: nat, c: nat, a: int, e: nat)
    requires h >= 1 && forall t: nat :: CostsAtMost(h, Cycle(k, t), p, q, c, t, k, a, e)
    ensures q * k <= p * a
  {
    hide Faults, Cycle;
    var t := p * e + k * c + 1;
    assert CostsAtMost(h, Cycle(k, t), p, q, c, t, k, a, e);
    Refute(k, a, e, p, q, c, t, Faults(OPTIMUM, h, Cycle(k, t)));
  }

  /** For a large t the cycle allows no smaller factor. */
  lemma Refute(k: nat, a: int, e: nat, p: nat, q: nat, c: nat, t: nat, o: nat)
    requires q * t <= p * o + c && k * o <= a * t + e && t > p * e + k * c
    ensures q * k <= p * a
  {
    MulMono(k, q * t, p * o + c);
    MulMono(p, k * o, a * t + e);
    assert k * (q * t) == (q * k) * t;
    assert k * (p * o + c) == p * (k * o) + k * c;
    assert p * (a * t + e) == (p * a) * t + p * e;
    var x, y := q * k, p * a;
    assert x * t < y * t + t;
    if x > y {
      MulMono(t, y + 1, x);
      MulSucc(t, y);
    }
  }

  /** A factor p / q suffices for all strings, up to a constant or without one, exactly when it is k / (k - h + 1)
      or more. */
  lemma FactorIff(alg: Algorithm, k: nat, h: nat, p: nat, q: nat, c: nat)
    requires !alg.OPTIMUM? && k >= 2 && 1 <= h <= k
    ensures Competes(alg, k, h, p, q, c) <==> q * k <= p * (k - h + 1)
  {
    hide Competes;
    if q * k <= p * (k - h + 1) {
      CompetesIfSmall(alg, k, h, p, q, c);
    }
    if Competes(alg, k, h, p, q, c) {
      SmallIfCompetes(alg, k, h, p, q, c);
    }
  }
}
