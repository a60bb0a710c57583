/** Belady's theorem for OPTIMUM: no demand-paging policy with the same number of frames faults less often.
    The proof follows both runs and counts, for every horizon t, the resident pages used again by time t. */
module Belady {
  import opened Paging
  import opened PagingRuns

  /** What any demand-paging policy with k frames may do: `b[i]` holds the resident pages before reference i.
      A referenced page is resident afterwards, nothing else is brought in, anything may be dropped. */
  ghost predicate DemandRun(k: nat, refs: seq<nat>, b: seq<set<int>>) {
    && |b| == |refs| + 1
    && b[0] == {}
    && forall i :: 0 <= i < |refs| ==> DemandStep(k, refs[i], b[i], b[i + 1])
  }

  ghost predicate DemandStep(k: nat, p: int, s: set<int>, s': set<int>) {
    p in s' && s' <= s + {p} && |s'| <= k
  }

  ghost function RunFaults(refs: seq<nat>, b: seq<set<int>>, i: nat): nat
    requires i <= |refs| < |b|
  {
    if i == 0 then 0 else RunFaults(refs, b, i - 1) + if refs[i - 1] in b[i - 1] then 0 else 1
  }

  // ---- Pages used soon ----

  ghost function Soon(s: set<int>, refs: seq<nat>, i: nat, t: nat): set<int>
    requires i <= |refs|
  {
    set p | p in s && NextUse(refs, i, p) <= t
  }

  /** Passing reference i only changes the next use of the page referenced there. */
  lemma SoonBefore(s: set<int>, refs: seq<nat>, i: nat, t: nat)
    requires i < |refs| && i <= t
    ensures |Soon(s, refs, i, t)| == |Soon(s - {refs[i]}, refs, i + 1, t)| + if refs[i] in s then 1 else 0
  {
    var p := refs[i];
    var rest := Soon(s - {p}, refs, i + 1, t);
    assert Soon(s, refs, i, t) == if p in s then rest + {p} else rest;
  }

  lemma SoonAfter(s: set<int>, refs: seq<nat>, i: nat, t: nat)
    requires i < |refs| && refs[i] in s
    ensures |Soon(s, refs, i + 1, t)|
         == |Soon(s - {refs[i]}, refs, i + 1, t)| + if NextUse(refs, i + 1, refs[i]) <= t then 1 else 0
  {
    var p := refs[i];
    var rest := Soon(s - {p}, refs, i + 1, t);
    assert Soon(s, refs, i + 1, t) == if NextUse(refs, i + 1, p) <= t then rest + {p} else rest;
  }

  lemma SubsetSize(a: set<int>, b: set<int>)
    requires a <= b
    ensures |a| <= |b|
  {
    assert b == a + (b - a);
  }

  // ---- Dominance ----

  ghost predicate Covers(a: set<int>, b: set<int>, refs: seq<nat>, i: nat, t: nat, d: int)
    requires i <= |refs|
  {
    |Soon(a, refs, i, t)| + d >= |Soon(b, refs, i, t)|
  }

  /** Up to a debt of `d` pages, `a` holds as many pages used by time t as `b` does, for every t. */
  ghost predicate Dominates(a: set<int>, b: set<int>, refs: seq<nat>, i: nat, d: nat)
    requires i <= |refs|
  {
    forall t: nat :: i <= t ==> Covers(a, b, refs, i, t, d)
  }

  ghost predicate UsedLast(refs: seq<nat>, i: nat, a: set<int>, v: int)
    requires i <= |refs|
  {
    forall q :: q in a ==> NextUse(refs, i, q) <= NextUse(refs, i, v)
  }

  /** OPTIMUM's step on the set of resident pages. */
  ghost predicate OptimumStep(k: nat, refs: seq<nat>, i: nat, a: set<int>, a': set<int>)
    requires i < |refs|
  {
    var p := refs[i];
    if p in a then a' == a
    else if |a| < k then a' == a + {p}
    else exists v :: v in a && a' == a - {v} + {p} && UsedLast(refs, i + 1, a, v)
  }

  lemma SelfDominates(a: set<int>, refs: seq<nat>, i: nat)
    requires i <= |refs|
    ensures Dominates(a, a, refs, i, 0)
  {
  }

  lemma DebtIsPaid(refs: seq<nat>, i: nat, a: set<int>, b: set<int>, d: nat)
    requires i < |refs| && Dominates(a, b, refs, i, d)
    requires refs[i] in b && refs[i] !in a
    ensures d > 0
  {
    var p := refs[i];
    assert Soon(a, refs, i, i) == {};
    assert p in Soon(b, refs, i, i);
    assert Covers(a, b, refs, i, i, d);
  }

  /** The new debt after both policies served reference i. */
  ghost function Debt(p: int, a: set<int>, b: set<int>, d: nat): int {
    d + (if p in b then 0 else 1) - (if p in a then 0 else 1)
  }

  /** Replacing the page used farthest ahead loses one soon-used page, or leaves nothing but soon-used pages. */
  lemma EvictFarthest(refs: seq<nat>, i: nat, t: nat, a: set<int>, a': set<int>, v: int)
    requires i < |refs| && refs[i] !in a && v in a && a' == a - {v} + {refs[i]}
    requires UsedLast(refs, i + 1, a, v)
    ensures var rest, rest' := Soon(a - {refs[i]}, refs, i + 1, t), Soon(a' - {refs[i]}, refs, i + 1, t);
            rest' == rest || (|rest| == |a| && |rest'| == |a| - 1)
  {
    var p := refs[i];
    assert a - {p} == a && a' - {p} == a - {v};
    if NextUse(refs, i + 1, v) > t {
      assert Soon(a - {v}, refs, i + 1, t) == Soon(a, refs, i + 1, t);
    } else {
      assert Soon(a - {v}, refs, i + 1, t) == a - {v};
      assert Soon(a, refs, i + 1, t) == a;
    }
  }

  lemma FewerSoon(s: set<int>, s': set<int>, refs: seq<nat>, i: nat, t: nat)
    requires i <= |refs| && s <= s'
    ensures |Soon(s, refs, i, t)| <= |Soon(s', refs, i, t)| && |Soon(s, refs, i, t)| <= |s|
  {
    SubsetSize(Soon(s, refs, i, t), Soon(s', refs, i, t));
    SubsetSize(Soon(s, refs, i, t), s);
  }

  lemma DominanceAt(k: nat, refs: seq<nat>, i: nat, t: nat,
                    a: set<int>, a': set<int>, b: set<int>, b': set<int>, d: nat)
    requires i < |refs| && i < t && |a| <= k
    requires Covers(a, b, refs, i, t, d)
    requires OptimumStep(k, refs, i, a, a') && DemandStep(k, refs[i], b, b')
    requires Debt(refs[i], a, b, d) >= 0
    ensures Covers(a', b', refs, i + 1, t, Debt(refs[i], a, b, d))
  {
    hide Soon, NextUse, UsedLast;
    var p := refs[i];
    SoonBefore(a, refs, i, t);
    SoonBefore(b, refs, i, t);
    SoonAfter(a', refs, i, t);
    SoonAfter(b', refs, i, t);
    FewerSoon(b' - {p}, b - {p}, refs, i + 1, t);
    if p in a || |a| < k {
      assert a' - {p} == a - {p};
    } else {
      var v :| v in a && a' == a - {v} + {p} && UsedLast(refs, i + 1, a, v);
      EvictFarthest(refs, i, t, a, a', v);
    }
  }

  lemma DominanceStep(k: nat, refs: seq<nat>, i: nat, a: set<int>, a': set<int>, b: set<int>, b': set<int>, d: nat)
    requires i < |refs| && |a| <= k
    requires Dominates(a, b, refs, i, d)
    requires OptimumStep(k, refs, i, a, a') && DemandStep(k, refs[i], b, b')
    ensures Debt(refs[i], a, b, d) >= 0
    ensures Dominates(a', b', refs, i + 1, Debt(refs[i], a, b, d))
  {
    if refs[i] in b && refs[i] !in a {
      DebtIsPaid(refs, i, a, b, d);
    }
    var j, d' := i + 1, Debt(refs[i], a, b, d);
    forall t: nat | j <= t ensures Covers(a', b', refs, j, t, d') {
      DominanceAt(k, refs, i, t, a, a', b, b', d);
    }
  }

  // ---- OPTIMUM on sets ----

  lemma {:induction false} ResidentSize(tlb: seq<int>)
    requires TlbOk(tlb)
    ensures |Resident(tlb)| <= |tlb|
    ensures |Resident(tlb)| == |tlb| <==> EMPTY !in tlb
  {
    if tlb == [] {
      assert Resident(tlb) == {};
    } else {
      ResidentSize(tlb[..|tlb| - 1]);
      ResidentLast(tlb);
    }
  }

  lemma ResidentLast(tlb: seq<int>)
    requires TlbOk(tlb) && tlb != []
    ensures var m := |tlb| - 1;
            && (tlb[m] == EMPTY ==> Resident(tlb) == Resident(tlb[..m]))
            && (tlb[m] != EMPTY ==> |Resident(tlb)| == |Resident(tlb[..m])| + 1 && EMPTY !in tlb)
  {
    var m := |tlb| - 1;
    var front, last := tlb[..m], tlb[m];
    assert forall q :: q in tlb <==> q in front || q == last by {
      assert tlb == front + [last];
    }
    if last == EMPTY {
      assert Resident(tlb) == Resident(front);
    } else {
      assert Resident(tlb) == Resident(front) + {last};
      assert last !in front;
    }
  }

  lemma InstalledSet(tlb: seq<int>, f: nat, p: nat)
    requires TlbOk(tlb) && f < |tlb| && p !in tlb
    ensures Resident(tlb[f := p]) == Resident(tlb) - {tlb[f]} + {p}
  {
    var tlb' := tlb[f := p];
    forall q | q in Resident(tlb) && q != tlb[f] ensures q in tlb' {
      var g :| 0 <= g < |tlb| && tlb[g] == q;
      assert tlb'[g] == q;
    }
    assert tlb'[f] == p;
    forall q | q in Resident(tlb') && q != p ensures q in tlb && q != tlb[f] {
      var g :| 0 <= g < |tlb| && tlb'[g] == q;
      assert g != f && q == tlb[g];
    }
  }

  lemma FarthestIsUsedLast(tlb: seq<int>, refs: seq<nat>, i: nat)
    requires tlb != [] && i <= |refs| && EMPTY !in tlb
    ensures var v := tlb[Farthest(tlb, refs, i)]; v in Resident(tlb) && UsedLast(refs, i, Resident(tlb), v)
  {
    var v := tlb[Farthest(tlb, refs, i)];
    forall q | q in Resident(tlb) ensures NextUse(refs, i, q) <= NextUse(refs, i, v) {
      var g :| 0 <= g < |tlb| && tlb[g] == q;
    }
  }

  lemma ReplaceIsOptimumStep(refs: seq<nat>, i: nat, tlb: seq<int>)
    requires i < |refs| && tlb != [] && TlbOk(tlb) && EMPTY !in tlb && refs[i] !in tlb
    ensures OptimumStep(|tlb|, refs, i, Resident(tlb), Resident(tlb[Farthest(tlb, refs, i + 1) := refs[i]]))
  {
    ResidentSize(tlb);
    FarthestIsUsedLast(tlb, refs, i + 1);
    InstalledSet(tlb, Farthest(tlb, refs, i + 1), refs[i]);
  }

  lemma StepIsOptimumStep(refs: seq<nat>, i: nat, st: State)
    requires i < |refs| && st.tlb != [] && TlbOk(st.tlb)
    ensures |Resident(st.tlb)| <= |st.tlb|
    ensures OptimumStep(|st.tlb|, refs, i, Resident(st.tlb), Resident(Step(OPTIMUM, refs, i, st).tlb))
  {
    ResidentSize(st.tlb);
    var p := refs[i];
    if p in st.tlb {
      assert Step(OPTIMUM, refs, i, st).tlb == st.tlb;
    } else if EMPTY in st.tlb {
      InstalledSet(st.tlb, FirstIndex(st.tlb, EMPTY), p);
    } else {
      ReplaceIsOptimumStep(refs, i, st.tlb);
    }
  }

  // ---- The theorem ----

  lemma NothingResident(alg: Algorithm, k: nat, refs: seq<nat>)
    requires k >= 1
    ensures Resident(StateAt(alg, k, refs, 0).tlb) == {}
  {
  }

  lemma FaultIffAbsent(k: nat, refs: seq<nat>, i: nat)
    requires k >= 1 && i < |refs|
    ensures FaultAt(OPTIMUM, k, refs, i) <==> refs[i] !in Resident(StateAt(OPTIMUM, k, refs, i).tlb)
  {
  }

  lemma {:induction false} OptimumKeepsAhead(k: nat, refs: seq<nat>, b: seq<set<int>>, i: nat)
    requires k >= 1 && DemandRun(k, refs, b) && i <= |refs|
    ensures FaultsBefore(OPTIMUM, k, refs, i) <= RunFaults(refs, b, i)
    ensures Dominates(Resident(StateAt(OPTIMUM, k, refs, i).tlb), b[i], refs, i,
                      RunFaults(refs, b, i) - FaultsBefore(OPTIMUM, k, refs, i))
  {
    hide Step, Dominates, OptimumStep, TlbOk, Resident, DemandStep;
    if i == 0 {
      NothingResident(OPTIMUM, k, refs);
      SelfDominates({}, refs, 0);
    } else {
      var j := i - 1;
      OptimumKeepsAhead(k, refs, b, j);
      OptimumStaysOk(k, refs, j);
      var st, d := StateAt(OPTIMUM, k, refs, j), RunFaults(refs, b, j) - FaultsBefore(OPTIMUM, k, refs, j);
      var a, a' := Resident(st.tlb), Resident(Step(OPTIMUM, refs, j, st).tlb);
      StepIsOptimumStep(refs, j, st);
      assert DemandStep(k, refs[j], b[j], b[j + 1]);
      FaultIffAbsent(k, refs, j);
      DominanceStep(k, refs, j, a, a', b[j], b[i], d);
      assert Debt(refs[j], a, b[j], d) == RunFaults(refs, b, i) - FaultsBefore(OPTIMUM, k, refs, i);
    }
  }

  /** OPTIMUM faults at most as often as any demand-paging policy with the same number of frames. */
  lemma OptimumIsOptimal(k: nat, refs: seq<nat>, b: seq<set<int>>)
    requires k >= 1 && DemandRun(k, refs, b)
    ensures Faults(OPTIMUM, k, refs) <= RunFaults(refs, b, |refs|)
  {
    OptimumKeepsAhead(k, refs, b, |refs|);
  }
}
