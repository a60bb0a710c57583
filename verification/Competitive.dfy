/** FIFO and LRU with k frames fault at most k / (k - h + 1) times as often as any demand-paging policy
    with h <= k frames. A potential charges each history page the other policy lacks by its rank. */
module Competitive {
  import opened Numbers
  import opened Paging
  import opened PagingRuns
  import opened Belady

  // ---- The potential ----

  /** The head of `h` weighs w, the next page w - 1, and so on; pages in `b` weigh nothing. */
  ghost function Phi(h: seq<int>, b: set<int>, w: int): int {
    if h == [] then 0 else (if h[0] in b then 0 else w) + Phi(h[1..], b, w - 1)
  }

  ghost function Missing(h: seq<int>, b: set<int>): (m: nat)
    ensures m <= |h|
  {
    if h == [] then 0 else (if h[0] in b then 0 else 1) + Missing(h[1..], b)
  }

  lemma {:induction false} PhiMono(h: seq<int>, b: set<int>, b': set<int>, w: int)
    requires w >= |h| && forall j :: 0 <= j < |h| && h[j] in b ==> h[j] in b'
    ensures 0 <= Phi(h, b', w) <= Phi(h, b, w)
  {
    if h == [] {
    } else {
      PhiMono(h[1..], b, b', w - 1);
    }
  }

  /** Dropping one page from `b` costs at most the weight of the head. */
  lemma {:induction false} PhiEvict(h: seq<int>, b: set<int>, b': set<int>, q: int, w: int)
    requires Distinct(h) && w >= |h| && b - {q} <= b'
    ensures Phi(h, b', w) <= Phi(h, b, w) + w
  {
    if h == [] {
    } else {
      if h[0] == q {
        PhiMono(h[1..], b, b', w - 1);
      } else {
        PhiEvict(h[1..], b, b', q, w - 1);
      }
    }
  }

  lemma {:induction false} PhiConcat(a: seq<int>, c: seq<int>, b: set<int>, w: int)
    ensures Phi(a + c, b, w) == Phi(a, b, w) + Phi(c, b, w - |a|)
  {
    if a == [] {
      assert a + c == c;
    } else {
      assert (a + c)[1..] == a[1..] + c;
      PhiConcat(a[1..], c, b, w - 1);
    }
  }

  lemma {:induction false} PhiShift(h: seq<int>, b: set<int>, w: int)
    ensures Phi(h, b, w - 1) == Phi(h, b, w) - Missing(h, b)
  {
    if h == [] {
    } else {
      PhiShift(h[1..], b, w - 1);
    }
  }

  lemma {:induction false} PhiUpper(h: seq<int>, b: set<int>, w: int)
    requires w >= |h|
    ensures 2 * Phi(h, b, w) <= |h| * (2 * w - |h| + 1)
  {
    if h == [] {
    } else {
      PhiUpper(h[1..], b, w - 1);
      var n := |h| - 1;
      assert n * (2 * (w - 1) - n + 1) + 2 * w == (n + 1) * (2 * w - (n + 1) + 1);
    }
  }

  lemma {:induction false} PhiLower(h: seq<int>, b: set<int>, w: int)
    requires w >= |h|
    ensures 2 * Phi(h, b, w) >= Missing(h, b) * (Missing(h, b) + 1)
  {
    if h == [] {
    } else {
      PhiLower(h[1..], b, w - 1);
      NextTriangle(Missing(h[1..], b));
    }
  }

  lemma NextTriangle(m: int)
    ensures (m + 1) * (m + 2) == m * (m + 1) + 2 * (m + 1)
  {
  }

  lemma {:induction false} MissingSame(h: seq<int>, b: set<int>, b': set<int>)
    requires forall j :: 0 <= j < |h| ==> (h[j] in b <==> h[j] in b')
    ensures Missing(h, b) == Missing(h, b')
  {
    if h == [] {
    } else {
      MissingSame(h[1..], b, b');
    }
  }

  lemma {:induction false} MissingAtLeast(h: seq<int>, b: set<int>)
    requires Distinct(h)
    ensures Missing(h, b) + |b| >= |h|
  {
    if h == [] {
    } else {
      if h[0] in b {
        MissingSame(h[1..], b, b - {h[0]});
        MissingAtLeast(h[1..], b - {h[0]});
      } else {
        MissingAtLeast(h[1..], b);
      }
    }
  }

  // ---- The list policy's move, the other policy already holding p ----

  lemma PhiMove(a: seq<int>, c: seq<int>, p: int, b: set<int>, w: int)
    requires p in b && w >= |a| + |c|
    ensures Phi([p] + (a + c), b, w) <= Phi(a + ([p] + c), b, w)
  {
    PhiConcat(a, [p] + c, b, w);
    assert ([p] + c)[1..] == c && ([p] + (a + c))[1..] == a + c;
    PhiConcat(a, c, b, w - 1);
    PhiShift(a, b, w);
  }

  lemma PhiToHead(h: seq<int>, p: int, b: set<int>, w: int)
    requires p in h && p in b && w >= |h|
    ensures Phi(ToHead(h, p), b, w) <= Phi(h, b, w)
  {
    hide Phi;
    if h[0] != p {
      var j := FirstIndex(h, p);
      assert h == h[..j] + ([p] + h[j + 1..]);
      PhiMove(h[..j], h[j + 1..], p, b, w);
    }
  }

  lemma PhiPush(p: int, h: seq<int>, b: set<int>, w: int)
    requires p in b
    ensures Phi([p] + h, b, w) == Phi(h, b, w - 1)
  {
    assert ([p] + h)[1..] == h;
  }

  /** The page at the tail of a full history weighs nothing once every weight has dropped by one. */
  lemma PhiDropLast(h: seq<int>, b: set<int>)
    requires h != []
    ensures Phi(h[..|h| - 1], b, |h| - 1) == Phi(h, b, |h| - 1)
  {
    var front, last := h[..|h| - 1], [h[|h| - 1]];
    PhiOfLightest(last, b);
    hide Phi;
    assert h == front + last;
    PhiConcat(front, last, b, |h| - 1);
  }

  lemma PhiReplace(h: seq<int>, p: int, b: set<int>, hs: nat)
    requires Distinct(h) && h != [] && p !in h && p in b && |b| <= hs
    ensures Phi([p] + h[..|h| - 1], b, |h|) <= Phi(h, b, |h|) - (|h| - hs + 1)
  {
    hide Phi, Distinct, Missing;
    PhiPush(p, h[..|h| - 1], b, |h|);
    PhiDropLast(h, b);
    PhiShift(h, b, |h|);
    MissingWithout(h, p, b, hs);
  }

  lemma MissingWithout(h: seq<int>, p: int, b: set<int>, hs: nat)
    requires Distinct(h) && p !in h && p in b && |b| <= hs
    ensures Missing(h, b) >= |h| - hs + 1
  {
    hide Distinct, Missing;
    MissingSame(h, b, b - {p});
    MissingAtLeast(h, b - {p});
  }

  lemma PhiOfLightest(last: seq<int>, b: set<int>)
    requires |last| == 1
    ensures Phi(last, b, 0) == 0
  {
  }

  // ---- The invariant ----

  /** Another policy with few evictions: nothing changes on a hit, at most one page leaves on a fault. */
  ghost predicate LazyStep(h: nat, p: int, b: set<int>, b': set<int>) {
    && p in b' && |b'| <= h && b' <= b + {p}
    && (p in b ==> b' == b)
    && exists q :: b - {q} <= b'
  }

  /** Faults l of the list policy with history `h` against faults f of the other policy holding `b`.
      Until the frames are full every fault of the list policy is a fault of the other one. */
  ghost predicate Charged(k: nat, hs: nat, h: seq<int>, b: set<int>, l: nat, f: nat)
    requires hs <= k
  {
    var a := k - hs;
    && 2 * (a + 1) * l + 2 * Phi(h, b, k) <= 2 * k * f + a * (a + 1)
    && (|h| < k ==> l == |h| && l <= f && forall x <- b :: x in h)
  }

  lemma FirstPhaseArithmetic(k: int, a: int, m: int)
    requires 0 <= a < k
    ensures 2 * (a + 1) * m + (m - 1) * (2 * k - m) <= 2 * k * m + a * (a + 1)
  {
    var x := m - a;
    assert x * x == m * m - 2 * (a * m) + a * a;
    assert (x - 1) * (x - 2) == x * x - 3 * x + 2;
    assert (x - 1) * (x - 2) >= 0;
    assert (m - 1) * (2 * k - m) == 2 * (k * m) - m * m - 2 * k + m;
    assert 2 * (a + 1) * m == 2 * (a * m) + 2 * m;
    assert 2 * k * m == 2 * (k * m) && a * (a + 1) == a * a + a;
  }

  /** While frames are free the list policy has loaded m pages and the other one at least as many. */
  lemma FirstPhase(k: nat, a: nat, h: seq<int>, b: set<int>, p: int, m: nat, f: nat)
    requires a < k && m == |h| + 1 <= k && p in b && m <= f
    ensures 2 * (a + 1) * m + 2 * Phi([p] + h, b, k) <= 2 * k * f + a * (a + 1)
  {
    assert ([p] + h)[1..] == h;
    PhiUpper(h, b, k - 1);
    FirstPhaseArithmetic(k, a, m);
    MulMono(2 * k, m, f);
  }

  /** The other policy serves p first: each of its faults pays for what its eviction adds to the potential. */
  lemma OtherServes(k: nat, hs: nat, h: seq<int>, b: set<int>, b': set<int>, p: int, l: nat, f: nat)
    requires hs <= k && |h| <= k && Distinct(h) && LazyStep(hs, p, b, b')
    requires var a := k - hs; 2 * (a + 1) * l + 2 * Phi(h, b, k) <= 2 * k * f + a * (a + 1)
    ensures var a, f' := k - hs, f + if p in b then 0 else 1;
            2 * (a + 1) * l + 2 * Phi(h, b', k) <= 2 * k * f' + a * (a + 1)
  {
    if p !in b {
      var q :| b - {q} <= b';
      PhiEvict(h, b, b', q, k);
      MulSucc(2 * k, f);
    }
  }

  lemma ListServes(alg: Algorithm, k: nat, hs: nat, h: seq<int>, b: set<int>, p: int, l: nat, f: nat)
    requires 1 <= hs <= k && |h| <= k && Distinct(h) && p in b && |b| <= hs
    requires p in h || |h| == k
    requires var a := k - hs; 2 * (a + 1) * l + 2 * Phi(h, b, k) <= 2 * k * f + a * (a + 1)
    ensures var a, l' := k - hs, l + if p in h then 0 else 1;
            2 * (a + 1) * l' + 2 * Phi(NextHistory(alg, h, p, k), b, k) <= 2 * k * f + a * (a + 1)
  {
    if p in h {
      PhiToHead(h, p, b, k);
    } else {
      PhiReplace(h, p, b, hs);
      MulSucc(2 * (k - hs + 1), l);
    }
  }

  lemma ChargedStep(alg: Algorithm, k: nat, hs: nat, h: seq<int>, b: set<int>, b': set<int>, p: int, l: nat, f: nat)
    requires 1 <= hs <= k && |h| <= k && Distinct(h) && LazyStep(hs, p, b, b') && Charged(k, hs, h, b, l, f)
    ensures Charged(k, hs, NextHistory(alg, h, p, k), b',
                    l + (if p in h then 0 else 1), f + (if p in b then 0 else 1))
  {
    var h', f' := NextHistory(alg, h, p, k), f + if p in b then 0 else 1;
    if p !in h && |h| < k {
      FirstPhase(k, k - hs, h, b', p, |h| + 1, f');
      assert h' == [p] + h;
    } else {
      OtherServes(k, hs, h, b, b', p, l, f);
      ListServes(alg, k, hs, h, b', p, l, f');
      if p in h {
        SamePages(alg, h, p, k);
      }
    }
  }

  lemma SamePages(alg: Algorithm, h: seq<int>, p: int, k: nat)
    requires Distinct(h) && p in h && k >= 1
    ensures |NextHistory(alg, h, p, k)| == |h|
    ensures forall q :: q in NextHistory(alg, h, p, k) <==> q in h
  {
    ToHeadFacts(h, p);
  }

  /** At the end the pages the other policy cannot hold are worth the constant in the charge. */
  lemma Settle(k: nat, hs: nat, h: seq<int>, b: set<int>, l: nat, f: nat)
    requires 1 <= hs <= k && |h| <= k && Distinct(h) && |b| <= hs && Charged(k, hs, h, b, l, f)
    ensures (k - hs + 1) * l <= k * f
  {
    if |h| < k {
      MulMono(k, l, f);
      MulMono(l, k - hs + 1, k);
    } else {
      MissingAtLeast(h, b);
      PhiLower(h, b, k);
      SettleArithmetic(k, k - hs, l, f, Phi(h, b, k), Missing(h, b));
    }
  }

  lemma SettleArithmetic(k: int, a: int, l: int, f: int, phi: int, m: int)
    requires 0 <= a <= m && m * (m + 1) <= 2 * phi
    requires 2 * (a + 1) * l + 2 * phi <= 2 * k * f + a * (a + 1)
    ensures (a + 1) * l <= k * f
  {
    MulMono(a, a + 1, m + 1);
    MulMono(m + 1, a, m);
    assert 2 * (a + 1) * l == 2 * ((a + 1) * l) && 2 * k * f == 2 * (k * f);
  }

  // ---- Whole runs ----

  lemma OptimumStepIsLazy(hs: nat, refs: seq<nat>, i: nat, b: set<int>, b': set<int>)
    requires i < |refs| && OptimumStep(hs, refs, i, b, b') && |b'| <= hs
    ensures LazyStep(hs, refs[i], b, b')
  {
    hide UsedLast;
    if refs[i] in b || |b| < hs {
      assert b - {0} <= b';
    } else {
      var v :| v in b && b' == b - {v} + {refs[i]};
      assert b - {v} <= b';
    }
  }

  lemma OptimumIsLazy(hs: nat, refs: seq<nat>, i: nat, st: State)
    requires i < |refs| && |st.tlb| == hs > 0 && TlbOk(st.tlb)
    ensures LazyStep(hs, refs[i], Resident(st.tlb), Resident(Step(OPTIMUM, refs, i, st).tlb))
    ensures |Resident(st.tlb)| <= hs
  {
    hide Step, TlbOk, Resident, OptimumStep, LazyStep;
    var st' := Step(OPTIMUM, refs, i, st);
    StepIsOptimumStep(refs, i, st);
    OptimumStepOk(refs, i, st);
    ResidentSize(st'.tlb);
    OptimumStepIsLazy(hs, refs, i, Resident(st.tlb), Resident(st'.tlb));
  }

  lemma {:induction false} RunsAreCharged(alg: Algorithm, k: nat, hs: nat, refs: seq<nat>, i: nat)
    requires !alg.OPTIMUM? && k >= 2 && 1 <= hs <= k && i <= |refs|
    ensures Charged(k, hs, StateAt(alg, k, refs, i).history, Resident(StateAt(OPTIMUM, hs, refs, i).tlb),
                    FaultsBefore(alg, k, refs, i), FaultsBefore(OPTIMUM, hs, refs, i))
  {
    hide Step, Charged, LazyStep, Coherent, TlbOk, ListStep;
    if i == 0 {
      NothingResident(OPTIMUM, hs, refs);
      EmptyIsCharged(k, hs);
    } else {
      var j := i - 1;
      var st, opt := StateAt(alg, k, refs, j), StateAt(OPTIMUM, hs, refs, j);
      RunsAreCharged(alg, k, hs, refs, j);
      RunsStayCoherent(alg, k, refs, j);
      OptimumStaysOk(hs, refs, j);
      OptimumIsLazy(hs, refs, j, opt);
      StepIsListStep(alg, refs, j, st);
      ChargedListStep(alg, refs[j], st, Step(alg, refs, j, st), hs, Resident(opt.tlb),
                      Resident(Step(OPTIMUM, refs, j, opt).tlb), FaultsBefore(alg, k, refs, j),
                      FaultsBefore(OPTIMUM, hs, refs, j));
    }
  }

  lemma EmptyIsCharged(k: nat, hs: nat)
    requires hs <= k
    ensures Charged(k, hs, [], {}, 0, 0)
  {
  }

  lemma ChargedListStep(alg: Algorithm, p: nat, st: State, st': State,
                        hs: nat, b: set<int>, b': set<int>, l: nat, f: nat)
    requires st.tlb != [] && Coherent(st) && ListStep(alg, p, st, st') && 1 <= hs <= |st.tlb|
    requires LazyStep(hs, p, b, b') && Charged(|st.tlb|, hs, st.history, b, l, f)
    ensures Charged(|st.tlb|, hs, st'.history, b',
                    l + (if p in st.tlb then 0 else 1), f + (if p in b then 0 else 1))
  {
    HistoryStep(alg, p, st, st');
    ResidentIffListed(st, p);
    ChargedStep(alg, |st.tlb|, hs, st.history, b, b', p, l, f);
  }

  /** FIFO and LRU with k frames against OPTIMUM with h <= k frames; with h = k they fault at most k times as often. */
  lemma ListPoliciesAreCompetitive(alg: Algorithm, k: nat, hs: nat, refs: seq<nat>)
    requires !alg.OPTIMUM? && k >= 2 && 1 <= hs <= k
    ensures (k - hs + 1) * Faults(alg, k, refs) <= k * Faults(OPTIMUM, hs, refs)
  {
    hide Step, StateAt, Charged, TlbOk;
    var n := |refs|;
    var st, opt := StateAt(alg, k, refs, n), StateAt(OPTIMUM, hs, refs, n);
    RunsAreCharged(alg, k, hs, refs, n);
    RunsStayCoherent(alg, k, refs, n);
    OptimumStaysOk(hs, refs, n);
    ResidentSize(opt.tlb);
    Settle(k, hs, st.history, Resident(opt.tlb), Faults(alg, k, refs), Faults(OPTIMUM, hs, refs));
  }

  /** The same bound against every demand-paging policy with h <= k frames. */
  lemma CompetitiveWithAnyPolicy(alg: Algorithm, k: nat, hs: nat, refs: seq<nat>, b: seq<set<int>>)
    requires !alg.OPTIMUM? && k >= 2 && 1 <= hs <= k && DemandRun(hs, refs, b)
    ensures (k - hs + 1) * Faults(alg, k, refs) <= k * RunFaults(refs, b, |refs|)
  {
    assert |b| == |refs| + 1;
    hide Faults, RunFaults, DemandRun;
    ListPoliciesAreCompetitive(alg, k, hs, refs);
    OptimumIsOptimal(hs, refs, b);
    MulMono(k, Faults(OPTIMUM, hs, refs), RunFaults(refs, b, |refs|));
  }

  // ---- FIFO and LRU are demand-paging policies ----

  ghost function ResidentSets(alg: Algorithm, k: nat, refs: seq<nat>, n: nat): (b: seq<set<int>>)
    requires k >= 1 && n <= |refs|
    ensures |b| == n + 1
    ensures forall i :: 0 <= i <= n ==> b[i] == Resident(StateAt(alg, k, refs, i).tlb)
  {
    seq(n + 1, i requires 0 <= i <= n => Resident(StateAt(alg, k, refs, i).tlb))
  }

  lemma ListStepIsDemandStep(alg: Algorithm, p: nat, st: State, st': State)
    requires Coherent(st) && Coherent(st') && ListStep(alg, p, st, st') && p in st'.tlb && |st'.tlb| == |st.tlb|
    ensures DemandStep(|st.tlb|, p, Resident(st.tlb), Resident(st'.tlb))
  {
    CoherentIsTlbOk(st');
    ResidentSize(st'.tlb);
    forall q | q in Resident(st'.tlb) && q != p ensures q in st.tlb {
      var f :| 0 <= f < |st'.tlb| && st'.tlb[f] == q;
      assert st.tlb[f] == q;
    }
  }

  lemma CoherentIsTlbOk(st: State)
    requires Coherent(st)
    ensures TlbOk(st.tlb)
  {
    var n := |st.history|;
    forall f, g | 0 <= f < g < |st.tlb| && st.tlb[g] != EMPTY ensures st.tlb[f] != EMPTY && st.tlb[f] != st.tlb[g] {
      assert st.tlb[..n][f] == st.tlb[f] && st.tlb[..n][g] == st.tlb[g];
    }
  }

  lemma ListRunIsDemandRun(alg: Algorithm, k: nat, refs: seq<nat>)
    requires k >= 2 && !alg.OPTIMUM?
    ensures DemandRun(k, refs, ResidentSets(alg, k, refs, |refs|))
  {
    hide Step, Coherent, ListStep, Resident, DemandStep;
    var b := ResidentSets(alg, k, refs, |refs|);
    assert b[0] == {} by { NothingResident(alg, k, refs); }
    forall i | 0 <= i < |refs| ensures DemandStep(k, refs[i], b[i], b[i + 1]) {
      RunsStayCoherent(alg, k, refs, i);
      RunStep(alg, k, refs, i);
      ListStepIsDemandStep(alg, refs[i], StateAt(alg, k, refs, i), StateAt(alg, k, refs, i + 1));
    }
  }

  lemma {:induction false} SameFaults(alg: Algorithm, k: nat, refs: seq<nat>, i: nat)
    requires k >= 1 && i <= |refs|
    ensures RunFaults(refs, ResidentSets(alg, k, refs, |refs|), i) == FaultsBefore(alg, k, refs, i)
  {
    hide StateAt, ResidentSets;
    if i == 0 {
    } else {
      var b := ResidentSets(alg, k, refs, |refs|);
      assert b[i - 1] == Resident(StateAt(alg, k, refs, i - 1).tlb);
      SameFaults(alg, k, refs, i - 1);
    }
  }

  /** OPTIMUM faults at most as often as FIFO and LRU. */
  lemma OptimumBeatsListPolicies(alg: Algorithm, k: nat, refs: seq<nat>)
    requires k >= 2 && !alg.OPTIMUM?
    ensures Faults(OPTIMUM, k, refs) <= Faults(alg, k, refs)
  {
    hide Step, FaultsBefore, RunFaults, DemandRun;
    ListRunIsDemandRun(alg, k, refs);
    SameFaults(alg, k, refs, |refs|);
    OptimumIsOptimal(k, refs, ResidentSets(alg, k, refs, |refs|));
  }

  /** With two frames or more FIFO and LRU lie between the optimum and k times the optimum. */
  lemma BetweenOptimumAndK(alg: Algorithm, k: nat, refs: seq<nat>)
    requires k >= 2 && !alg.OPTIMUM?
    ensures Faults(OPTIMUM, k, refs) <= Faults(alg, k, refs) <= k * Faults(OPTIMUM, k, refs)
  {
    hide Faults;
    OptimumBeatsListPolicies(alg, k, refs);
    ListPoliciesAreCompetitive(alg, k, k, refs);
  }

  // ---- One frame ----

  /** A fourth reference after three different pages only hits if it repeats the second one. */
  lemma SoleFrameFourth(alg: Algorithm, refs: seq<nat>)
    requires !alg.OPTIMUM? && |refs| == 4 && refs[0] != refs[1] && refs[1] != refs[2] && refs[0] != refs[2]
    ensures Faults(alg, 1, refs) == if refs[3] == refs[1] then 3 else 4
  {
    hide Step, StateAt, FaultsBefore;
    SoleFrameLosesPage(alg, refs);
    NextState(alg, 1, refs, 3);
  }

  /** OPTIMUM with one frame faults whenever the page changes. */
  lemma SoleFrameOptimum(refs: seq<nat>, i: nat)
    requires 0 < i < |refs|
    ensures FaultsBefore(OPTIMUM, 1, refs, i + 1)
         == FaultsBefore(OPTIMUM, 1, refs, i) + if refs[i] == refs[i - 1] then 0 else 1
  {
    hide Step, StateAt, FaultsBefore;
    OptimumStaysOk(1, refs, i);
    assert StateAt(OPTIMUM, 1, refs, i).tlb == [refs[i - 1]];
    NextState(OPTIMUM, 1, refs, i);
  }

  lemma SoleFrameOptimumFaults(refs: seq<nat>)
    requires |refs| == 4 && refs[0] != refs[1] && refs[1] != refs[2]
    ensures Faults(OPTIMUM, 1, refs) == if refs[3] == refs[2] then 3 else 4
  {
    hide Step, StateAt, FaultsBefore;
    StartState(OPTIMUM, 1, refs);
    NextState(OPTIMUM, 1, refs, 0);
    SoleFrameOptimum(refs, 1);
    SoleFrameOptimum(refs, 2);
    SoleFrameOptimum(refs, 3);
  }

  ghost predicate AtMostKTimesOptimum(alg: Algorithm, k: nat)
    requires k >= 1
  {
    forall refs: seq<nat> :: Faults(alg, k, refs) <= k * Faults(OPTIMUM, k, refs)
  }

  ghost predicate NeverBelowOptimum(alg: Algorithm, k: nat)
    requires k >= 1
  {
    forall refs: seq<nat> :: Faults(OPTIMUM, k, refs) <= Faults(alg, k, refs)
  }

  /** FIFO and LRU are k-competitive with k frames for all strings exactly when k >= 2: on 0 1 2 2 with one frame
      they fault four times and OPTIMUM three times. */
  lemma AtMostKTimesOptimumIff(alg: Algorithm, k: nat)
    requires k >= 1 && !alg.OPTIMUM?
    ensures AtMostKTimesOptimum(alg, k) <==> k >= 2
  {
    hide Faults;
    if k >= 2 {
      forall refs: seq<nat> ensures Faults(alg, k, refs) <= k * Faults(OPTIMUM, k, refs) {
        BetweenOptimumAndK(alg, k, refs);
      }
    } else {
      var refs: seq<nat> := [0, 1, 2, 2];
      SoleFrameFourth(alg, refs);
      SoleFrameOptimumFaults(refs);
      assert Faults(alg, k, refs) > k * Faults(OPTIMUM, k, refs);
    }
  }

  /** OPTIMUM is at most FIFO and LRU for all strings exactly when k >= 2: on 0 1 2 1 with one frame they fault
      three times, because page 2 is never loaded, and OPTIMUM four times. */
  lemma NeverBelowOptimumIff(alg: Algorithm, k: nat)
    requires k >= 1 && !alg.OPTIMUM?
    ensures NeverBelowOptimum(alg, k) <==> k >= 2
  {
    hide Faults;
    if k >= 2 {
      forall refs: seq<nat> ensures Faults(OPTIMUM, k, refs) <= Faults(alg, k, refs) {
        BetweenOptimumAndK(alg, k, refs);
      }
    } else {
      var refs: seq<nat> := [0, 1, 2, 1];
      SoleFrameFourth(alg, refs);
      SoleFrameOptimumFaults(refs);
      assert Faults(OPTIMUM, k, refs) > Faults(alg, k, refs);
    }
  }
}
