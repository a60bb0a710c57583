/** What every run keeps: the TLB and the history list describe the same resident pages,
    and the page just referenced is resident. */
module PagingRuns {
  import opened Paging

  predicate Distinct(s: seq<int>) {
    forall i, j :: 0 <= i < j < |s| ==> s[i] != s[j]
  }

  ghost function Resident(tlb: seq<int>): set<int> {
    set p | p in tlb && p != EMPTY
  }

  /** The occupied frames are the first |history| ones and hold exactly the history's pages, each once. */
  ghost predicate Coherent(st: State) {
    && |st.history| <= |st.tlb|
    && (forall f :: 0 <= f < |st.tlb| ==> (st.tlb[f] != EMPTY <==> f < |st.history|))
    && (forall f :: 0 <= f < |st.history| ==> st.tlb[f] in st.history)
    && (forall p <- st.history :: p in st.tlb && p >= 0)
    && Distinct(st.history)
    && Distinct(st.tlb[..|st.history|])
  }

  /** The same for OPTIMUM, which ignores the history: occupied frames come first and hold distinct pages. */
  ghost predicate TlbOk(tlb: seq<int>) {
    && (forall f, g :: 0 <= f < g < |tlb| && tlb[g] != EMPTY ==> tlb[f] != EMPTY && tlb[f] != tlb[g])
    && (forall f :: 0 <= f < |tlb| ==> tlb[f] >= EMPTY)
  }

  lemma FirstEmpty(st: State)
    requires Coherent(st)
    ensures FirstIndex(st.tlb, EMPTY) == if |st.history| < |st.tlb| then |st.history| else NOT_FOUND
  {
    var n, e := |st.history|, FirstIndex(st.tlb, EMPTY);
    if n < |st.tlb| {
      assert st.tlb[n] == EMPTY;
    }
  }

  /** A step of FIFO or LRU in the three cases: hit, fault into an empty frame, and replacement of the tail's page. */
  ghost predicate ListStep(alg: Algorithm, p: nat, st: State, st': State) {
    var n := |st.history|;
    if p in st.tlb then
      st'.tlb == st.tlb && st'.history == if alg.LRU? then ToHead(st.history, p) else st.history
    else if n < |st.tlb| then
      st' == State(st.tlb[n := p], [p] + st.history)
    else
      && n > 0 && st'.history == [p] + st.history[..n - 1]
      && exists f :: 0 <= f < |st.tlb| && st.tlb[f] == st.history[n - 1] && st'.tlb == st.tlb[f := p]
  }

  /** What a list policy does to its history when `p` is referenced. */
  function NextHistory(alg: Algorithm, h: seq<int>, p: int, k: nat): seq<int>
    requires k >= 1
  {
    if p in h then (if alg.LRU? then ToHead(h, p) else h)
    else if |h| < k then [p] + h
    else [p] + h[..k - 1]
  }

  lemma ResidentIffListed(st: State, p: nat)
    requires Coherent(st)
    ensures p in st.tlb <==> p in st.history
  {
  }

  lemma HistoryStep(alg: Algorithm, p: nat, st: State, st': State)
    requires Coherent(st) && st.tlb != [] && ListStep(alg, p, st, st')
    ensures st'.history == NextHistory(alg, st.history, p, |st.tlb|)
  {
    ResidentIffListed(st, p);
  }

  lemma StepIsListStep(alg: Algorithm, refs: seq<nat>, i: nat, st: State)
    requires i < |refs| && |st.tlb| >= 2 && !alg.OPTIMUM? && Coherent(st)
    ensures ListStep(alg, refs[i], st, Step(alg, refs, i, st))
  {
    var p, n, st' := refs[i], |st.history|, Step(alg, refs, i, st);
    FirstEmpty(st);
    if p !in st.tlb && n == |st.tlb| {
      var v := st.history[n - 1];
      assert v in st.history;
      var f := FirstIndex(st.tlb, v);
      assert st.tlb[f] == st.history[n - 1] && st'.tlb == st.tlb[f := p];
    }
  }

  lemma DropAt(h: seq<int>, j: nat)
    requires Distinct(h) && j < |h|
    ensures var r := h[..j] + h[j + 1..];
            && Distinct(r) && |r| == |h| - 1
            && (forall q :: q in r <==> q in h && q != h[j])
  {
    var r := h[..j] + h[j + 1..];
    forall q | q in h && q != h[j] ensures q in r {
      var m :| 0 <= m < |h| && h[m] == q;
      assert r[if m < j then m else m - 1] == q;
    }
    forall q | q in r ensures q in h && q != h[j] {
      var m :| 0 <= m < |r| && r[m] == q;
      assert q == h[if m < j then m else m + 1];
    }
  }

  lemma RemoveFirstFacts(h: seq<int>, p: int)
    requires Distinct(h)
    ensures Distinct(RemoveFirst(h, p)) && p !in RemoveFirst(h, p)
    ensures forall q :: q in RemoveFirst(h, p) <==> q in h && q != p
    ensures p in h ==> |RemoveFirst(h, p)| == |h| - 1
  {
    hide Distinct, FirstIndex;
    if p in h {
      DropAt(h, FirstIndex(h, p));
    }
  }

  lemma ToHeadFacts(h: seq<int>, p: int)
    requires Distinct(h) && p in h
    ensures Distinct(ToHead(h, p)) && |ToHead(h, p)| == |h| && ToHead(h, p)[0] == p
    ensures forall q :: q in ToHead(h, p) <==> q in h
  {
    RemoveFirstFacts(h, p);
  }

  lemma CoherentStep(alg: Algorithm, p: nat, st: State, st': State)
    requires Coherent(st) && ListStep(alg, p, st, st')
    ensures Coherent(st') && p in st'.tlb && |st'.tlb| == |st.tlb|
    ensures st'.history != [] && (st'.history[0] == p || (alg != LRU && p in st.tlb))
  {
    var n := |st.history|;
    if p in st.tlb {
      var f :| 0 <= f < |st.tlb| && st.tlb[f] == p;
      assert f < n && p in st.history;
      ToHeadFacts(st.history, p);
    } else if n < |st.tlb| {
      assert st'.tlb[n] == p;
      forall q | q in st'.history ensures q in st'.tlb {
        if q != p {
          var f :| 0 <= f < |st.tlb| && st.tlb[f] == q;
          assert st'.tlb[f] == q;
        }
      }
      assert p !in st.history;
    } else {
      Replace(p, st, st');
    }
  }

  lemma Replace(p: nat, st: State, st': State)
    requires Coherent(st) && p !in st.tlb && |st.history| == |st.tlb| > 0
    requires st'.history == [p] + st.history[..|st.history| - 1]
    requires exists f :: 0 <= f < |st.tlb| && st.tlb[f] == st.history[|st.history| - 1] && st'.tlb == st.tlb[f := p]
    ensures Coherent(st') && p in st'.tlb
  {
    var n := |st.history|;
    var v := st.history[n - 1];
    var f :| 0 <= f < n && st.tlb[f] == v && st'.tlb == st.tlb[f := p];
    assert st'.tlb[f] == p && st'.history[0] == p;
    assert st.tlb[..n] == st.tlb && st'.tlb[..n] == st'.tlb;
    ReplaceListed(p, st, st', f);
    ReplaceResident(p, st, st', f);
  }

  lemma ReplaceListed(p: nat, st: State, st': State, f: nat)
    requires |st.history| == |st.tlb| > 0 && f < |st.tlb| && Distinct(st.tlb)
    requires forall g :: 0 <= g < |st.tlb| ==> st.tlb[g] in st.history
    requires st'.history == [p] + st.history[..|st.history| - 1]
    requires st.tlb[f] == st.history[|st.history| - 1] && st'.tlb == st.tlb[f := p]
    ensures forall g :: 0 <= g < |st'.tlb| ==> st'.tlb[g] in st'.history
  {
    var n := |st.history|;
    forall g | 0 <= g < n && g != f ensures st.tlb[g] in st'.history {
      var m :| 0 <= m < n && st.history[m] == st.tlb[g];
      assert m < n - 1 && st'.history[m + 1] == st.tlb[g];
    }
    assert st'.history[0] == p;
  }

  lemma ReplaceResident(p: nat, st: State, st': State, f: nat)
    requires |st.history| == |st.tlb| > 0 && f < |st.tlb| && Distinct(st.history)
    requires forall q <- st.history :: q in st.tlb && q >= 0
    requires st'.history == [p] + st.history[..|st.history| - 1]
    requires st.tlb[f] == st.history[|st.history| - 1] && st'.tlb == st.tlb[f := p]
    ensures forall q <- st'.history :: q in st'.tlb && q >= 0
  {
    var n := |st.history|;
    assert st'.tlb[f] == p;
    forall q | q in st'.history && q != p ensures q in st'.tlb && q >= 0 {
      var m :| 0 <= m < n - 1 && st.history[m] == q;
      assert q in st.history;
      var g :| 0 <= g < n && st.tlb[g] == q;
      assert st'.tlb[g] == q;
    }
  }

  /** With at least two frames every state of a FIFO or LRU run is coherent. */
  lemma {:induction false} RunsStayCoherent(alg: Algorithm, k: nat, refs: seq<nat>, i: nat)
    requires k >= 2 && i <= |refs| && !alg.OPTIMUM?
    ensures Coherent(StateAt(alg, k, refs, i))
  {
    hide Step, Coherent, ListStep;
    if i == 0 {
      EmptyIsCoherent(StateAt(alg, k, refs, 0));
    } else {
      RunsStayCoherent(alg, k, refs, i - 1);
      RunStep(alg, k, refs, i - 1);
    }
  }

  lemma EmptyIsCoherent(st: State)
    requires st.history == [] && forall f :: 0 <= f < |st.tlb| ==> st.tlb[f] == EMPTY
    ensures Coherent(st)
  {
  }

  lemma RunStep(alg: Algorithm, k: nat, refs: seq<nat>, i: nat)
    requires k >= 2 && i < |refs| && !alg.OPTIMUM? && Coherent(StateAt(alg, k, refs, i))
    ensures ListStep(alg, refs[i], StateAt(alg, k, refs, i), StateAt(alg, k, refs, i + 1))
    ensures Coherent(StateAt(alg, k, refs, i + 1))
    ensures refs[i] in StateAt(alg, k, refs, i + 1).tlb
  {
    hide Step, ListStep, Coherent;
    var st := StateAt(alg, k, refs, i);
    StepIsListStep(alg, refs, i, st);
    CoherentStep(alg, refs[i], st, Step(alg, refs, i, st));
  }

  /** OPTIMUM keeps the TLB well formed with any number of frames. */
  lemma {:induction false} OptimumStaysOk(k: nat, refs: seq<nat>, i: nat)
    requires k >= 1 && i <= |refs|
    ensures TlbOk(StateAt(OPTIMUM, k, refs, i).tlb)
    ensures i > 0 ==> refs[i - 1] in StateAt(OPTIMUM, k, refs, i).tlb
  {
    hide Step;
    if i == 0 {
    } else {
      OptimumStaysOk(k, refs, i - 1);
      OptimumStepOk(refs, i - 1, StateAt(OPTIMUM, k, refs, i - 1));
    }
  }

  /** A step of OPTIMUM: the page is already there, or it replaces an empty row or the page used farthest ahead. */
  lemma OptimumStepOk(refs: seq<nat>, i: nat, st: State)
    requires i < |refs| && st.tlb != [] && TlbOk(st.tlb)
    ensures TlbOk(Step(OPTIMUM, refs, i, st).tlb)
    ensures refs[i] in Step(OPTIMUM, refs, i, st).tlb
  {
    var p, st' := refs[i], Step(OPTIMUM, refs, i, st);
    var f := SwapFrame(OPTIMUM, refs, i, st);
    assert st'.tlb == st.tlb[f := p] && st'.tlb[f] == p;
    var e := FirstIndex(st.tlb, EMPTY);
  }

  // ---- One frame ----

  lemma SoleFrameFault(alg: Algorithm, refs: seq<nat>, i: nat, x: int, h: seq<int>)
    requires i < |refs| && refs[i] != x && !alg.OPTIMUM?
    ensures Step(alg, refs, i, State([x], h))
         == if x == EMPTY then State([refs[i]], [refs[i] as int] + h)
            else State([if TailPage(h) == x then refs[i] else x], [refs[i] as int] + DropTail(h))
  {
    assert forall y :: FirstIndex([x], y) == if x == y then 0 else NOT_FOUND;
  }

  /** With a single frame the history outlives the TLB: the third of three different pages is not loaded. */
  lemma SoleFrameLosesPage(alg: Algorithm, refs: seq<nat>)
    requires !alg.OPTIMUM? && |refs| >= 3 && refs[0] != refs[1] && refs[1] != refs[2] && refs[0] != refs[2]
    ensures StateAt(alg, 1, refs, 3) == State([refs[1]], [refs[2], refs[1]])
    ensures refs[2] !in StateAt(alg, 1, refs, 3).tlb && FaultsBefore(alg, 1, refs, 3) == 3
  {
    hide Step, StateAt, FaultsBefore;
    StartState(alg, 1, refs);
    assert StateAt(alg, 1, refs, 0) == State([EMPTY], []);
    NextState(alg, 1, refs, 0);
    SoleFrameFault(alg, refs, 0, EMPTY, []);
    assert StateAt(alg, 1, refs, 1) == State([refs[0]], [refs[0]]);
    NextState(alg, 1, refs, 1);
    SoleFrameFault(alg, refs, 1, refs[0], [refs[0]]);
    assert StateAt(alg, 1, refs, 2) == State([refs[1]], [refs[1], refs[0]]);
    NextState(alg, 1, refs, 2);
    SoleFrameFault(alg, refs, 2, refs[1], [refs[1], refs[0]]);
  }

  ghost predicate AlwaysResident(alg: Algorithm, k: nat)
    requires k >= 1
  {
    forall refs: seq<nat>, i: nat | 0 < i <= |refs| :: refs[i - 1] in StateAt(alg, k, refs, i).tlb
  }

  /** FIFO and LRU always end an iteration with the referenced page resident exactly when there are two frames. */
  lemma ReferencedPageIsResidentIff(alg: Algorithm, k: nat)
    requires k >= 1 && !alg.OPTIMUM?
    ensures AlwaysResident(alg, k) <==> k >= 2
  {
    hide Step, Coherent;
    if k >= 2 {
      forall refs: seq<nat>, i: nat | 0 < i <= |refs| ensures refs[i - 1] in StateAt(alg, k, refs, i).tlb {
        RunsStayCoherent(alg, k, refs, i - 1);
        RunStep(alg, k, refs, i - 1);
      }
    } else {
      var refs: seq<nat> := [0, 1, 2];
      SoleFrameLosesPage(alg, refs);
      var last := refs[3 - 1];
      assert last == 2;
    }
  }

  /** Every page in the TLB is in the history, for any number of frames: this is what makes
      the search loop of the list's `Remove` stop. */
  ghost predicate Listed(st: State) {
    && (forall p <- st.tlb :: p == EMPTY || p in st.history)
    && (|st.tlb| == 1 ==> |st.history| <= 2 && (EMPTY in st.tlb ==> st.history == []))
  }

  lemma {:induction false} ResidentPagesAreListed(alg: Algorithm, k: nat, refs: seq<nat>, i: nat)
    requires k >= 1 && i <= |refs| && !alg.OPTIMUM?
    ensures Listed(StateAt(alg, k, refs, i))
  {
    hide Step, Coherent;
    if k >= 2 {
      RunsStayCoherent(alg, k, refs, i);
      CoherentIsListed(StateAt(alg, k, refs, i));
    } else if i > 0 {
      ResidentPagesAreListed(alg, k, refs, i - 1);
      SoleFrameStep(alg, refs, i - 1, StateAt(alg, k, refs, i - 1));
    }
  }

  lemma HitIsListed(alg: Algorithm, k: nat, refs: seq<nat>, i: nat)
    requires k >= 1 && i < |refs| && !alg.OPTIMUM?
    ensures refs[i] in StateAt(alg, k, refs, i).tlb ==> refs[i] in StateAt(alg, k, refs, i).history
  {
    ResidentPagesAreListed(alg, k, refs, i);
  }

  lemma CoherentIsListed(st: State)
    requires Coherent(st) && |st.tlb| >= 2
    ensures Listed(st)
  {
  }

  lemma SoleFrameStep(alg: Algorithm, refs: seq<nat>, i: nat, st: State)
    requires i < |refs| && |st.tlb| == 1 && Listed(st) && !alg.OPTIMUM?
    ensures Listed(Step(alg, refs, i, st))
  {
    assert st.tlb == [st.tlb[0]];
    if st.tlb[0] == refs[i] {
      assert FirstIndex(st.tlb, refs[i]) == 0;
    } else {
      SoleFrameFault(alg, refs, i, st.tlb[0], st.history);
    }
  }
}
