/** What one iteration does to TLB and history, row by row. */
module PagingSteps {
  import opened Paging

  /** Row f is the first one that holds x. */
  predicate FirstRow(tlb: seq<int>, x: int, f: int) {
    0 <= f < |tlb| && tlb[f] == x && forall g :: 0 <= g < f ==> tlb[g] != x
  }

  /** Row f holds a page used farthest ahead, and is the first such row. */
  predicate UsedFarthest(tlb: seq<int>, refs: seq<nat>, i: nat, f: int)
    requires i <= |refs|
  {
    && 0 <= f < |tlb|
    && (forall g :: 0 <= g < |tlb| ==> NextUse(refs, i, tlb[g]) <= NextUse(refs, i, tlb[f]))
    && (forall g :: 0 <= g < f ==> NextUse(refs, i, tlb[g]) < NextUse(refs, i, tlb[f]))
  }

  /** The frame that OPTIMUM takes for page refs[i]. */
  predicate OptimumFrame(tlb: seq<int>, refs: seq<nat>, i: nat, f: int)
    requires i < |refs|
  {
    if refs[i] in tlb then FirstRow(tlb, refs[i], f)
    else if EMPTY in tlb then FirstRow(tlb, EMPTY, f)
    else UsedFarthest(tlb, refs, i + 1, f)
  }

  lemma FirstIndexIsFirstRow(tlb: seq<int>, x: int)
    requires x in tlb
    ensures FirstRow(tlb, x, FirstIndex(tlb, x))
  {
  }

  lemma FirstRowIsUnique(tlb: seq<int>, x: int, f: int, g: int)
    requires FirstRow(tlb, x, f) && FirstRow(tlb, x, g)
    ensures f == g
  {
  }

  lemma UsedFarthestIsUnique(tlb: seq<int>, refs: seq<nat>, i: nat, f: int, g: int)
    requires i <= |refs| && UsedFarthest(tlb, refs, i, f) && UsedFarthest(tlb, refs, i, g)
    ensures f == g
  {
    hide NextUse;
    var u, v := NextUse(refs, i, tlb[f]), NextUse(refs, i, tlb[g]);
  }

  lemma SwapFrameIsOptimum(refs: seq<nat>, i: nat, st: State)
    requires i < |refs| && st.tlb != []
    ensures OptimumFrame(st.tlb, refs, i, SwapFrame(OPTIMUM, refs, i, st))
  {
    hide NextUse;
    if refs[i] in st.tlb {
      FirstIndexIsFirstRow(st.tlb, refs[i]);
    } else if EMPTY in st.tlb {
      FirstIndexIsFirstRow(st.tlb, EMPTY);
    }
  }

  /** OPTIMUM stores a page that is not resident into the first empty row or else over the first of the pages used
      farthest ahead, and changes nothing else. */
  lemma OptimumStores(refs: seq<nat>, i: nat, st: State, f: nat)
    requires i < |refs| && st.tlb != [] && OptimumFrame(st.tlb, refs, i, f)
    ensures Step(OPTIMUM, refs, i, st)
         == if refs[i] in st.tlb then st else State(st.tlb[f := refs[i]], st.history)
  {
    hide NextUse, Farthest;
    SwapFrameIsOptimum(refs, i, st);
    var g := SwapFrame(OPTIMUM, refs, i, st);
    if refs[i] in st.tlb {
      FirstRowIsUnique(st.tlb, refs[i], f, g);
    } else if EMPTY in st.tlb {
      FirstRowIsUnique(st.tlb, EMPTY, f, g);
    } else {
      UsedFarthestIsUnique(st.tlb, refs, i + 1, f, g);
    }
  }

  /** Pages 0 1 2 3 with three frames: none of 0, 1 and 2 is used again, so page 3 takes the first frame. */
  lemma OptimumTakesFirst(refs: seq<nat>)
    requires refs == [0, 1, 2, 3]
    ensures StateAt(OPTIMUM, 3, refs, 4).tlb == [3, 1, 2]
  {
    hide Step, StateAt, FaultsBefore;
    StartState(OPTIMUM, 3, refs);
    assert StateAt(OPTIMUM, 3, refs, 0) == State([EMPTY, EMPTY, EMPTY], []);
    NextState(OPTIMUM, 3, refs, 0);
    OptimumStores(refs, 0, State([EMPTY, EMPTY, EMPTY], []), 0);
    assert [EMPTY, EMPTY, EMPTY][0 := 0] == [0, EMPTY, EMPTY];
    NextState(OPTIMUM, 3, refs, 1);
    OptimumStores(refs, 1, State([0, EMPTY, EMPTY], []), 1);
    assert [0, EMPTY, EMPTY][1 := 1] == [0, 1, EMPTY];
    NextState(OPTIMUM, 3, refs, 2);
    OptimumStores(refs, 2, State([0, 1, EMPTY], []), 2);
    assert [0, 1, EMPTY][2 := 2] == [0, 1, 2];
    NextState(OPTIMUM, 3, refs, 3);
    OptimumStores(refs, 3, State([0, 1, 2], []), 0);
    assert [0, 1, 2][0 := 3] == [3, 1, 2];
  }

  /** There always is such a frame. */
  lemma OptimumFrameExists(refs: seq<nat>, i: nat, tlb: seq<int>) returns (f: nat)
    requires i < |refs| && tlb != []
    ensures OptimumFrame(tlb, refs, i, f)
  {
    SwapFrameIsOptimum(refs, i, State(tlb, []));
    f := SwapFrame(OPTIMUM, refs, i, State(tlb, []));
  }

  // ---- FIFO and LRU ----

  /** What FIFO and LRU do on a fault: the page goes to the head of the history and into the first empty row, or else
      into the row of the page at the tail, which leaves the history unless it is the only one there. */
  ghost predicate ListFault(tlb: seq<int>, h: seq<int>, p: int, f: int, h': seq<int>) {
    if EMPTY in tlb then FirstRow(tlb, EMPTY, f) && h' == [p] + h
    else
      && h' == [p] + (if |h| <= 1 then h else h[..|h| - 1])
      && if h != [] && h[|h| - 1] in tlb then FirstRow(tlb, h[|h| - 1], f) else f == NOT_FOUND
  }

  /** Position j is the first one of page p in the history, which moves to the head. */
  ghost predicate MovedToFront(h: seq<int>, p: int, h': seq<int>) {
    exists j :: FirstRow(h, p, j) && h' == [p] + h[..j] + h[j + 1..]
  }

  lemma FaultFrameIsList(st: State, p: int)
    ensures ListFault(st.tlb, st.history, p, FaultFrame(st), FaultHistory(st, p))
  {
    if EMPTY in st.tlb {
      FirstIndexIsFirstRow(st.tlb, EMPTY);
    } else if st.history != [] && st.history[|st.history| - 1] in st.tlb {
      FirstIndexIsFirstRow(st.tlb, st.history[|st.history| - 1]);
    }
  }

  lemma HeadIsFirst(h: seq<int>, p: int)
    requires h != [] && h[0] == p
    ensures FirstRow(h, p, 0)
  {
  }

  lemma ToHeadMoves(h: seq<int>, p: int)
    requires p in h
    ensures MovedToFront(h, p, ToHead(h, p))
  {
    var j := FirstIndex(h, p);
    FirstIndexIsFirstRow(h, p);
    hide FirstIndex, FirstRow;
    if h[0] == p {
      FirstRowIsUnique(h, p, 0, j) by { HeadIsFirst(h, p); }
      assert h == [p] + h[..0] + h[1..];
    } else {
      assert [p] + (h[..j] + h[j + 1..]) == [p] + h[..j] + h[j + 1..];
    }
  }

  lemma SwapIsExplicit(alg: Algorithm, page: nat, st: State)
    requires !alg.OPTIMUM? && (alg.LRU? && FrameOf(st.tlb, page) != NOT_FOUND ==> page in st.history)
    ensures var h := SwapHistory(alg, page, st);
            if FrameOf(st.tlb, page) == NOT_FOUND then ListFault(st.tlb, st.history, page, FaultFrame(st), h)
            else if alg.LRU? then MovedToFront(st.history, page, h)
            else h == st.history
  {
    if FrameOf(st.tlb, page) == NOT_FOUND {
      FaultFrameIsList(st, page);
    } else if alg.LRU? {
      ToHeadMoves(st.history, page);
    }
  }

  /** A fault of FIFO or LRU, with any number of frames. */
  lemma ListPolicyFaults(alg: Algorithm, refs: seq<nat>, i: nat, st: State, f: int, h: seq<int>)
    requires i < |refs| && st.tlb != [] && !alg.OPTIMUM? && refs[i] !in st.tlb
    requires ListFault(st.tlb, st.history, refs[i], f, h)
    ensures Step(alg, refs, i, st) == State(if f == NOT_FOUND then st.tlb else st.tlb[f := refs[i]], h)
  {
    FaultFrameIsList(st, refs[i]);
    var g := FaultFrame(st);
    if EMPTY in st.tlb {
      FirstRowIsUnique(st.tlb, EMPTY, f, g);
    } else if f != NOT_FOUND {
      FirstRowIsUnique(st.tlb, st.history[|st.history| - 1], f, g);
    }
  }

  /** A hit changes nothing with FIFO, and with LRU moves the page to the head of the history. */
  lemma ListPolicyHits(alg: Algorithm, refs: seq<nat>, i: nat, st: State)
    requires i < |refs| && st.tlb != [] && !alg.OPTIMUM? && refs[i] in st.tlb && refs[i] in st.history
    ensures var st' := Step(alg, refs, i, st);
            && st'.tlb == st.tlb
            && if alg.LRU? then MovedToFront(st.history, refs[i], st'.history) else st'.history == st.history
  {
    FirstIndexIsFirstRow(st.tlb, refs[i]);
    ToHeadMoves(st.history, refs[i]);
  }
}
