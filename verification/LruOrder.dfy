/** What the LRU history means: the most recently used pages in order of last use. Inclusion follows:
    more frames hold a superset of the pages, so LRU never faults more often with more frames. */
module LruOrder {
  import opened Numbers
  import opened Paging
  import opened PagingRuns

  /** The last position before `i` that references `p`, or -1. */
  function LastUse(refs: seq<nat>, i: nat, p: int): (j: int)
    requires i <= |refs|
    ensures -1 <= j < i
  {
    if i == 0 then -1 else if refs[i - 1] == p then i - 1 else LastUse(refs, i - 1, p)
  }

  lemma {:induction false} LastUseIsLast(refs: seq<nat>, i: nat, p: int)
    requires i <= |refs|
    ensures var j := LastUse(refs, i, p); (j >= 0 ==> refs[j] == p) && forall m :: j < m < i ==> refs[m] != p
  {
    if i == 0 {
    } else {
      LastUseIsLast(refs, i - 1, p);
    }
  }

  /** The history without any bound on its length: every page moves to the head when it is used. */
  function Stack(refs: seq<nat>, i: nat): seq<int>
    requires i <= |refs|
  {
    if i == 0 then [] else [refs[i - 1] as int] + RemoveFirst(Stack(refs, i - 1), refs[i - 1])
  }

  ghost predicate ListsAll(s: seq<int>, refs: seq<nat>, i: nat)
    requires i <= |refs|
  {
    forall j :: 0 <= j < i ==> refs[j] in s
  }

  /** Every page of `s` has been used, the more recently the nearer to the head. */
  ghost predicate ByRecency(s: seq<int>, refs: seq<nat>, i: nat)
    requires i <= |refs|
  {
    && (forall x :: 0 <= x < |s| ==> LastUse(refs, i, s[x]) >= 0)
    && (forall x, y :: 0 <= x < y < |s| ==> LastUse(refs, i, s[x]) > LastUse(refs, i, s[y]))
  }

  lemma ByRecencyIsDistinct(s: seq<int>, refs: seq<nat>, i: nat)
    requires i <= |refs| && ByRecency(s, refs, i)
    ensures Distinct(s)
  {
    forall x, y | 0 <= x < y < |s| ensures s[x] != s[y] {
      assert LastUse(refs, i, s[x]) > LastUse(refs, i, s[y]);
    }
  }

  lemma PushByRecency(rest: seq<int>, refs: seq<nat>, i: nat)
    requires i < |refs| && ByRecency(rest, refs, i) && refs[i] !in rest
    ensures ByRecency([refs[i] as int] + rest, refs, i + 1)
  {
    var p: int, s' := refs[i], [refs[i] as int] + rest;
    forall y | 1 <= y < |s'| ensures LastUse(refs, i + 1, s'[y]) == LastUse(refs, i, rest[y - 1]) {
      assert s'[y] == rest[y - 1] && rest[y - 1] in rest;
    }
    assert LastUse(refs, i + 1, p) == i && s'[0] == p;
  }

  lemma RemoveKeepsOrder(s: seq<int>, p: int, refs: seq<nat>, i: nat)
    requires i <= |refs| && ByRecency(s, refs, i)
    ensures ByRecency(RemoveFirst(s, p), refs, i)
  {
    var j, r := FirstIndex(s, p), RemoveFirst(s, p);
    if j != NOT_FOUND {
      assert forall x :: 0 <= x < |r| ==> r[x] == s[if x < j then x else x + 1];
    }
  }

  /** `s` lists exactly the pages referenced before `i`, the most recently used first. */
  ghost predicate IsStack(s: seq<int>, refs: seq<nat>, i: nat)
    requires i <= |refs|
  {
    ByRecency(s, refs, i) && ListsAll(s, refs, i)
  }

  lemma EmptyStack(refs: seq<nat>)
    ensures IsStack([], refs, 0)
  {
  }

  lemma StackIsDistinct(refs: seq<nat>, i: nat)
    requires i <= |refs|
    ensures Distinct(Stack(refs, i))
  {
    StackIsByRecency(refs, i);
    ByRecencyIsDistinct(Stack(refs, i), refs, i);
  }

  lemma StackStep(s: seq<int>, refs: seq<nat>, i: nat)
    requires i < |refs| && IsStack(s, refs, i)
    ensures IsStack([refs[i] as int] + RemoveFirst(s, refs[i]), refs, i + 1)
  {
    ByRecencyIsDistinct(s, refs, i);
    RemoveFirstFacts(s, refs[i]);
    RemoveKeepsOrder(s, refs[i], refs, i);
    PushByRecency(RemoveFirst(s, refs[i]), refs, i);
  }

  lemma {:induction false} StackIsByRecency(refs: seq<nat>, i: nat)
    requires i <= |refs|
    ensures IsStack(Stack(refs, i), refs, i)
  {
    hide IsStack, RemoveFirst;
    if i == 0 {
      assert IsStack([], refs, 0) by { EmptyStack(refs); }
    } else {
      StackIsByRecency(refs, i - 1);
      StackStep(Stack(refs, i - 1), refs, i - 1);
    }
  }

  // ---- The bounded history is a prefix of the stack ----

  lemma RemoveFirstAt(s: seq<int>, j: nat)
    requires Distinct(s) && j < |s|
    ensures RemoveFirst(s, s[j]) == s[..j] + s[j + 1..]
    ensures FirstIndex(s, s[j]) == j
  {
    FirstIs(s, j);
    hide FirstIndex, Distinct;
  }

  lemma FirstIs(s: seq<int>, j: nat)
    requires Distinct(s) && j < |s|
    ensures FirstIndex(s, s[j]) == j
  {
    var i := FirstIndex(s, s[j]);
    hide FirstIndex;
    assert i != NOT_FOUND && s[i] == s[j];
  }

  lemma CutAround(s: seq<int>, j: nat, n: nat)
    requires j < n <= |s|
    ensures ([s[j]] + (s[..j] + s[j + 1..]))[..n] == [s[j]] + (s[..n][..j] + s[..n][j + 1..])
  {
  }

  lemma PrefixHit(s: seq<int>, j: nat, n: nat)
    requires Distinct(s) && j < n <= |s|
    ensures ([s[j]] + RemoveFirst(s, s[j]))[..n] == ToHead(s[..n], s[j])
  {
    assert j > 0 ==> s[0] != s[j];
    RemoveFirstAt(s, j);
    assert Distinct(s[..n]);
    RemoveFirstAt(s[..n], j);
    hide Distinct, FirstIndex, RemoveFirst;
    CutAround(s, j, n);
    if j == 0 {
      assert s[..n] == [s[0]] + (s[..n][..0] + s[..n][1..]);
    }
  }

  lemma PrefixMiss(s: seq<int>, p: int, k: nat)
    requires Distinct(s) && k >= 1 && p !in s[..Min(k, |s|)]
    ensures var s' := [p] + RemoveFirst(s, p); s'[..Min(k, |s'|)] == NextHistory(LRU, s[..Min(k, |s|)], p, k)
  {
    var j := FirstIndex(s, p);
    if j != NOT_FOUND {
      assert j >= k;
    }
  }

  /** Moving a page to the head of the stack commutes with cutting the stack down to its first k entries. */
  lemma PrefixStep(s: seq<int>, p: int, k: nat)
    requires Distinct(s) && k >= 1
    ensures var s' := [p] + RemoveFirst(s, p); s'[..Min(k, |s'|)] == NextHistory(LRU, s[..Min(k, |s|)], p, k)
  {
    hide Distinct, FirstIndex, ToHead, RemoveFirst;
    var n := Min(k, |s|);
    if p in s[..n] {
      var j :| 0 <= j < n && s[..n][j] == p;
      PrefixHit(s, j, n);
      RemoveFirstAt(s, j);
    } else {
      PrefixMiss(s, p, k);
    }
  }

  ghost predicate IsTop(h: seq<int>, s: seq<int>, k: nat) {
    h == s[..Min(k, |s|)]
  }

  lemma TopStep(s: seq<int>, refs: seq<nat>, i: nat, st: State)
    requires i < |refs| && Coherent(st) && |st.tlb| >= 2
    requires Distinct(s) && IsTop(st.history, s, |st.tlb|)
    ensures IsTop(Step(LRU, refs, i, st).history, [refs[i] as int] + RemoveFirst(s, refs[i]), |st.tlb|)
  {
    var p := refs[i];
    PrefixStep(s, p, |st.tlb|);
    StepIsListStep(LRU, refs, i, st);
    HistoryStep(LRU, p, st, Step(LRU, refs, i, st));
  }

  /** The LRU history is the first min(k, number of distinct pages) pages of the recency stack. */
  lemma {:induction false} HistoryIsTopOfStack(k: nat, refs: seq<nat>, i: nat)
    requires k >= 2 && i <= |refs|
    ensures IsTop(StateAt(LRU, k, refs, i).history, Stack(refs, i), k)
  {
    hide Step, Coherent, Distinct, RemoveFirst;
    if i == 0 {
    } else {
      HistoryIsTopOfStack(k, refs, i - 1);
      RunsStayCoherent(LRU, k, refs, i - 1);
      StackIsDistinct(refs, i - 1);
      TopStep(Stack(refs, i - 1), refs, i - 1, StateAt(LRU, k, refs, i - 1));
    }
  }

  /** In every LRU run the history is sorted by last use and holds the most recently used pages:
      a resident page was used later than any page that is not resident. */
  lemma LruHistoryIsRecency(k: nat, refs: seq<nat>, i: nat)
    requires k >= 2 && i <= |refs|
    ensures var h := StateAt(LRU, k, refs, i).history;
            && (forall x, y :: 0 <= x < y < |h| ==> LastUse(refs, i, h[x]) > LastUse(refs, i, h[y]))
            && (forall p, q :: p in h && q !in h ==> LastUse(refs, i, p) > LastUse(refs, i, q))
            && |h| == Min(k, |Stack(refs, i)|)
  {
    hide Step, Stack;
    HistoryIsTopOfStack(k, refs, i);
    StackIsByRecency(refs, i);
    var h, s := StateAt(LRU, k, refs, i).history, Stack(refs, i);
    forall p, q | p in h && q !in h ensures LastUse(refs, i, p) > LastUse(refs, i, q) {
      var x :| 0 <= x < |h| && h[x] == p;
      assert s[x] == p && p in s;
      LastUseIsLast(refs, i, q);
      if q in s {
        var y :| 0 <= y < |s| && s[y] == q;
      }
    }
  }

  /** On a fault with all frames in use, the page LRU drops is the least recently used resident page. */
  lemma LruEvictsLeastRecent(k: nat, refs: seq<nat>, i: nat, v: int)
    requires k >= 2 && i < |refs|
    requires v in StateAt(LRU, k, refs, i).tlb && v != EMPTY && v !in StateAt(LRU, k, refs, i + 1).tlb
    ensures FaultAt(LRU, k, refs, i) && EMPTY !in StateAt(LRU, k, refs, i).tlb
    ensures forall q :: q in StateAt(LRU, k, refs, i).tlb && q != v ==> LastUse(refs, i, v) < LastUse(refs, i, q)
  {
    hide Step, Stack;
    RunsStayCoherent(LRU, k, refs, i);
    RunStep(LRU, k, refs, i);
    LruHistoryIsRecency(k, refs, i);
    VictimIsTail(LRU, refs[i], StateAt(LRU, k, refs, i), StateAt(LRU, k, refs, i + 1), v);
    var h := StateAt(LRU, k, refs, i).history;
    forall q | q in StateAt(LRU, k, refs, i).tlb && q != v ensures LastUse(refs, i, v) < LastUse(refs, i, q) {
      var x :| 0 <= x < |h| && h[x] == q;
      assert x < |h| - 1;
    }
  }

  lemma VictimIsTail(alg: Algorithm, p: nat, st: State, st': State, v: int)
    requires Coherent(st) && Coherent(st') && ListStep(alg, p, st, st') && |st.tlb| == |st'.tlb|
    requires v in st.tlb && v != EMPTY && v !in st'.tlb
    ensures p !in st.tlb && |st.history| == |st.tlb| && v == st.history[|st.history| - 1]
    ensures EMPTY !in st.tlb
    ensures forall q :: q in st.tlb ==> q in st.history
  {
    var f :| 0 <= f < |st.tlb| && st.tlb[f] == v;
    assert v in st.history;
  }

  // ---- Inclusion ----

  /** With one frame the resident page is one of the two used last, the second one only if the history ends with it. */
  ghost predicate SoleIsRecent(st: State, s: seq<int>)
    requires |st.tlb| == 1
  {
    var t, h := st.tlb[0], st.history;
    && |h| <= 2 && (t == EMPTY ==> h == [])
    && (h != [] ==> s != [] && h[0] == s[0])
    && (t != EMPTY ==> h != [] && s != [] && (t == s[0] || (|s| >= 2 && |h| == 2 && t == s[1] == h[1])))
  }

  lemma NowFirst(st: State, s: seq<int>)
    requires |st.tlb| == 1 && 1 <= |st.history| <= 2 && s != []
    requires EMPTY != st.tlb[0] == st.history[0] == s[0]
    ensures SoleIsRecent(st, s)
  {
  }

  lemma NowSecond(st: State, s: seq<int>)
    requires |st.tlb| == 1 && |st.history| == 2 && |s| >= 2 && st.history[0] == s[0]
    requires EMPTY != st.tlb[0] == st.history[1] == s[1]
    ensures SoleIsRecent(st, s)
  {
  }

  lemma FrontStays(s: seq<int>, p: int)
    requires s != [] && s[0] != p
    ensures RemoveFirst(s, p) != [] && RemoveFirst(s, p)[0] == s[0]
  {
    var j := FirstIndex(s, p);
    assert j == NOT_FOUND || j > 0;
  }

  lemma SoleFault(refs: seq<nat>, i: nat, st: State, s: seq<int>)
    requires i < |refs| && |st.tlb| == 1 && SoleIsRecent(st, s) && st.tlb[0] != refs[i]
    ensures SoleIsRecent(Step(LRU, refs, i, st), [refs[i] as int] + RemoveFirst(s, refs[i]))
  {
    var p: int, t, h := refs[i], st.tlb[0], st.history;
    var st', s' := Step(LRU, refs, i, st), [p] + RemoveFirst(s, p);
    assert st == State([t], h);
    SoleFrameFault(LRU, refs, i, t, h);
    hide Step, RemoveFirst, SoleIsRecent;
    if t == EMPTY {
      assert st' == State([p], [p]);
      NowFirst(st', s');
    } else if TailPage(h) == t {
      assert st'.tlb == [p] && st'.history == [p] + DropTail(h);
      assert |DropTail(h)| <= 1;
      NowFirst(st', s');
    } else {
      assert t == s[0] == h[0] && |h| == 2;
      assert st' == State([t], [p, t]);
      FrontStays(s, p);
      NowSecond(st', s');
    }
  }

  lemma SoleHit(refs: seq<nat>, i: nat, st: State, s: seq<int>)
    requires i < |refs| && |st.tlb| == 1 && SoleIsRecent(st, s) && st.tlb[0] == refs[i]
    ensures SoleIsRecent(Step(LRU, refs, i, st), [refs[i] as int] + RemoveFirst(s, refs[i]))
  {
    assert FirstIndex(st.tlb, refs[i]) == 0;
    assert ToHead(st.history, refs[i])[0] == refs[i];
  }

  lemma {:induction false} SoleStaysRecent(refs: seq<nat>, i: nat)
    requires i <= |refs|
    ensures SoleIsRecent(StateAt(LRU, 1, refs, i), Stack(refs, i))
  {
    hide Step, SoleIsRecent, RemoveFirst, Distinct, StateAt, FaultsBefore;
    if i == 0 {
      StartState(LRU, 1, refs);
      assert StateAt(LRU, 1, refs, 0) == State([EMPTY], []);
      EmptyIsRecent();
    } else {
      NextState(LRU, 1, refs, i - 1);
      var st, s := StateAt(LRU, 1, refs, i - 1), Stack(refs, i - 1);
      SoleStaysRecent(refs, i - 1);
      if st.tlb[0] == refs[i - 1] {
        SoleHit(refs, i - 1, st, s);
      } else {
        SoleFault(refs, i - 1, st, s);
      }
    }
  }

  lemma EmptyIsRecent()
    ensures SoleIsRecent(State([EMPTY], []), [])
  {
  }

  /** A resident page is among the first two entries of the stack, or among the first k. */
  lemma ResidentIsRecent(k: nat, refs: seq<nat>, i: nat, p: nat)
    requires k >= 1 && i <= |refs| && p in StateAt(LRU, k, refs, i).tlb
    ensures p in Stack(refs, i)[..Min(if k < 2 then 2 else k, |Stack(refs, i)|)]
  {
    hide Step, Stack, StateAt;
    var st, s := StateAt(LRU, k, refs, i), Stack(refs, i);
    if k == 1 {
      SoleStaysRecent(refs, i);
      assert st.tlb[0] == p;
      assert p == s[0] || p == s[1];
    } else {
      HistoryIsTopOfStack(k, refs, i);
      RunsStayCoherent(LRU, k, refs, i);
      ResidentIffListed(st, p);
    }
  }

  /** At every moment the pages resident with k frames are resident with any larger number of frames. */
  lemma LruInclusion(k: nat, k': nat, refs: seq<nat>, i: nat, p: nat)
    requires 1 <= k <= k' && i <= |refs|
    requires p in StateAt(LRU, k, refs, i).tlb
    ensures p in StateAt(LRU, k', refs, i).tlb
  {
    hide Step, Stack, StateAt;
    if k' >= 2 {
      var s := Stack(refs, i);
      ResidentIsRecent(k, refs, i, p);
      HistoryIsTopOfStack(k', refs, i);
      RunsStayCoherent(LRU, k', refs, i);
      ResidentIffListed(StateAt(LRU, k', refs, i), p);
      assert s[..Min(if k < 2 then 2 else k, |s|)] <= s[..Min(k', |s|)];
    }
  }

  lemma {:induction false} LruFaultsBeforeMonotone(k: nat, k': nat, refs: seq<nat>, i: nat)
    requires 1 <= k <= k' && i <= |refs|
    ensures FaultsBefore(LRU, k', refs, i) <= FaultsBefore(LRU, k, refs, i)
  {
    hide Step;
    if i == 0 {
    } else {
      LruFaultsBeforeMonotone(k, k', refs, i - 1);
      if refs[i - 1] in StateAt(LRU, k, refs, i - 1).tlb {
        LruInclusion(k, k', refs, i - 1, refs[i - 1]);
      }
    }
  }

  /** LRU never faults more often with more frames. */
  lemma LruFaultsMonotone(k: nat, k': nat, refs: seq<nat>)
    requires 1 <= k <= k'
    ensures Faults(LRU, k', refs) <= Faults(LRU, k, refs)
  {
    LruFaultsBeforeMonotone(k, k', refs, |refs|);
  }
}
