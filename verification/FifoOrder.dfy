/** What the FIFO history means: the resident pages from the newest load to the oldest. The list and the
    TLB search together act as a ring: the n-th load always goes into frame n mod k. */
module FifoOrder {
  import opened Numbers
  import opened Paging
  import opened PagingRuns

  /** The pages loaded before iteration `i`, in order. */
  function Loads(k: nat, refs: seq<nat>, i: nat): (l: seq<int>)
    requires k >= 1 && i <= |refs|
    ensures |l| == FaultsBefore(FIFO, k, refs, i)
  {
    if i == 0 then []
    else if FaultAt(FIFO, k, refs, i - 1) then Loads(k, refs, i - 1) + [refs[i - 1]]
    else Loads(k, refs, i - 1)
  }

  /** The number of the oldest load whose page is still resident. */
  function Oldest(n: nat, k: nat): nat {
    if n <= k then 0 else n - k
  }

  function Slot(m: nat, k: nat): (f: nat)
    requires k >= 1
    ensures f < k
  {
    if m < k then m else Slot(m - k, k)
  }

  ghost predicate IsRing(loads: seq<int>, st: State)
    requires st.tlb != []
  {
    var n, k := |loads|, |st.tlb|;
    NewestFirst(st.history, loads, Oldest(n, k)) && OnRing(st.tlb, loads, Oldest(n, k))
  }

  ghost predicate NewestFirst(h: seq<int>, loads: seq<int>, o: nat) {
    && |h| + o == |loads|
    && forall j :: 0 <= j < |h| ==> h[j] == loads[|loads| - 1 - j]
  }

  ghost predicate OnRing(tlb: seq<int>, loads: seq<int>, o: nat)
    requires tlb != []
  {
    forall m :: o <= m < |loads| ==> tlb[Slot(m, |tlb|)] == loads[m]
  }

  lemma SlotFacts(m: nat, k: nat)
    requires k >= 1
    ensures m < k ==> Slot(m, k) == m
    ensures Slot(m + k, k) == Slot(m, k)
  {
  }

  lemma {:induction false} OtherSlot(m: nat, n: nat, k: nat)
    requires m < n < m + k
    ensures Slot(m, k) != Slot(n, k)
  {
    if m >= k {
      OtherSlot(m - k, n - k, k);
    } else if n >= k {
      assert Slot(n, k) == n - k;
    }
  }

  /** A number is told by its quotient and remainder. */
  lemma Remainder(q: int, r: int, q': int, r': int, k: int)
    requires 0 <= r < k && 0 <= r' < k && q * k + r == q' * k + r'
    ensures r == r'
  {
    if q < q' {
      MulMono(k, q + 1, q');
      MulSucc(k, q);
    } else if q' < q {
      MulMono(k, q' + 1, q);
      MulSucc(k, q');
    }
  }

  lemma ModShift(m: nat, k: nat)
    requires 1 <= k <= m
    ensures m % k == (m - k) % k
  {
    var q := (m - k) / k;
    assert m == m / k * k + m % k;
    assert m - k == q * k + (m - k) % k;
    MulSucc(k, q);
    Remainder(m / k, m % k, q + 1, (m - k) % k, k);
  }

  lemma {:induction false} SlotIsMod(m: nat, k: nat)
    requires k >= 1
    ensures Slot(m, k) == m % k
  {
    if m < k {
      assert m % k == m;
    } else {
      SlotIsMod(m - k, k);
      ModShift(m, k);
    }
  }

  lemma RingOverwrite(tlb: seq<int>, loads: seq<int>, f: nat, p: int)
    requires 0 < |tlb| <= |loads| && Distinct(tlb) && OnRing(tlb, loads, |loads| - |tlb|)
    requires f < |tlb| && tlb[f] == loads[|loads| - |tlb|]
    ensures f == Slot(|loads|, |tlb|) && OnRing(tlb[f := p], loads + [p], |loads| + 1 - |tlb|)
  {
    hide Slot;
    var n, k := |loads|, |tlb|;
    SlotFacts(n - k, k);
    assert tlb[Slot(n - k, k)] == loads[n - k];
    forall m | n + 1 - k <= m < n ensures tlb[f := p][Slot(m, k)] == loads[m] {
      OtherSlot(m, n, k);
    }
  }

  lemma RingExtend(tlb: seq<int>, loads: seq<int>, p: int)
    requires |loads| < |tlb| && OnRing(tlb, loads, 0)
    ensures |loads| == Slot(|loads|, |tlb|) && OnRing(tlb[|loads| := p], loads + [p], 0)
  {
    hide Slot;
    SlotFacts(|loads|, |tlb|);
    forall m | 0 <= m < |loads| ensures tlb[|loads| := p][Slot(m, |tlb|)] == loads[m] {
      SlotFacts(m, |tlb|);
    }
  }

  lemma FaultWithRoom(p: nat, st: State, st': State)
    requires Coherent(st) && ListStep(FIFO, p, st, st') && p !in st.tlb && |st.history| < |st.tlb|
    ensures st.tlb[|st.history|] == EMPTY && st' == State(st.tlb[|st.history| := p], [p as int] + st.history)
  {
  }

  lemma FaultWhenFull(p: nat, st: State, st': State) returns (f: nat)
    requires Coherent(st) && ListStep(FIFO, p, st, st') && p !in st.tlb && |st.history| == |st.tlb| > 0
    ensures Distinct(st.tlb)
    ensures f < |st.tlb| && st.tlb[f] == st.history[|st.history| - 1]
    ensures st' == State(st.tlb[f := p], [p as int] + st.history[..|st.history| - 1])
  {
    f :| 0 <= f < |st.tlb| && st.tlb[f] == st.history[|st.history| - 1] && st'.tlb == st.tlb[f := p];
    assert st.tlb[..|st.tlb|] == st.tlb;
  }

  lemma PushNewest(h: seq<int>, loads: seq<int>, o: nat, p: int)
    requires NewestFirst(h, loads, o)
    ensures |h| + o == |loads| && NewestFirst([p] + h, loads + [p], o)
    ensures h != [] ==> h[|h| - 1] == loads[o] && NewestFirst([p] + h[..|h| - 1], loads + [p], o + 1)
  {
  }

  lemma RingWhenFull(loads: seq<int>, p: nat, st: State, f: nat)
    requires st.tlb != [] && |st.history| == |st.tlb| && Distinct(st.tlb) && IsRing(loads, st)
    requires f < |st.tlb| && st.tlb[f] == st.history[|st.history| - 1]
    ensures |loads| >= |st.tlb| && f == Slot(|loads|, |st.tlb|) && st.tlb[f] == loads[|loads| - |st.tlb|]
    ensures IsRing(loads + [p], State(st.tlb[f := p], [p as int] + st.history[..|st.history| - 1]))
  {
    hide OnRing, Slot, Distinct, NewestFirst;
    var n, k := |loads|, |st.tlb|;
    PushNewest(st.history, loads, Oldest(n, k), p);
    assert Oldest(n, k) == n - k && Oldest(n + 1, k) == n + 1 - k;
    RingOverwrite(st.tlb, loads, f, p);
  }

  lemma RingWithRoom(loads: seq<int>, p: nat, st: State)
    requires st.tlb != [] && IsRing(loads, st) && |st.history| < |st.tlb|
    ensures |loads| == |st.history| == Slot(|loads|, |st.tlb|)
    ensures IsRing(loads + [p], State(st.tlb[|st.history| := p], [p as int] + st.history))
  {
    hide OnRing, Slot, NewestFirst;
    PushNewest(st.history, loads, Oldest(|loads|, |st.tlb|), p);
    RingExtend(st.tlb, loads, p);
  }

  /** A fault puts the page into frame number Slot(n, k), replacing load n - k if there is one. */
  lemma RingFault(loads: seq<int>, p: nat, st: State, st': State)
    requires st.tlb != [] && Coherent(st) && ListStep(FIFO, p, st, st') && IsRing(loads, st) && p !in st.tlb
    ensures st'.tlb == st.tlb[Slot(|loads|, |st.tlb|) := p] && IsRing(loads + [p], st')
    ensures st.tlb[Slot(|loads|, |st.tlb|)] == if |loads| < |st.tlb| then EMPTY else loads[|loads| - |st.tlb|]
  {
    hide IsRing, Slot, ListStep, Distinct;
    if |st.history| == |st.tlb| {
      var f := FaultWhenFull(p, st, st');
      RingWhenFull(loads, p, st, f);
    } else {
      FaultWithRoom(p, st, st');
      RingWithRoom(loads, p, st);
    }
  }

  /** In every FIFO run with at least two frames the history is load order and the frames form a ring. */
  lemma {:induction false} FifoHistoryIsLoadOrder(k: nat, refs: seq<nat>, i: nat)
    requires k >= 2 && i <= |refs|
    ensures IsRing(Loads(k, refs, i), StateAt(FIFO, k, refs, i))
  {
    hide Step, Coherent, ListStep, Slot, IsRing;
    if i > 0 {
      FifoHistoryIsLoadOrder(k, refs, i - 1);
      RunsStayCoherent(FIFO, k, refs, i - 1);
      RunStep(FIFO, k, refs, i - 1);
      var st := StateAt(FIFO, k, refs, i - 1);
      if refs[i - 1] in st.tlb {
        HitChangesNothing(refs[i - 1], st, StateAt(FIFO, k, refs, i));
      } else {
        RingFault(Loads(k, refs, i - 1), refs[i - 1], st, StateAt(FIFO, k, refs, i));
      }
    } else {
      EmptyRing(StateAt(FIFO, k, refs, 0));
    }
  }

  lemma HitChangesNothing(p: nat, st: State, st': State)
    requires ListStep(FIFO, p, st, st') && p in st.tlb
    ensures st' == st
  {
  }

  lemma EmptyRing(st: State)
    requires st.tlb != [] && st.history == []
    ensures IsRing([], st)
  {
  }

  /** A faulting reference goes into the frame whose page was loaded longest ago, which is frame n mod k
      for load number n; every other frame keeps its page. */
  lemma FifoReplacesOldestLoad(k: nat, refs: seq<nat>, i: nat)
    requires k >= 2 && i < |refs| && FaultAt(FIFO, k, refs, i)
    ensures var n, tlb := FaultsBefore(FIFO, k, refs, i), StateAt(FIFO, k, refs, i).tlb;
            && StateAt(FIFO, k, refs, i + 1).tlb == tlb[n % k := refs[i]]
            && tlb[n % k] == if n < k then EMPTY else Loads(k, refs, i)[n - k]
  {
    hide Step, Slot, StateAt, Coherent, ListStep, IsRing;
    var st, st', loads := StateAt(FIFO, k, refs, i), StateAt(FIFO, k, refs, i + 1), Loads(k, refs, i);
    RunsStayCoherent(FIFO, k, refs, i);
    RunStep(FIFO, k, refs, i);
    FifoHistoryIsLoadOrder(k, refs, i);
    SlotIsMod(|loads|, k);
    RingFault(loads, refs[i], st, st');
  }

  // ---- FIFO without frames or lists ----

  /** FIFO as a queue: a page is loaded again unless it is among the last k loads. */
  function Queue(k: nat, refs: seq<nat>): (l: seq<int>) {
    if refs == [] then []
    else
      var n := |refs| - 1;
      var l := Queue(k, refs[..n]);
      if refs[n] in l[Oldest(|l|, k)..] then l else l + [refs[n]]
  }

  lemma ResidentIsRecentLoad(loads: seq<int>, st: State, p: nat)
    requires st.tlb != [] && Coherent(st) && IsRing(loads, st)
    ensures p in st.tlb <==> p in loads[Oldest(|loads|, |st.tlb|)..]
  {
    hide Distinct, OnRing, Slot;
    var n, o := |loads|, Oldest(|loads|, |st.tlb|);
    ResidentIffListed(st, p);
    if p in st.history {
      var j :| 0 <= j < |st.history| && st.history[j] == p;
      assert loads[o..][n - 1 - j - o] == p;
    }
    if p in loads[o..] {
      var m :| 0 <= m < n - o && loads[o..][m] == p;
      assert st.history[n - 1 - (o + m)] == p;
    }
  }

  /** The simulated FIFO policy loads exactly the pages the queue loads, in the same order. */
  lemma {:induction false} FifoIsQueue(k: nat, refs: seq<nat>, i: nat)
    requires k >= 2 && i <= |refs|
    ensures Loads(k, refs, i) == Queue(k, refs[..i])
  {
    hide Step, Coherent, IsRing, StateAt, Oldest;
    if i == 0 {
    } else {
      FifoIsQueue(k, refs, i - 1);
      RunsStayCoherent(FIFO, k, refs, i - 1);
      FifoHistoryIsLoadOrder(k, refs, i - 1);
      ResidentIsRecentLoad(Loads(k, refs, i - 1), StateAt(FIFO, k, refs, i - 1), refs[i - 1]);
      assert refs[..i][..i - 1] == refs[..i - 1];
    }
  }

  lemma FifoFaultsAreQueueLoads(k: nat, refs: seq<nat>)
    requires k >= 2
    ensures Faults(FIFO, k, refs) == |Queue(k, refs)|
  {
    FifoIsQueue(k, refs, |refs|);
    assert refs[..|refs|] == refs;
  }
}
