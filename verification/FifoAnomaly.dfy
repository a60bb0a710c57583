/** Belady's anomaly: for which numbers of frames FIFO can fault more often with more of them. */
module FifoAnomaly {
  import opened Paging
  import opened PagingRuns
  import opened FifoOrder

  ghost predicate InQueue(l: seq<int>, k: nat, p: int) {
    p in l[Oldest(|l|, k)..]
  }

  lemma InQueueAt(l: seq<int>, k: nat, p: int) returns (a: nat)
    requires InQueue(l, k, p)
    ensures Oldest(|l|, k) <= a < |l| && l[a] == p
  {
    var m :| 0 <= m < |l[Oldest(|l|, k)..]| && l[Oldest(|l|, k)..][m] == p;
    a := Oldest(|l|, k) + m;
  }

  lemma AtIsInQueue(l: seq<int>, k: nat, a: nat)
    requires Oldest(|l|, k) <= a < |l|
    ensures InQueue(l, k, l[a])
  {
    assert l[Oldest(|l|, k)..][a - Oldest(|l|, k)] == l[a];
  }

  lemma QueueStep(k: nat, refs: seq<nat>, p: nat)
    ensures var l := Queue(k, refs); Queue(k, refs + [p]) == if InQueue(l, k, p) then l else l + [p]
  {
    assert (refs + [p])[..|refs|] == refs;
  }

  /** A page is loaded again only after k other loads. */
  lemma {:induction false} LoadsAreSpaced(k: nat, refs: seq<nat>, a: nat, b: nat)
    requires a < b < |Queue(k, refs)| && Queue(k, refs)[a] == Queue(k, refs)[b]
    ensures b - a > k
  {
    if refs == [] {
    } else {
      var n := |refs| - 1;
      var l := Queue(k, refs[..n]);
      if b < |l| {
        LoadsAreSpaced(k, refs[..n], a, b);
      } else if a >= Oldest(|l|, k) {
        AtIsInQueue(l, k, a);
      }
    }
  }

  // ---- No anomaly ----

  /** Every load of the larger queue goes with the load that last brought the same page into the smaller queue:
      load c was made when the smaller queue had made n[c] loads, and its page came in there with load g[c]. */
  ghost predicate Matched(k: nat, l: seq<int>, l': seq<int>, g: seq<int>, n: seq<nat>) {
    && |g| == |n| == |l'|
    && (forall c :: 0 <= c < |l'| ==> 0 <= g[c] < n[c] <= |l| && n[c] <= g[c] + k && l[g[c]] == l'[c])
    && (forall c, d :: 0 <= c < d < |l'| ==> n[c] <= n[d])
  }

  lemma MatchNext(k: nat, l: seq<int>, l1: seq<int>, l': seq<int>, g: seq<int>, n: seq<nat>, a: nat)
    requires Matched(k, l, l', g, n) && l <= l1 && a < |l1| <= a + k
    ensures Matched(k, l1, l', g, n)
    ensures Matched(k, l1, l' + [l1[a]], g + [a], n + [|l1|])
  {
    forall c | 0 <= c < |l'| ensures l1[g[c]] == l'[c] {
      assert l1[g[c]] == l[g[c]];
    }
  }

  lemma {:induction false} Match(k: nat, k': nat, refs: seq<nat>) returns (g: seq<int>, n: seq<nat>)
    requires k >= 1
    ensures Matched(k, Queue(k, refs), Queue(k', refs), g, n)
  {
    if refs == [] {
      g, n := [], [];
    } else {
      var m := |refs| - 1;
      var l, l1, p := Queue(k, refs[..m]), Queue(k, refs), refs[m];
      g, n := Match(k, k', refs[..m]);
      hide Matched;
      var a := InQueueAt(l1, k, p) by { NowInQueue(k, refs); }
      MatchNext(k, l, l1, Queue(k', refs[..m]), g, n, a);
      if Queue(k', refs) != Queue(k', refs[..m]) {
        g, n := g + [a], n + [|l1|];
      }
    }
  }

  /** The page just referenced is in the queue. */
  lemma NowInQueue(k: nat, refs: seq<nat>)
    requires k >= 1 && refs != []
    ensures InQueue(Queue(k, refs), k, refs[|refs| - 1])
  {
    var l := Queue(k, refs);
    if !InQueue(Queue(k, refs[..|refs| - 1]), k, refs[|refs| - 1]) {
      AtIsInQueue(l, k, |l| - 1);
    }
  }

  lemma {:induction false} Pigeonhole(s: seq<int>, lo: int, hi: int)
    requires lo <= hi && Distinct(s) && forall j :: 0 <= j < |s| ==> lo <= s[j] < hi
    ensures |s| <= hi - lo
    decreases hi - lo
  {
    if s == [] {
    } else if forall j :: 0 <= j < |s| ==> s[j] != hi - 1 {
      assert lo <= s[0] < hi;
      Pigeonhole(s, lo, hi - 1);
    } else {
      var j :| 0 <= j < |s| && s[j] == hi - 1;
      var rest := s[..j] + s[j + 1..];
      DropAt(s, j);
      forall m | 0 <= m < |rest| ensures lo <= rest[m] < hi - 1 {
        assert rest[m] == s[if m < j then m else m + 1];
      }
      Pigeonhole(rest, lo, hi - 1);
    }
  }

  /** Two loads of the larger queue that go with the same load of the smaller one would have k' + 1 different
      pages between them, while the smaller queue sees 2 k - 1 at most. */
  lemma MatchIsInjective(k: nat, k': nat, l: seq<int>, l': seq<int>, g: seq<int>, n: seq<nat>, b: nat, d: nat)
    requires Matched(k, l, l', g, n) && k >= 1 && k' >= 2 * k - 1
    requires forall x, y :: 0 <= x < y < |l'| && l'[x] == l'[y] ==> y - x > k'
    requires b < d < |l'|
    ensures g[b] != g[d]
  {
    if g[b] == g[d] {
      assert l'[b] == l'[d];
      var w := g[b..b + k' + 1];
      forall j | 0 <= j < |w| ensures g[b] + 1 - k <= w[j] < g[b] + k {
        assert n[b] <= n[b + j] <= n[d];
      }
      forall x, y | 0 <= x < y < |w| ensures w[x] != w[y] {
        assert l'[b + x] != l'[b + y];
      }
      Pigeonhole(w, g[b] + 1 - k, g[b] + k);
      assert false;
    }
  }

  lemma NoAnomaly(k: nat, k': nat, refs: seq<nat>)
    requires k >= 1 && k' >= 2 * k - 1
    ensures |Queue(k', refs)| <= |Queue(k, refs)|
  {
    var g, n := Match(k, k', refs);
    var l, l' := Queue(k, refs), Queue(k', refs);
    forall x, y | 0 <= x < y < |l'| && l'[x] == l'[y] ensures y - x > k' {
      LoadsAreSpaced(k', refs, x, y);
    }
    forall b, d | 0 <= b < d < |g| ensures g[b] != g[d] {
      MatchIsInjective(k, k', l, l', g, n, b, d);
    }
    Pigeonhole(g, 0, |l|);
  }

  // ---- The anomaly ----

  function Range(a: nat, b: nat): (s: seq<nat>)
    ensures |s| == if a <= b then b - a else 0
    ensures forall j :: 0 <= j < |s| ==> s[j] == a + j
  {
    seq(if a <= b then b - a else 0, j requires j >= 0 => a + j)
  }

  /** Pages 0 to k' - 1, then 0 to k - 2, then the new page k', and then 0 to k'. */
  function Anomalous(k: nat, k': nat): seq<nat>
    requires k >= 1
  {
    Range(0, k') + Range(0, k - 1) + [k'] + Range(0, k' + 1)
  }

  lemma {:induction false} AllNew(k: nat, refs: seq<nat>, l: seq<int>, a: nat, b: nat)
    requires a <= b && l == Queue(k, refs)
    requires forall x :: a <= x < b ==> !InQueue(l + Range(a, x), k, x)
    ensures Queue(k, refs + Range(a, b)) == l + Range(a, b)
    decreases b
  {
    hide Queue, InQueue;
    if a == b {
      assert refs + Range(a, b) == refs && l + Range(a, b) == l;
    } else {
      AllNew(k, refs, l, a, b - 1);
      QueueStep(k, refs + Range(a, b - 1), b - 1);
      assert refs + Range(a, b) == refs + Range(a, b - 1) + [b - 1];
      assert l + Range(a, b) == l + Range(a, b - 1) + [b - 1];
    }
  }

  lemma {:induction false} AllHits(k: nat, refs: seq<nat>, a: nat, b: nat)
    requires a <= b && forall x :: a <= x < b ==> InQueue(Queue(k, refs), k, x)
    ensures Queue(k, refs + Range(a, b)) == Queue(k, refs)
    decreases b
  {
    hide Queue, InQueue;
    if a == b {
      assert refs + Range(a, b) == refs;
    } else {
      AllHits(k, refs, a, b - 1);
      QueueStep(k, refs + Range(a, b - 1), b - 1);
      assert refs + Range(a, b) == refs + Range(a, b - 1) + [b - 1];
    }
  }

  lemma NotInQueue(l: seq<int>, k: nat, p: int)
    requires forall a :: Oldest(|l|, k) <= a < |l| ==> l[a] != p
    ensures !InQueue(l, k, p)
  {
    if InQueue(l, k, p) {
      var a := InQueueAt(l, k, p);
    }
  }

  /** The larger queue faults on every page of the last stretch. */
  lemma LargeQueue(k: nat, k': nat)
    requires 2 <= k < k'
    ensures |Queue(k', Anomalous(k, k'))| == 2 * k' + 2
  {
    hide Queue, InQueue;
    var s1 := Range(0, k');
    FirstLoads(k');
    forall x | 0 <= x < k - 1 ensures InQueue(s1, k', x) {
      AtIsInQueue(s1, k', x);
    }
    AllHits(k', s1, 0, k - 1);
    var s2 := s1 + Range(0, k - 1);
    NotInQueue(s1, k', k');
    QueueStep(k', s2, k');
    var l := Range(0, k') + [k'];
    forall x | 0 <= x < k' + 1 ensures !InQueue(l + Range(0, x), k', x) {
      NotInQueue(l + Range(0, x), k', x);
    }
    AllNew(k', s2 + [k'], l, 0, k' + 1);
  }

  lemma FirstLoads(n: nat)
    requires n >= 1
    ensures forall k: nat :: Queue(k, Range(0, n)) == Range(0, n)
  {
    hide Queue, InQueue;
    forall k: nat ensures Queue(k, Range(0, n)) == Range(0, n) {
      forall x | 0 <= x < n ensures !InQueue([] + Range(0, x), k, x) {
        NotInQueue([] + Range(0, x), k, x);
      }
      assert Queue(k, []) == [] by { NoLoads(k); }
      AllNew(k, [], [], 0, n);
      assert [] + Range(0, n) == Range(0, n);
    }
  }

  lemma NoLoads(k: nat)
    ensures Queue(k, []) == []
  {
  }

  /** The smaller queue has the pages 0 to k - 2 and k' when the last stretch begins, and keeps k' to its end. */
  lemma SmallQueue(k: nat, k': nat)
    requires 2 <= k < k' < 2 * k - 1
    ensures |Queue(k, Anomalous(k, k'))| == 2 * k' + 1
  {
    hide Queue, InQueue;
    var s1 := Range(0, k');
    FirstLoads(k');
    forall x | 0 <= x < k - 1 ensures !InQueue(s1 + Range(0, x), k, x) {
      NotInQueue(s1 + Range(0, x), k, x);
    }
    AllNew(k, s1, s1, 0, k - 1);
    var s2 := s1 + Range(0, k - 1);
    NotInQueue(s2, k, k');
    QueueStep(k, s2, k');
    var s3 := s2 + [k'];
    LastStretch(k, k', s3);
    assert s3 + Range(0, k' + 1) == Anomalous(k, k');
  }

  lemma LastStretch(k: nat, k': nat, s: seq<nat>)
    requires 2 <= k < k' < 2 * k - 1 && s == Range(0, k') + Range(0, k - 1) + [k'] && Queue(k, s) == s
    ensures |Queue(k, s + Range(0, k' + 1))| == 2 * k' + 1
  {
    hide Queue, InQueue;
    var a := k - 1;
    forall x | 0 <= x < a ensures InQueue(s, k, x) {
      assert s[k' + x] == x;
      AtIsInQueue(s, k, k' + x);
    }
    AllHits(k, s, 0, a);
    var s4 := s + Range(0, a);
    MiddlePages(k, k', s);
    AllNew(k, s4, s, a, k');
    var l := s + Range(a, k');
    assert l[k' + a] == k';
    AtIsInQueue(l, k, k' + a);
    QueueStep(k, s4 + Range(a, k'), k');
    assert s + Range(0, k' + 1) == s4 + Range(a, k') + [k'];
  }

  /** The pages k - 1 to k' - 1 are not among the last k loads. */
  lemma MiddlePages(k: nat, k': nat, s: seq<nat>)
    requires 2 <= k < k' && s == Range(0, k') + Range(0, k - 1) + [k']
    ensures var a := k - 1; forall x :: a <= x < k' ==> !InQueue(s + Range(a, x), k, x)
  {
    hide Queue, InQueue;
    var a := k - 1;
    forall x | a <= x < k' ensures !InQueue(s + Range(a, x), k, x) {
      NotInQueue(s + Range(a, x), k, x);
    }
  }

  // ---- One frame ----

  /** How many more faults than a queue of two the single frame has at least, with page x in it and history h. */
  ghost function Lead(x: int, h: seq<int>, l: seq<int>): nat
    requires h != [] && l != []
  {
    var last := l[|l| - 1];
    if h[0] == x then (if last != x then 2 else if |h| == 2 && h[1] == x then 1 else 0)
    else if last == x then 1
    else if |l| >= 2 && l[|l| - 2] == x then 0
    else 2
  }

  ghost predicate InLastTwo(l: seq<int>, p: int) {
    l != [] && (p == l[|l| - 1] || (|l| >= 2 && p == l[|l| - 2]))
  }

  lemma QueueOfTwo(l: seq<int>, p: int)
    ensures InQueue(l, 2, p) <==> InLastTwo(l, p)
  {
    if InQueue(l, 2, p) {
      var a := InQueueAt(l, 2, p);
    }
    if l != [] {
      AtIsInQueue(l, 2, |l| - 1);
    }
    if |l| >= 2 {
      AtIsInQueue(l, 2, |l| - 2);
    }
  }

  /** A page in the frame is one of the two faulted on last; f faults have been made. */
  ghost predicate Behind(x: int, h: seq<int>, l: seq<int>, f: nat) {
    if x == EMPTY then h == [] && l == []
    else
      && 1 <= |h| <= 2 && InLastTwo(l, h[0]) && (|h| == 1 ==> |l| == 1)
      && (h[0] != x ==> |h| == 2 && h[1] == x && l[|l| - 1] in h)
      && |l| + Lead(x, h, l) <= f
  }

  lemma BehindOnHit(x: int, h: seq<int>, l: seq<int>, f: nat)
    requires x != EMPTY && Behind(x, h, l, f)
    ensures Behind(x, h, if InLastTwo(l, x) then l else l + [x], f)
  {
  }

  lemma BehindOnFault(x: int, h: seq<int>, l: seq<int>, f: nat, p: nat)
    requires p != x && Behind(x, h, l, f)
    ensures var x' := if x == EMPTY || TailPage(h) == x then p else x;
            var h' := [p as int] + if x == EMPTY then h else DropTail(h);
            Behind(x', h', if InLastTwo(l, p) then l else l + [p], f + 1)
  {
    var h' := [p as int] + if x == EMPTY then h else DropTail(h);
    assert h' == if x == EMPTY then [p] else [p, h[0]];
    var l' := if InLastTwo(l, p) then l else l + [p];
    assert !InLastTwo(l, p) ==> l'[|l'| - 1] == p && forall j :: 0 <= j < |l| ==> l'[j] == l[j];
    assert |h| == 2 ==> TailPage(h) == h[1];
  }

  lemma SoleFrameStays(refs: seq<nat>, i: nat, st: State, l: seq<int>, f: nat)
    requires i < |refs| && |st.tlb| == 1 && Behind(st.tlb[0], st.history, l, f)
    ensures var p, st' := refs[i], Step(FIFO, refs, i, st);
            Behind(st'.tlb[0], st'.history, if InQueue(l, 2, p) then l else l + [p], f + if p in st.tlb then 0 else 1)
  {
    var p, x := refs[i], st.tlb[0];
    assert st == State([x], st.history);
    QueueOfTwo(l, p);
    if p == x {
      assert FirstIndex([x], x) == 0;
      assert Step(FIFO, refs, i, st) == st;
      BehindOnHit(x, st.history, l, f);
    } else {
      SoleFrameFault(FIFO, refs, i, x, st.history);
      hide Step, Behind;
      BehindOnFault(x, st.history, l, f, p);
    }
  }

  /** A queue of two loads no more often than the single frame faults. */
  lemma {:induction false} SoleFrameIsBehind(refs: seq<nat>, i: nat)
    requires i <= |refs|
    ensures var st := StateAt(FIFO, 1, refs, i);
            Behind(st.tlb[0], st.history, Queue(2, refs[..i]), FaultsBefore(FIFO, 1, refs, i))
  {
    hide Step, Behind, StateAt, FaultsBefore;
    if i == 0 {
      StartState(FIFO, 1, refs);
      assert StateAt(FIFO, 1, refs, 0) == State([EMPTY], []);
      assert Behind(EMPTY, [], [], 0) by { StartsBehind(); }
    } else {
      var j := i - 1;
      SoleFrameIsBehind(refs, j);
      NextState(FIFO, 1, refs, j);
      QueueStep(2, refs[..j], refs[j]);
      assert refs[..i] == refs[..j] + [refs[j]];
      SoleFrameStays(refs, j, StateAt(FIFO, 1, refs, j), Queue(2, refs[..j]), FaultsBefore(FIFO, 1, refs, j));
    }
  }

  lemma SoleFrameFaultsMore(refs: seq<nat>)
    ensures |Queue(2, refs)| <= Faults(FIFO, 1, refs)
  {
    hide Step, StateAt, FaultsBefore, Queue;
    SoleFrameIsBehind(refs, |refs|);
    assert refs[..|refs|] == refs;
  }

  lemma StartsBehind()
    ensures Behind(EMPTY, [], [], 0)
  {
  }

  // ---- The theorem ----

  /** More frames never mean more FIFO faults. */
  ghost predicate FifoMonotone(k: nat, k': nat)
    requires k >= 1 && k' >= 1
  {
    forall refs: seq<nat> :: Faults(FIFO, k', refs) <= Faults(FIFO, k, refs)
  }

  lemma FarApartIsMonotone(k: nat, k': nat, refs: seq<nat>)
    requires 1 <= k < k' && k' >= 2 * k - 1
    ensures Faults(FIFO, k', refs) <= Faults(FIFO, k, refs)
  {
    hide Faults, Queue;
    FifoFaultsAreQueueLoads(k', refs);
    if k >= 2 {
      FifoFaultsAreQueueLoads(k, refs);
      NoAnomaly(k, k', refs);
    } else {
      SoleFrameFaultsMore(refs);
      if k' >= 3 {
        NoAnomaly(2, k', refs);
      }
    }
  }

  lemma AnomalousFaults(k: nat, k': nat)
    requires 2 <= k < k' < 2 * k - 1
    ensures Faults(FIFO, k, Anomalous(k, k')) == 2 * k' + 1 && Faults(FIFO, k', Anomalous(k, k')) == 2 * k' + 2
  {
    hide Faults;
    FifoFaultsAreQueueLoads(k, Anomalous(k, k'));
    FifoFaultsAreQueueLoads(k', Anomalous(k, k'));
    SmallQueue(k, k');
    LargeQueue(k, k');
  }

  /** FIFO never faults more often with k' than with k frames, on all strings, exactly when k' is k or is at least
      2 k - 1. */
  lemma FifoMonotoneIff(k: nat, k': nat)
    requires 1 <= k <= k'
    ensures FifoMonotone(k, k') <==> k' == k || k' >= 2 * k - 1
  {
    hide Faults;
    if k' == k {
    } else if k' >= 2 * k - 1 {
      forall refs: seq<nat> ensures Faults(FIFO, k', refs) <= Faults(FIFO, k, refs) {
        FarApartIsMonotone(k, k', refs);
      }
    } else {
      AnomalousFaults(k, k');
      assert Faults(FIFO, k', Anomalous(k, k')) > Faults(FIFO, k, Anomalous(k, k'));
    }
  }

  /** The smallest case: three and four frames. */
  lemma BeladysAnomaly(refs: seq<nat>)
    requires refs == [0, 1, 2, 3, 0, 1, 4, 0, 1, 2, 3, 4]
    ensures Faults(FIFO, 3, refs) == 9 && Faults(FIFO, 4, refs) == 10
  {
    hide Faults;
    AnomalousFaults(3, 4);
    assert refs == Anomalous(3, 4);
  }
}
