/** The page-replacement simulator as pure step functions: what one iteration of the
    simulator's main loop does to the page column of the TLB and to the history list. */
module Paging {

  const EMPTY := -1
  const NOT_FOUND := -1

  datatype Algorithm = FIFO | LRU | OPTIMUM

  /** `tlb` is the page column of the TLB, one entry per frame; `history` lists pages from head to tail. */
  datatype State = State(tlb: seq<int>, history: seq<int>)

  /** Byte 1 of the little-endian 32-bit address; Euclidean division agrees with two's complement. */
  function PageNumber(address: int): nat {
    (address / 256) % 256
  }

  /** Byte 0 of the address. */
  function PageOffset(address: int): nat {
    address % 256
  }

  /** Page and offset together are the two low bytes of the address. */
  lemma AddressSplits(address: int)
    ensures PageNumber(address) < 256 && PageOffset(address) < 256
    ensures address % 65536 == PageNumber(address) * 256 + PageOffset(address)
  {
  }

  function Pages(addresses: seq<int>): (refs: seq<nat>)
    ensures |refs| == |addresses|
    ensures forall i :: 0 <= i < |refs| ==> refs[i] == PageNumber(addresses[i])
  {
    seq(|addresses|, i requires 0 <= i < |addresses| => PageNumber(addresses[i]))
  }

  // ---- Searching ----

  function FirstIndex(s: seq<int>, x: int): (i: int)
    ensures i == NOT_FOUND <==> x !in s
    ensures i != NOT_FOUND ==> 0 <= i < |s| && s[i] == x && forall m :: 0 <= m < i ==> s[m] != x
  {
    if s == [] then NOT_FOUND
    else if s[0] == x then 0
    else
      var i := FirstIndex(s[1..], x);
      if i == NOT_FOUND then NOT_FOUND else i + 1
  }

  /** The first position at or after `i` that references `p`, or the length of the string. */
  function NextUse(refs: seq<nat>, i: nat, p: int): (j: nat)
    requires i <= |refs|
    ensures i <= j <= |refs|
    ensures j < |refs| ==> refs[j] == p
    ensures forall m :: i <= m < j ==> refs[m] != p
    decreases |refs| - i
  {
    if i == |refs| || refs[i] == p then i else NextUse(refs, i + 1, p)
  }

  // ---- The history list on sequences ----

  /** `RemoveTail` leaves a sole node in place. */
  function DropTail(h: seq<int>): seq<int> {
    if |h| <= 1 then h else h[..|h| - 1]
  }

  function TailPage(h: seq<int>): int {
    if h == [] then NOT_FOUND else h[|h| - 1]
  }

  function RemoveFirst(h: seq<int>, page: int): seq<int> {
    var i := FirstIndex(h, page);
    if i == NOT_FOUND then h else h[..i] + h[i + 1..]
  }

  function ToHead(h: seq<int>, page: int): seq<int> {
    if h == [] || h[0] == page then h else [page] + RemoveFirst(h, page)
  }

  // ---- Choosing a frame ----

  /** The frame that `is_PageLoaded` reports; a search for the EMPTY marker hits the -1 in the frame column. */
  function FrameOf(tlb: seq<int>, page: int): int {
    if page == EMPTY then NOT_FOUND else FirstIndex(tlb, page)
  }

  /** FIFO and LRU on a fault: the first empty frame, else the frame of the page at the history's tail. */
  function FaultFrame(st: State): int {
    var e := FirstIndex(st.tlb, EMPTY);
    if e != NOT_FOUND then e else FrameOf(st.tlb, TailPage(st.history))
  }

  function FaultHistory(st: State, page: int): seq<int> {
    [page] + if FirstIndex(st.tlb, EMPTY) != NOT_FOUND then st.history else DropTail(st.history)
  }

  /** The first of the frames whose pages are used farthest in the future. */
  function Farthest(tlb: seq<int>, refs: seq<nat>, i: nat): (f: nat)
    requires tlb != [] && i <= |refs|
    ensures f < |tlb|
    ensures forall g :: 0 <= g < |tlb| ==> NextUse(refs, i, tlb[g]) <= NextUse(refs, i, tlb[f])
    ensures forall g :: 0 <= g < f ==> NextUse(refs, i, tlb[g]) < NextUse(refs, i, tlb[f])
  {
    if |tlb| == 1 then 0
    else
      var rest := tlb[..|tlb| - 1];
      var f := Farthest(rest, refs, i);
      assert forall g :: 0 <= g < |rest| ==> NextUse(refs, i, rest[g]) == NextUse(refs, i, tlb[g]);
      if NextUse(refs, i, tlb[f]) < NextUse(refs, i, tlb[|tlb| - 1]) then |tlb| - 1 else f
  }

  // ---- One iteration ----

  function SwapFrame(alg: Algorithm, refs: seq<nat>, i: nat, st: State): int
    requires i < |refs| && st.tlb != []
  {
    var f := FrameOf(st.tlb, refs[i]);
    if f != NOT_FOUND then f
    else if alg.OPTIMUM? then
      var e := FirstIndex(st.tlb, EMPTY);
      if e != NOT_FOUND then e else Farthest(st.tlb, refs, i + 1)
    else FaultFrame(st)
  }

  function SwapHistory(alg: Algorithm, page: nat, st: State): seq<int> {
    if alg.OPTIMUM? then st.history
    else if FrameOf(st.tlb, page) == NOT_FOUND then FaultHistory(st, page)
    else if alg.LRU? then ToHead(st.history, page)
    else st.history
  }

  /** `update_TLB` only runs when the load into the frame succeeded, that is, for a frame in range. */
  function Install(tlb: seq<int>, page: int, frame: int): seq<int> {
    if 0 <= frame < |tlb| then tlb[frame := page] else tlb
  }

  function Step(alg: Algorithm, refs: seq<nat>, i: nat, st: State): (st': State)
    requires i < |refs| && st.tlb != []
    ensures |st'.tlb| == |st.tlb|
  {
    State(Install(st.tlb, refs[i], SwapFrame(alg, refs, i, st)), SwapHistory(alg, refs[i], st))
  }

  // ---- Whole runs ----

  /** The state before iteration `i` with `k` frames, starting from an empty TLB and history. */
  function StateAt(alg: Algorithm, k: nat, refs: seq<nat>, i: nat): (st: State)
    requires k >= 1 && i <= |refs|
    ensures |st.tlb| == k
  {
    if i == 0 then State(seq(k, _ => EMPTY), [])
    else Step(alg, refs, i - 1, StateAt(alg, k, refs, i - 1))
  }

  predicate FaultAt(alg: Algorithm, k: nat, refs: seq<nat>, i: nat)
    requires k >= 1 && i < |refs|
  {
    refs[i] !in StateAt(alg, k, refs, i).tlb
  }

  /** The value of `fault_count` before iteration `i`. */
  function FaultsBefore(alg: Algorithm, k: nat, refs: seq<nat>, i: nat): nat
    requires k >= 1 && i <= |refs|
  {
    if i == 0 then 0
    else FaultsBefore(alg, k, refs, i - 1) + if FaultAt(alg, k, refs, i - 1) then 1 else 0
  }

  lemma StartState(alg: Algorithm, k: nat, refs: seq<nat>)
    requires k >= 1
    ensures StateAt(alg, k, refs, 0) == State(seq(k, _ => EMPTY), []) && FaultsBefore(alg, k, refs, 0) == 0
  {
  }

  lemma NextState(alg: Algorithm, k: nat, refs: seq<nat>, i: nat)
    requires k >= 1 && i < |refs|
    ensures StateAt(alg, k, refs, i + 1) == Step(alg, refs, i, StateAt(alg, k, refs, i))
    ensures FaultsBefore(alg, k, refs, i + 1)
         == FaultsBefore(alg, k, refs, i) + if refs[i] in StateAt(alg, k, refs, i).tlb then 0 else 1
  {
  }

  function Faults(alg: Algorithm, k: nat, refs: seq<nat>): nat
    requires k >= 1
  {
    FaultsBefore(alg, k, refs, |refs|)
  }
}
