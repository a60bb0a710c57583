/** The simulator itself: TLB, physical memory and history list are updated in place. Each method is proved
    against the step functions of `Paging`, so the theorems about whole runs are theorems about `Run`. */
module Simulator {
  import opened Numbers
  import opened Paging
  import opened PagingRuns
  import opened PagingSteps
  import opened HistoryList
  import opened Competitive

  const NUMBER_OF_PAGES := 256
  const PAGE_SIZE := 256

  class MemoryManager {
    /** The number of frames. */
    const k: nat
    const store: seq<seq<byte>>
    const TLB: array2<int>
    const physical_memory: array<seq<byte>>
    var history: LinkedList
    /** The page column of the TLB. */
    ghost var tlb: seq<int>

    ghost predicate Valid()
      reads this, TLB, history, history.nodes
    {
      && k >= 1 && |tlb| == k && TLB.Length0 == k && TLB.Length1 == 2 && physical_memory.Length == k
      && |store| == NUMBER_OF_PAGES && (forall p <- store :: |p| == PAGE_SIZE)
      && (forall f :: 0 <= f < k ==> TLB[f, 0] == tlb[f])
      && (forall f :: 0 <= f < k ==> TLB[f, 1] == if tlb[f] == EMPTY then EMPTY else f)
      && history.Valid()
    }

    /** Every frame with an occupied TLB row holds that page's bytes from the backing store. */
    ghost predicate MemoryHoldsPages()
      requires Valid()
      reads this, TLB, history, history.nodes, physical_memory
    {
      forall f :: 0 <= f < k && tlb[f] != EMPTY ==> 0 <= tlb[f] < NUMBER_OF_PAGES && physical_memory[f] == store[tlb[f]]
    }

    constructor (frames: nat, backing: seq<seq<byte>>)
      requires frames >= 1 && |backing| == NUMBER_OF_PAGES && forall p <- backing :: |p| == PAGE_SIZE
      ensures Valid() && MemoryHoldsPages() && history.pages == []
      ensures k == frames && store == backing
      ensures fresh(TLB) && fresh(physical_memory) && fresh(history) && history.nodes == []
    {
      k := frames;
      store := backing;
      TLB := new int[frames, 2]((i, j) => EMPTY);
      physical_memory := new seq<byte>[frames](_ => []);
      history := new LinkedList();
      tlb := seq(frames, _ => EMPTY);
    }

    method InitPhysicalMemory()
      requires Valid()
      modifies this`tlb, TLB, physical_memory
      ensures Valid() && MemoryHoldsPages() && tlb == seq(k, _ => EMPTY)
      ensures physical_memory[..] == seq(k, _ => [])
    {
      for i := 0 to k
        invariant forall f :: 0 <= f < i ==> TLB[f, 0] == EMPTY && TLB[f, 1] == EMPTY
        invariant forall f :: 0 <= f < i ==> physical_memory[f] == []
      {
        physical_memory[i] := [];
        TLB[i, 0] := EMPTY;
        TLB[i, 1] := EMPTY;
      }
      tlb := seq(k, _ => EMPTY);
    }

    method IsPageLoaded(page: int) returns (frame_index: int)
      requires Valid()
      ensures frame_index == FrameOf(tlb, page)
    {
      frame_index := NOT_FOUND;
      var i := 0;
      while i < k
        invariant 0 <= i <= k && frame_index == NOT_FOUND
        invariant forall f :: 0 <= f < i ==> tlb[f] != page
      {
        if TLB[i, 0] == page {
          frame_index := TLB[i, 1];
          break;
        }
        i := i + 1;
      }
    }

    method FindEmptyFrame() returns (frame_index: int)
      requires Valid()
      ensures frame_index == FirstIndex(tlb, EMPTY)
    {
      frame_index := NOT_FOUND;
      var i := 0;
      while i < k
        invariant 0 <= i <= k && frame_index == NOT_FOUND
        invariant forall f :: 0 <= f < i ==> tlb[f] != EMPTY
      {
        if TLB[i, 0] == NOT_FOUND {
          frame_index := i;
          break;
        }
        i := i + 1;
      }
    }

    method LoadLogicalToPhysical(page_number: int, frame_index: int) returns (ok: bool)
      requires Valid()
      modifies physical_memory
      ensures ok <==> 0 <= page_number < NUMBER_OF_PAGES && 0 <= frame_index < k
      ensures physical_memory[..] == if ok then old(physical_memory[..])[frame_index := store[page_number]]
                                     else old(physical_memory[..])
    {
      if page_number < 0 || page_number > NUMBER_OF_PAGES - 1 {
        return false;
      }
      if frame_index < 0 || frame_index > k - 1 {
        return false;
      }
      physical_memory[frame_index] := store[page_number];
      return true;
    }

    /** Writes both columns of the row; only for a real page is the row then in order. */
    method UpdateTLB(page_number: int, frame_index: int)
      requires Valid()
      modifies this`tlb, TLB
      ensures tlb == Install(old(tlb), page_number, frame_index)
      ensures forall f :: 0 <= f < k ==>
                TLB[f, 0] == tlb[f] && TLB[f, 1] == if f == frame_index then f else old(TLB[f, 1])
      ensures page_number != EMPTY ==> Valid()
    {
      if frame_index < 0 || frame_index > k - 1 {
        return;
      }
      TLB[frame_index, 0] := page_number;
      TLB[frame_index, 1] := frame_index;
      tlb := tlb[frame_index := page_number];
    }

    /** The faulting branch that FIFO and LRU share. */
    method TakeFrame(page: nat) returns (frame_index: int)
      requires Valid()
      modifies history, history.nodes
      ensures Valid()
      ensures frame_index == FaultFrame(State(tlb, old(history.pages)))
      ensures history.pages == FaultHistory(State(tlb, old(history.pages)), page)
      ensures forall i :: 0 <= i < |history.nodes| ==> history.nodes[i] in old(history.nodes) || fresh(history.nodes[i])
    {
      hide FirstIndex, FrameOf, DropTail, TailPage;
      frame_index := FindEmptyFrame();
      if frame_index == NOT_FOUND {
        var swap_page := history.RemoveTail();
        frame_index := IsPageLoaded(swap_page);
      }
      history.AddToHead(page);
    }

    method SwapPageFIFO(frame_index_param: int, page: nat) returns (frame_index: int)
      requires Valid() && frame_index_param == FrameOf(tlb, page)
      modifies history, history.nodes
      ensures Valid()
      ensures frame_index == if frame_index_param != NOT_FOUND then frame_index_param
                             else FaultFrame(State(tlb, old(history.pages)))
      ensures history.pages == SwapHistory(FIFO, page, State(tlb, old(history.pages)))
      ensures if frame_index_param != NOT_FOUND then history.pages == old(history.pages)
              else ListFault(tlb, old(history.pages), page, frame_index, history.pages)
      ensures forall i :: 0 <= i < |history.nodes| ==> history.nodes[i] in old(history.nodes) || fresh(history.nodes[i])
    {
      hide FaultFrame, FaultHistory, FrameOf, ListFault;
      ghost var st := State(tlb, history.pages);
      frame_index := frame_index_param;
      if frame_index == NOT_FOUND {
        frame_index := TakeFrame(page);
      }
      SwapIsExplicit(FIFO, page, st);
    }

    method SwapPageLRU(frame_index_param: int, page: nat) returns (frame_index: int)
      requires Valid() && frame_index_param == FrameOf(tlb, page)
      requires frame_index_param != NOT_FOUND ==> page in history.pages
      modifies history, history.nodes
      ensures Valid()
      ensures frame_index == if frame_index_param != NOT_FOUND then frame_index_param
                             else FaultFrame(State(tlb, old(history.pages)))
      ensures history.pages == SwapHistory(LRU, page, State(tlb, old(history.pages)))
      ensures if frame_index_param != NOT_FOUND then MovedToFront(old(history.pages), page, history.pages)
              else ListFault(tlb, old(history.pages), page, frame_index, history.pages)
      ensures forall i :: 0 <= i < |history.nodes| ==> history.nodes[i] in old(history.nodes) || fresh(history.nodes[i])
    {
      hide FaultFrame, FaultHistory, FrameOf, ToHead, ListFault, MovedToFront;
      ghost var st := State(tlb, history.pages);
      frame_index := frame_index_param;
      if frame_index == NOT_FOUND {
        frame_index := TakeFrame(page);
      } else {
        history.MoveToHead(page);
      }
      SwapIsExplicit(LRU, page, st);
    }

    /** The inner loop of the OPTIMUM scan: the first later use of the page in frame i, or 0 if there is none. */
    method FirstLaterUse(i: nat, addressList: seq<int>, PC: nat) returns (addressIndex: nat)
      requires Valid() && i < k && PC < |addressList|
      ensures var j := NextUse(Pages(addressList), PC + 1, tlb[i]);
              addressIndex == if j == |addressList| then 0 else j
    {
      addressIndex := 0;
      var refs := Pages(addressList);
      for j := PC + 1 to |addressList|
        invariant addressIndex == 0 || PC < addressIndex < j
        invariant NextUse(refs, PC + 1, tlb[i]) == if addressIndex != 0 then addressIndex else NextUse(refs, j, tlb[i])
      {
        var page := PageNumber(addressList[j]);
        if TLB[i, 0] == page {
          if j > addressIndex && addressIndex != 0 {
          } else {
            addressIndex := j;
          }
        }
      }
    }

    /** The scan itself: a page that is never used again ends it, otherwise the latest first use wins. */
    method ScanFuture(addressList: seq<int>, PC: nat) returns (frame_index: int)
      requires Valid() && PC < |addressList|
      ensures frame_index == Farthest(tlb, Pages(addressList), PC + 1)
    {
      hide NextUse, Farthest, Pages, NextUses, FirstMax, ScanOk;
      ghost var n, uses := |addressList|, NextUses(tlb, Pages(addressList), PC + 1);
      var location: nat := 0;
      frame_index := NOT_FOUND;
      ScanStart(uses, n, frame_index);
      for i := 0 to k
        invariant ScanOk(uses, n, i, location, frame_index)
      {
        var addressIndex := FirstLaterUse(i, addressList, PC);
        ScanStep(uses, n, i, location, frame_index, addressIndex);
        if location < addressIndex {
          location := addressIndex;
          frame_index := i;
        }
        if addressIndex == 0 {
          frame_index := i;
          FarthestIsUnique(tlb, Pages(addressList), PC + 1, frame_index);
          return;
        }
      }
      ScanEnd(uses, n, location, frame_index);
      FarthestIsUnique(tlb, Pages(addressList), PC + 1, frame_index);
    }

    method SwapPageOptimal(frame_index_param: int, addressList: seq<int>, current: nat) returns (frame_index: int)
      requires Valid() && current < |addressList|
      requires frame_index_param == FrameOf(tlb, PageNumber(addressList[current]))
      ensures frame_index == SwapFrame(OPTIMUM, Pages(addressList), current, State(tlb, history.pages))
      ensures OptimumFrame(tlb, Pages(addressList), current, frame_index)
    {
      SwapFrameIsOptimum(Pages(addressList), current, State(tlb, history.pages));
      hide OptimumFrame;
      frame_index := frame_index_param;
      if frame_index_param == NOT_FOUND {
        frame_index := FindEmptyFrame();
        if frame_index == NOT_FOUND {
          frame_index := ScanFuture(addressList, current);
        }
      }
    }

    method SwapPage(alg: Algorithm, frame_index_param: int, addressList: seq<int>, PC: nat) returns (frame_index: int)
      requires Valid() && PC < |addressList|
      requires frame_index_param == FrameOf(tlb, PageNumber(addressList[PC]))
      requires alg.LRU? && frame_index_param != NOT_FOUND ==> PageNumber(addressList[PC]) in history.pages
      modifies history, history.nodes
      ensures Valid()
      ensures frame_index == SwapFrame(alg, Pages(addressList), PC, State(tlb, old(history.pages)))
      ensures history.pages == SwapHistory(alg, PageNumber(addressList[PC]), State(tlb, old(history.pages)))
      ensures forall i :: 0 <= i < |history.nodes| ==> history.nodes[i] in old(history.nodes) || fresh(history.nodes[i])
    {
      hide FrameOf, FirstIndex, Farthest, NextUse, FaultFrame, FaultHistory, ToHead;
      var page := PageNumber(addressList[PC]);
      match alg {
        case FIFO => frame_index := SwapPageFIFO(frame_index_param, page);
        case OPTIMUM => frame_index := SwapPageOptimal(frame_index_param, addressList, PC);
        case LRU => frame_index := SwapPageLRU(frame_index_param, page);
      }
    }

    /** The end of an iteration: a page that can be loaded into the frame gets its TLB row. */
    method LoadPage(page: nat, frame_index: int)
      requires Valid() && MemoryHoldsPages() && page < NUMBER_OF_PAGES
      modifies this`tlb, TLB, physical_memory
      ensures Valid() && MemoryHoldsPages() && tlb == Install(old(tlb), page, frame_index)
    {
      var ok := LoadLogicalToPhysical(page, frame_index);
      assert forall f :: 0 <= f < k && f != frame_index ==> physical_memory[f] == old(physical_memory[..])[f];
      if ok {
        UpdateTLB(page, frame_index);
      }
    }

    /** One iteration of `Run`: afterwards a page in range of the frames sits in memory and in its TLB row. */
    method Access(alg: Algorithm, addressList: seq<int>, PC: nat) returns (fault: bool)
      requires Valid() && MemoryHoldsPages() && PC < |addressList|
      requires alg.LRU? && PageNumber(addressList[PC]) in tlb ==> PageNumber(addressList[PC]) in history.pages
      modifies this`tlb, TLB, physical_memory, history, history.nodes
      ensures Valid() && MemoryHoldsPages()
      ensures fault <==> PageNumber(addressList[PC]) !in old(tlb)
      ensures State(tlb, history.pages) == Step(alg, Pages(addressList), PC, State(old(tlb), old(history.pages)))
      ensures forall i :: 0 <= i < |history.nodes| ==> history.nodes[i] in old(history.nodes) || fresh(history.nodes[i])
    {
      hide Farthest, NextUse, FaultFrame, SwapHistory, SwapFrame, Install;
      var page := PageNumber(addressList[PC]);
      var frame_index := IsPageLoaded(page);
      fault := frame_index == NOT_FOUND;
      frame_index := SwapPage(alg, frame_index, addressList, PC);
      LoadPage(page, frame_index);
    }

    method FetchData(frame_index: nat, offset: nat) returns (data: byte)
      requires frame_index < physical_memory.Length && offset < |physical_memory[frame_index]|
      ensures data == physical_memory[frame_index][offset]
    {
      data := physical_memory[frame_index][offset];
    }

    /** Translating an address of a resident page and fetching its byte reads the backing store. */
    method FetchAddress(address: int) returns (data: byte)
      requires Valid() && MemoryHoldsPages() && PageNumber(address) in tlb
      ensures data == store[PageNumber(address)][PageOffset(address)]
    {
      ResidentTranslates(address);
      var frame_index := IsPageLoaded(PageNumber(address));
      data := FetchData(frame_index, PageOffset(address));
    }

    /** Looking the address up in the TLB and then in physical memory gives the backing store's byte. */
    ghost predicate Translates(address: int)
      requires Valid()
      reads this, TLB, history, history.nodes, physical_memory
    {
      var f, p, o := FrameOf(tlb, PageNumber(address)), PageNumber(address), PageOffset(address);
      0 <= f < k && |physical_memory[f]| == PAGE_SIZE && physical_memory[f][o] == store[p][o]
    }

    /** One program run over the addresses under one policy, returning the number of page faults. */
    method Run(addressList: seq<int>, alg: Algorithm) returns (fault_count: nat)
      requires Valid() && (alg.OPTIMUM? || history.pages == [])
      modifies this`tlb, TLB, physical_memory, history, history.nodes
      ensures Valid() && MemoryHoldsPages()
      ensures fault_count == Faults(alg, k, Pages(addressList))
      ensures tlb == StateAt(alg, k, Pages(addressList), |addressList|).tlb
      ensures history.pages == if alg.OPTIMUM? then old(history.pages)
                               else StateAt(alg, k, Pages(addressList), |addressList|).history
      ensures forall i :: 0 <= i < |history.nodes| ==> history.nodes[i] in old(history.nodes) || fresh(history.nodes[i])
    {
      hide Step, StateAt, FaultsBefore, MemoryHoldsPages, InRun;
      ghost var refs, h0 := Pages(addressList), history.pages;
      InitPhysicalMemory();
      StartsRun(alg, k, refs, tlb, h0);
      fault_count := 0;
      for PC := 0 to |addressList|
        invariant Valid() && MemoryHoldsPages()
        invariant forall i :: 0 <= i < |history.nodes| ==>
                    history.nodes[i] in old(history.nodes) || fresh(history.nodes[i])
        invariant InRun(alg, k, refs, PC, tlb, history.pages, h0, fault_count)
      {
        HitIsReady(alg, k, refs, PC, tlb, history.pages, h0, fault_count);
        ghost var st := State(tlb, history.pages);
        var fault := Access(alg, addressList, PC);
        StaysInRun(alg, k, refs, PC, st, State(tlb, history.pages), h0, fault_count);
        if fault {
          fault_count := fault_count + 1;
        }
      }
      EndsRun(alg, k, refs, tlb, history.pages, h0, fault_count);
    }

    /** In the state that `Run` ensures, the address used last is translated to the right byte; with FIFO and LRU
        this takes two frames. */
    lemma LastAddressTranslates(addressList: seq<int>, alg: Algorithm)
      requires Valid() && MemoryHoldsPages() && addressList != []
      requires tlb == StateAt(alg, k, Pages(addressList), |addressList|).tlb && (k >= 2 || alg.OPTIMUM?)
      ensures Translates(addressList[|addressList| - 1])
    {
      hide StateAt, Pages, MemoryHoldsPages, Translates, FrameOf;
      var refs, n := Pages(addressList), |addressList| - 1;
      LastPageIsResident(alg, k, refs);
      assert refs[n] == PageNumber(addressList[n]);
      ResidentTranslates(addressList[n]);
    }

    lemma ResidentTranslates(address: int)
      requires Valid() && MemoryHoldsPages() && PageNumber(address) in tlb
      ensures Translates(address)
    {
      var p := PageNumber(address);
      var f := FirstIndex(tlb, p);
      assert tlb[f] == p && physical_memory[f] == store[p];
      assert store[p] in store;
    }

    /** The program: the three policies one after the other, with a new history list before the second. */
    method CompareAlgorithms(addressList: seq<int>)
      returns (FIFO_fault_count: nat, LRU_fault_count: nat, OPTM_fault_count: nat)
      requires Valid() && history.pages == []
      modifies this, TLB, physical_memory, history, history.nodes
      ensures Valid()
      ensures FIFO_fault_count == Faults(FIFO, k, Pages(addressList))
      ensures LRU_fault_count == Faults(LRU, k, Pages(addressList))
      ensures OPTM_fault_count == Faults(OPTIMUM, k, Pages(addressList))
      ensures k >= 2 ==> OPTM_fault_count <= FIFO_fault_count <= k * OPTM_fault_count
      ensures k >= 2 ==> OPTM_fault_count <= LRU_fault_count <= k * OPTM_fault_count
    {
      hide Faults, StateAt, MemoryHoldsPages;
      FIFO_fault_count := Run(addressList, FIFO);
      history := new LinkedList();
      LRU_fault_count := Run(addressList, LRU);
      OPTM_fault_count := Run(addressList, OPTIMUM);
      if k >= 2 {
        BetweenOptimumAndK(FIFO, k, Pages(addressList));
        BetweenOptimumAndK(LRU, k, Pages(addressList));
      }
    }
  }

  lemma LastPageIsResident(alg: Algorithm, k: nat, refs: seq<nat>)
    requires refs != [] && k >= 1 && (k >= 2 || alg.OPTIMUM?)
    ensures refs[|refs| - 1] in StateAt(alg, k, refs, |refs|).tlb
  {
    hide Step, Coherent;
    if alg.OPTIMUM? {
      OptimumStaysOk(k, refs, |refs|);
    } else {
      RunsStayCoherent(alg, k, refs, |refs| - 1);
      RunStep(alg, k, refs, |refs| - 1);
    }
  }

  lemma OptimumIgnoresHistory(refs: seq<nat>, i: nat, tlb: seq<int>, h: seq<int>, h': seq<int>)
    requires i < |refs| && tlb != []
    ensures Step(OPTIMUM, refs, i, State(tlb, h)).tlb == Step(OPTIMUM, refs, i, State(tlb, h')).tlb
    ensures Step(OPTIMUM, refs, i, State(tlb, h)).history == h
  {
  }

  /** The objects' state before iteration i of a run; OPTIMUM leaves the history h0 it was given. */
  ghost predicate InRun(alg: Algorithm, k: nat, refs: seq<nat>, i: nat,
                        tlb: seq<int>, h: seq<int>, h0: seq<int>, faults: nat)
    requires k >= 1 && i <= |refs|
  {
    var st := StateAt(alg, k, refs, i);
    tlb == st.tlb && faults == FaultsBefore(alg, k, refs, i) && h == if alg.OPTIMUM? then h0 else st.history
  }

  lemma StartsRun(alg: Algorithm, k: nat, refs: seq<nat>, tlb: seq<int>, h0: seq<int>)
    requires k >= 1 && tlb == seq(k, _ => EMPTY) && (alg.OPTIMUM? || h0 == [])
    ensures InRun(alg, k, refs, 0, tlb, h0, h0, 0)
  {
    StartState(alg, k, refs);
  }

  lemma HitIsReady(alg: Algorithm, k: nat, refs: seq<nat>, i: nat,
                   tlb: seq<int>, h: seq<int>, h0: seq<int>, faults: nat)
    requires k >= 1 && i < |refs| && InRun(alg, k, refs, i, tlb, h, h0, faults)
    ensures alg.LRU? && refs[i] in tlb ==> refs[i] in h
  {
    hide StateAt, FaultsBefore;
    if alg.LRU? {
      HitIsListed(alg, k, refs, i);
    }
  }

  lemma StaysInRun(alg: Algorithm, k: nat, refs: seq<nat>, i: nat, st: State, st': State, h0: seq<int>, faults: nat)
    requires k >= 1 && i < |refs| && |st.tlb| == k && InRun(alg, k, refs, i, st.tlb, st.history, h0, faults)
    requires st' == Step(alg, refs, i, st)
    ensures InRun(alg, k, refs, i + 1, st'.tlb, st'.history, h0, faults + if refs[i] in st.tlb then 0 else 1)
  {
    hide Step, StateAt, FaultsBefore;
    NextState(alg, k, refs, i);
    if alg.OPTIMUM? {
      OptimumIgnoresHistory(refs, i, st.tlb, st.history, StateAt(alg, k, refs, i).history);
    }
  }

  lemma EndsRun(alg: Algorithm, k: nat, refs: seq<nat>, tlb: seq<int>, h: seq<int>, h0: seq<int>, faults: nat)
    requires k >= 1 && InRun(alg, k, refs, |refs|, tlb, h, h0, faults)
    ensures faults == Faults(alg, k, refs) && tlb == StateAt(alg, k, refs, |refs|).tlb
    ensures h == if alg.OPTIMUM? then h0 else StateAt(alg, k, refs, |refs|).history
  {
  }

  ghost function NextUses(tlb: seq<int>, refs: seq<nat>, i: nat): (u: seq<nat>)
    requires i <= |refs|
    ensures |u| == |tlb| && forall f :: 0 <= f < |tlb| ==> u[f] == NextUse(refs, i, tlb[f]) && i <= u[f] <= |refs|
  {
    seq(|tlb|, f requires 0 <= f < |tlb| => NextUse(refs, i, tlb[f]))
  }

  /** The first of the greatest numbers. */
  ghost predicate FirstMax(u: seq<nat>, f: nat) {
    && f < |u|
    && (forall g :: 0 <= g < |u| ==> u[g] <= u[f])
    && (forall g :: 0 <= g < f ==> u[g] < u[f])
  }

  /** The scan after i frames: the chosen frame has the first greatest next use, and all are used again. */
  ghost predicate ScanOk(u: seq<nat>, n: nat, i: nat, location: nat, frame: int) {
    && i <= |u|
    && (i == 0 ==> location == 0)
    && (i > 0 ==> frame >= 0 && FirstMax(u[..i], frame) && location == u[frame] < n)
  }

  lemma ScanStep(u: seq<nat>, n: nat, i: nat, location: nat, frame: int, found: nat)
    requires ScanOk(u, n, i, location, frame) && i < |u| && found == if u[i] == n then 0 else u[i]
    requires forall g :: 0 <= g < |u| ==> 0 < u[g] <= n
    ensures found != 0 ==>
              if location < found then ScanOk(u, n, i + 1, found, i) else ScanOk(u, n, i + 1, location, frame)
    ensures found == 0 ==> FirstMax(u, i)
  {
    assert u[..i + 1] == u[..i] + [u[i]];
    if i > 0 {
      assert forall g :: 0 <= g < i ==> u[g] == u[..i][g] <= location;
    }
  }

  lemma ScanStart(u: seq<nat>, n: nat, frame: int)
    ensures ScanOk(u, n, 0, 0, frame)
  {
  }

  lemma ScanEnd(u: seq<nat>, n: nat, location: nat, frame: int)
    requires u != [] && ScanOk(u, n, |u|, location, frame)
    ensures 0 <= frame < |u| && FirstMax(u, frame)
  {
    assert u[..|u|] == u;
  }

  lemma FarthestIsUnique(tlb: seq<int>, refs: seq<nat>, i: nat, f: nat)
    requires i <= |refs| && FirstMax(NextUses(tlb, refs, i), f)
    ensures f == Farthest(tlb, refs, i)
  {
    hide Farthest, NextUses, NextUse;
    var u, h := NextUses(tlb, refs, i), Farthest(tlb, refs, i);
    assert u[h] == u[f];
  }
}
