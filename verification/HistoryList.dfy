/** The doubly linked history list on the heap. Every operation is proved against a function on the
    sequence of pages from head to tail, and keeps all four kinds of links consistent with it. */
module HistoryList {
  import opened Paging

  class Node {
    var Previous: Node?
    var page: int
    var Next: Node?

    constructor (page: int, next: Node?)
      ensures this.page == page && Previous == null && Next == next
    {
      this.page := page;
      Previous := null;
      Next := next;
    }
  }

  class LinkedList {
    var Head: Node?
    var Tail: Node?
    ghost var nodes: seq<Node>
    ghost var pages: seq<int>

    ghost predicate Valid()
      reads this, nodes
    {
      && |pages| == |nodes|
      && (forall i, j :: 0 <= i < j < |nodes| ==> nodes[i] != nodes[j])
      && (forall i {:trigger nodes[i].page} :: 0 <= i < |nodes| ==> nodes[i].page == pages[i])
      && (nodes == [] ==> Head == null && Tail == null)
      && (nodes != [] ==> Head == nodes[0] && Tail == nodes[|nodes| - 1])
      && (nodes != [] ==> nodes[0].Previous == null && nodes[|nodes| - 1].Next == null)
      && (forall i {:trigger nodes[i].Previous} :: 1 <= i < |nodes| ==> nodes[i].Previous == nodes[i - 1])
      && (forall i {:trigger nodes[i].Next} :: 0 <= i < |nodes| - 1 ==> nodes[i].Next == nodes[i + 1])
    }

    constructor ()
      ensures Valid() && pages == [] && fresh(nodes)
    {
      Head := null;
      Tail := null;
      nodes := [];
      pages := [];
    }

    method AddToHead(page: int)
      requires Valid()
      modifies this, nodes
      ensures Valid() && pages == [page] + old(pages)
      ensures forall i :: 0 <= i < |nodes| ==> nodes[i] in old(nodes) || fresh(nodes[i])
    {
      var tmp := new Node(page, Head);
      if Head != null {
        Head.Previous := tmp;
      }
      if Tail == null {
        Tail := tmp;
      }
      Head := tmp;
      nodes := [tmp] + nodes;
      pages := [page] + pages;
    }

    /** Returns the page at the tail and unlinks the tail, unless it is the only node. */
    method RemoveTail() returns (page: int)
      requires Valid()
      modifies this, nodes
      ensures Valid() && page == TailPage(old(pages)) && pages == DropTail(old(pages))
      ensures forall i :: 0 <= i < |nodes| ==> nodes[i] in old(nodes)
    {
      page := -1;
      if Tail != null {
        ghost var m := |nodes| - 1;
        assert Tail == nodes[m];
        page := Tail.page;
        if Tail.Previous != null {
          assert m > 0 && Tail.Previous == nodes[m - 1];
          Tail := Tail.Previous;
          Tail.Next := null;
          nodes := nodes[..m];
          pages := pages[..m];
        }
      }
    }

    /** Unlinks the first node holding the page. On a nonempty list the search only ends if there is one,
        and the sole node cannot be unlinked. */
    method Remove(page: int)
      requires Valid()
      requires pages == [] || (page in pages && |pages| >= 2)
      modifies this, nodes
      ensures Valid() && pages == RemoveFirst(old(pages), page)
      ensures forall i :: 0 <= i < |nodes| ==> nodes[i] in old(nodes)
    {
      var tmp := Head;
      if tmp != null {
        ghost var i := 0;
        ghost var at := FirstIndex(pages, page);
        while tmp.page != page
          invariant 0 <= i <= at && tmp == nodes[i]
          decreases at - i
        {
          if tmp.Next != null {
            tmp := tmp.Next;
          }
          i := i + 1;
        }
        assert tmp == nodes[at] && pages[at] == page;
        if tmp.Previous != null {
          if tmp.Next != null {
            UnlinkMiddle(tmp, at);
          } else {
            UnlinkTail(tmp);
          }
        } else {
          UnlinkHead(tmp);
        }
      }
    }

    method UnlinkMiddle(tmp: Node, ghost at: nat)
      requires Valid() && 0 < at < |nodes| - 1 && tmp == nodes[at]
      modifies this, nodes
      ensures Valid() && pages == old(pages)[..at] + old(pages)[at + 1..]
      ensures forall i :: 0 <= i < |nodes| ==> nodes[i] in old(nodes)
    {
      ghost var was := nodes;
      assert tmp.Previous == was[at - 1] && tmp.Next == was[at + 1];
      tmp.Next.Previous := tmp.Previous;
      tmp.Previous.Next := tmp.Next;
      nodes := was[..at] + was[at + 1..];
      pages := pages[..at] + pages[at + 1..];
      forall i {:trigger nodes[i].Previous} | 1 <= i < |nodes| ensures nodes[i].Previous == nodes[i - 1] {
        assert nodes[i - 1] == was[if i - 1 < at then i - 1 else i];
      }
      forall i {:trigger nodes[i].Next} | 0 <= i < |nodes| - 1 ensures nodes[i].Next == nodes[i + 1] {
        assert nodes[i + 1] == was[if i + 1 < at then i + 1 else i + 2];
      }
    }

    method UnlinkTail(tmp: Node)
      requires Valid() && |nodes| >= 2 && tmp == nodes[|nodes| - 1]
      modifies this, nodes
      ensures Valid() && pages == old(pages)[..|old(pages)| - 1]
      ensures forall i :: 0 <= i < |nodes| ==> nodes[i] in old(nodes)
    {
      ghost var m := |nodes| - 1;
      assert tmp.Previous == nodes[m - 1];
      tmp.Previous.Next := null;
      Tail := tmp.Previous;
      nodes := nodes[..m];
      pages := pages[..m];
    }

    method UnlinkHead(tmp: Node)
      requires Valid() && |nodes| >= 2 && tmp == nodes[0]
      modifies this, nodes
      ensures Valid() && pages == old(pages)[1..]
      ensures forall i :: 0 <= i < |nodes| ==> nodes[i] in old(nodes)
    {
      ghost var was := nodes;
      assert tmp.Next == was[1];
      Head := tmp.Next;
      Head.Previous := null;
      nodes := was[1..];
      pages := pages[1..];
      forall i {:trigger nodes[i].Previous} | 1 <= i < |nodes| ensures nodes[i].Previous == nodes[i - 1] {
        assert nodes[i] == was[i + 1] && was[i + 1].Previous == was[i];
      }
    }

    method MoveToHead(page: int)
      requires Valid()
      requires pages == [] || page in pages
      modifies this, nodes
      ensures Valid() && pages == ToHead(old(pages), page)
      ensures forall i :: 0 <= i < |nodes| ==> nodes[i] in old(nodes) || fresh(nodes[i])
    {
      if Head != null && Head.page != page {
        Remove(page);
        AddToHead(page);
      }
    }
  }
}
