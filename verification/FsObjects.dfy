/** The objects: a disk of blocks and a file system that updates its inode table, dirty flags and bitmap in
    place. The ghost `view` is the state of `FsModel`; every method says what it does to it. */
module FsObjects {
  import opened Numbers
  import opened FsModel
  import opened FsAllocation
  import opened FsSteps
  import FsRemount

  class Disk {
    const blocks: array<Block>
    var Mounts: nat

    constructor (image: seq<Block>)
      ensures blocks[..] == image && fresh(blocks) && Mounts == 0
    {
      blocks := new Block[|image|](i requires 0 <= i < |image| => image[i]);
      Mounts := 0;
    }

    function Size(): nat {
      blocks.Length
    }

    method Mount()
      modifies this
      ensures Mounts == old(Mounts) + 1
    {
      Mounts := Mounts + 1;
    }

    /** Reads the bytes of a whole block into the buffer; a block number past the end throws. */
    method Read(blocknum: nat, data: array<byte>) returns (count: nat, thrown: bool)
      requires data.Length == BLOCK_SIZE && (blocknum < Size() ==> IsWhole(blocks[blocknum]))
      modifies data
      ensures thrown <==> blocknum >= Size()
      ensures if thrown then data[..] == old(data[..]) else count == BLOCK_SIZE && data[..] == Raw(blocks[blocknum])
    {
      count, thrown := 0, blocknum >= Size();
      if !thrown {
        var bytes := Raw(blocks[blocknum]);
        forall x | 0 <= x < BLOCK_SIZE {
          data[x] := bytes[x];
        }
        count := BLOCK_SIZE;
      }
    }

    /** Writes a whole block, whatever the caller's length; a block number past the end throws. */
    method Write(blocknum: nat, block: Block) returns (count: nat, thrown: bool)
      modifies blocks
      ensures thrown <==> blocknum >= Size()
      ensures blocks[..] == if thrown then old(blocks[..]) else old(blocks[..])[blocknum := block]
      ensures !thrown ==> count == BLOCK_SIZE
    {
      count, thrown := 0, blocknum >= Size();
      if !thrown {
        blocks[blocknum] := block;
        count := BLOCK_SIZE;
      }
    }
  }

  /** A 32-bit unsigned pointer as the `int` that `read` makes of it. */
  function AsInt(pointer: nat): int {
    var w := pointer % 0x1_0000_0000;
    if w < 0x8000_0000 then w else w - 0x1_0000_0000
  }

  lemma AsIntWraps(pointer: nat)
    ensures -0x8000_0000 <= AsInt(pointer) < 0x8000_0000 && (pointer - AsInt(pointer)) % 0x1_0000_0000 == 0
  {
  }

  function Row(a: array2<Inode>, b: nat): (r: seq<Inode>)
    requires b < a.Length0
    reads a
    ensures |r| == a.Length1 && forall o :: 0 <= o < |r| ==> r[o] == a[b, o]
  {
    seq(a.Length1, o requires 0 <= o < a.Length1 reads a => a[b, o])
  }

  lemma RowHolds(a: array2<Inode>, b: nat, table: seq<Inode>)
    requires b < a.Length0 && a.Length1 == INODES_PER_BLOCK && (b + 1) * INODES_PER_BLOCK <= |table|
    requires Row(a, b) == Chunk(table, b)
    ensures forall o :: 0 <= o < INODES_PER_BLOCK ==> a[b, o] == table[b * INODES_PER_BLOCK + o]
  {
    forall o | 0 <= o < INODES_PER_BLOCK ensures a[b, o] == table[b * INODES_PER_BLOCK + o] {
      assert Row(a, b)[o] == Chunk(table, b)[o];
    }
  }

  class FileSystem {
    var m_disk: Disk?
    var FIRST_DATA_BLOCK: nat
    var inode_blocks: array2<Inode>
    var inode_blocks_dirty: array<bool>
    const Bitmap: array<bool>
    ghost var view: FS

    ghost predicate Valid()
      reads this, if m_disk == null then {} else {m_disk.blocks}, inode_blocks, inode_blocks_dirty, Bitmap
    {
      && m_disk != null && Shape(view) && Bitmap != inode_blocks_dirty
      && FIRST_DATA_BLOCK == FirstData(view)
      && Bitmap[..] == view.free && inode_blocks_dirty[..] == view.dirty && m_disk.blocks[..] == view.disk
      && inode_blocks.Length0 == |view.dirty| && inode_blocks.Length1 == INODES_PER_BLOCK
      && forall b, o :: 0 <= b < |view.dirty| && 0 <= o < INODES_PER_BLOCK ==>
           inode_blocks[b, o] == view.table[b * INODES_PER_BLOCK + o]
    }

    constructor ()
      ensures m_disk == null && Bitmap[..] == AllFree() && fresh(Bitmap)
    {
      Bitmap := new bool[BLOCK_SIZE](_ => true);
      FIRST_DATA_BLOCK := 2;
      inode_blocks := new Inode[0, 0];
      inode_blocks_dirty := new bool[0];
      m_disk := null;
    }

    method SetBlockFreeStatus(block_number: nat, free: bool)
      requires Valid()
      modifies this`view, Bitmap
      ensures Valid()
      ensures var fs := old(view);
              view == fs.(free := SetFree(fs.free, FirstData(fs), |fs.disk|, block_number, free))
    {
      if block_number >= FIRST_DATA_BLOCK && block_number < m_disk.Size() {
        Bitmap[block_number] := free;
      }
      view := view.(free := SetFree(view.free, FirstData(view), |view.disk|, block_number, free));
    }

    method GetBlockFreeStatus(block_number: nat) returns (free: bool)
      requires Valid()
      ensures free <==> FirstData(view) <= block_number < |view.disk| && view.free[block_number]
    {
      if block_number >= FIRST_DATA_BLOCK && block_number < m_disk.Size() {
        return Bitmap[block_number];
      }
      return false;
    }

    method GetNextFreeBlock() returns (block_number: nat)
      requires Valid()
      ensures block_number == NextFree(view.free, FirstData(view), |view.disk|)
    {
      block_number := FIRST_DATA_BLOCK;
      while block_number < m_disk.Size()
        invariant FirstData(view) <= block_number <= |view.disk|
        invariant NextFree(view.free, FirstData(view), |view.disk|) == NextFree(view.free, block_number, |view.disk|)
      {
        var free := GetBlockFreeStatus(block_number);
        if free {
          return;
        }
        block_number := block_number + 1;
      }
    }

    function GetINode(inode_number: nat): Inode
      requires inode_number < inode_blocks.Length0 * INODES_PER_BLOCK && inode_blocks.Length1 == INODES_PER_BLOCK
      reads this, inode_blocks
    {
      inode_blocks[inode_number / INODES_PER_BLOCK, inode_number % INODES_PER_BLOCK]
    }

    /** Storing through the pointer that `getINode` returns. */
    method PutINode(inode_number: nat, inode: Inode)
      requires Valid() && inode_number < |view.table| && |inode.direct| == POINTERS_PER_INODE
      modifies this`view, inode_blocks
      ensures Valid() && view == old(view).(table := old(view.table)[inode_number := inode])
    {
      inode_blocks[inode_number / INODES_PER_BLOCK, inode_number % INODES_PER_BLOCK] := inode;
      view := view.(table := view.table[inode_number := inode]);
    }

    method GetNextFreeINode() returns (found: bool, current_inode: nat)
      requires Valid()
      ensures found <==> FirstInvalid(view.table) < |view.table|
      ensures current_inode == if found then FirstInvalid(view.table) else INVALID_RETURN
    {
      current_inode := INVALID_RETURN;
      for i := 0 to inode_blocks.Length0
        invariant forall n :: 0 <= n < i * INODES_PER_BLOCK ==> view.table[n].valid != 0
      {
        for j := 0 to INODES_PER_BLOCK
          invariant forall n :: 0 <= n < i * INODES_PER_BLOCK + j ==> view.table[n].valid != 0
        {
          if inode_blocks[i, j].valid == 0 {
            return true, i * INODES_PER_BLOCK + j;
          }
        }
      }
      found := false;
    }

    method Create() returns (inumber: nat)
      requires Valid()
      modifies this`view, inode_blocks, inode_blocks_dirty
      ensures Valid() && (view, inumber) == FsModel.Create(old(view))
      ensures var fs := old(view);
              && (forall i: nat :: FirstUnused(fs.table, i) ==>
                    && inumber == i && view.free == fs.free && view.disk == fs.disk
                    && view.table == fs.table[i := Inode(1, fs.table[i].size, fs.table[i].direct, fs.table[i].indirect)]
                    && view.dirty == fs.dirty[i / INODES_PER_BLOCK := true])
              && ((forall i :: 0 <= i < |fs.table| ==> fs.table[i].valid != 0) ==> inumber == 0x8000_0000 && view == fs)
    {
      forall i: nat | FirstUnused(view.table, i) ensures i == FirstInvalid(view.table) {
        FirstInvalidIsFirstUnused(view.table, i);
      }
      var found;
      found, inumber := GetNextFreeINode();
      if found {
        PutINode(inumber, GetINode(inumber).(valid := 1));
        inode_blocks_dirty[inumber / INODES_PER_BLOCK] := true;
        view := view.(dirty := view.dirty[BlockOf(inumber) := true]);
      }
    }

    method Remove(inumber: nat)
      requires Valid() && inumber < |view.table|
      modifies this`view, inode_blocks, Bitmap
      ensures Valid() && view == FsModel.Remove(old(view), inumber)
      ensures var fs, n := old(view), old(view.table[inumber]);
              && view.table == fs.table[inumber := Inode(0, 0, [0, 0, 0, 0, 0], n.indirect)]
              && view.dirty == fs.dirty && view.disk == fs.disk && |view.free| == |fs.free|
              && forall b :: 0 <= b < |fs.free| ==>
                   view.free[b] == (fs.free[b] || (b in n.direct && FirstData(fs) <= b < |fs.disk|))
    {
      RemoveClears(view, inumber);
      ghost var n0 := view.table[inumber];
      for i := 0 to POINTERS_PER_INODE
        invariant Valid() && |view.table| == |old(view.table)|
        invariant view.free == SetAll(old(view.free), FirstData(old(view)), |old(view.disk)|, n0.direct, i, true)
        invariant view == old(view).(table := old(view.table)[inumber := view.table[inumber]], free := view.free)
        invariant i == 0 ==> view.table[inumber] == n0
        invariant i > 0 ==> view.table[inumber].(direct := []) == Cleared(n0).(direct := [])
        invariant forall m :: 0 <= m < i ==> view.table[inumber].direct[m] == 0
        invariant forall m :: i <= m < POINTERS_PER_INODE ==> view.table[inumber].direct[m] == n0.direct[m]
      {
        var pInode := GetINode(inumber);
        SetBlockFreeStatus(pInode.direct[i], true);
        PutINode(inumber, pInode.(size := 0, direct := pInode.direct[i := 0], valid := 0));
      }
      assert view.table[inumber] == Cleared(n0);
    }

    method Stat(inumber: nat) returns (node_size: nat)
      requires Valid() && inumber < |view.table|
      ensures node_size == view.table[inumber].size
    {
      node_size := GetINode(inumber).size;
    }

    method UpdateSize(node_number: nat, size: nat)
      requires Valid() && node_number < |view.table|
      modifies this`view, inode_blocks
      ensures Valid() && view == FsModel.UpdateSize(old(view), node_number, size)
      ensures var n := old(view.table[node_number]);
              view == old(view).(table := old(view.table)[node_number := Inode(n.valid, size, n.direct, n.indirect)])
    {
      PutINode(node_number, GetINode(node_number).(size := size));
    }

    /** Marks the pointers of one valid inode used. */
    method MarkInode(inode: Inode, ghost free0: seq<bool>, ghost first: nat)
      requires m_disk != null && Bitmap.Length == BLOCK_SIZE >= m_disk.Size()
      requires Bitmap[..] == free0 && FIRST_DATA_BLOCK == first && |inode.direct| == POINTERS_PER_INODE
      modifies Bitmap
      ensures Bitmap[..] == SetAll(free0, first, m_disk.Size(), inode.direct, POINTERS_PER_INODE, false)
    {
      for k := 0 to POINTERS_PER_INODE
        invariant Bitmap[..] == SetAll(free0, first, m_disk.Size(), inode.direct, k, false)
      {
        var block_number := inode.direct[k];
        if block_number >= FIRST_DATA_BLOCK && block_number < m_disk.Size() {
          Bitmap[block_number] := false;
        }
      }
    }

    /** Reads inode block i from the disk into memory. */
    method LoadBlock(i: nat)
      requires m_disk != null && i < inode_blocks.Length0 && inode_blocks.Length1 == INODES_PER_BLOCK
      requires i + 1 < m_disk.Size()
      requires m_disk.blocks[i + 1].Inodes? && |m_disk.blocks[i + 1].table| == INODES_PER_BLOCK
      modifies inode_blocks
      ensures Row(inode_blocks, i) == m_disk.blocks[i + 1].table
      ensures forall b, o :: 0 <= b < inode_blocks.Length0 && b != i && 0 <= o < INODES_PER_BLOCK ==>
                inode_blocks[b, o] == old(inode_blocks[b, o])
    {
      var block := m_disk.blocks[i + 1];
      for o := 0 to INODES_PER_BLOCK
        invariant forall x :: 0 <= x < o ==> inode_blocks[i, x] == block.table[x]
        invariant forall b, x :: 0 <= b < inode_blocks.Length0 && b != i && 0 <= x < INODES_PER_BLOCK ==>
                    inode_blocks[b, x] == old(inode_blocks[b, x])
      {
        inode_blocks[i, o] := block.table[o];
      }
    }

    /** Marks the pointers of the valid inodes of block i used. */
    method MarkBlock(i: nat, ghost free0: seq<bool>, ghost table: seq<Inode>)
      requires m_disk != null && Bitmap.Length == |free0| == BLOCK_SIZE >= m_disk.Size()
      requires i < inode_blocks.Length0 && inode_blocks.Length1 == INODES_PER_BLOCK
      requires (i + 1) * INODES_PER_BLOCK <= |table|
      requires Row(inode_blocks, i) == Chunk(table, i)
      requires forall n :: 0 <= n < |table| ==> |table[n].direct| == POINTERS_PER_INODE
      requires Bitmap[..] == MarkUsed(free0, table, i * INODES_PER_BLOCK, FIRST_DATA_BLOCK, m_disk.Size())
      modifies Bitmap
      ensures Bitmap[..] == MarkUsed(free0, table, (i + 1) * INODES_PER_BLOCK, FIRST_DATA_BLOCK, m_disk.Size())
    {
      for j := 0 to INODES_PER_BLOCK
        invariant Bitmap[..] == MarkUsed(free0, table, i * INODES_PER_BLOCK + j, FIRST_DATA_BLOCK, m_disk.Size())
      {
        assert inode_blocks[i, j] == Row(inode_blocks, i)[j] == Chunk(table, i)[j] == table[i * INODES_PER_BLOCK + j];
        if inode_blocks[i, j].valid > 0 {
          MarkInode(inode_blocks[i, j], Bitmap[..], FIRST_DATA_BLOCK);
        }
      }
    }

    /** The loop over the inode blocks: loads each one and marks what its inodes point to. */
    method LoadAll(ghost image: seq<Block>, ghost free0: seq<bool>, ghost table: seq<Inode>)
      requires m_disk != null && m_disk.blocks[..] == image && Bitmap.Length == BLOCK_SIZE >= |image|
      requires inode_blocks.Length0 < |image| && inode_blocks.Length1 == INODES_PER_BLOCK
      requires |table| == inode_blocks.Length0 * INODES_PER_BLOCK
      requires forall n :: 0 <= n < |table| ==> |table[n].direct| == POINTERS_PER_INODE
      requires forall b :: 1 <= b <= inode_blocks.Length0 ==> image[b].Inodes? && image[b].table == Chunk(table, b - 1)
      requires Bitmap[..] == free0
      modifies inode_blocks, Bitmap
      ensures forall b, o :: 0 <= b < inode_blocks.Length0 && 0 <= o < INODES_PER_BLOCK ==>
                inode_blocks[b, o] == table[b * INODES_PER_BLOCK + o]
      ensures Bitmap[..] == MarkUsed(free0, table, |table|, FIRST_DATA_BLOCK, |image|)
    {
      assert MarkUsed(free0, table, 0, FIRST_DATA_BLOCK, |image|) == free0;
      hide MarkUsed;
      for i := 0 to inode_blocks.Length0
        invariant forall b, o :: 0 <= b < i && 0 <= o < INODES_PER_BLOCK ==>
                    inode_blocks[b, o] == table[b * INODES_PER_BLOCK + o]
        invariant Bitmap[..] == MarkUsed(free0, table, i * INODES_PER_BLOCK, FIRST_DATA_BLOCK, |image|)
      {
        assert m_disk.blocks[i + 1] == image[i + 1];
        LoadBlock(i);
        MarkBlock(i, free0, table);
        RowHolds(inode_blocks, i, table);
      }
    }

    /** Mounts a disk: loads the inode blocks and marks the blocks their valid inodes point to. */
    method Mount(disk: Disk)
      requires Bitmap.Length == BLOCK_SIZE && FsRemount.Loadable(disk.blocks[..])
      modifies this, Bitmap, disk
      ensures Valid() && m_disk == disk && view == MountOn(old(Bitmap[..]), disk.blocks[..])
      ensures fresh(inode_blocks) && fresh(inode_blocks_dirty)
    {
      hide Allocated, PointersOk, Unshared, Chunk, LoadTable;
      ghost var image, free0 := disk.blocks[..], Bitmap[..];
      FsRemount.LoadedInodes(image);
      assert disk.blocks[0] == image[0];
      var ib := disk.blocks[0].inodeBlocks;
      ghost var table := LoadTable(image, ib);
      forall b | 1 <= b <= ib
        ensures image[b].Inodes? && b * INODES_PER_BLOCK <= |table| && image[b].table == Chunk(table, b - 1)
      {
        FsRemount.LoadedChunk(image, ib, b - 1);
      }
      disk.Mount();
      m_disk := disk;
      FIRST_DATA_BLOCK := ib + 1;
      inode_blocks := new Inode[ib, INODES_PER_BLOCK]((i, j) => Inode(0, 0, [], 0));
      inode_blocks_dirty := new bool[ib](_ => false);
      hide FsRemount.Loadable;
      LoadAll(image, free0, table);
      view := MountOn(free0, image);
    }

    /** The number of the block at the offset, not positive if there is none. */
    function BlockAt(inumber: nat, offset: nat): int
      requires inumber < inode_blocks.Length0 * INODES_PER_BLOCK && inode_blocks.Length1 == INODES_PER_BLOCK
      requires |GetINode(inumber).direct| == POINTERS_PER_INODE
      reads this, inode_blocks
    {
      if offset / BLOCK_SIZE < POINTERS_PER_INODE then AsInt(GetINode(inumber).direct[offset / BLOCK_SIZE]) else 0
    }

    /** Reads the block at the offset into the buffer and marks it used; 0 bytes past the last pointer or at a null
        pointer. A pointer past the disk throws. */
    method Read(inumber: nat, data: array<byte>, offset: nat) returns (total_read: nat, thrown: bool)
      requires Valid() && inumber < |view.table| && data.Length == BLOCK_SIZE
      requires 0 < BlockAt(inumber, offset) < |view.disk| ==> IsWhole(view.disk[BlockAt(inumber, offset)])
      modifies this`view, Bitmap, data
      ensures Valid()
      ensures var b, fs := old(BlockAt(inumber, offset)), old(view);
              && (b <= 0 ==> !thrown && total_read == 0 && view == fs)
              && (0 < b < |fs.disk| ==>
                    && !thrown && total_read == BLOCK_SIZE && data[..] == Raw(fs.disk[b])
                    && view == fs.(free := SetFree(fs.free, FirstData(fs), |fs.disk|, b, false)))
              && (b >= |fs.disk| ==> thrown && view == fs.(halted := true))
    {
      total_read, thrown := 0, false;
      var data_block_number := BlockAt(inumber, offset);
      if data_block_number > 0 {
        assert data_block_number < |view.disk| ==> m_disk.blocks[data_block_number] == view.disk[data_block_number];
        total_read, thrown := m_disk.Read(data_block_number, data);
        if thrown {
          view := view.(halted := true);
        } else {
          SetBlockFreeStatus(data_block_number, false);
        }
      }
    }

    /** Writes the whole buffer into the next free block and points the inode to it. */
    method Write(inumber: nat, data: array<byte>, offset: nat) returns (total_write: nat, thrown: bool)
      requires Valid() && inumber < |view.table| && data.Length == BLOCK_SIZE && !view.halted
      modifies this`view, inode_blocks, Bitmap, m_disk.blocks
      ensures Valid()
      ensures var idx := offset / BLOCK_SIZE;
              if idx < POINTERS_PER_INODE
              then && view == WriteBlock(old(view), inumber, idx, data[..]) && thrown == view.halted
                   && (!thrown ==> total_write == BLOCK_SIZE)
              else view == old(view) && !thrown && total_write == 0
      ensures var idx := offset / BLOCK_SIZE;
              idx < POINTERS_PER_INODE ==> WroteLowest(old(view), view, inumber, idx, data[..])
    {
      if offset / BLOCK_SIZE < POINTERS_PER_INODE {
        WriteIsExplicit(view, inumber, offset / BLOCK_SIZE, data[..]);
      }
      hide WroteLowest;
      total_write, thrown := 0, false;
      var direct_pointer_index := offset / BLOCK_SIZE;
      var data_block_number := GetNextFreeBlock();
      if data_block_number > 0 && direct_pointer_index < POINTERS_PER_INODE {
        var pInode := GetINode(inumber);
        PutINode(inumber, pInode.(direct := pInode.direct[direct_pointer_index := data_block_number]));
        total_write, thrown := m_disk.Write(data_block_number, Data(data[..]));
        if thrown {
          view := view.(halted := true);
        } else {
          view := view.(disk := view.disk[data_block_number := Data(data[..])]);
          SetBlockFreeStatus(data_block_number, false);
        }
      }
    }

    /** What the destructor does: saves the dirty inode blocks. */
    method SaveDirtyBlocks()
      requires Valid()
      modifies m_disk.blocks
      ensures m_disk.blocks[..] == FsRemount.Saved(view)
    {
      for i := 0 to inode_blocks_dirty.Length
        invariant m_disk.blocks[..] == Flush(view, i)
      {
        if inode_blocks_dirty[i] {
          var block := Inodes(Row(inode_blocks, i));
          assert block.table == Chunk(view.table, i);
          var _, _ := m_disk.Write(i + 1, block);
        }
      }
    }
  }
}
