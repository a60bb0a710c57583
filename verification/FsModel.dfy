/** The inode file system as pure functions on its state: the inode table in memory, the dirty flags,
    the free-block bitmap and the disk. */
module FsModel {
  import opened Numbers

  const POINTERS_PER_INODE := 5
  const INODES_PER_BLOCK := 128
  const BLOCK_SIZE := 4096
  const INVALID_RETURN := 0x8000_0000

  datatype Inode = Inode(valid: nat, size: nat, direct: seq<nat>, indirect: nat)

  /** The view in which a block is used. */
  datatype Block = Super(blocks: nat, inodeBlocks: nat) | Inodes(table: seq<Inode>) | Data(bytes: seq<byte>)

  /** `table` lists the inodes by number. `halted` says that an exception has ended the program. */
  datatype FS = FS(table: seq<Inode>, dirty: seq<bool>, free: seq<bool>, disk: seq<Block>, halted: bool)

  function FirstData(fs: FS): nat {
    |fs.dirty| + 1
  }

  function BlockOf(i: nat): nat {
    i / INODES_PER_BLOCK
  }

  // ---- The bitmap ----

  function SetFree(free: seq<bool>, first: nat, size: nat, b: nat, v: bool): (free': seq<bool>)
    ensures |free'| == |free|
  {
    if first <= b < size && b < |free| then free[b := v] else free
  }

  /** The first free data block at or after `b`, or the size of the disk. */
  function NextFree(free: seq<bool>, b: nat, size: nat): (r: nat)
    requires size <= |free|
    ensures b <= size ==> b <= r <= size
    ensures r < size ==> b <= r && free[r]
    ensures forall c :: b <= c < r && c < size ==> !free[c]
    decreases size - b
  {
    if b >= size then size else if free[b] then b else NextFree(free, b + 1, size)
  }

  // ---- Inodes ----

  /** The first inode marked invalid, or the size of the table. */
  function FirstInvalid(table: seq<Inode>): (i: nat)
    ensures i <= |table|
    ensures i < |table| ==> table[i].valid == 0
    ensures forall j :: 0 <= j < i ==> table[j].valid != 0
  {
    if table == [] || table[0].valid == 0 then 0 else 1 + FirstInvalid(table[1..])
  }

  function Create(fs: FS): (FS, nat)
    requires |fs.table| == |fs.dirty| * INODES_PER_BLOCK
  {
    var i := FirstInvalid(fs.table);
    if i == |fs.table| then (fs, INVALID_RETURN)
    else (fs.(table := fs.table[i := fs.table[i].(valid := 1)], dirty := fs.dirty[BlockOf(i) := true]), i)
  }

  /** `remove` clears everything but the indirect pointer. */
  function Cleared(n: Inode): Inode {
    Inode(0, 0, seq(POINTERS_PER_INODE, _ => 0), n.indirect)
  }

  /** Marks the blocks of the first m pointers. */
  function SetAll(free: seq<bool>, first: nat, size: nat, direct: seq<nat>, m: nat, v: bool): (free': seq<bool>)
    requires m <= |direct|
    ensures |free'| == |free|
  {
    if m == 0 then free else SetFree(SetAll(free, first, size, direct, m - 1, v), first, size, direct[m - 1], v)
  }

  function Remove(fs: FS, i: nat): FS
    requires i < |fs.table| && |fs.table[i].direct| == POINTERS_PER_INODE
  {
    fs.(table := fs.table[i := Cleared(fs.table[i])],
        free := SetAll(fs.free, FirstData(fs), |fs.disk|, fs.table[i].direct, POINTERS_PER_INODE, true))
  }

  /** Writing the block at pointer index `idx`. With no free block the pointer is set to the size of the disk,
      which the disk then refuses; past the last pointer nothing happens. */
  function WriteBlock(fs: FS, i: nat, idx: nat, bytes: seq<byte>): (fs': FS)
    requires i < |fs.table| && |fs.table[i].direct| == POINTERS_PER_INODE && |fs.disk| <= |fs.free|
    requires idx < POINTERS_PER_INODE
  {
    var b := NextFree(fs.free, FirstData(fs), |fs.disk|);
    var n := fs.table[i].(direct := fs.table[i].direct[idx := b]);
    if b >= |fs.disk| then fs.(table := fs.table[i := n], halted := true)
    else fs.(table := fs.table[i := n], disk := fs.disk[b := Data(bytes)], free := fs.free[b := false])
  }

  // ---- copyin ----

  const MAX_SIZE := POINTERS_PER_INODE * BLOCK_SIZE

  /** The reused copy buffer after reading chunk c: what a short last chunk does not overwrite is left from before. */
  function Buffer(data: seq<byte>, c: nat): (b: seq<byte>)
    requires c * BLOCK_SIZE < |data|
    ensures |b| == BLOCK_SIZE
  {
    var start := c * BLOCK_SIZE;
    var m := Min(BLOCK_SIZE, |data| - start);
    data[start..start + m] + (if c == 0 then seq(BLOCK_SIZE, _ => 0 as byte) else Buffer(data, c - 1))[m..]
  }

  /** The loop of `copyin` from chunk c on. */
  function CopyChunks(fs: FS, i: nat, data: seq<byte>, c: nat): (fs': FS)
    requires c <= POINTERS_PER_INODE
    requires i < |fs.table| && |fs.table[i].direct| == POINTERS_PER_INODE && |fs.disk| <= |fs.free|
    ensures |fs'.table| == |fs.table| && |fs'.dirty| == |fs.dirty|
    decreases POINTERS_PER_INODE - c
  {
    if c == POINTERS_PER_INODE || |data| <= c * BLOCK_SIZE || fs.halted then fs
    else CopyChunks(WriteBlock(fs, i, c, Buffer(data, c)), i, data, c + 1)
  }

  function UpdateSize(fs: FS, i: nat, size: nat): FS
    requires i < |fs.table|
  {
    fs.(table := fs.table[i := fs.table[i].(size := size)])
  }

  function Copyin(fs: FS, i: nat, data: seq<byte>): FS
    requires i < |fs.table| && |fs.table[i].direct| == POINTERS_PER_INODE && |fs.disk| <= |fs.free|
  {
    var fs' := CopyChunks(fs, i, data, 0);
    if fs'.halted then fs' else UpdateSize(fs', i, Min(|data|, MAX_SIZE))
  }

  // ---- copyout ----

  /** The bytes `copyout` writes from pointer index `idx` on: whole blocks up to the first null pointer. */
  function Contents(n: Inode, disk: seq<Block>, idx: nat): seq<byte>
    requires |n.direct| == POINTERS_PER_INODE && idx <= POINTERS_PER_INODE
    decreases POINTERS_PER_INODE - idx
  {
    if idx == POINTERS_PER_INODE || n.direct[idx] == 0 || n.direct[idx] >= |disk| || !disk[n.direct[idx]].Data? then []
    else disk[n.direct[idx]].bytes + Contents(n, disk, idx + 1)
  }

  // ---- mount and flush ----

  /** The inodes of the first m inode blocks, read from disk. */
  function LoadTable(disk: seq<Block>, m: nat): seq<Inode>
    requires m < |disk|
  {
    if m == 0 then [] else LoadTable(disk, m - 1) + if disk[m].Inodes? then disk[m].table else []
  }

  function AllFree(): (free: seq<bool>)
    ensures |free| == BLOCK_SIZE
  {
    seq(BLOCK_SIZE, _ => true)
  }

  /** The bitmap after the pointers of the first m inodes have been marked, if valid. */
  function MarkUsed(free0: seq<bool>, table: seq<Inode>, m: nat, first: nat, size: nat): (free: seq<bool>)
    requires m <= |table|
    ensures |free| == |free0|
  {
    if m == 0 then free0
    else
      var free := MarkUsed(free0, table, m - 1, first, size);
      if table[m - 1].valid > 0 then SetAll(free, first, size, table[m - 1].direct, |table[m - 1].direct|, false)
      else free
  }

  /** Mounting a disk. Blocks already marked used stay marked. */
  function MountOn(free0: seq<bool>, disk: seq<Block>): FS
    requires disk != [] && disk[0].Super? && disk[0].inodeBlocks < |disk|
  {
    var ib := disk[0].inodeBlocks;
    var table := LoadTable(disk, ib);
    FS(table, seq(ib, _ => false), MarkUsed(free0, table, |table|, ib + 1, |disk|), disk, false)
  }

  /** Mounting a disk on a new file system object. */
  function Mount(disk: seq<Block>): FS
    requires disk != [] && disk[0].Super? && disk[0].inodeBlocks < |disk|
  {
    MountOn(AllFree(), disk)
  }

  // ---- The bytes of a block ----

  /** The four bytes of an unsigned number, the lowest first. */
  function U32(n: nat): (bytes: seq<byte>)
    ensures |bytes| == 4
  {
    [(n % 256) as byte, (n / 0x100 % 256) as byte, (n / 0x1_0000 % 256) as byte, (n / 0x100_0000 % 256) as byte]
  }

  function PointerBytes(direct: seq<nat>): (bytes: seq<byte>)
    ensures |bytes| == 4 * |direct|
  {
    if direct == [] then [] else U32(direct[0]) + PointerBytes(direct[1..])
  }

  function InodeBytes(table: seq<Inode>): (bytes: seq<byte>)
    ensures (forall n <- table :: |n.direct| == POINTERS_PER_INODE) ==> |bytes| == 32 * |table|
  {
    if table == [] then []
    else
      U32(table[0].valid) + U32(table[0].size) + PointerBytes(table[0].direct) + U32(table[0].indirect)
      + InodeBytes(table[1..])
  }

  /** An inode block or a data block, with as many bytes as a block has. */
  predicate IsWhole(block: Block) {
    match block
    case Super(_, _) => false
    case Inodes(table) => |table| == INODES_PER_BLOCK && forall n <- table :: |n.direct| == POINTERS_PER_INODE
    case Data(bytes) => |bytes| == BLOCK_SIZE
  }

  function Raw(block: Block): (bytes: seq<byte>)
    requires IsWhole(block)
    ensures |bytes| == BLOCK_SIZE
  {
    if block.Data? then block.bytes else InodeBytes(block.table)
  }

  /** The inodes held by inode block b. */
  function Chunk(table: seq<Inode>, b: nat): seq<Inode>
    requires (b + 1) * INODES_PER_BLOCK <= |table|
  {
    table[b * INODES_PER_BLOCK..(b + 1) * INODES_PER_BLOCK]
  }

  /** The disk after the first m inode blocks have been saved where dirty. */
  function Flush(fs: FS, m: nat): (disk: seq<Block>)
    requires m <= |fs.dirty| < |fs.disk| && |fs.table| == |fs.dirty| * INODES_PER_BLOCK
    ensures |disk| == |fs.disk|
  {
    if m == 0 then fs.disk
    else if fs.dirty[m - 1] then Flush(fs, m - 1)[m := Inodes(Chunk(fs.table, m - 1))]
    else Flush(fs, m - 1)
  }
}
