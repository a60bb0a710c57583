/** What each operation does to inodes, dirty flags, bitmap and disk, field by field. */
module FsSteps {
  import opened Numbers
  import opened FsModel
  import opened FsAllocation
  import opened FsFiles
  import opened FsSessions
  import opened FsRemount

  // ---- create ----

  /** Inode i is the first one marked invalid. */
  predicate FirstUnused(table: seq<Inode>, i: nat) {
    i < |table| && table[i].valid == 0 && forall j :: 0 <= j < i ==> table[j].valid != 0
  }

  lemma FirstInvalidIsFirstUnused(table: seq<Inode>, i: nat)
    ensures FirstUnused(table, i) <==> i < |table| && i == FirstInvalid(table)
  {
  }

  /** `create` marks the first invalid inode valid and its block dirty. */
  lemma CreateMarksFirstUnused(fs: FS, i: nat)
    requires |fs.table| == |fs.dirty| * INODES_PER_BLOCK && FirstUnused(fs.table, i)
    ensures var n := fs.table[i];
            Create(fs) == (FS(fs.table[i := Inode(1, n.size, n.direct, n.indirect)],
                              fs.dirty[i / INODES_PER_BLOCK := true], fs.free, fs.disk, fs.halted), i)
  {
    FirstInvalidIsFirstUnused(fs.table, i);
  }

  lemma CreateWithoutUnused(fs: FS)
    requires |fs.table| == |fs.dirty| * INODES_PER_BLOCK && forall j :: 0 <= j < |fs.table| ==> fs.table[j].valid != 0
    ensures Create(fs) == (fs, 0x8000_0000)
  {
    var i := FirstInvalid(fs.table);
  }

  // ---- remove ----

  /** `remove` clears the inode but for its indirect pointer and frees the blocks it pointed to. */
  lemma RemoveClears(fs: FS, i: nat)
    requires Shape(fs) && i < |fs.table|
    ensures var n, fs' := fs.table[i], Remove(fs, i);
            && fs'.table == fs.table[i := Inode(0, 0, [0, 0, 0, 0, 0], n.indirect)]
            && fs'.dirty == fs.dirty && fs'.disk == fs.disk && fs'.halted == fs.halted && |fs'.free| == |fs.free|
            && forall b :: 0 <= b < |fs.free| ==>
                 fs'.free[b] == (fs.free[b] || (b in n.direct && FirstData(fs) <= b < |fs.disk|))
  {
    var n := fs.table[i];
    assert Cleared(n).direct == [0, 0, 0, 0, 0];
    assert n.direct[..POINTERS_PER_INODE] == n.direct;
    forall b | 0 <= b < |fs.free|
      ensures Remove(fs, i).free[b] == (fs.free[b] || (b in n.direct && FirstData(fs) <= b < |fs.disk|))
    {
      MarksAt(fs.free, FirstData(fs), |fs.disk|, n.direct, POINTERS_PER_INODE, true, b);
    }
  }

  lemma {:induction false} MarksAt(free: seq<bool>, first: nat, size: nat, direct: seq<nat>, m: nat, v: bool, b: nat)
    requires m <= |direct| && b < |free|
    ensures SetAll(free, first, size, direct, m, v)[b] == if b in direct[..m] && first <= b < size then v else free[b]
  {
    if m == 0 {
    } else {
      MarksAt(free, first, size, direct, m - 1, v, b);
      assert direct[..m] == direct[..m - 1] + [direct[m - 1]];
    }
  }

  // ---- write ----

  /** Block b is the lowest data block that is free. */
  predicate LowestFree(fs: FS, b: nat) {
    FirstData(fs) <= b < |fs.disk| <= |fs.free| && fs.free[b] && forall c :: FirstData(fs) <= c < b ==> !fs.free[c]
  }

  predicate NoneFree(fs: FS) {
    |fs.disk| <= |fs.free| && forall c :: FirstData(fs) <= c < |fs.disk| ==> !fs.free[c]
  }

  predicate HasPointers(fs: FS, i: nat) {
    i < |fs.table| && |fs.table[i].direct| == POINTERS_PER_INODE
  }

  /** The inode with another pointer at the index. */
  function Pointed(n: Inode, idx: nat, b: nat): Inode
    requires idx < |n.direct|
  {
    Inode(n.valid, n.size, n.direct[idx := b], n.indirect)
  }

  /** `write` stores the bytes in the lowest free block. */
  lemma WriteTakesLowestFree(fs: FS, i: nat, idx: nat, bytes: seq<byte>, b: nat)
    requires HasPointers(fs, i) && idx < POINTERS_PER_INODE && LowestFree(fs, b)
    ensures WriteBlock(fs, i, idx, bytes)
         == FS(fs.table[i := Pointed(fs.table[i], idx, b)], fs.dirty, fs.free[b := false], fs.disk[b := Data(bytes)],
               fs.halted)
  {
    var c := NextFree(fs.free, FirstData(fs), |fs.disk|);
    assert c == b;
  }

  /** With no free block it only sets the pointer, to the size of the disk, before the disk throws. */
  lemma WriteOnFullDisk(fs: FS, i: nat, idx: nat, bytes: seq<byte>)
    requires HasPointers(fs, i) && idx < POINTERS_PER_INODE && NoneFree(fs) && FirstData(fs) <= |fs.disk|
    ensures WriteBlock(fs, i, idx, bytes)
         == FS(fs.table[i := Pointed(fs.table[i], idx, |fs.disk|)], fs.dirty, fs.free, fs.disk, true)
  {
    var c := NextFree(fs.free, FirstData(fs), |fs.disk|);
  }

  /** The bytes are in the lowest free block, if there is one, and nothing else has changed. */
  ghost predicate WroteLowest(fs: FS, fs': FS, i: nat, idx: nat, bytes: seq<byte>)
    requires HasPointers(fs, i) && idx < POINTERS_PER_INODE
  {
    && (forall b: nat :: LowestFree(fs, b) ==>
          fs' == FS(fs.table[i := Pointed(fs.table[i], idx, b)], fs.dirty, fs.free[b := false],
                    fs.disk[b := Data(bytes)], fs.halted))
    && (NoneFree(fs) ==>
          fs' == FS(fs.table[i := Pointed(fs.table[i], idx, |fs.disk|)], fs.dirty, fs.free, fs.disk, true))
  }

  lemma WriteIsExplicit(fs: FS, i: nat, idx: nat, bytes: seq<byte>)
    requires HasPointers(fs, i) && idx < POINTERS_PER_INODE && FirstData(fs) <= |fs.disk| <= |fs.free|
    ensures WroteLowest(fs, WriteBlock(fs, i, idx, bytes), i, idx, bytes)
  {
    hide WriteBlock, Pointed;
    forall b: nat | LowestFree(fs, b)
      ensures WriteBlock(fs, i, idx, bytes)
           == FS(fs.table[i := Pointed(fs.table[i], idx, b)], fs.dirty, fs.free[b := false], fs.disk[b := Data(bytes)],
                 fs.halted)
    {
      WriteTakesLowestFree(fs, i, idx, bytes, b);
    }
    if NoneFree(fs) {
      WriteOnFullDisk(fs, i, idx, bytes);
    }
  }

  // ---- copyin ----

  /** The blocks d[..c] are the c lowest free data blocks of fs0, in ascending order, and no others are gone. */
  ghost predicate TookLowest(fs0: FS, fs: FS, d: seq<nat>, c: nat) {
    && c <= |d| && FirstData(fs) == FirstData(fs0) && |fs.disk| == |fs0.disk| <= |fs.free| == |fs0.free|
    && (forall m :: 0 <= m < c ==> FirstData(fs0) <= d[m] < |fs0.disk| && fs0.free[d[m]])
    && (forall m, m' :: 0 <= m < m' < c ==> d[m] < d[m'])
    && (forall m, b :: 0 <= m < c && FirstData(fs0) <= b < |fs0.disk| && fs.free[b] ==> d[m] < b)
    && (forall b :: 0 <= b < |fs0.free| ==> (fs.free[b] <==> fs0.free[b] && b !in d[..c]))
  }

  /** Everything but the inode's pointers and the blocks d[..c] is as before. */
  ghost predicate OnlyWrote(fs0: FS, fs: FS, i: nat, data: seq<byte>, d: seq<nat>, c: nat)
    requires i < |fs0.table|
  {
    && fs.table == fs0.table[i := Inode(fs0.table[i].valid, fs0.table[i].size, d, fs0.table[i].indirect)]
    && fs.dirty == fs0.dirty && |fs.disk| == |fs0.disk| && c <= |d|
    && (forall b :: 0 <= b < |fs0.disk| && b !in d[..c] ==> fs.disk[b] == fs0.disk[b])
    && (forall m :: 0 <= m < c ==>
          m * BLOCK_SIZE < |data| && d[m] < |fs.disk| && fs.disk[d[m]] == Data(Buffer(data, m)))
  }

  lemma TakesNext(fs0: FS, fs: FS, fs': FS, d: seq<nat>, c: nat, b: nat)
    requires TookLowest(fs0, fs, d, c) && c < |d| && LowestFree(fs, b)
    requires fs'.free == fs.free[b := false] && |fs'.dirty| == |fs.dirty| && |fs'.disk| == |fs.disk|
    ensures TookLowest(fs0, fs', d[c := b], c + 1)
  {
    var d' := d[c := b];
    assert d'[..c + 1] == d[..c] + [b];
  }

  lemma WritesNext(fs0: FS, fs: FS, fs': FS, i: nat, data: seq<byte>, d: seq<nat>, c: nat, b: nat)
    requires i < |fs0.table| && TookLowest(fs0, fs, d, c) && OnlyWrote(fs0, fs, i, data, d, c) && c < |d|
    requires c * BLOCK_SIZE < |data| && LowestFree(fs, b)
    requires fs'.table == fs.table[i := Pointed(fs.table[i], c, b)]
    requires fs'.dirty == fs.dirty && fs'.disk == fs.disk[b := Data(Buffer(data, c))]
    ensures OnlyWrote(fs0, fs', i, data, d[c := b], c + 1)
  {
    hide Buffer;
    var d' := d[c := b];
    assert d'[..c + 1] == d[..c] + [b];
    forall m | 0 <= m < c ensures d[m] != b {
      assert d[m] in d[..c] && !fs.free[d[m]];
    }
  }

  lemma LowestOrNone(fs: FS) returns (b: nat)
    requires FirstData(fs) <= |fs.disk| <= |fs.free|
    ensures LowestFree(fs, b) || (b == |fs.disk| && NoneFree(fs))
  {
    b := NextFree(fs.free, FirstData(fs), |fs.disk|);
  }

  lemma {:induction false} ChunksTakeLowest(fs0: FS, fs: FS, i: nat, data: seq<byte>, c: nat)
    requires WF(fs) && !fs.halted && i < |fs0.table| && i < |fs.table| && fs.table[i].valid != 0
    requires HoldsChunks(fs.table[i], fs.disk, data, c)
    requires TookLowest(fs0, fs, fs.table[i].direct, c) && OnlyWrote(fs0, fs, i, data, fs.table[i].direct, c)
    ensures var fs' := CopyChunks(fs, i, data, c);
            fs'.halted || (HasPointers(fs', i) && TookLowest(fs0, fs', fs'.table[i].direct, Chunks(|data|))
                           && OnlyWrote(fs0, fs', i, data, fs'.table[i].direct, Chunks(|data|))
                           && forall m :: Chunks(|data|) <= m < POINTERS_PER_INODE ==> fs'.table[i].direct[m] == 0)
    decreases POINTERS_PER_INODE - c
  {
    hide Allocated, DiskOk, WriteBlock, Buffer, CopyChunks, Chunks, TookLowest, OnlyWrote, LowestFree, NoneFree;
    MoreChunks(|data|, c);
    CopyChunksStep(fs, i, data, c);
    if c < Chunks(|data|) {
      var b := LowestOrNone(fs);
      WriteChunk(fs, i, data, c);
      var fs1 := WriteBlock(fs, i, c, Buffer(data, c));
      if LowestFree(fs, b) {
        WriteTakesLowestFree(fs, i, c, Buffer(data, c), b);
        TakesNext(fs0, fs, fs1, fs.table[i].direct, c, b);
        WritesNext(fs0, fs, fs1, i, data, fs.table[i].direct, c, b);
        ChunksTakeLowest(fs0, fs1, i, data, c + 1);
      } else {
        WriteOnFullDisk(fs, i, c, Buffer(data, c));
        CopyChunksStep(fs1, i, data, c + 1);
      }
    } else {
    }
  }

  lemma NothingTaken(fs: FS, i: nat, data: seq<byte>)
    requires WF(fs) && i < |fs.table| && Blank(fs.table[i])
    ensures HoldsChunks(fs.table[i], fs.disk, data, 0)
    ensures TookLowest(fs, fs, fs.table[i].direct, 0) && OnlyWrote(fs, fs, i, data, fs.table[i].direct, 0)
  {
    var n := fs.table[i];
    assert fs.table[i := Inode(n.valid, n.size, n.direct, n.indirect)] == fs.table;
  }

  /** Byte x of chunk m: the file's, or, past its end, what the buffer held from the chunk before. */
  function ChunkByte(data: seq<byte>, m: nat, x: nat): byte
    requires m * BLOCK_SIZE < |data| && x < BLOCK_SIZE
  {
    if m * BLOCK_SIZE + x < |data| then data[m * BLOCK_SIZE + x]
    else if m == 0 then 0
    else data[(m - 1) * BLOCK_SIZE + x]
  }

  lemma BufferBytes(data: seq<byte>, m: nat)
    requires m * BLOCK_SIZE < |data|
    ensures forall x :: 0 <= x < BLOCK_SIZE ==> Buffer(data, m)[x] == ChunkByte(data, m, x)
  {
    if m > 0 {
      var c := m - 1;
      forall x | 0 <= x < BLOCK_SIZE ensures Buffer(data, c)[x] == data[c * BLOCK_SIZE + x] {
        BufferHolds(data, c, x);
      }
    }
  }

  /** The data lie in the blocks d[..c], which are the lowest free ones of fs in ascending order; no other block and
      no other bit of the bitmap is different. */
  ghost predicate StoredLowest(fs: FS, fs': FS, data: seq<byte>, d: seq<nat>, c: nat) {
    && |fs'.disk| == |fs.disk| <= |fs.free| == |fs'.free| && c <= |d|
    && (forall m :: 0 <= m < c ==> FirstData(fs) <= d[m] < |fs.disk| && fs.free[d[m]])
    && (forall m, m' :: 0 <= m < m' < c ==> d[m] < d[m'])
    && (forall m, b :: 0 <= m < c && FirstData(fs) <= b < d[m] && b < |fs.free| && fs.free[b] ==> b in d[..m])
    && (forall b :: 0 <= b < |fs.free| ==> (fs'.free[b] <==> fs.free[b] && b !in d[..c]))
    && (forall b :: 0 <= b < |fs.disk| && b !in d[..c] ==> fs'.disk[b] == fs.disk[b])
    && (forall m :: 0 <= m < c ==> HoldsChunk(fs'.disk, d[m], data, m))
  }

  ghost predicate HoldsChunk(disk: seq<Block>, b: nat, data: seq<byte>, m: nat) {
    && m * BLOCK_SIZE < |data| && b < |disk| && disk[b].Data? && |disk[b].bytes| == BLOCK_SIZE
    && forall x :: 0 <= x < BLOCK_SIZE ==> disk[b].bytes[x] == ChunkByte(data, m, x)
  }

  lemma TookIsStored(fs: FS, fs': FS, i: nat, data: seq<byte>, d: seq<nat>, c: nat)
    requires i < |fs.table| && TookLowest(fs, fs', d, c) && OnlyWrote(fs, fs', i, data, d, c)
    ensures StoredLowest(fs, fs', data, d, c)
  {
    hide Buffer;
    forall m | 0 <= m < c ensures HoldsChunk(fs'.disk, d[m], data, m) {
      BufferBytes(data, m);
    }
    forall m, b | 0 <= m < c && FirstData(fs) <= b < d[m] && b < |fs.free| && fs.free[b] ensures b in d[..m] {
      assert !fs'.free[b];
      var x :| 0 <= x < c && d[x] == b;
      assert x < m;
      assert d[..m][x] == b;
    }
  }

  /** The file is in the lowest free blocks in ascending order, as many as it needs and at most five, and the inode has
      its size, or that of five blocks; the rest of the inode, and every other inode, is as before. */
  ghost predicate CopiedLowest(fs: FS, fs': FS, i: nat, data: seq<byte>) {
    && HasPointers(fs, i) && HasPointers(fs', i) && fs'.dirty == fs.dirty
    && var n, c, d := fs.table[i], Chunks(|data|), fs'.table[i].direct;
    && fs'.table == fs.table[i := Inode(n.valid, Min(|data|, 5 * 4096), d, n.indirect)]
    && c <= 5 && (forall m :: 0 <= m < 5 ==> (m < c <==> m * 4096 < |data|))
    && StoredLowest(fs, fs', data, d, c) && forall m :: c <= m < 5 ==> d[m] == 0
  }

  lemma CopyinTakesLowestFree(fs: FS, i: nat, data: seq<byte>)
    requires WF(fs) && !fs.halted && i < |fs.table| && fs.table[i].valid != 0 && Blank(fs.table[i])
    requires !Copyin(fs, i, data).halted
    ensures CopiedLowest(fs, Copyin(fs, i, data), i, data)
  {
    var fs1, d, c := ChunksAreStored(fs, i, data);
    CopyinSetsSize(fs, i, data, fs1);
    hide CopyChunks, Chunks, StoredLowest, Copyin, CopiedLowest, Allocated, DiskOk;
    SizeSets(fs, fs1, Copyin(fs, i, data), i, data, d);
  }

  lemma SizeSets(fs: FS, fs1: FS, fs2: FS, i: nat, data: seq<byte>, d: seq<nat>)
    requires HasPointers(fs, i) && |d| == POINTERS_PER_INODE
    requires fs1.table == fs.table[i := Inode(fs.table[i].valid, fs.table[i].size, d, fs.table[i].indirect)]
    requires fs1.dirty == fs.dirty && StoredLowest(fs, fs1, data, d, Chunks(|data|))
    requires forall m :: Chunks(|data|) <= m < 5 ==> d[m] == 0
    requires var n := fs.table[i];
             fs2 == fs1.(table := fs1.table[i := Inode(n.valid, Min(|data|, 5 * 4096), d, n.indirect)])
    ensures CopiedLowest(fs, fs2, i, data)
  {
    hide StoredLowest;
    SizeKeepsStored(fs, fs1, fs2, data, d, Chunks(|data|));
    ChunkCount(|data|);
  }

  lemma CopyinSetsSize(fs: FS, i: nat, data: seq<byte>, fs1: FS)
    requires Shape(fs) && i < |fs.table| && fs1 == CopyChunks(fs, i, data, 0) && !Copyin(fs, i, data).halted
    ensures !fs1.halted && i < |fs1.table|
    ensures var n := fs1.table[i];
            Copyin(fs, i, data)
            == fs1.(table := fs1.table[i := Inode(n.valid, Min(|data|, 5 * 4096), n.direct, n.indirect)])
  {
    hide CopyChunks;
  }

  lemma ChunkCount(n: nat)
    ensures Chunks(n) <= 5 && forall m :: 0 <= m < 5 ==> (m < Chunks(n) <==> m * 4096 < n)
  {
  }

  lemma ChunksAreStored(fs: FS, i: nat, data: seq<byte>) returns (fs1: FS, d: seq<nat>, c: nat)
    requires WF(fs) && !fs.halted && i < |fs.table| && fs.table[i].valid != 0 && Blank(fs.table[i])
    ensures fs1 == CopyChunks(fs, i, data, 0) && c == Chunks(|data|) && |d| == POINTERS_PER_INODE
    ensures var n := fs.table[i];
            fs1.halted || (fs1.table == fs.table[i := Inode(n.valid, n.size, d, n.indirect)]
                           && fs1.dirty == fs.dirty && StoredLowest(fs, fs1, data, d, c)
                           && forall m :: c <= m < 5 ==> d[m] == 0)
  {
    NothingTaken(fs, i, data);
    hide WF, CopyChunks, Buffer, Chunks, TookLowest, OnlyWrote, StoredLowest;
    ChunksTakeLowest(fs, fs, i, data, 0);
    fs1, c := CopyChunks(fs, i, data, 0), Chunks(|data|);
    d := if fs1.halted then [0, 0, 0, 0, 0] else fs1.table[i].direct;
    if !fs1.halted {
      TookIsStored(fs, fs1, i, data, d, c);
      InodeWritten(fs, fs1, i, data, d, c);
    }
  }

  lemma InodeWritten(fs: FS, fs': FS, i: nat, data: seq<byte>, d: seq<nat>, c: nat)
    requires i < |fs.table| && OnlyWrote(fs, fs', i, data, d, c)
    ensures fs'.table == fs.table[i := Inode(fs.table[i].valid, fs.table[i].size, d, fs.table[i].indirect)]
    ensures fs'.dirty == fs.dirty
  {
  }

  lemma SizeKeepsStored(fs: FS, fs1: FS, fs2: FS, data: seq<byte>, d: seq<nat>, c: nat)
    requires StoredLowest(fs, fs1, data, d, c) && fs2.free == fs1.free && fs2.disk == fs1.disk
    ensures StoredLowest(fs, fs2, data, d, c)
  {
  }

  /** The first m pointers lead to data blocks, and the next one is null. */
  ghost predicate Occupies(n: Inode, disk: seq<Block>, m: nat) {
    && |n.direct| == POINTERS_PER_INODE && m <= 5 && (m < 5 ==> n.direct[m] == 0)
    && forall k :: 0 <= k < m ==> 0 < n.direct[k] < |disk| && disk[n.direct[k]].Data?
                                  && |disk[n.direct[k]].bytes| == BLOCK_SIZE
  }

  /** A file is copied out as the blocks before its first null pointer, in order. */
  lemma CopyoutReads(fs: FS, i: nat, m: nat, k: nat)
    requires WF(fs) && i < |fs.table| && k < m <= 5 && (m < 5 ==> fs.table[i].direct[m] == 0)
    requires forall k :: 0 <= k < m ==> fs.table[i].direct[k] != 0
    ensures fs.table[i].direct[k] < |fs.disk| && fs.disk[fs.table[i].direct[k]].Data? && |File(fs, i)| == m * 4096
    ensures File(fs, i)[k * 4096..(k + 1) * 4096] == fs.disk[fs.table[i].direct[k]].bytes
  {
    forall k | 0 <= k < m ensures FirstData(fs) <= fs.table[i].direct[k] < |fs.disk| {
      assert Directs(fs.table)[i][k] == fs.table[i].direct[k];
    }
    ContentsSize(fs.table[i], fs.disk, m, 0);
    ContentsAt(fs.table[i], fs.disk, m, 0, k);
  }

  lemma {:induction false} ContentsSize(n: Inode, disk: seq<Block>, m: nat, idx: nat)
    requires Occupies(n, disk, m) && idx <= m
    ensures |Contents(n, disk, idx)| == (m - idx) * BLOCK_SIZE
    decreases m - idx
  {
    if idx == m {
    } else {
      ContentsSize(n, disk, m, idx + 1);
    }
  }

  lemma {:induction false} ContentsAt(n: Inode, disk: seq<Block>, m: nat, idx: nat, k: nat)
    requires Occupies(n, disk, m) && idx <= k < m && |Contents(n, disk, idx)| == (m - idx) * BLOCK_SIZE
    ensures Contents(n, disk, idx)[(k - idx) * BLOCK_SIZE..(k - idx + 1) * BLOCK_SIZE] == disk[n.direct[k]].bytes
    decreases m - idx
  {
    var rest, all := Contents(n, disk, idx + 1), Contents(n, disk, idx);
    assert all == disk[n.direct[idx]].bytes + rest;
    hide Contents;
    if idx < k {
      ContentsAt(n, disk, m, idx + 1, k);
      var at := (k - (idx + 1)) * BLOCK_SIZE;
      assert all[at + BLOCK_SIZE..at + 2 * BLOCK_SIZE] == rest[at..at + BLOCK_SIZE];
    }
  }

  // ---- The commands ----

  /** A copyin whose inode number is not below the number of inode blocks leaves it created, with no bytes. */
  lemma RefusedStaysCreated(fs: FS, data: seq<byte>, i: nat)
    requires WF(fs) && FirstUnused(fs.table, i) && i >= |fs.dirty|
    ensures var n, fs' := fs.table[i], Do(fs, CopyinFile(data));
            && fs' == FS(fs.table[i := Inode(1, n.size, n.direct, n.indirect)], fs.dirty[i / INODES_PER_BLOCK := true],
                         fs.free, fs.disk, fs.halted)
            && |n.direct| == POINTERS_PER_INODE && File(fs', i) == [] && (UnusedAreEmpty(fs) ==> fs'.table[i].size == 0)
  {
    CreateMarksFirstUnused(fs, i);
    assert fs.table[i].direct[0] == 0;
  }

  /** With every inode in use nothing happens. */
  lemma NothingToCreate(fs: FS, data: seq<byte>)
    requires WF(fs) && forall j :: 0 <= j < |fs.table| ==> fs.table[j].valid != 0
    ensures Do(fs, CopyinFile(data)) == fs
  {
    CreateWithoutUnused(fs);
  }

  /** A copyin that finds an inode it accepts and blocks enough fills that inode and marks its block dirty. */
  lemma AcceptedIsStored(fs: FS, data: seq<byte>, i: nat)
    requires WF(fs) && !fs.halted && FirstUnused(fs.table, i) && i < |fs.dirty| && |FreeBlocks(fs)| >= Chunks(|data|)
    ensures var fs', n := Do(fs, CopyinFile(data)), fs.table[i];
            && !fs'.halted && HasPointers(fs', i) && fs'.dirty == fs.dirty[i / INODES_PER_BLOCK := true]
            && fs'.table == fs.table[i := Inode(1, Min(|data|, 5 * 4096), fs'.table[i].direct, n.indirect)]
            && StoredLowest(fs, fs', data, fs'.table[i].direct, Chunks(|data|))
  {
    FirstInvalidIsFirstUnused(fs.table, i);
    CreateMarksFirstUnused(fs, i);
    CreatedIsBlank(fs);
    DoCopyinHaltsIff(fs, data);
    hide Copyin, Allocated, DiskOk, StoredLowest, FirstInvalid, Create, FirstUnused, FreeBlocks, Chunks;
    var fs1 := Create(fs).0;
    var fs2 := Copyin(fs1, i, data);
    assert DoCopyin(fs, data) == fs2;
    CopyinTakesLowestFree(fs1, i, data);
    assert fs2.table == fs.table[i := Inode(1, Min(|data|, 5 * 4096), fs2.table[i].direct, fs.table[i].indirect)];
    StoredSince(fs, fs1, fs2, data, fs2.table[i].direct, Chunks(|data|));
  }

  lemma StoredSince(fs: FS, fs1: FS, fs': FS, data: seq<byte>, d: seq<nat>, c: nat)
    requires StoredLowest(fs1, fs', data, d, c)
    requires fs1.free == fs.free && fs1.disk == fs.disk && |fs1.dirty| == |fs.dirty|
    ensures StoredLowest(fs, fs', data, d, c)
  {
  }

  /** Removing and copying out as commands. */
  lemma OtherCommands(fs: FS, i: nat)
    requires WF(fs) && i < |fs.table|
    ensures Do(fs, RemoveFile(i)) == Remove(fs, i) && Do(fs, CopyoutFile(i)) == fs
  {
    ReadingChangesNothing(fs, i, POINTERS_PER_INODE);
  }

  // ---- Unused inodes over a session ----

  /** The inode numbers that the copyin commands have created. */
  ghost function Taken(fs: FS, cmds: seq<Command>): set<nat>
    requires Live(fs, |fs.table|) && forall cmd <- cmds :: InRange(cmd, |fs.table|)
    decreases |cmds|
  {
    if cmds == [] || fs.halted then {}
    else
      var last := |cmds| - 1;
      var fs1 := Run(fs, cmds[..last]);
      Taken(fs, cmds[..last]) +
      if fs1.halted || !cmds[last].CopyinFile? then {} else set i | 0 <= i < |fs1.table| && FirstUnused(fs1.table, i)
  }

  /** Marked invalid, with size 0 and no blocks. */
  ghost predicate Unused(n: Inode) {
    n.valid == 0 && n.size == 0 && n.direct == [0, 0, 0, 0, 0]
  }

  lemma CommandKeepsUnused(fs: FS, cmd: Command, i: nat)
    requires WF(fs) && !fs.halted && InRange(cmd, |fs.table|) && !Do(fs, cmd).halted
    requires i < |fs.table| && Unused(fs.table[i]) && (cmd.CopyinFile? ==> !FirstUnused(fs.table, i))
    ensures i < |Do(fs, cmd).table| && Unused(Do(fs, cmd).table[i])
  {
    hide Copyin, Allocated, DiskOk, DoCopyin, Remove;
    match cmd {
      case CopyinFile(data) =>
        CopyinTouches(fs, data);
        FirstInvalidIsFirstUnused(fs.table, i);
      case CopyoutFile(j) =>
        OtherCommands(fs, j);
      case RemoveFile(j) =>
        OtherCommands(fs, j);
        RemoveClears(fs, j);
    }
  }

  lemma {:induction false} UnusedStaysUnused(fs: FS, cmds: seq<Command>, i: nat)
    requires WF(fs) && !fs.halted && forall cmd <- cmds :: InRange(cmd, |fs.table|)
    requires i < |fs.table| && Unused(fs.table[i]) && i !in Taken(fs, cmds) && !Run(fs, cmds).halted
    ensures i < |Run(fs, cmds).table| && Unused(Run(fs, cmds).table[i])
    decreases |cmds|
  {
    hide Do, Allocated, DiskOk, Unused, FirstUnused;
    if cmds == [] {
    } else {
      var last := |cmds| - 1;
      var fs1 := Run(fs, cmds[..last]);
      assert cmds[last] in cmds;
      UnusedStaysUnused(fs, cmds[..last], i);
      CommandKeepsUnused(fs1, cmds[last], i);
    }
  }

  /** After an inode has been removed its size is 0, and it has no blocks, until a copyin takes it again. */
  lemma RemovedStaysEmpty(fs: FS, cmds: seq<Command>, i: nat)
    requires WF(fs) && !fs.halted && i < |fs.table| && forall cmd <- cmds :: InRange(cmd, |fs.table|)
    ensures WF(Do(fs, RemoveFile(i))) && |Do(fs, RemoveFile(i)).table| == |fs.table| && !Do(fs, RemoveFile(i)).halted
    ensures var fs1 := Do(fs, RemoveFile(i));
            i !in Taken(fs1, cmds) && !Run(fs1, cmds).halted ==>
              i < |Run(fs1, cmds).table| && Run(fs1, cmds).table[i].valid == 0 && Run(fs1, cmds).table[i].size == 0
              && Run(fs1, cmds).table[i].direct == [0, 0, 0, 0, 0]
  {
    var fs1 := Do(fs, RemoveFile(i));
    OtherCommands(fs, i);
    RemoveKeepsWF(fs, i);
    RemoveClears(fs, i);
    assert Unused(fs1.table[i]);
    hide Do, WF, Remove, Run, Taken;
    if i !in Taken(fs1, cmds) && !Run(fs1, cmds).halted {
      UnusedStaysUnused(fs1, cmds, i);
    }
  }

  ghost predicate UnusedAreEmpty(fs: FS) {
    forall i :: 0 <= i < |fs.table| && fs.table[i].valid == 0 ==> Unused(fs.table[i])
  }

  lemma CreatedIsUsed(fs: FS, data: seq<byte>, i: nat)
    requires WF(fs) && !fs.halted && !DoCopyin(fs, data).halted && FirstUnused(fs.table, i)
    ensures i < |DoCopyin(fs, data).table| && DoCopyin(fs, data).table[i].valid != 0
  {
    FirstInvalidIsFirstUnused(fs.table, i);
    CreatedIsBlank(fs);
    hide Copyin, Allocated, DiskOk;
    if i < |fs.dirty| {
      CopyinEffect(Create(fs).0, i, data);
    }
  }

  lemma CommandKeepsEmpty(fs: FS, cmd: Command)
    requires WF(fs) && !fs.halted && InRange(cmd, |fs.table|) && !Do(fs, cmd).halted && UnusedAreEmpty(fs)
    ensures UnusedAreEmpty(Do(fs, cmd))
  {
    var fs' := Do(fs, cmd);
    hide Copyin, Allocated, DiskOk, DoCopyin, Remove, Unused;
    forall i | 0 <= i < |fs'.table| && fs'.table[i].valid == 0 ensures Unused(fs'.table[i]) {
      match cmd {
        case CopyinFile(data) =>
          CopyinTouches(fs, data);
          if FirstUnused(fs.table, i) {
            CreatedIsUsed(fs, data, i);
          } else {
            FirstInvalidIsFirstUnused(fs.table, i);
          }
        case CopyoutFile(j) =>
          OtherCommands(fs, j);
        case RemoveFile(j) =>
          OtherCommands(fs, j);
          RemoveClears(fs, j);
          if i == j {
            assert Unused(fs'.table[i]) by { ClearedIsUnused(fs'.table[i]); }
          }
      }
    }
  }

  lemma ClearedIsUnused(n: Inode)
    requires n.valid == 0 && n.size == 0 && n.direct == [0, 0, 0, 0, 0]
    ensures Unused(n)
  {
  }

  /** If no unused inode has a size to begin with, none ever has; an inode that copyin creates and then refuses has
      size 0 too. */
  lemma {:induction false} UnusedStayEmpty(fs: FS, cmds: seq<Command>)
    requires WF(fs) && !fs.halted && UnusedAreEmpty(fs) && forall cmd <- cmds :: InRange(cmd, |fs.table|)
    ensures Run(fs, cmds).halted || UnusedAreEmpty(Run(fs, cmds))
    decreases |cmds|
  {
    hide Do, Allocated, DiskOk, UnusedAreEmpty;
    if cmds == [] {
    } else {
      var last := |cmds| - 1;
      var fs1 := Run(fs, cmds[..last]);
      assert cmds[last] in cmds;
      UnusedStayEmpty(fs, cmds[..last]);
      if !Run(fs, cmds).halted {
        CommandKeepsEmpty(fs1, cmds[last]);
      }
    }
  }

  // ---- mount ----

  /** Mounting reads inode i from block i / 128 + 1, clears the dirty flags, and leaves a block free that was free and
      that no valid inode points to. */
  lemma MountReads(free0: seq<bool>, disk: seq<Block>, i: nat, b: nat)
    requires Loadable(disk) && |free0| == BLOCK_SIZE
    requires i < disk[0].inodeBlocks * INODES_PER_BLOCK && b < BLOCK_SIZE
    ensures var fs, ib := MountOn(free0, disk), disk[0].inodeBlocks;
            && |fs.table| == ib * 128 && i / 128 + 1 <= ib && fs.table[i] == disk[i / 128 + 1].table[i % 128]
            && fs.dirty == seq(ib, _ => false) && fs.disk == disk && !fs.halted && |fs.free| == |free0|
            && (fs.free[b] <==> free0[b] && (ib < b < |disk| ==>
                  forall j :: 0 <= j < |fs.table| && fs.table[j].valid > 0 ==> b !in fs.table[j].direct))
  {
    var ib := disk[0].inodeBlocks;
    LoadTableAt(disk, ib);
    var table := LoadTable(disk, ib);
    if ib < b < |disk| {
      MarkedAt(free0, table, |table|, ib + 1, |disk|, b);
    } else {
      NotMarked(free0, table, |table|, ib + 1, |disk|, b);
    }
  }

  lemma {:induction false} NotMarked(free0: seq<bool>, table: seq<Inode>, m: nat, first: nat, size: nat, b: nat)
    requires m <= |table| && b < |free0| && !(first <= b < size)
    ensures MarkUsed(free0, table, m, first, size)[b] == free0[b]
  {
    if m == 0 {
    } else {
      NotMarked(free0, table, m - 1, first, size, b);
      var direct := table[m - 1].direct;
      MarksAt(MarkUsed(free0, table, m - 1, first, size), first, size, direct, |direct|, false, b);
    }
  }

  // ---- saving ----

  /** Saving writes inode i / 128 + 1 if it is dirty, and no other block. */
  lemma SavingWrites(fs: FS, b: nat)
    requires WF(fs) && b < |fs.disk|
    ensures var ib, disk := |fs.dirty|, Saved(fs);
            if 1 <= b <= ib && fs.dirty[b - 1]
            then && disk[b].Inodes? && |disk[b].table| == 128
                 && forall o :: 0 <= o < 128 ==>
                      (b - 1) * 128 + o < |fs.table| && disk[b].table[o] == fs.table[(b - 1) * 128 + o]
            else disk[b] == fs.disk[b]
  {
    FlushAt(fs, |fs.dirty|, b);
  }

  // ---- The bytes of an inode block ----

  /** The number that four bytes stand for, the lowest first. */
  function Number(bytes: seq<byte>): nat
    requires |bytes| == 4
  {
    bytes[0] as nat + 0x100 * bytes[1] as nat + 0x1_0000 * bytes[2] as nat + 0x100_0000 * bytes[3] as nat
  }

  lemma U32IsRead(n: nat)
    ensures Number(U32(n)) == n % 0x1_0000_0000
  {
    var q1 := n / 0x100;
    var q2 := q1 / 0x100;
    var q3 := q2 / 0x100;
    TwoDivisions(n, 0x100);
    TwoDivisions(n, 0x1_0000);
    var b0, b1, b2, b3 := n % 0x100, q1 % 0x100, q2 % 0x100, q3 % 0x100;
    assert Number(U32(n)) == b0 + 0x100 * b1 + 0x1_0000 * b2 + 0x100_0000 * b3;
    hide U32, Number;
    LowBytes(n, b0, b1, b2, b3, q1, q2, q3, q3 / 0x100);
  }

  lemma LowBytes(n: nat, b0: nat, b1: nat, b2: nat, b3: nat, q1: nat, q2: nat, q3: nat, q4: nat)
    requires b0 < 0x100 && b1 < 0x100 && b2 < 0x100 && b3 < 0x100
    requires n == 0x100 * q1 + b0 && q1 == 0x100 * q2 + b1 && q2 == 0x100 * q3 + b2 && q3 == 0x100 * q4 + b3
    ensures n % 0x1_0000_0000 == b0 + 0x100 * b1 + 0x1_0000 * b2 + 0x100_0000 * b3
  {
    var low := b0 + 0x100 * b1 + 0x1_0000 * b2 + 0x100_0000 * b3;
    assert n == 0x1_0000_0000 * q4 + low;
  }

  lemma TwoDivisions(n: nat, c: nat)
    requires c == 0x100 || c == 0x1_0000
    ensures n / (c * 0x100) == n / c / 0x100
  {
  }

  /** The w-th field of an inode: Valid, Size, the five pointers, Indirect. */
  function Field(n: Inode, w: nat): nat
    requires |n.direct| == 5 && w < 8
  {
    if w == 0 then n.valid else if w == 1 then n.size else if w < 7 then n.direct[w - 2] else n.indirect
  }

  lemma {:induction false} PointerBytesAt(direct: seq<nat>, k: nat)
    requires k < |direct|
    ensures PointerBytes(direct)[4 * k..4 * k + 4] == U32(direct[k])
  {
    hide U32;
    if k == 0 {
    } else {
      PointerBytesAt(direct[1..], k - 1);
      var rest := PointerBytes(direct[1..]);
      assert PointerBytes(direct)[4 * k..4 * k + 4] == rest[4 * (k - 1)..4 * (k - 1) + 4];
    }
  }

  /** Byte 32 i + 4 w of an inode block starts the w-th field of inode i, the lowest byte first. */
  lemma {:induction false} InodeBytesAt(table: seq<Inode>, i: nat, w: nat)
    requires i < |table| && w < 8 && forall n <- table :: |n.direct| == POINTERS_PER_INODE
    ensures 32 * i + 4 * w + 4 <= |InodeBytes(table)|
    ensures Number(InodeBytes(table)[32 * i + 4 * w..32 * i + 4 * w + 4]) == Field(table[i], w) % 0x1_0000_0000
  {
    hide U32, Number, PointerBytes;
    var rest := InodeBytes(table[1..]);
    if i == 0 {
      var n := table[0];
      assert |n.direct| == POINTERS_PER_INODE;
      FirstInode(n, rest, w);
    } else {
      InodeBytesAt(table[1..], i - 1, w);
      var at := 32 * (i - 1) + 4 * w;
      assert InodeBytes(table)[at + 32..at + 36] == rest[at..at + 4];
    }
  }

  lemma FirstInode(n: Inode, rest: seq<byte>, w: nat)
    requires |n.direct| == 5 && w < 8
    ensures var bytes := U32(n.valid) + U32(n.size) + PointerBytes(n.direct) + U32(n.indirect) + rest;
            Number(bytes[4 * w..4 * w + 4]) == Field(n, w) % 0x1_0000_0000
  {
    hide U32, Number, PointerBytes;
    var bytes := U32(n.valid) + U32(n.size) + PointerBytes(n.direct) + U32(n.indirect) + rest;
    U32IsRead(Field(n, w));
    if 2 <= w < 7 {
      PointerBytesAt(n.direct, w - 2);
      assert bytes[4 * w..4 * w + 4] == PointerBytes(n.direct)[4 * (w - 2)..4 * (w - 2) + 4];
    } else {
      assert bytes[4 * w..4 * w + 4] == U32(Field(n, w));
    }
  }
}
