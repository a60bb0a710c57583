/** What the files contain: copying a file in and out again returns its bytes, padded to whole blocks,
    and touches no other file. Copying in runs out of space exactly when it needs more blocks than are free. */
module FsFiles {
  import opened Numbers
  import opened FsModel
  import opened FsAllocation

  /** The number of blocks a file of n bytes takes; the sixth and later ones are dropped. */
  function Chunks(n: nat): nat {
    Min(POINTERS_PER_INODE, (n + BLOCK_SIZE - 1) / BLOCK_SIZE)
  }

  /** The file's bytes in whole blocks, as they lie on the disk. */
  function Padded(data: seq<byte>, c: nat): seq<byte>
    requires c <= POINTERS_PER_INODE
    decreases POINTERS_PER_INODE - c
  {
    if c == POINTERS_PER_INODE || |data| <= c * BLOCK_SIZE then [] else Buffer(data, c) + Padded(data, c + 1)
  }

  lemma BufferHolds(data: seq<byte>, c: nat, x: nat)
    requires c * BLOCK_SIZE + x < |data| && x < BLOCK_SIZE
    ensures Buffer(data, c)[x] == data[c * BLOCK_SIZE + x]
  {
  }

  lemma {:induction false} PaddedSize(data: seq<byte>, c: nat)
    requires c <= Chunks(|data|)
    ensures |Padded(data, c)| == (Chunks(|data|) - c) * BLOCK_SIZE
    decreases POINTERS_PER_INODE - c
  {
    if c >= Chunks(|data|) {
    } else {
      PaddedSize(data, c + 1);
    }
  }

  /** Padded starts with the file's bytes, as far as five blocks hold them. */
  lemma {:induction false} PaddedHolds(data: seq<byte>, c: nat, x: nat)
    requires c * BLOCK_SIZE <= x < Min(|data|, MAX_SIZE)
    ensures x - c * BLOCK_SIZE < |Padded(data, c)| && Padded(data, c)[x - c * BLOCK_SIZE] == data[x]
    decreases POINTERS_PER_INODE - c
  {
    hide Buffer;
    if x < (c + 1) * BLOCK_SIZE {
      BufferHolds(data, c, x - c * BLOCK_SIZE);
    } else {
      PaddedHolds(data, c + 1, x);
    }
  }

  // ---- What copying in changes ----

  ghost predicate SameBut(table: seq<Inode>, table': seq<Inode>, i: nat) {
    |table'| == |table| && forall j :: 0 <= j < |table| && j != i ==> table'[j] == table[j]
  }

  /** Blocks in use keep their bytes, and so do the inode blocks. */
  ghost predicate KeepsUsed(fs: FS, fs': FS) {
    && |fs'.disk| == |fs.disk|
    && forall b :: 0 <= b < |fs.disk| && (b < FirstData(fs) || Used(Directs(fs.table), b)) ==> fs'.disk[b] == fs.disk[b]
  }

  /** The pointers of a file that is being copied in: chunks before c are on disk, the rest is not allocated. */
  ghost predicate HoldsChunks(n: Inode, disk: seq<Block>, data: seq<byte>, c: nat) {
    && |n.direct| == POINTERS_PER_INODE && c <= Chunks(|data|)
    && (forall m :: 0 <= m < c ==> 0 < n.direct[m] < |disk| && disk[n.direct[m]] == Data(Buffer(data, m)))
    && (forall m :: c <= m < POINTERS_PER_INODE ==> n.direct[m] == 0)
  }

  lemma WriteChunk(fs: FS, i: nat, data: seq<byte>, c: nat)
    requires WF(fs) && !fs.halted && i < |fs.table| && fs.table[i].valid != 0
    requires HoldsChunks(fs.table[i], fs.disk, data, c) && c < Chunks(|data|)
    ensures var fs' := WriteBlock(fs, i, c, Buffer(data, c));
            fs'.halted || (WF(fs') && SameBut(fs.table, fs'.table, i) && KeepsUsed(fs, fs') && fs'.dirty == fs.dirty
                           && HoldsChunks(fs'.table[i], fs'.disk, data, c + 1)
                           && fs'.table[i].(direct := []) == fs.table[i].(direct := [])
                           && forall m :: 0 <= m < POINTERS_PER_INODE && fs.table[i].direct[m] != 0 ==>
                                fs'.table[i].direct[m] == fs.table[i].direct[m])
  {
    hide Buffer, Allocated;
    var fs' := WriteBlock(fs, i, c, Buffer(data, c));
    WriteKeepsWF(fs, i, c, Buffer(data, c));
    if !fs'.halted {
      var d, b := Directs(fs.table), NextFree(fs.free, FirstData(fs), |fs.disk|);
      FreeIsUnused(fs, b);
      forall m | 0 <= m < c ensures fs'.disk[fs'.table[i].direct[m]] == Data(Buffer(data, m)) {
        UsedBySlot(d, i, m);
      }
      hide Used;
    }
  }

  lemma FreeIsUnused(fs: FS, b: nat)
    requires WF(fs) && FirstData(fs) <= b < |fs.disk| && fs.free[b]
    ensures !Used(Directs(fs.table), b)
  {
  }

  lemma UsedStays(fs: FS, fs': FS, i: nat, b: nat)
    requires Shape(fs) && Shape(fs') && i < |fs.table| && SameBut(fs.table, fs'.table, i)
    requires forall m :: 0 <= m < POINTERS_PER_INODE && fs.table[i].direct[m] != 0 ==>
               fs'.table[i].direct[m] == fs.table[i].direct[m]
    requires b != 0 && Used(Directs(fs.table), b)
    ensures Used(Directs(fs'.table), b)
  {
    var j, m :| 0 <= j < |fs.table| && 0 <= m < |fs.table[j].direct| && fs.table[j].direct[m] == b;
    assert Directs(fs'.table)[j][m] == b;
  }

  lemma {:induction false} ChunksAreCopied(fs: FS, i: nat, data: seq<byte>, c: nat)
    requires WF(fs) && !fs.halted && i < |fs.table| && fs.table[i].valid != 0
    requires HoldsChunks(fs.table[i], fs.disk, data, c)
    ensures var fs' := CopyChunks(fs, i, data, c);
            fs'.halted || (WF(fs') && SameBut(fs.table, fs'.table, i) && KeepsUsed(fs, fs') && fs'.dirty == fs.dirty
                           && HoldsChunks(fs'.table[i], fs'.disk, data, Chunks(|data|))
                           && fs'.table[i].(direct := []) == fs.table[i].(direct := []))
    decreases POINTERS_PER_INODE - c
  {
    hide Allocated, DiskOk, WriteBlock, Buffer, KeepsUsed;
    if c < Chunks(|data|) {
      var fs1 := WriteBlock(fs, i, c, Buffer(data, c));
      WriteChunk(fs, i, data, c);
      if !fs1.halted {
        ChunksAreCopied(fs1, i, data, c + 1);
        var fs2 := CopyChunks(fs1, i, data, c + 1);
        if !fs2.halted {
          KeptTwice(fs, fs1, fs2, i);
        }
      }
    } else {
      KeptOnce(fs);
    }
  }

  lemma KeptOnce(fs: FS)
    ensures KeepsUsed(fs, fs)
  {
  }

  lemma KeptTwice(fs: FS, fs1: FS, fs2: FS, i: nat)
    requires Shape(fs) && Shape(fs1) && i < |fs.table| && SameBut(fs.table, fs1.table, i)
    requires FirstData(fs1) == FirstData(fs) && KeepsUsed(fs, fs1) && KeepsUsed(fs1, fs2)
    requires forall m :: 0 <= m < POINTERS_PER_INODE && fs.table[i].direct[m] != 0 ==>
               fs1.table[i].direct[m] == fs.table[i].direct[m]
    ensures KeepsUsed(fs, fs2)
  {
    forall b | 0 < b < |fs.disk| && Used(Directs(fs.table), b) ensures Used(Directs(fs1.table), b) {
      UsedStays(fs, fs1, i, b);
    }
  }

  // ---- Reading back ----

  lemma {:induction false} ContentsOfChunks(n: Inode, disk: seq<Block>, data: seq<byte>, c: nat)
    requires HoldsChunks(n, disk, data, Chunks(|data|)) && c <= Chunks(|data|)
    ensures Contents(n, disk, c) == Padded(data, c)
    decreases POINTERS_PER_INODE - c
  {
    if c >= Chunks(|data|) {
    } else {
      ContentsOfChunks(n, disk, data, c + 1);
    }
  }

  lemma {:induction false} ContentsUnchanged(n: Inode, n': Inode, disk: seq<Block>, disk': seq<Block>, c: nat)
    requires |n.direct| == POINTERS_PER_INODE && n'.direct == n.direct && c <= POINTERS_PER_INODE && |disk'| == |disk|
    requires forall m :: 0 <= m < POINTERS_PER_INODE && 0 < n.direct[m] < |disk| ==>
               disk'[n.direct[m]] == disk[n.direct[m]]
    ensures Contents(n', disk', c) == Contents(n, disk, c)
    decreases POINTERS_PER_INODE - c
  {
    if c == POINTERS_PER_INODE {
    } else {
      ContentsUnchanged(n, n', disk, disk', c + 1);
    }
  }

  ghost function File(fs: FS, i: nat): seq<byte>
    requires i < |fs.table| && |fs.table[i].direct| == POINTERS_PER_INODE
  {
    Contents(fs.table[i], fs.disk, 0)
  }

  lemma FileUnchanged(fs: FS, fs': FS, j: nat)
    requires Shape(fs) && KeepsUsed(fs, fs') && j < |fs.table| && j < |fs'.table|
    requires fs'.table[j].direct == fs.table[j].direct
    ensures File(fs', j) == File(fs, j)
  {
    forall m | 0 <= m < POINTERS_PER_INODE && 0 < fs.table[j].direct[m] < |fs.disk|
      ensures fs'.disk[fs.table[j].direct[m]] == fs.disk[fs.table[j].direct[m]]
    {
      UsedBySlot(Directs(fs.table), j, m);
    }
    ContentsUnchanged(fs.table[j], fs'.table[j], fs.disk, fs'.disk, 0);
  }

  /** `fs'` is `fs` after the data went into inode i, everything else being as before. */
  ghost predicate CopiedIn(fs: FS, fs': FS, i: nat, data: seq<byte>)
    requires i < |fs.table|
  {
    && WF(fs') && SameBut(fs.table, fs'.table, i) && KeepsUsed(fs, fs') && fs'.dirty == fs.dirty
    && fs'.table[i].size == Min(|data|, MAX_SIZE) && fs'.table[i].valid == fs.table[i].valid
    && File(fs', i) == Padded(data, 0)
  }

  lemma SizeSet(fs: FS, fs': FS, i: nat, data: seq<byte>)
    requires WF(fs) && WF(fs') && i < |fs.table| && SameBut(fs.table, fs'.table, i)
    requires KeepsUsed(fs, fs') && fs'.dirty == fs.dirty
    requires fs'.table[i].valid == fs.table[i].valid && |fs'.table[i].direct| == POINTERS_PER_INODE
    requires File(fs', i) == Padded(data, 0)
    ensures CopiedIn(fs, UpdateSize(fs', i, Min(|data|, MAX_SIZE)), i, data)
  {
    hide WF, KeepsUsed, Padded, File;
    UpdateSizeKeepsWF(fs', i, Min(|data|, MAX_SIZE));
    var fs'' := UpdateSize(fs', i, Min(|data|, MAX_SIZE));
    SizeKeepsFile(fs', i, Min(|data|, MAX_SIZE));
    SameKept(fs, fs', fs'');
  }

  lemma SizeKeepsFile(fs: FS, i: nat, size: nat)
    requires i < |fs.table| && |fs.table[i].direct| == POINTERS_PER_INODE
    ensures File(UpdateSize(fs, i, size), i) == File(fs, i)
  {
    ContentsUnchanged(fs.table[i], UpdateSize(fs, i, size).table[i], fs.disk, fs.disk, 0);
  }

  lemma SameKept(fs: FS, fs': FS, fs'': FS)
    requires KeepsUsed(fs, fs') && fs''.disk == fs'.disk
    ensures KeepsUsed(fs, fs'')
  {
  }

  lemma CopyinEffect(fs: FS, i: nat, data: seq<byte>)
    requires WF(fs) && !fs.halted && i < |fs.table| && fs.table[i].valid != 0 && Blank(fs.table[i])
    ensures Copyin(fs, i, data).halted || CopiedIn(fs, Copyin(fs, i, data), i, data)
  {
    var fs' := CopyChunks(fs, i, data, 0);
    ChunksAreCopied(fs, i, data, 0);
    hide CopyChunks;
    if !fs'.halted {
      ContentsOfChunks(fs'.table[i], fs'.disk, data, 0);
      SizeSet(fs, fs', i, data);
    }
  }

  /** Copying a file into a blank inode: `copyout` then writes the first bytes of the file, as many as `stat`
      reports and at most five blocks, filled up to whole blocks; every other file is as before. */
  lemma CopyinCopyout(fs: FS, i: nat, data: seq<byte>)
    requires WF(fs) && !fs.halted && i < |fs.table| && fs.table[i].valid != 0 && Blank(fs.table[i])
    requires !Copyin(fs, i, data).halted
    ensures var fs', n := Copyin(fs, i, data), Min(|data|, MAX_SIZE);
            && WF(fs') && fs'.table[i].size == n <= |File(fs', i)|
            && |File(fs', i)| == (n + BLOCK_SIZE - 1) / BLOCK_SIZE * BLOCK_SIZE
            && File(fs', i)[..n] == data[..n]
            && forall j :: 0 <= j < |fs.table| && j != i ==> fs'.table[j] == fs.table[j] && File(fs', j) == File(fs, j)
  {
    hide Copyin, Allocated, Padded, DiskOk, KeepsUsed, File;
    var fs', n := Copyin(fs, i, data), Min(|data|, MAX_SIZE);
    CopyinEffect(fs, i, data);
    PaddedSize(data, 0);
    forall x | 0 <= x < n ensures x < |Padded(data, 0)| && Padded(data, 0)[x] == data[x] {
      PaddedHolds(data, 0, x);
    }
    forall j | 0 <= j < |fs.table| && j != i ensures File(fs', j) == File(fs, j) {
      FileUnchanged(fs, fs', j);
    }
  }

  // ---- Running out of space ----

  ghost function FreeBlocks(fs: FS): set<nat> {
    set b | FirstData(fs) <= b < |fs.disk| && b < |fs.free| && fs.free[b]
  }

  lemma WriteTakesOne(fs: FS, i: nat, idx: nat, bytes: seq<byte>)
    requires WF(fs) && !fs.halted && i < |fs.table| && idx < POINTERS_PER_INODE
    ensures var fs' := WriteBlock(fs, i, idx, bytes);
            (fs'.halted <==> FreeBlocks(fs) == {}) && (!fs'.halted ==> |FreeBlocks(fs')| == |FreeBlocks(fs)| - 1)
  {
    var b, fs' := NextFree(fs.free, FirstData(fs), |fs.disk|), WriteBlock(fs, i, idx, bytes);
    if b < |fs.disk| {
      assert b in FreeBlocks(fs);
      assert FreeBlocks(fs') == FreeBlocks(fs) - {b};
    }
  }

  lemma MoreChunks(n: nat, c: nat)
    ensures Chunks(n) <= POINTERS_PER_INODE && (c < Chunks(n) <==> c < POINTERS_PER_INODE && c * BLOCK_SIZE < n)
  {
  }

  lemma CopyChunksStep(fs: FS, i: nat, data: seq<byte>, c: nat)
    requires c <= POINTERS_PER_INODE
    requires i < |fs.table| && |fs.table[i].direct| == POINTERS_PER_INODE && |fs.disk| <= |fs.free|
    ensures CopyChunks(fs, i, data, c)
         == if c == POINTERS_PER_INODE || |data| <= c * BLOCK_SIZE || fs.halted then fs
            else CopyChunks(WriteBlock(fs, i, c, Buffer(data, c)), i, data, c + 1)
    ensures fs.halted ==> CopyChunks(fs, i, data, c) == fs
  {
  }

  lemma DyingEndsIt(fs: FS, i: nat, data: seq<byte>, c: nat)
    requires Shape(fs) && i < |fs.table| && c < POINTERS_PER_INODE && c * BLOCK_SIZE < |data|
    requires !fs.halted && WriteBlock(fs, i, c, Buffer(data, c)).halted
    ensures CopyChunks(fs, i, data, c).halted
  {
  }

  lemma {:induction false} ChunksNeedBlocks(fs: FS, i: nat, data: seq<byte>, c: nat)
    requires WF(fs) && !fs.halted && i < |fs.table| && fs.table[i].valid != 0
    requires HoldsChunks(fs.table[i], fs.disk, data, c)
    ensures CopyChunks(fs, i, data, c).halted <==> |FreeBlocks(fs)| < Chunks(|data|) - c
    decreases POINTERS_PER_INODE - c
  {
    hide Allocated, DiskOk, WriteBlock, FreeBlocks, Buffer, Chunks, CopyChunks;
    MoreChunks(|data|, c);
    CopyChunksStep(fs, i, data, c);
    if c >= Chunks(|data|) {
    } else {
      WriteChunk(fs, i, data, c);
      WriteTakesOne(fs, i, c, Buffer(data, c));
      var fs1 := WriteBlock(fs, i, c, Buffer(data, c));
      if fs1.halted {
        DyingEndsIt(fs, i, data, c);
      } else {
        ChunksNeedBlocks(fs1, i, data, c + 1);
      }
    }
  }

  /** Copying in dies of a full disk exactly when the file needs more blocks than are free. */
  lemma CopyinHaltsIff(fs: FS, i: nat, data: seq<byte>)
    requires WF(fs) && !fs.halted && i < |fs.table| && fs.table[i].valid != 0 && Blank(fs.table[i])
    ensures Copyin(fs, i, data).halted <==> |FreeBlocks(fs)| < Chunks(|data|)
  {
    ChunksNeedBlocks(fs, i, data, 0);
  }
}
