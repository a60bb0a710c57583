/** Where the guarantees stop: a removal that is not saved comes back with the next mount, and can then share its
    blocks with a file that was copied in meanwhile; and a full disk ends the program. */
module FsLimits {
  import opened Numbers
  import opened FsModel
  import opened FsAllocation
  import opened FsFiles
  import opened FsSessions
  import opened FsRemount

  /** The inode was changed, but its block is not saved: the next mount brings it back as it was in t0. */
  ghost predicate ComesBack(t0: seq<Inode>, fs: FS, created: set<nat>, i: nat) {
    i < |t0| && i < |fs.table| && BlockOf(i) !in created && fs.table[i] != t0[i]
  }

  /** No block of an inode that comes back has been given away. */
  ghost predicate NothingGivenAway(t0: seq<Inode>, fs: FS, created: set<nat>) {
    forall i, k | 0 <= i < |t0| && 0 <= k < |t0[i].direct| && ComesBack(t0, fs, created, i) ::
      0 < t0[i].direct[k] < |fs.free| ==> fs.free[t0[i].direct[k]]
  }

  ghost predicate Apart(t0: seq<Inode>, table: seq<Inode>, created: set<nat>)
    requires |t0| == |table|
  {
    forall i, k | 0 <= i < |t0| && 0 <= k < |t0[i].direct| && BlockOf(i) !in created && table[i] != t0[i] ::
      t0[i].direct[k] != 0 ==> !Used(Directs(table), t0[i].direct[k])
  }

  /** `t1` is what mounting the saved disk reads: created-in blocks from memory, the others from t0. */
  ghost predicate Mixed(t0: seq<Inode>, table: seq<Inode>, t1: seq<Inode>, created: set<nat>) {
    && |t0| == |table| == |t1|
    && (forall i :: 0 <= i < |t1| ==> t1[i] == if BlockOf(i) in created then table[i] else t0[i])
    && (forall i :: 0 <= i < |t1| && BlockOf(i) !in created ==> table[i] == t0[i] || table[i] == Cleared(t0[i]))
  }

  /** A pointer of an inode that comes back to a block that is in use: then two inodes share the block. */
  lemma GivenAwayIsShared(t0: seq<Inode>, table: seq<Inode>, t1: seq<Inode>, created: set<nat>, i: nat, k: nat)
    requires Mixed(t0, table, t1, created) && i < |t0| && BlockOf(i) !in created && table[i] != t0[i]
    requires k < |t0[i].direct| && t0[i].direct[k] != 0 && Used(Directs(table), t0[i].direct[k])
    ensures !Unshared(Directs(t1))
  {
    var b := t0[i].direct[k];
    var j, m :| 0 <= j < |table| && 0 <= m < |table[j].direct| && Directs(table)[j][m] == b;
    assert t1[i] == t0[i] && table[j].direct[m] == b && j != i;
    assert t1[j] == table[j];
    assert Directs(t1)[i][k] == Directs(t1)[j][m] == b;
  }

  lemma KeptIsUnshared(t0: seq<Inode>, table: seq<Inode>, t1: seq<Inode>, created: set<nat>)
    requires Mixed(t0, table, t1, created) && Unshared(Directs(t0)) && Unshared(Directs(table))
    requires Apart(t0, table, created)
    ensures Unshared(Directs(t1))
  {
    var d0, d, d1 := Directs(t0), Directs(table), Directs(t1);
    forall i, k, j, m | 0 <= i < |d1| && 0 <= k < |d1[i]| && 0 <= j < |d1| && 0 <= m < |d1[j]|
                        && d1[i][k] != 0 && d1[i][k] == d1[j][m]
      ensures i == j && k == m
    {
      OneOf(t0, table, t1, created, i, k);
      OneOf(t0, table, t1, created, j, m);
    }
  }

  /** A pointer read back either is one in memory, or comes back and is in use nowhere else. */
  lemma OneOf(t0: seq<Inode>, table: seq<Inode>, t1: seq<Inode>, created: set<nat>, i: nat, k: nat)
    requires Mixed(t0, table, t1, created) && i < |t1| && k < |t1[i].direct| && t1[i].direct[k] != 0
    requires Apart(t0, table, created)
    ensures (t1[i] == table[i] && Used(Directs(table), t1[i].direct[k]))
         || (t1[i] == t0[i] && !Used(Directs(table), t1[i].direct[k]))
  {
    if t1[i] == table[i] {
      UsedBySlot(Directs(table), i, k);
    }
  }

  lemma UnsharedIff(t0: seq<Inode>, table: seq<Inode>, t1: seq<Inode>, created: set<nat>)
    requires Mixed(t0, table, t1, created) && Unshared(Directs(t0)) && Unshared(Directs(table))
    ensures Unshared(Directs(t1)) <==> Apart(t0, table, created)
  {
    if Apart(t0, table, created) {
      KeptIsUnshared(t0, table, t1, created);
    } else {
      var i, k :| 0 <= i < |t0| && 0 <= k < |t0[i].direct| && BlockOf(i) !in created && table[i] != t0[i]
                  && t0[i].direct[k] != 0 && Used(Directs(table), t0[i].direct[k]);
      GivenAwayIsShared(t0, table, t1, created, i, k);
    }
  }

  lemma FreeIsNotUsed(fs: FS, b: nat)
    requires WF(fs) && FirstData(fs) <= b < |fs.disk|
    ensures b < |fs.free| && (fs.free[b] <==> !Used(Directs(fs.table), b))
  {
  }

  lemma PointerInRange(fs: FS, t: seq<Inode>, i: nat, k: nat)
    requires PointersOk(Directs(t), FirstData(fs), |fs.disk|) && i < |t| && k < |t[i].direct|
    ensures t[i].direct[k] == 0 || FirstData(fs) <= t[i].direct[k] < |fs.disk|
  {
    assert Directs(t)[i][k] == t[i].direct[k];
  }

  /** The saved disk is well formed exactly when the pointers it holds are not shared. */
  lemma SavedIsOkIfUnshared(disk0: seq<Block>, fs: FS, t1: seq<Inode>, created: set<nat>)
    requires ImageOk(disk0) && WF(Mount(disk0)) && WF(fs) && |fs.disk| == |disk0|
    requires t1 == LoadTable(Saved(fs), |fs.dirty|) && Mixed(Mount(disk0).table, fs.table, t1, created)
    ensures ImageOk(Saved(fs)) <==> Unshared(Directs(t1))
  {
    SavedDiskOk(fs);
    var t0, d1, first := Mount(disk0).table, Directs(t1), FirstData(fs);
    assert |t0| == disk0[0].inodeBlocks * INODES_PER_BLOCK;
    assert first == disk0[0].inodeBlocks + 1;
    forall i, k | 0 <= i < |d1| && 0 <= k < |d1[i]| ensures d1[i][k] == 0 || first <= d1[i][k] < |fs.disk| {
      if BlockOf(i) in created {
        PointerInRange(fs, fs.table, i, k);
      } else {
        PointerInRange(fs, t0, i, k);
      }
    }
  }

  lemma ApartMeansFree(t0: seq<Inode>, fs: FS, created: set<nat>)
    requires WF(fs) && |t0| == |fs.table| && PointersOk(Directs(t0), FirstData(fs), |fs.disk|)
    ensures Apart(t0, fs.table, created) <==> NothingGivenAway(t0, fs, created)
  {
    forall i, k | 0 <= i < |t0| && 0 <= k < |t0[i].direct| && t0[i].direct[k] != 0
      ensures 0 < t0[i].direct[k] < |fs.free|
      ensures fs.free[t0[i].direct[k]] <==> !Used(Directs(fs.table), t0[i].direct[k])
    {
      PointerInRange(fs, t0, i, k);
      FreeIsNotUsed(fs, t0[i].direct[k]);
    }
  }

  lemma SavedIsMixed(disk0: seq<Block>, fs: FS, created: set<nat>, cleared: set<nat>)
    requires ImageOk(disk0) && WF(Mount(disk0)) && WF(fs) && Tracked(Mount(disk0).table, disk0, fs, created, cleared)
    ensures Mixed(Mount(disk0).table, fs.table, LoadTable(Saved(fs), |fs.dirty|), created)
  {
    var t1 := LoadTable(Saved(fs), |fs.dirty|);
    SavedDiskOk(fs);
    LoadTableAt(Saved(fs), |fs.dirty|);
    forall i: nat | i < |t1| ensures t1[i] == if BlockOf(i) in created then fs.table[i] else Mount(disk0).table[i] {
      ReloadedTracked(disk0, fs, created, cleared, i);
    }
  }

  lemma SavedImageByState(disk0: seq<Block>, fs: FS, created: set<nat>, cleared: set<nat>)
    requires ImageOk(disk0) && WF(Mount(disk0)) && WF(fs) && Tracked(Mount(disk0).table, disk0, fs, created, cleared)
    ensures ImageOk(Saved(fs)) <==> NothingGivenAway(Mount(disk0).table, fs, created)
  {
    hide LoadTable, MarkUsed, Mixed, Apart, NothingGivenAway, Unshared, DiskOk;
    var t0, t1 := Mount(disk0).table, LoadTable(Saved(fs), |fs.dirty|);
    SavedIsMixed(disk0, fs, created, cleared);
    SavedIsOkIfUnshared(disk0, fs, t1, created);
    ApartMeansFree(t0, fs, created);
    UnsharedIff(t0, fs.table, t1, created);
  }

  /** The disk a session saves can be mounted again as a well-formed one exactly when no block of an inode that
      was removed, but not saved, has been given to another file. */
  lemma SavedImageIsOkIff(disk0: seq<Block>, cmds: seq<Command>)
    requires ImageOk(disk0) && WF(Mount(disk0)) && forall cmd <- cmds :: InRange(cmd, |Mount(disk0).table|)
    requires !Run(Mount(disk0), cmds).halted
    ensures var fs0 := Mount(disk0);
            var fs := Run(fs0, cmds);
            WF(fs) && (ImageOk(Saved(fs)) <==> NothingGivenAway(fs0.table, fs, CreatedIn(fs0, cmds)))
  {
    assert disk0 != [] && disk0[0].Super? && disk0[0].inodeBlocks < |disk0|;
    hide Mount, WF, Tracked, Run, LoadTable, ImageOk, NothingGivenAway;
    var fs0 := Mount(disk0);
    SessionsAreTracked(disk0, cmds);
    SavedImageByState(disk0, Run(fs0, cmds), CreatedIn(fs0, cmds), ClearedIn(fs0, cmds));
  }

  // ---- Inputs with which they fail ----

  /** The removal of a file in use is lost when it is all that a session does. */
  lemma RemovalIsLost(disk0: seq<Block>, j: nat)
    requires ImageOk(disk0) && WF(Mount(disk0)) && j < |Mount(disk0).table| && Mount(disk0).table[j].valid != 0
    ensures var fs := Run(Mount(disk0), [RemoveFile(j)]);
            && !fs.halted && |fs.dirty| < |fs.disk| && |fs.table| == |fs.dirty| * INODES_PER_BLOCK && Saved(fs) == disk0
            && fs.table[j].valid == 0 && Mount(Saved(fs)).table[j].valid != 0
  {
    var fs0, cmds := Mount(disk0), [RemoveFile(j)];
    assert cmds[..0] == [] && Run(fs0, []) == fs0;
    var fs := Run(fs0, cmds);
    assert fs == Remove(fs0, j);
    hide Mount, Run, WF, ImageOk;
    NothingDirty(fs, |fs.dirty|);
  }

  lemma {:induction false} NothingDirty(fs: FS, m: nat)
    requires m <= |fs.dirty| < |fs.disk| && |fs.table| == |fs.dirty| * INODES_PER_BLOCK
    requires forall b :: 0 <= b < |fs.dirty| ==> !fs.dirty[b]
    ensures Flush(fs, m) == fs.disk
  {
    if m == 0 {
    } else {
      NothingDirty(fs, m - 1);
    }
  }

  function Zeros(): (direct: seq<nat>)
    ensures |direct| == POINTERS_PER_INODE && forall k :: 0 <= k < |direct| ==> direct[k] == 0
  {
    seq(POINTERS_PER_INODE, _ => 0)
  }

  /** A block whose first inode is the given one, the others being invalid. */
  function InodeBlock(n: Inode): (block: Block)
    ensures block.Inodes? && |block.table| == INODES_PER_BLOCK && block.table[0] == n
    ensures forall o :: 0 < o < INODES_PER_BLOCK ==> block.table[o] == Inode(0, 0, Zeros(), 0)
  {
    Inodes(seq(INODES_PER_BLOCK, o => if o == 0 then n else Inode(0, 0, Zeros(), 0)))
  }

  /** An inode block with one empty file, and no data block. */
  function SmallDisk(): seq<Block> {
    [Super(2, 1), InodeBlock(Inode(1, 0, Zeros(), 0))]
  }

  lemma SmallDiskIsOk()
    ensures ImageOk(SmallDisk()) && WF(Mount(SmallDisk())) && !Mount(SmallDisk()).halted
    ensures var fs0 := Mount(SmallDisk());
            && |fs0.table| == INODES_PER_BLOCK && fs0.table[0] == Inode(1, 0, Zeros(), 0)
            && |fs0.disk| == 2 && FirstData(fs0) == 2
  {
    var disk := SmallDisk();
    LoadTableAt(disk, 1);
    var table := LoadTable(disk, 1);
    forall i | 0 <= i < |table| ensures Blank(table[i]) && |table[i].direct| == POINTERS_PER_INODE {
      InBlock(i, 0);
    }
    hide LoadTable;
    MountIsWF(disk);
  }

  /** Removing its file is forgotten by the next mount. */
  lemma RemoveIsNotRestored()
    ensures ImageOk(SmallDisk()) && WF(Mount(SmallDisk())) && |Mount(SmallDisk()).table| == INODES_PER_BLOCK
    ensures var fs := Run(Mount(SmallDisk()), [RemoveFile(0)]);
            !fs.halted && WF(fs) && LoadTable(Saved(fs), |fs.dirty|) != fs.table
  {
    SmallDiskIsOk();
    var disk := SmallDisk();
    var fs := Run(Mount(disk), [RemoveFile(0)]);
    RemovalIsLost(disk, 0);
    SessionsAreTracked(disk, [RemoveFile(0)]);
    assert LoadTable(disk, 1) == Mount(disk).table;
  }

  /** Inode 128, in the second inode block, has the only data block. */
  function FullDisk(): seq<Block> {
    [Super(4, 2), InodeBlock(Inode(0, 0, Zeros(), 0)), InodeBlock(Inode(1, 1, Zeros()[0 := 3], 0)),
     Data(seq(BLOCK_SIZE, _ => 0 as byte))]
  }

  /** A mounted disk of that kind. */
  ghost predicate OnlyFile(fs: FS, n: Inode) {
    && WF(fs) && !fs.halted && |fs.dirty| == 2 && |fs.disk| == 4 && n == Inode(1, 1, Zeros()[0 := 3], 0)
    && forall i :: 0 <= i < |fs.table| ==> fs.table[i] == if i == 128 then n else Inode(0, 0, Zeros(), 0)
  }

  lemma FullDiskIsOk(n: Inode)
    requires n == Inode(1, 1, Zeros()[0 := 3], 0)
    ensures ImageOk(FullDisk()) && OnlyFile(Mount(FullDisk()), n)
  {
    var disk := FullDisk();
    LoadTableAt(disk, 2);
    var table := LoadTable(disk, 2);
    forall i | 0 <= i < |table| ensures table[i] == if i == 128 then n else Inode(0, 0, Zeros(), 0) {
      InBlock(i, BlockOf(i));
    }
    hide LoadTable;
    MountIsWF(disk);
  }

  lemma BlockIsFree(fs: FS, n: Inode)
    requires OnlyFile(fs, n)
    ensures var fs1 := Remove(fs, 128);
            WF(fs1) && FirstInvalid(fs1.table) == 0 && FreeBlocks(fs1) == {3} && fs1.table[128] == Cleared(n)
  {
    var fs1 := Remove(fs, 128);
    RemoveKeepsWF(fs, 128);
    forall i | 0 <= i < |fs1.table| ensures Blank(fs1.table[i]) {
    }
    FreeIsNotUsed(fs1, 3);
    hide Allocated;
    assert forall b :: b in FreeBlocks(fs1) ==> b == 3;
  }

  /** A file that is not empty occupies the first block of its inode. */
  lemma FileTakesBlock(fs: FS, i: nat)
    requires WF(fs) && i < |fs.table| && File(fs, i) != []
    ensures FirstData(fs) <= fs.table[i].direct[0] < |fs.disk| && !fs.free[fs.table[i].direct[0]]
  {
    PointerInRange(fs, fs.table, i, 0);
    UsedBySlot(Directs(fs.table), i, 0);
    FreeIsNotUsed(fs, fs.table[i].direct[0]);
  }

  lemma BlockIsGivenAway(fs: FS, n: Inode, data: seq<byte>)
    requires OnlyFile(fs, n) && |data| == 1
    ensures var fs1 := Remove(fs, 128);
            && WF(fs1) && !fs1.halted && Create(fs1).1 == 0
            && var fs2 := DoCopyin(fs1, data);
               WF(fs2) && !fs2.halted && fs2.table[128] == Cleared(n) && !fs2.free[3]
  {
    var fs1 := Remove(fs, 128);
    BlockIsFree(fs, n);
    hide Allocated, DiskOk, Copyin, FirstInvalid, File;
    CreatedIsBlank(fs1);
    var fs2 := Create(fs1).0;
    assert FreeBlocks(fs2) == FreeBlocks(fs1);
    CopyinHaltsIff(fs2, 0, data);
    CopyinEffect(fs2, 0, data);
    CopyinCopyout(fs2, 0, data);
    FileTakesBlock(Copyin(fs2, 0, data), 0);
  }

  lemma RemoveThenCopyin(fs: FS, i: nat, data: seq<byte>)
    requires WF(fs) && !fs.halted && i < |fs.table| && Create(Remove(fs, i)).1 != INVALID_RETURN
    ensures WF(Remove(fs, i))
    ensures var fs1, cmds := Remove(fs, i), [RemoveFile(i), CopyinFile(data)];
            Run(fs, cmds) == DoCopyin(fs1, data) && CreatedIn(fs, cmds) == {BlockOf(Create(fs1).1)}
  {
    RemoveKeepsWF(fs, i);
    hide WF, Create, DoCopyin, Remove;
    var cmds := [RemoveFile(i), CopyinFile(data)];
    assert cmds[..1] == [RemoveFile(i)] && cmds[..1][..0] == [];
    assert Run(fs, []) == fs && CreatedIn(fs, []) == {};
    assert Run(fs, cmds[..1]) == Do(fs, RemoveFile(i)) && CreatedIn(fs, cmds[..1]) == {};
  }

  lemma GivenAwayByNow(fs0: FS, fs: FS, n: Inode)
    requires OnlyFile(fs0, n) && WF(fs) && |fs.table| == |fs0.table| && fs.table[128] == Cleared(n) && !fs.free[3]
    ensures !NothingGivenAway(fs0.table, fs, {0})
  {
    assert ComesBack(fs0.table, fs, {0}, 128) && fs0.table[128].direct[0] == 3;
  }

  /** When inode 128 is removed and a byte is copied in, both inodes have block 3 at the next mount. */
  lemma ComesBackAndShares(disk0: seq<Block>, data: seq<byte>)
    requires disk0 == FullDisk() && |data| == 1
    ensures ImageOk(disk0) && WF(Mount(disk0)) && |Mount(disk0).table| == 256
    ensures var fs := Run(Mount(disk0), [RemoveFile(128), CopyinFile(data)]);
            !fs.halted && WF(fs) && !ImageOk(Saved(fs))
  {
    var n := Inode(1, 1, Zeros()[0 := 3], 0);
    FullDiskIsOk(n);
    assert disk0 != [] && disk0[0].Super? && disk0[0].inodeBlocks < |disk0|;
    hide Mount, FullDisk, ImageOk;
    var fs0, cmds := Mount(disk0), [RemoveFile(128), CopyinFile(data)];
    BlockIsGivenAway(fs0, n, data);
    RemoveThenCopyin(fs0, 128, data);
    assert |fs0.table| == 256;
    hide WF, DoCopyin, Run, Create, CreatedIn, Remove, OnlyFile, NothingGivenAway;
    SavedImageIsOkIff(disk0, cmds);
    GivenAwayByNow(fs0, Run(fs0, cmds), n);
  }

  /** On that disk the first invalid inode is 0, which `copyin` accepts: copying in anything ends the program. */
  lemma NothingFits(disk0: seq<Block>, data: seq<byte>)
    requires disk0 == FullDisk() && data != []
    ensures ImageOk(disk0) && WF(Mount(disk0)) && Run(Mount(disk0), [CopyinFile(data)]).halted
  {
    var n := Inode(1, 1, Zeros()[0 := 3], 0);
    FullDiskIsOk(n);
    var fs0, cmds := Mount(disk0), [CopyinFile(data)];
    hide Mount, FullDisk, ImageOk, DoCopyin;
    assert cmds[..0] == [] && Run(fs0, []) == fs0;
    assert Run(fs0, cmds) == DoCopyin(fs0, data);
    hide Run;
    FullDiskIsFull(fs0, n);
    MoreChunks(|data|, 0);
    DoCopyinHaltsIff(fs0, data);
  }

  lemma FullDiskIsFull(fs: FS, n: Inode)
    requires OnlyFile(fs, n)
    ensures FirstInvalid(fs.table) == 0 && FreeBlocks(fs) == {}
  {
    UsedBySlot(Directs(fs.table), 128, 0);
    FreeIsNotUsed(fs, 3);
    assert fs.table[0].valid == 0;
  }

  /** On the disk without data blocks the only inode that `copyin` accepts is in use: every copyin fails, and none
      ends the program. */
  lemma NothingIsAccepted(disk0: seq<Block>, data: seq<byte>)
    requires disk0 == SmallDisk()
    ensures ImageOk(disk0) && WF(Mount(disk0)) && !Run(Mount(disk0), [CopyinFile(data)]).halted
  {
    SmallDiskIsOk();
    var fs0, cmds := Mount(disk0), [CopyinFile(data)];
    assert |fs0.dirty| == 1;
    hide Mount, SmallDisk, ImageOk, DoCopyin;
    assert cmds[..0] == [] && Run(fs0, []) == fs0;
    assert Run(fs0, cmds) == DoCopyin(fs0, data);
    DoCopyinHaltsIff(fs0, data);
  }
}
