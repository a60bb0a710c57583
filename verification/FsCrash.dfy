/** What is on the disk when a session ends without saving, as it does when the disk is full: the inodes of the
    last mount, and every file that was not removed since then. */
module FsCrash {
  import opened Numbers
  import opened FsModel
  import opened FsAllocation
  import opened FsFiles
  import opened FsSessions
  import opened FsRemount

  /** A command, even one that dies halfway, leaves inode blocks and used blocks alone and tears no data block. */
  ghost predicate DiskKept(fs: FS, fs': FS) {
    KeepsUsed(fs, fs') && DiskOk(fs'.disk, |fs.dirty|)
  }

  lemma {:induction false} ChunksKeepDisk(fs: FS, i: nat, data: seq<byte>, c: nat)
    requires WF(fs) && !fs.halted && i < |fs.table| && fs.table[i].valid != 0
    requires HoldsChunks(fs.table[i], fs.disk, data, c)
    ensures DiskKept(fs, CopyChunks(fs, i, data, c))
    decreases POINTERS_PER_INODE - c
  {
    hide Allocated, WriteBlock, Buffer, Chunks, CopyChunks, KeepsUsed;
    MoreChunks(|data|, c);
    CopyChunksStep(fs, i, data, c);
    KeptOnce(fs);
    if c < Chunks(|data|) {
      var fs1 := WriteBlock(fs, i, c, Buffer(data, c));
      WriteChunk(fs, i, data, c);
      if fs1.halted {
        DyingWritesNothing(fs, i, data, c);
      } else {
        ChunksKeepDisk(fs1, i, data, c + 1);
        KeptTwice(fs, fs1, CopyChunks(fs1, i, data, c + 1), i);
      }
    } else {
    }
  }

  lemma DyingWritesNothing(fs: FS, i: nat, data: seq<byte>, c: nat)
    requires Shape(fs) && i < |fs.table| && c < POINTERS_PER_INODE && c * BLOCK_SIZE < |data|
    requires !fs.halted && WriteBlock(fs, i, c, Buffer(data, c)).halted
    ensures CopyChunks(fs, i, data, c).disk == fs.disk && KeepsUsed(fs, CopyChunks(fs, i, data, c))
  {
    hide Buffer;
  }

  lemma SameDiskIsKept(fs: FS, fs': FS)
    requires WF(fs) && fs'.disk == fs.disk
    ensures DiskKept(fs, fs')
  {
  }

  lemma CommandsKeepDisk(fs: FS, cmd: Command)
    requires WF(fs) && !fs.halted && InRange(cmd, |fs.table|)
    ensures DiskKept(fs, Do(fs, cmd))
  {
    hide Allocated, DiskOk, DiskKept, CopyChunks, ReadMarks;
    if cmd.CopyinFile? && Create(fs).1 < |fs.dirty| {
      var (fs1, i) := Create(fs);
      CreatedIsKept(fs);
      ChunksKeepDisk(fs1, i, cmd.data, 0);
      SizeIsKept(fs, fs1, CopyChunks(fs1, i, cmd.data, 0), Do(fs, cmd));
    } else {
      SameDiskIsKept(fs, Do(fs, cmd));
    }
  }

  lemma CreatedIsKept(fs: FS)
    requires WF(fs) && !fs.halted && Create(fs).1 < |fs.dirty|
    ensures var (fs1, i) := Create(fs);
            && i < |fs1.table| && WF(fs1) && !fs1.halted && fs1.table[i].valid != 0
            && (forall data :: HoldsChunks(fs1.table[i], fs1.disk, data, 0))
            && fs1.disk == fs.disk && |fs1.dirty| == |fs.dirty| && Directs(fs1.table) == Directs(fs.table)
  {
    CreatedIsBlank(fs);
  }

  lemma SizeIsKept(fs: FS, fs1: FS, fs2: FS, fs3: FS)
    requires fs1.disk == fs.disk && |fs1.dirty| == |fs.dirty| && Directs(fs1.table) == Directs(fs.table)
    requires DiskKept(fs1, fs2) && fs3.disk == fs2.disk
    ensures DiskKept(fs, fs3)
  {
  }

  // ---- Over a session ----

  /** The blocks of the inodes that no command removes are as they were when the disk was mounted. */
  ghost predicate FilesKept(t0: seq<Inode>, disk0: seq<Block>, disk: seq<Block>, cmds: seq<Command>) {
    && |disk| == |disk0|
    && forall j, k :: 0 <= j < |t0| && t0[j].valid != 0 && RemoveFile(j) !in cmds
                      && 0 <= k < |t0[j].direct| && 0 < t0[j].direct[k] < |disk| ==>
         disk[t0[j].direct[k]] == disk0[t0[j].direct[k]]
  }

  ghost predicate Survives(fs0: FS, fs: FS, cmds: seq<Command>) {
    && DiskOk(fs.disk, |fs0.dirty|) && FilesKept(fs0.table, fs0.disk, fs.disk, cmds)
    && forall c :: 0 <= c <= |fs0.dirty| ==> fs.disk[c] == fs0.disk[c]
  }

  lemma SurvivesCommand(fs0: FS, fs: FS, fs': FS, cmds: seq<Command>, cmd: Command)
    requires Survives(fs0, fs, cmds) && DiskKept(fs, fs') && |fs.dirty| == |fs0.dirty| && Shape(fs)
    requires |fs.table| == |fs0.table|
    requires forall j :: 0 <= j < |fs0.table| && fs0.table[j].valid != 0 && RemoveFile(j) !in cmds ==>
               fs.table[j] == fs0.table[j]
    ensures Survives(fs0, fs', cmds + [cmd])
  {
    forall j, k | 0 <= j < |fs0.table| && fs0.table[j].valid != 0 && RemoveFile(j) !in cmds + [cmd]
                  && 0 <= k < |fs0.table[j].direct| && 0 < fs0.table[j].direct[k] < |fs'.disk|
      ensures fs'.disk[fs0.table[j].direct[k]] == fs0.disk[fs0.table[j].direct[k]]
    {
      assert RemoveFile(j) !in cmds;
      UsedBySlot(Directs(fs.table), j, k);
    }
  }

  lemma {:induction false} SessionsSurvive(fs0: FS, cmds: seq<Command>)
    requires WF(fs0) && !fs0.halted && forall cmd <- cmds :: InRange(cmd, |fs0.table|)
    ensures Survives(fs0, Run(fs0, cmds), cmds)
    decreases |cmds|
  {
    hide Allocated, Do, Survives, DiskKept;
    if cmds == [] {
      assert Survives(fs0, fs0, []) by { NothingHappened(fs0); }
    } else {
      var last := |cmds| - 1;
      var fs1 := Run(fs0, cmds[..last]);
      assert cmds == cmds[..last] + [cmds[last]] && cmds[last] in cmds;
      SessionsSurvive(fs0, cmds[..last]);
      SizesStay(fs0, cmds[..last]);
      if fs1.halted {
        MoreCommands(fs0, fs1, cmds[..last], cmds[last]);
      } else {
        forall j | 0 <= j < |fs0.table| && fs0.table[j].valid != 0 && RemoveFile(j) !in cmds[..last]
          ensures fs1.table[j] == fs0.table[j]
        {
          FilesSurvive(fs0, cmds[..last], j);
        }
        CommandsKeepDisk(fs1, cmds[last]);
        SurvivesCommand(fs0, fs1, Do(fs1, cmds[last]), cmds[..last], cmds[last]);
      }
    }
  }

  lemma NothingHappened(fs0: FS)
    requires WF(fs0)
    ensures Survives(fs0, fs0, [])
  {
  }

  lemma MoreCommands(fs0: FS, fs: FS, cmds: seq<Command>, cmd: Command)
    requires Survives(fs0, fs, cmds)
    ensures Survives(fs0, fs, cmds + [cmd])
  {
    assert forall j :: RemoveFile(j) !in cmds + [cmd] ==> RemoveFile(j) !in cmds;
  }

  // ---- Mounting what is left ----

  lemma {:induction false} SameInodeBlocks(disk: seq<Block>, disk': seq<Block>, m: nat)
    requires m < |disk| == |disk'| && forall c :: 0 <= c <= m ==> disk'[c] == disk[c]
    ensures LoadTable(disk', m) == LoadTable(disk, m)
  {
    if m == 0 {
    } else {
      SameInodeBlocks(disk, disk', m - 1);
    }
  }

  lemma MountsAlike(disk0: seq<Block>, disk: seq<Block>)
    requires ImageOk(disk0) && |disk| == |disk0| && DiskOk(disk, disk0[0].inodeBlocks)
    requires forall c :: 0 <= c <= disk0[0].inodeBlocks ==> disk[c] == disk0[c]
    ensures ImageOk(disk) && Mount(disk) == Mount(disk0).(disk := disk)
  {
    SameInodeBlocks(disk0, disk, disk0[0].inodeBlocks);
    hide LoadTable, MarkUsed, Unshared, PointersOk;
  }

  /** Without saving, the next mount finds the inodes and the bitmap of the last one, whatever the session did. */
  lemma CrashLeavesLastMount(disk0: seq<Block>, cmds: seq<Command>)
    requires ImageOk(disk0) && WF(Mount(disk0)) && forall cmd <- cmds :: InRange(cmd, |Mount(disk0).table|)
    ensures var fs0 := Mount(disk0);
            var disk := Run(fs0, cmds).disk;
            && ImageOk(disk) && Mount(disk) == fs0.(disk := disk) && WF(Mount(disk))
            && forall j :: 0 <= j < |fs0.table| && RemoveFile(j) !in cmds ==> File(Mount(disk), j) == File(fs0, j)
  {
    assert disk0 != [] && disk0[0].Super? && disk0[0].inodeBlocks < |disk0|;
    var fs0 := Mount(disk0);
    var disk := Run(fs0, cmds).disk;
    SessionsSurvive(fs0, cmds);
    hide Run, ImageOk, Allocated, FilesKept, LoadTable, MarkUsed;
    MountsAlike(disk0, disk);
    MountIsWF(disk);
    forall j | 0 <= j < |fs0.table| && RemoveFile(j) !in cmds ensures File(Mount(disk), j) == File(fs0, j) {
      KeptFile(fs0, Mount(disk), cmds, j);
    }
  }

  lemma KeptFile(fs0: FS, fs: FS, cmds: seq<Command>, j: nat)
    requires WF(fs0) && fs.table == fs0.table && FilesKept(fs0.table, fs0.disk, fs.disk, cmds)
    requires j < |fs0.table| && RemoveFile(j) !in cmds
    ensures File(fs, j) == File(fs0, j)
  {
    ContentsUnchanged(fs0.table[j], fs0.table[j], fs0.disk, fs.disk, 0);
  }
}
