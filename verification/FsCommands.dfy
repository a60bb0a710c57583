/** The command functions: copyin and copyout with their reused buffer, and whole sessions that mount a disk,
    carry out commands and save the dirty inode blocks at the end. */
module FsCommands {
  import opened Numbers
  import opened FsModel
  import opened FsAllocation
  import opened FsObjects
  import FsFiles
  import FsSessions
  import FsRemount

  /** Reads up to a buffer full from the stream; what it does not fill keeps its old bytes. */
  method FRead(stream: seq<byte>, pos: nat, buffer: array<byte>) returns (count: nat)
    requires pos <= |stream| && buffer.Length == BLOCK_SIZE
    modifies buffer
    ensures count == Min(BLOCK_SIZE, |stream| - pos)
    ensures buffer[..] == stream[pos..pos + count] + old(buffer[..])[count..]
  {
    count := Min(BLOCK_SIZE, |stream| - pos);
    forall x | 0 <= x < count {
      buffer[x] := stream[pos + x];
    }
  }

  /** The buffer before chunk c is read. */
  ghost function Stale(data: seq<byte>, c: nat): (b: seq<byte>)
    requires c == 0 || (c - 1) * BLOCK_SIZE < |data|
    ensures |b| == BLOCK_SIZE
  {
    if c == 0 then seq(BLOCK_SIZE, _ => 0 as byte) else Buffer(data, c - 1)
  }

  /** Copies the stream into an inode; an exception of the disk ends it at once. */
  method Copyin(fs: FileSystem, stream: seq<byte>, inumber: nat) returns (thrown: bool)
    requires fs.Valid() && !fs.view.halted && inumber < |fs.view.table|
    modifies fs`view, fs.inode_blocks, fs.Bitmap, fs.m_disk.blocks
    ensures fs.Valid() && fs.view == FsModel.Copyin(old(fs.view), inumber, stream) && thrown == fs.view.halted
  {
    hide Buffer, WriteBlock, CopyChunks, Stale;
    NoChunkRead(stream);
    var buffer := new byte[BLOCK_SIZE](_ => 0);
    var offset := 0;
    ghost var c := 0;
    thrown := false;
    while true
      invariant fs.Valid() && !fs.view.halted && !thrown && |fs.view.table| == |old(fs.view).table|
      invariant c <= POINTERS_PER_INODE && offset == Min(|stream|, c * BLOCK_SIZE)
      invariant (c == 0 || (c - 1) * BLOCK_SIZE < |stream|) && buffer[..] == Stale(stream, c)
      invariant CopyChunks(old(fs.view), inumber, stream, 0) == CopyChunks(fs.view, inumber, stream, c)
      decreases |stream| - offset
    {
      var result := FRead(stream, offset, buffer);
      if result <= 0 {
        break;
      }
      ChunkIsRead(stream, c);
      assert buffer[..] == Buffer(stream, c);
      FsFiles.CopyChunksStep(fs.view, inumber, stream, c);
      var actual;
      actual, thrown := fs.Write(inumber, buffer, offset);
      if thrown {
        assert c < POINTERS_PER_INODE;
        FsFiles.CopyChunksStep(fs.view, inumber, stream, c + 1);
        return;
      }
      if actual <= 0 {
        break;
      }
      offset := offset + result;
      c := c + 1;
    }
    FsFiles.CopyChunksStep(fs.view, inumber, stream, c);
    fs.UpdateSize(inumber, offset);
  }

  lemma NoChunkRead(data: seq<byte>)
    ensures Stale(data, 0) == seq(BLOCK_SIZE, _ => 0 as byte)
  {
  }

  lemma ChunkIsRead(data: seq<byte>, c: nat)
    requires c * BLOCK_SIZE < |data| && (c == 0 || (c - 1) * BLOCK_SIZE < |data|)
    ensures var start := c * BLOCK_SIZE;
            var m := Min(BLOCK_SIZE, |data| - start);
            Buffer(data, c) == data[start..start + m] + Stale(data, c)[m..]
    ensures Stale(data, c + 1) == Buffer(data, c)
  {
  }

  /** Copies a file out, whole blocks at a time. */
  method Copyout(fs: FileSystem, inumber: nat) returns (out: seq<byte>)
    requires fs.Valid() && WF(fs.view) && inumber < |fs.view.table|
    modifies fs`view, fs.Bitmap
    ensures fs.Valid() && fs.view == old(fs.view)
    ensures out == FsFiles.File(fs.view, inumber)
  {
    hide Allocated, DiskOk, FsFiles.File, Contents;
    var buffer := new byte[BLOCK_SIZE](_ => 0);
    var offset := 0;
    out := [];
    ghost var idx, n, disk := 0, fs.view.table[inumber], fs.view.disk;
    assert FsFiles.File(fs.view, inumber) == Contents(n, disk, 0) by { FileIsContents(fs.view, inumber); }
    while true
      invariant fs.Valid() && fs.view == old(fs.view)
      invariant idx <= POINTERS_PER_INODE && offset == idx * BLOCK_SIZE
      invariant out + Contents(n, disk, idx) == Contents(n, disk, 0)
      decreases POINTERS_PER_INODE - idx
    {
      assert offset / BLOCK_SIZE == idx;
      ReadIsHarmless(fs.view, inumber, idx);
      ContentsStep(n, disk, idx);
      var result, thrown := fs.Read(inumber, buffer, offset);
      if result <= 0 {
        break;
      }
      assert out + (buffer[..] + Contents(n, disk, idx + 1)) == (out + buffer[..]) + Contents(n, disk, idx + 1);
      assert buffer[..result] == buffer[..];
      out := out + buffer[..result];
      offset := offset + result;
      idx := idx + 1;
    }
  }

  /** In a well-formed state reading never throws and marks only what is marked already. */
  lemma ReadIsHarmless(fs: FS, i: nat, idx: nat)
    requires WF(fs) && i < |fs.table| && idx <= POINTERS_PER_INODE
    ensures idx < POINTERS_PER_INODE ==>
              var b := fs.table[i].direct[idx];
              && AsInt(b) == b < |fs.disk| && SetFree(fs.free, FirstData(fs), |fs.disk|, b, false) == fs.free
              && (b > 0 ==> fs.disk[b].Data? && IsWhole(fs.disk[b]))
  {
    if idx < POINTERS_PER_INODE {
      UsedBySlot(Directs(fs.table), i, idx);
      assert Directs(fs.table)[i][idx] == fs.table[i].direct[idx];
    }
  }

  lemma FileIsContents(fs: FS, i: nat)
    requires i < |fs.table| && |fs.table[i].direct| == POINTERS_PER_INODE
    ensures FsFiles.File(fs, i) == Contents(fs.table[i], fs.disk, 0)
  {
  }

  lemma ContentsStep(n: Inode, disk: seq<Block>, idx: nat)
    requires |n.direct| == POINTERS_PER_INODE && idx <= POINTERS_PER_INODE
    ensures Contents(n, disk, idx)
         == if idx == POINTERS_PER_INODE || n.direct[idx] == 0 || n.direct[idx] >= |disk| || !disk[n.direct[idx]].Data?
            then [] else disk[n.direct[idx]].bytes + Contents(n, disk, idx + 1)
  {
  }

  /** The copyin command: creates an inode and copies into it if the number is below the number of inode blocks. */
  method DoCopyin(fs: FileSystem, stream: seq<byte>) returns (ok: bool, thrown: bool)
    requires fs.Valid() && WF(fs.view) && !fs.view.halted
    modifies fs`view, fs.inode_blocks, fs.inode_blocks_dirty, fs.Bitmap, fs.m_disk.blocks
    ensures fs.Valid() && fs.view == FsSessions.DoCopyin(old(fs.view), stream) && thrown == fs.view.halted
    ensures var before := old(fs.view);
            && (ok <==> && FirstInvalid(before.table) < |before.dirty|
                        && |FsFiles.FreeBlocks(before)| >= FsFiles.Chunks(|stream|))
            && (thrown <==> && FirstInvalid(before.table) < |before.dirty|
                            && |FsFiles.FreeBlocks(before)| < FsFiles.Chunks(|stream|))
  {
    ghost var before := fs.view;
    CreateKeepsWF(fs.view);
    hide Allocated, FsModel.Copyin;
    var inode := fs.Create();
    ok, thrown := inode < fs.inode_blocks.Length0, false;
    FsSessions.DoCopyinHaltsIff(before, stream);
    if ok {
      thrown := Copyin(fs, stream, inode);
      ok := !thrown;
    }
  }

  /** Carries out one command. */
  method Execute(fs: FileSystem, cmd: FsSessions.Command) returns (thrown: bool)
    requires fs.Valid() && WF(fs.view) && !fs.view.halted && FsSessions.InRange(cmd, |fs.view.table|)
    modifies fs`view, fs.inode_blocks, fs.inode_blocks_dirty, fs.Bitmap, fs.m_disk.blocks
    ensures fs.Valid() && fs.view == FsSessions.Do(old(fs.view), cmd) && thrown == fs.view.halted
  {
    hide Allocated, FsSessions.DoCopyin;
    thrown := false;
    match cmd {
      case CopyinFile(data) =>
        var ok;
        ok, thrown := DoCopyin(fs, data);
      case CopyoutFile(i) =>
        FsSessions.ReadingChangesNothing(fs.view, i, POINTERS_PER_INODE);
        var _ := Copyout(fs, i);
      case RemoveFile(i) =>
        fs.Remove(i);
    }
  }

  /** A session: mount, the commands in turn until the end or a fatal exception, then save what is dirty. */
  method Session(disk: Disk, cmds: seq<FsSessions.Command>) returns (fs: FileSystem)
    requires FsRemount.ImageOk(disk.blocks[..])
    requires forall cmd <- cmds :: FsSessions.InRange(cmd, |Mount(disk.blocks[..]).table|)
    modifies disk, disk.blocks
    ensures WF(Mount(old(disk.blocks[..])))
    ensures fs.view == FsSessions.Run(Mount(old(disk.blocks[..])), cmds)
    ensures if fs.view.halted then disk.blocks[..] == fs.view.disk
            else WF(fs.view) && disk.blocks[..] == FsRemount.Saved(fs.view)
  {
    ghost var image := disk.blocks[..];
    FsRemount.MountIsWF(image);
    FsRemount.ImageIsLoadable(image);
    ghost var fs0 := Mount(image);
    fs := new FileSystem();
    fs.Mount(disk);
    hide WF, Mount, FsSessions.Do, FsRemount.ImageOk;
    for n := 0 to |cmds|
      invariant fs.Valid() && fs.m_disk == disk && fresh(fs)
      invariant fresh(fs.inode_blocks) && fresh(fs.inode_blocks_dirty) && fresh(fs.Bitmap)
      invariant WF(fs.view) && !fs.view.halted && |fs.view.table| == |fs0.table|
      invariant fs.view == FsSessions.Run(fs0, cmds[..n])
    {
      assert cmds[n] in cmds;
      assert cmds[..n + 1][..n] == cmds[..n];
      FsSessions.DoSpares(fs.view, cmds[n]);
      var thrown := Execute(fs, cmds[n]);
      if thrown {
        HaltedForGood(fs0, cmds, n + 1);
        return;
      }
    }
    assert cmds[..|cmds|] == cmds;
    fs.SaveDirtyBlocks();
  }

  /** Commands after a fatal exception are never carried out. */
  lemma {:induction false} HaltedForGood(fs0: FS, cmds: seq<FsSessions.Command>, n: nat)
    requires WF(fs0) && !fs0.halted && forall cmd <- cmds :: FsSessions.InRange(cmd, |fs0.table|)
    requires n <= |cmds| && FsSessions.Run(fs0, cmds[..n]).halted
    ensures FsSessions.Run(fs0, cmds) == FsSessions.Run(fs0, cmds[..n])
    decreases |cmds|
  {
    if n == |cmds| {
      assert cmds[..n] == cmds;
    } else {
      var most := cmds[..|cmds| - 1];
      assert most[..n] == cmds[..n];
      HaltedForGood(fs0, most, n);
    }
  }
}
