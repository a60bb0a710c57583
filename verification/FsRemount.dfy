/** Mounting and saving: a mounted well-formed disk is a well-formed state, and saving the dirty inode blocks
    and mounting again restores the state exactly when every block with a removed inode is dirty. */
module FsRemount {
  import opened Numbers
  import opened FsModel
  import opened FsAllocation
  import opened FsFiles
  import opened FsSessions

  // ---- Mounting ----

  /** A disk on which invalid inodes have null pointers and valid ones share no block. */
  ghost predicate ImageOk(disk: seq<Block>) {
    && disk != [] && disk[0].Super? && DiskOk(disk, disk[0].inodeBlocks) && |disk| <= BLOCK_SIZE
    && var table, first := LoadTable(disk, disk[0].inodeBlocks), disk[0].inodeBlocks + 1;
    && PointersOk(Directs(table), first, |disk|) && Unshared(Directs(table))
    && forall i :: 0 <= i < |table| && table[i].valid == 0 ==> Blank(table[i])
  }

  lemma InBlock(i: nat, b: nat)
    requires b * INODES_PER_BLOCK <= i < (b + 1) * INODES_PER_BLOCK
    ensures BlockOf(i) == b && i % INODES_PER_BLOCK == i - b * INODES_PER_BLOCK
  {
  }

  lemma {:induction false} LoadTableAt(disk: seq<Block>, m: nat)
    requires m < |disk| && forall b :: 1 <= b <= m ==> disk[b].Inodes? && |disk[b].table| == INODES_PER_BLOCK
    ensures |LoadTable(disk, m)| == m * INODES_PER_BLOCK
    ensures forall i :: 0 <= i < m * INODES_PER_BLOCK ==>
              LoadTable(disk, m)[i] == disk[BlockOf(i) + 1].table[i % INODES_PER_BLOCK]
  {
    if m == 0 {
    } else {
      LoadTableAt(disk, m - 1);
      var table, rest := LoadTable(disk, m), LoadTable(disk, m - 1);
      assert table == rest + disk[m].table;
      hide LoadTable;
      forall i | 0 <= i < m * INODES_PER_BLOCK
        ensures BlockOf(i) < m && table[i] == disk[BlockOf(i) + 1].table[i % INODES_PER_BLOCK]
      {
        if i < (m - 1) * INODES_PER_BLOCK {
          assert table[i] == rest[i];
        } else {
          InBlock(i, m - 1);
        }
      }
    }
  }

  lemma {:induction false} MarkedAt(free0: seq<bool>, table: seq<Inode>, m: nat, first: nat, size: nat, b: nat)
    requires m <= |table| && first <= b < size <= |free0|
    ensures MarkUsed(free0, table, m, first, size)[b]
       <==> free0[b] && forall i :: 0 <= i < m && table[i].valid > 0 ==> b !in table[i].direct
  {
    if m == 0 {
    } else {
      MarkedAt(free0, table, m - 1, first, size, b);
      var free, direct := MarkUsed(free0, table, m - 1, first, size), table[m - 1].direct;
      SetAllAt(free, first, size, direct, |direct|, false, b);
      assert direct[..|direct|] == direct;
    }
  }

  lemma MarkedIsUsed(free0: seq<bool>, table: seq<Inode>, first: nat, size: nat, b: nat)
    requires first <= b < size <= |free0|
    requires forall i :: 0 <= i < |table| && table[i].valid == 0 ==> b !in table[i].direct
    ensures MarkUsed(free0, table, |table|, first, size)[b] <==> free0[b] && !Used(Directs(table), b)
  {
    var d := Directs(table);
    MarkedAt(free0, table, |table|, first, size, b);
    if Used(d, b) {
      var i, k :| 0 <= i < |d| && 0 <= k < |d[i]| && d[i][k] == b;
      assert b in table[i].direct && table[i].valid != 0;
    }
    if free0[b] && !MarkUsed(free0, table, |table|, first, size)[b] {
      var i :| 0 <= i < |table| && table[i].valid > 0 && b in table[i].direct;
      var k :| 0 <= k < |table[i].direct| && table[i].direct[k] == b;
      assert d[i][k] == b;
    }
  }

  /** A disk that can be mounted: whole blocks with whole inodes, whatever they point to. */
  ghost predicate Loadable(disk: seq<Block>) {
    && disk != [] && disk[0].Super? && DiskOk(disk, disk[0].inodeBlocks) && |disk| <= BLOCK_SIZE
    && forall b :: 1 <= b <= disk[0].inodeBlocks ==> forall n <- disk[b].table :: |n.direct| == POINTERS_PER_INODE
  }

  lemma ImageIsLoadable(disk: seq<Block>)
    requires ImageOk(disk)
    ensures Loadable(disk)
  {
    var ib := disk[0].inodeBlocks;
    var table := LoadTable(disk, ib);
    forall b, n | 1 <= b <= ib && n in disk[b].table ensures |n.direct| == POINTERS_PER_INODE {
      LoadedChunk(disk, ib, b - 1);
      var o :| 0 <= o < |disk[b].table| && disk[b].table[o] == n;
      assert Chunk(table, b - 1)[o] == table[(b - 1) * INODES_PER_BLOCK + o];
      assert Directs(table)[(b - 1) * INODES_PER_BLOCK + o] == n.direct;
    }
  }

  lemma LoadedInodes(disk: seq<Block>)
    requires Loadable(disk)
    ensures var table := LoadTable(disk, disk[0].inodeBlocks);
            && |table| == disk[0].inodeBlocks * INODES_PER_BLOCK
            && forall i :: 0 <= i < |table| ==> |table[i].direct| == POINTERS_PER_INODE
  {
    LoadTableAt(disk, disk[0].inodeBlocks);
  }

  /** Mounting again in the same program forgets what was not saved but leaves the blocks it had taken marked: the
      state is well formed exactly when no such block is left over. */
  lemma MountAgainIsWFIff(free0: seq<bool>, disk: seq<Block>)
    requires ImageOk(disk) && |free0| == BLOCK_SIZE
    ensures var fs := MountOn(free0, disk);
            && (forall b :: FirstData(fs) <= b < |disk| ==> (fs.free[b] <==> free0[b] && !Used(Directs(fs.table), b)))
            && (WF(fs) <==> forall b :: FirstData(fs) <= b < |disk| ==> free0[b] || Used(Directs(fs.table), b))
  {
    var ib := disk[0].inodeBlocks;
    var fs := MountOn(free0, disk);
    LoadTableAt(disk, ib);
    assert forall i :: 0 <= i < |fs.table| ==> Directs(fs.table)[i] == fs.table[i].direct;
    hide LoadTable;
    forall b | ib + 1 <= b < |disk| ensures fs.free[b] <==> free0[b] && !Used(Directs(fs.table), b) {
      MarkedIsUsed(free0, fs.table, ib + 1, |disk|, b);
    }
  }

  /** Mounting rebuilds the bitmap exactly. */
  lemma MountIsWF(disk: seq<Block>)
    requires ImageOk(disk)
    ensures WF(Mount(disk)) && !Mount(disk).halted
  {
    MountAgainIsWFIff(AllFree(), disk);
  }

  lemma LoadedChunk(disk: seq<Block>, m: nat, i: nat)
    requires i < m < |disk| && forall b :: 1 <= b <= m ==> disk[b].Inodes? && |disk[b].table| == INODES_PER_BLOCK
    ensures |LoadTable(disk, m)| == m * INODES_PER_BLOCK
    ensures Chunk(LoadTable(disk, m), i) == disk[i + 1].table
  {
    LoadTableAt(disk, m);
    hide LoadTable;
    var t := LoadTable(disk, m);
    forall o | 0 <= o < INODES_PER_BLOCK ensures Chunk(t, i)[o] == disk[i + 1].table[o] {
      var n := i * INODES_PER_BLOCK + o;
      assert BlockOf(n) == i && n % INODES_PER_BLOCK == o;
      assert t[n] == disk[BlockOf(n) + 1].table[n % INODES_PER_BLOCK];
    }
  }

  // ---- Saving ----

  lemma {:induction false} FlushAt(fs: FS, m: nat, c: nat)
    requires m <= |fs.dirty| < |fs.disk| && |fs.table| == |fs.dirty| * INODES_PER_BLOCK && c < |fs.disk|
    ensures Flush(fs, m)[c] == if 1 <= c <= m && fs.dirty[c - 1] then Inodes(Chunk(fs.table, c - 1)) else fs.disk[c]
  {
    if m == 0 {
    } else {
      FlushAt(fs, m - 1, c);
    }
  }

  function Saved(fs: FS): (disk: seq<Block>)
    requires |fs.dirty| < |fs.disk| && |fs.table| == |fs.dirty| * INODES_PER_BLOCK
    ensures |disk| == |fs.disk|
  {
    Flush(fs, |fs.dirty|)
  }

  lemma SavedDiskOk(fs: FS)
    requires WF(fs)
    ensures DiskOk(Saved(fs), |fs.dirty|)
  {
    forall c | 0 <= c < |fs.disk|
      ensures Saved(fs)[c]
           == if 1 <= c <= |fs.dirty| && fs.dirty[c - 1] then Inodes(Chunk(fs.table, c - 1)) else fs.disk[c]
    {
      FlushAt(fs, |fs.dirty|, c);
    }
  }

  /** The inode table that mounting reads back: dirty blocks as in memory, the others as they were on disk. */
  lemma ReloadedAt(fs: FS, i: nat)
    requires WF(fs) && i < |fs.table|
    ensures |LoadTable(Saved(fs), |fs.dirty|)| == |fs.table|
    ensures LoadTable(Saved(fs), |fs.dirty|)[i]
         == if fs.dirty[BlockOf(i)] then fs.table[i] else fs.disk[BlockOf(i) + 1].table[i % INODES_PER_BLOCK]
  {
    SavedDiskOk(fs);
    LoadTableAt(Saved(fs), |fs.dirty|);
    FlushAt(fs, |fs.dirty|, BlockOf(i) + 1);
  }

  // ---- What a session marks dirty and what it does not ----

  ghost function CreatedBy(fs: FS, cmd: Command): set<nat>
    requires WF(fs)
  {
    if cmd.CopyinFile? && Create(fs).1 != INVALID_RETURN then {BlockOf(Create(fs).1)} else {}
  }

  ghost function ClearedBy(fs: FS, cmd: Command): set<nat>
    requires WF(fs) && InRange(cmd, |fs.table|)
  {
    if cmd.RemoveFile? && Cleared(fs.table[cmd.i]) != fs.table[cmd.i] then {BlockOf(cmd.i)} else {}
  }

  /** The inode blocks in which a command has created an inode. */
  ghost function CreatedIn(fs: FS, cmds: seq<Command>): set<nat>
    requires Live(fs, |fs.table|) && forall cmd <- cmds :: InRange(cmd, |fs.table|)
    decreases |cmds|
  {
    if cmds == [] || fs.halted then {}
    else
      var last := |cmds| - 1;
      var fs1 := Run(fs, cmds[..last]);
      CreatedIn(fs, cmds[..last]) + if fs1.halted then {} else CreatedBy(fs1, cmds[last])
  }

  /** The inode blocks in which a remove command has changed an inode. */
  ghost function ClearedIn(fs: FS, cmds: seq<Command>): set<nat>
    requires Live(fs, |fs.table|) && forall cmd <- cmds :: InRange(cmd, |fs.table|)
    decreases |cmds|
  {
    if cmds == [] || fs.halted then {}
    else
      var last := |cmds| - 1;
      var fs1 := Run(fs, cmds[..last]);
      assert cmds[last] in cmds && InRange(cmds[last], |fs.table|);
      ClearedIn(fs, cmds[..last]) + if fs1.halted then {} else ClearedBy(fs1, cmds[last])
  }

  /** How memory and disk differ during a session that started with table `t0`: in the blocks without a new
      inode only removals have changed anything. */
  ghost predicate Tracked(t0: seq<Inode>, disk0: seq<Block>, fs: FS, created: set<nat>, cleared: set<nat>) {
    && |fs.table| == |t0| && |fs.disk| == |disk0| && |fs.dirty| < |disk0|
    && |fs.table| == |fs.dirty| * INODES_PER_BLOCK
    && (forall c :: 0 <= c <= |fs.dirty| ==> fs.disk[c] == disk0[c])
    && (forall b :: 0 <= b < |fs.dirty| ==> (fs.dirty[b] <==> b in created))
    && (forall i :: 0 <= i < |t0| && BlockOf(i) !in created ==>
          fs.table[i] == t0[i] || (fs.table[i] == Cleared(t0[i]) && BlockOf(i) in cleared))
    && (forall b <- cleared :: b < |fs.dirty| && (b in created || Changed(t0, fs.table, b)))
  }

  ghost predicate Changed(t0: seq<Inode>, table: seq<Inode>, b: nat) {
    exists i :: 0 <= i < |t0| && i < |table| && BlockOf(i) == b && table[i] != t0[i]
  }

  lemma TrackRemove(t0: seq<Inode>, disk0: seq<Block>, fs: FS, created: set<nat>, cleared: set<nat>, i: nat)
    requires Tracked(t0, disk0, fs, created, cleared) && i < |fs.table| && |fs.table[i].direct| == POINTERS_PER_INODE
    ensures Tracked(t0, disk0, Remove(fs, i), created,
                    cleared + if Cleared(fs.table[i]) != fs.table[i] then {BlockOf(i)} else {})
  {
    var fs' := Remove(fs, i);
    var cleared' := cleared + if Cleared(fs.table[i]) != fs.table[i] then {BlockOf(i)} else {};
    assert Cleared(Cleared(t0[i])) == Cleared(t0[i]);
    forall b | b in cleared' && b !in created ensures Changed(t0, fs'.table, b) {
      if b == BlockOf(i) && Cleared(fs.table[i]) != fs.table[i] {
        assert fs'.table[i] != t0[i];
      } else {
        var j :| 0 <= j < |t0| && BlockOf(j) == b && fs.table[j] != t0[j];
        assert fs'.table[j] != t0[j];
      }
    }
  }

  /** Everything that changes inside the new inode's block happens in a dirty block. */
  lemma TrackCopyin(t0: seq<Inode>, disk0: seq<Block>, fs: FS, fs': FS, created: set<nat>, cleared: set<nat>, i: nat)
    requires Tracked(t0, disk0, fs, created, cleared) && i < |fs.table| && SameBut(fs.table, fs'.table, i)
    requires fs'.dirty == fs.dirty[BlockOf(i) := true] && |fs'.disk| == |fs.disk|
    requires forall c :: 0 <= c <= |fs.dirty| ==> fs'.disk[c] == fs.disk[c]
    ensures Tracked(t0, disk0, fs', created + {BlockOf(i)}, cleared)
  {
    forall b | b in cleared && b !in created + {BlockOf(i)} ensures Changed(t0, fs'.table, b) {
      var j :| 0 <= j < |t0| && BlockOf(j) == b && fs.table[j] != t0[j];
      assert fs'.table[j] == fs.table[j];
    }
  }

  /** What copyin does to the table, the dirty flags and the inode part of the disk. */
  lemma CopyinTouches(fs: FS, data: seq<byte>)
    requires WF(fs) && !fs.halted && !DoCopyin(fs, data).halted
    ensures var fs', i := DoCopyin(fs, data), Create(fs).1;
            if i == INVALID_RETURN then fs' == fs
            else && i < |fs.table| && SameBut(fs.table, fs'.table, i) && fs'.dirty == fs.dirty[BlockOf(i) := true]
                 && |fs'.disk| == |fs.disk| && forall c :: 0 <= c <= |fs.dirty| ==> fs'.disk[c] == fs.disk[c]
  {
    hide Allocated, Copyin, File;
    var (fs1, i) := Create(fs);
    if i != INVALID_RETURN {
      CreatedIsBlank(fs);
      if i < |fs.dirty| {
        CopyinEffect(fs1, i, data);
      }
    }
  }

  lemma TrackCommand(t0: seq<Inode>, disk0: seq<Block>, fs: FS, cmd: Command, created: set<nat>, cleared: set<nat>)
    requires WF(fs) && !fs.halted && InRange(cmd, |fs.table|) && !Do(fs, cmd).halted
    requires Tracked(t0, disk0, fs, created, cleared)
    ensures Tracked(t0, disk0, Do(fs, cmd),
                    created + CreatedBy(fs, cmd), cleared + ClearedBy(fs, cmd))
  {
    hide Allocated, Tracked, DoCopyin, Remove, Create;
    assert created + {} == created && cleared + {} == cleared;
    match cmd {
      case CopyinFile(data) =>
        CopyinTouches(fs, data);
        if Create(fs).1 != INVALID_RETURN {
          TrackCopyin(t0, disk0, fs, DoCopyin(fs, data), created, cleared, Create(fs).1);
        }
      case CopyoutFile(i) =>
        ReadingChangesNothing(fs, i, POINTERS_PER_INODE);
      case RemoveFile(i) =>
        TrackRemove(t0, disk0, fs, created, cleared, i);
    }
  }

  lemma {:induction false} SessionsAreTracked(disk0: seq<Block>, cmds: seq<Command>)
    requires ImageOk(disk0) && forall cmd <- cmds :: InRange(cmd, |Mount(disk0).table|)
    ensures WF(Mount(disk0))
    ensures var fs0 := Mount(disk0);
            var fs := Run(fs0, cmds);
            fs.halted || (WF(fs) && Tracked(fs0.table, disk0, fs, CreatedIn(fs0, cmds), ClearedIn(fs0, cmds)))
    decreases |cmds|
  {
    MountIsWF(disk0);
    var fs0 := Mount(disk0);
    if cmds == [] {
      FreshIsTracked(disk0);
    } else {
      hide Mount, WF, Tracked, Do, CreatedBy, ClearedBy;
      var last := |cmds| - 1;
      SessionsAreTracked(disk0, cmds[..last]);
      var fs1 := Run(fs0, cmds[..last]);
      if !fs1.halted {
        assert cmds[last] in cmds;
        DoSpares(fs1, cmds[last]);
        if !Do(fs1, cmds[last]).halted {
          TrackCommand(fs0.table, disk0, fs1, cmds[last], CreatedIn(fs0, cmds[..last]), ClearedIn(fs0, cmds[..last]));
        }
      }
    }
  }

  lemma FreshIsTracked(disk0: seq<Block>)
    requires ImageOk(disk0) && WF(Mount(disk0))
    ensures Tracked(Mount(disk0).table, disk0, Mount(disk0), {}, {})
  {
  }

  // ---- The theorem ----

  lemma ReloadedTracked(disk0: seq<Block>, fs: FS, created: set<nat>, cleared: set<nat>, i: nat)
    requires ImageOk(disk0) && WF(Mount(disk0)) && WF(fs)
    requires Tracked(Mount(disk0).table, disk0, fs, created, cleared) && i < |fs.table|
    ensures |LoadTable(Saved(fs), |fs.dirty|)| == |fs.table|
    ensures LoadTable(Saved(fs), |fs.dirty|)[i] == if BlockOf(i) in created then fs.table[i] else Mount(disk0).table[i]
  {
    ReloadedAt(fs, i);
    LoadTableAt(disk0, disk0[0].inodeBlocks);
  }

  lemma ReloadedIff(disk0: seq<Block>, fs: FS, created: set<nat>, cleared: set<nat>)
    requires ImageOk(disk0) && WF(Mount(disk0)) && WF(fs) && Tracked(Mount(disk0).table, disk0, fs, created, cleared)
    ensures LoadTable(Saved(fs), |fs.dirty|) == fs.table <==> cleared <= created
  {
    var t0, t1 := Mount(disk0).table, LoadTable(Saved(fs), |fs.dirty|);
    forall i: nat | i < |fs.table|
      ensures |t1| == |fs.table| && t1[i] == if BlockOf(i) in created then fs.table[i] else t0[i]
    {
      ReloadedTracked(disk0, fs, created, cleared, i);
    }
    if cleared <= created {
      SavedDiskOk(fs);
      LoadTableAt(Saved(fs), |fs.dirty|);
    } else {
      var b :| b in cleared && b !in created;
      var i :| 0 <= i < |t0| && i < |fs.table| && BlockOf(i) == b && fs.table[i] != t0[i];
      assert t1[i] != fs.table[i];
    }
  }

  /** The same inodes, the same free data blocks and the same files. */
  ghost predicate SameState(fs: FS, fs1: FS)
    requires WF(fs)
  {
    && WF(fs1) && fs1.table == fs.table && |fs1.disk| == |fs.disk| && FirstData(fs1) == FirstData(fs)
    && (forall b :: FirstData(fs) <= b < |fs.disk| ==> fs1.free[b] == fs.free[b])
    && (forall i :: 0 <= i < |fs.table| ==> File(fs1, i) == File(fs, i))
  }

  lemma SameTableIsSameState(fs: FS)
    requires WF(fs) && LoadTable(Saved(fs), |fs.dirty|) == fs.table
    ensures ImageOk(Saved(fs)) && SameState(fs, Mount(Saved(fs)))
  {
    var disk := Saved(fs);
    SavedDiskOk(fs);
    assert ImageOk(disk);
    MountIsWF(disk);
    var fs1 := Mount(disk);
    forall i | 0 <= i < |fs.table| ensures File(fs1, i) == File(fs, i) {
      SavedFile(fs, i);
    }
    hide Saved;
    assert forall b :: FirstData(fs) <= b < |fs.disk| ==> (fs.free[b] <==> !Used(Directs(fs.table), b));
    assert forall b :: FirstData(fs) <= b < |fs.disk| ==> (fs1.free[b] <==> !Used(Directs(fs.table), b));
  }

  /** Saving writes no data block. */
  lemma SavedFile(fs: FS, i: nat)
    requires WF(fs) && i < |fs.table|
    ensures Contents(fs.table[i], Saved(fs), 0) == File(fs, i)
  {
    forall m | 0 <= m < POINTERS_PER_INODE && 0 < fs.table[i].direct[m] < |fs.disk|
      ensures Saved(fs)[fs.table[i].direct[m]] == fs.disk[fs.table[i].direct[m]]
    {
      assert Directs(fs.table)[i][m] >= FirstData(fs);
      FlushAt(fs, |fs.dirty|, fs.table[i].direct[m]);
    }
    ContentsUnchanged(fs.table[i], fs.table[i], fs.disk, Saved(fs), 0);
  }

  /** Ending a session and mounting the disk again restores the inode table exactly when every inode block in
      which a command removed something is also one in which a command created something; then the bitmap and
      all files are restored too. */
  lemma RemountRestoresIff(disk0: seq<Block>, cmds: seq<Command>)
    requires ImageOk(disk0) && forall cmd <- cmds :: InRange(cmd, |Mount(disk0).table|)
    requires WF(Mount(disk0)) && !Run(Mount(disk0), cmds).halted
    ensures var fs0 := Mount(disk0);
            var fs := Run(fs0, cmds);
            && WF(fs)
            && (LoadTable(Saved(fs), |fs.dirty|) == fs.table <==> ClearedIn(fs0, cmds) <= CreatedIn(fs0, cmds))
            && (ClearedIn(fs0, cmds) <= CreatedIn(fs0, cmds) ==>
                  ImageOk(Saved(fs)) && SameState(fs, Mount(Saved(fs))))
  {
    assert disk0 != [] && disk0[0].Super? && disk0[0].inodeBlocks < |disk0|;
    hide Mount, WF, Tracked, Run, LoadTable, ImageOk;
    var fs0 := Mount(disk0);
    var fs := Run(fs0, cmds);
    SessionsAreTracked(disk0, cmds);
    ReloadedIff(disk0, fs, CreatedIn(fs0, cmds), ClearedIn(fs0, cmds));
    if ClearedIn(fs0, cmds) <= CreatedIn(fs0, cmds) {
      SameTableIsSameState(fs);
    }
  }
}
