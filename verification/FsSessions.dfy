/** Whole sessions: any sequence of copyin, copyout and remove commands on a mounted disk. */
module FsSessions {
  import opened Numbers
  import opened FsModel
  import opened FsAllocation
  import opened FsFiles

  datatype Command = CopyinFile(data: seq<byte>) | CopyoutFile(i: nat) | RemoveFile(i: nat)

  /** The commands name inodes of the table. */
  predicate InRange(cmd: Command, n: nat) {
    match cmd
    case CopyinFile(_) => true
    case CopyoutFile(i) => i < n
    case RemoveFile(i) => i < n
  }

  /** Reading a block marks it used once more. */
  function ReadMarks(fs: FS, i: nat, idx: nat): (free: seq<bool>)
    requires i < |fs.table| && |fs.table[i].direct| == POINTERS_PER_INODE && idx <= POINTERS_PER_INODE
    ensures |free| == |fs.free|
  {
    if idx == 0 then fs.free
    else
      var free := ReadMarks(fs, i, idx - 1);
      if forall m :: 0 <= m < idx ==> fs.table[i].direct[m] != 0
      then SetFree(free, FirstData(fs), |fs.disk|, fs.table[i].direct[idx - 1], false) else free
  }

  /** An inode number is accepted if it is below the number of inode blocks; otherwise the inode stays created,
      and empty. */
  function DoCopyin(fs: FS, data: seq<byte>): FS
    requires Shape(fs)
  {
    var (fs', i) := Create(fs);
    if i >= |fs.dirty| then fs' else Copyin(fs', i, data)
  }

  function Do(fs: FS, cmd: Command): FS
    requires WF(fs) && InRange(cmd, |fs.table|)
  {
    match cmd
    case CopyinFile(data) => DoCopyin(fs, data)
    case CopyoutFile(i) => fs.(free := ReadMarks(fs, i, POINTERS_PER_INODE))
    case RemoveFile(i) => Remove(fs, i)
  }

  lemma {:induction false} ReadingChangesNothing(fs: FS, i: nat, idx: nat)
    requires WF(fs) && i < |fs.table| && idx <= POINTERS_PER_INODE
    ensures ReadMarks(fs, i, idx) == fs.free
  {
    if idx == 0 {
    } else {
      ReadingChangesNothing(fs, i, idx - 1);
      UsedBySlot(Directs(fs.table), i, idx - 1);
    }
  }

  lemma CreatedIsBlank(fs: FS)
    requires WF(fs) && Create(fs).1 != INVALID_RETURN
    ensures var (fs', i) := Create(fs);
            && i < |fs.table| && WF(fs') && Blank(fs'.table[i]) && fs'.table[i].valid != 0 && fs.table[i].valid == 0
            && SameBut(fs.table, fs'.table, i) && fs'.table[i].direct == fs.table[i].direct && fs'.disk == fs.disk
            && fs'.dirty == fs.dirty[BlockOf(i) := true] && fs'.free == fs.free && fs'.halted == fs.halted
  {
    CreateKeepsWF(fs);
  }

  /** What a command leaves alone: the sizes, and every inode in use that is not the one removed. */
  ghost predicate Spares(fs: FS, fs': FS, cmd: Command) {
    && WF(fs) && WF(fs')
    && |fs'.table| == |fs.table| && |fs'.dirty| == |fs.dirty| && |fs'.disk| == |fs.disk|
    && forall j :: 0 <= j < |fs.table| && fs.table[j].valid != 0 && cmd != RemoveFile(j) ==>
         fs'.table[j] == fs.table[j] && File(fs', j) == File(fs, j)
  }

  lemma CopyinSpares(fs: FS, data: seq<byte>)
    requires WF(fs) && !fs.halted
    ensures DoCopyin(fs, data).halted || Spares(fs, DoCopyin(fs, data), CopyinFile(data))
  {
    hide Allocated, Copyin, File;
    var (fs1, i) := Create(fs);
    var fs' := DoCopyin(fs, data);
    if i != INVALID_RETURN {
      CreatedIsBlank(fs);
      forall j | 0 <= j < |fs.table| ensures File(fs1, j) == File(fs, j) {
        SameFile(fs, fs1, j);
      }
      if i < |fs.dirty| && !fs'.halted {
        CopyinCopyout(fs1, i, data);
        CopyinEffect(fs1, i, data);
      }
    }
  }

  /** The copyin command dies exactly when it has an inode it accepts and fewer blocks are free than the file needs. */
  lemma DoCopyinHaltsIff(fs: FS, data: seq<byte>)
    requires WF(fs) && !fs.halted
    ensures DoCopyin(fs, data).halted
       <==> FirstInvalid(fs.table) < |fs.dirty| && |FreeBlocks(fs)| < Chunks(|data|)
  {
    hide Allocated, Copyin;
    var (fs1, i) := Create(fs);
    if i < |fs.dirty| {
      CreatedIsBlank(fs);
      assert FreeBlocks(fs1) == FreeBlocks(fs);
      CopyinHaltsIff(fs1, i, data);
    }
  }

  lemma SameFile(fs: FS, fs': FS, j: nat)
    requires j < |fs.table| == |fs'.table| && |fs.table[j].direct| == POINTERS_PER_INODE
    requires fs'.table[j].direct == fs.table[j].direct && fs'.disk == fs.disk
    ensures File(fs', j) == File(fs, j)
  {
    ContentsUnchanged(fs.table[j], fs'.table[j], fs.disk, fs'.disk, 0);
  }

  lemma DoSpares(fs: FS, cmd: Command)
    requires WF(fs) && !fs.halted && InRange(cmd, |fs.table|)
    ensures Do(fs, cmd).halted || Spares(fs, Do(fs, cmd), cmd)
  {
    hide Allocated, DoCopyin, ReadMarks;
    match cmd {
      case CopyinFile(data) =>
        CopyinSpares(fs, data);
      case CopyoutFile(i) =>
        ReadingChangesNothing(fs, i, POINTERS_PER_INODE);
      case RemoveFile(i) =>
        RemoveKeepsWF(fs, i);
        forall j | 0 <= j < |fs.table| && j != i ensures File(Remove(fs, i), j) == File(fs, j) {
          SameFile(fs, Remove(fs, i), j);
        }
    }
  }

  // ---- Sessions ----

  ghost predicate Live(fs: FS, n: nat) {
    !fs.halted ==> WF(fs) && |fs.table| == n
  }

  /** The state after the commands; nothing happens any more once the program has died. */
  ghost function Run(fs: FS, cmds: seq<Command>): (fs': FS)
    requires Live(fs, |fs.table|) && forall cmd <- cmds :: InRange(cmd, |fs.table|)
    ensures Live(fs', |fs.table|)
    decreases |cmds|
  {
    if cmds == [] || fs.halted then fs
    else
      var last := |cmds| - 1;
      var fs1 := Run(fs, cmds[..last]);
      if fs1.halted then fs1 else
        DoSpares(fs1, cmds[last]);
        Do(fs1, cmds[last])
  }

  /** In every state of every session the bitmap is exact and no block is shared. */
  lemma SessionsKeepAllocation(fs: FS, cmds: seq<Command>, b: nat)
    requires WF(fs) && !fs.halted && forall cmd <- cmds :: InRange(cmd, |fs.table|)
    requires !Run(fs, cmds).halted && FirstData(fs) <= b < |fs.disk|
    ensures var fs' := Run(fs, cmds);
            && WF(fs') && |fs'.disk| == |fs.disk| && Unshared(Directs(fs'.table))
            && (fs'.free[b] <==> !Used(Directs(fs'.table), b))
  {
    SizesStay(fs, cmds);
  }

  lemma {:induction false} SizesStay(fs: FS, cmds: seq<Command>)
    requires WF(fs) && !fs.halted && forall cmd <- cmds :: InRange(cmd, |fs.table|)
    ensures var fs' := Run(fs, cmds);
            fs'.halted || (WF(fs') && |fs'.dirty| == |fs.dirty| && |fs'.disk| == |fs.disk| && |fs'.table| == |fs.table|)
    decreases |cmds|
  {
    hide WF, Do;
    if cmds == [] {
    } else {
      var last := |cmds| - 1;
      SizesStay(fs, cmds[..last]);
      var fs1 := Run(fs, cmds[..last]);
      if !fs1.halted {
        DoSpares(fs1, cmds[last]);
      }
    }
  }

  /** A file in use keeps its inode and its bytes through every session that does not remove it. */
  lemma {:induction false} FilesSurvive(fs: FS, cmds: seq<Command>, j: nat)
    requires WF(fs) && !fs.halted && forall cmd <- cmds :: InRange(cmd, |fs.table|)
    requires j < |fs.table| && fs.table[j].valid != 0 && RemoveFile(j) !in cmds
    ensures var fs' := Run(fs, cmds);
            fs'.halted || (WF(fs') && |fs'.table| == |fs.table|
                           && fs'.table[j] == fs.table[j] && File(fs', j) == File(fs, j))
    decreases |cmds|
  {
    hide Do, File, Allocated;
    if cmds == [] {
    } else {
      var last := |cmds| - 1;
      FilesSurvive(fs, cmds[..last], j);
      var fs1 := Run(fs, cmds[..last]);
      if !fs1.halted {
        assert cmds[last] in cmds;
        DoSpares(fs1, cmds[last]);
      }
    }
  }

  /** What copyin stores, copyout returns, whatever is done to other files in between. */
  lemma CopyinThenCopyout(fs: FS, data: seq<byte>, cmds: seq<Command>)
    requires WF(fs) && !fs.halted && forall cmd <- cmds :: InRange(cmd, |fs.table|)
    requires Create(fs).1 < |fs.dirty| && RemoveFile(Create(fs).1) !in cmds
    requires !Run(fs, [CopyinFile(data)]).halted && !Run(Run(fs, [CopyinFile(data)]), cmds).halted
    ensures var fs', i, n := Run(Run(fs, [CopyinFile(data)]), cmds), Create(fs).1, Min(|data|, MAX_SIZE);
            && i < |fs'.table| && |fs'.table[i].direct| == POINTERS_PER_INODE
            && fs'.table[i].size == n <= |File(fs', i)|
            && |File(fs', i)| == (n + BLOCK_SIZE - 1) / BLOCK_SIZE * BLOCK_SIZE
            && File(fs', i)[..n] == data[..n]
  {
    var (fs0, i) := Create(fs);
    var fs1 := Run(fs, [CopyinFile(data)]);
    assert [CopyinFile(data)][..0] == [];
    assert fs1 == DoCopyin(fs, data);
    CreatedIsBlank(fs);
    CopyinCopyout(fs0, i, data);
    CopyinEffect(fs0, i, data);
    hide Run, File, Allocated;
    FilesSurvive(fs1, cmds, i);
  }
}
