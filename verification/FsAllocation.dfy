/** The bitmap agrees with the pointers: in every reachable state a data block is free exactly when no inode
    points to it, and no two pointers share a block. */
module FsAllocation {
  import opened Numbers
  import opened FsModel

  function Directs(table: seq<Inode>): (d: seq<seq<nat>>)
    ensures |d| == |table|
    ensures forall i :: 0 <= i < |table| ==> d[i] == table[i].direct
  {
    seq(|table|, i requires 0 <= i < |table| => table[i].direct)
  }

  ghost predicate Used(d: seq<seq<nat>>, b: nat) {
    exists i, k :: 0 <= i < |d| && 0 <= k < |d[i]| && d[i][k] == b
  }

  ghost predicate PointersOk(d: seq<seq<nat>>, first: nat, size: nat) {
    && first >= 1
    && (forall i :: 0 <= i < |d| ==> |d[i]| == POINTERS_PER_INODE)
    && (forall i, k :: 0 <= i < |d| && 0 <= k < |d[i]| ==> d[i][k] == 0 || first <= d[i][k] < size)
  }

  /** No block is pointed to twice. */
  ghost predicate Unshared(d: seq<seq<nat>>) {
    forall i, k, j, m | 0 <= i < |d| && 0 <= k < |d[i]| && 0 <= j < |d| && 0 <= m < |d[j]| ::
      d[i][k] != 0 && d[i][k] == d[j][m] ==> i == j && k == m
  }

  ghost predicate FreeExact(d: seq<seq<nat>>, first: nat, size: nat, free: seq<bool>) {
    && size <= |free|
    && forall b :: first <= b < size ==> (free[b] <==> !Used(d, b))
  }

  ghost predicate Allocated(d: seq<seq<nat>>, first: nat, size: nat, free: seq<bool>) {
    PointersOk(d, first, size) && Unshared(d) && FreeExact(d, first, size, free)
  }

  ghost predicate Shape(fs: FS) {
    && |fs.dirty| < |fs.disk| <= BLOCK_SIZE == |fs.free|
    && |fs.table| == |fs.dirty| * INODES_PER_BLOCK
    && (forall i :: 0 <= i < |fs.table| ==> |fs.table[i].direct| == POINTERS_PER_INODE)
  }

  ghost predicate Blank(n: Inode) {
    forall k :: 0 <= k < |n.direct| ==> n.direct[k] == 0
  }

  /** The inode part of the disk holds inode blocks, the rest whole data blocks. */
  ghost predicate DiskOk(disk: seq<Block>, ib: nat) {
    && ib < |disk| && disk[0].Super? && disk[0].inodeBlocks == ib
    && (forall b :: 1 <= b <= ib ==> disk[b].Inodes? && |disk[b].table| == INODES_PER_BLOCK)
    && (forall b :: ib < b < |disk| ==> disk[b].Data? && |disk[b].bytes| == BLOCK_SIZE)
  }

  ghost predicate WF(fs: FS) {
    && Shape(fs)
    && DiskOk(fs.disk, |fs.dirty|)
    && (forall i :: 0 <= i < |fs.table| && fs.table[i].valid == 0 ==> Blank(fs.table[i]))
    && Allocated(Directs(fs.table), FirstData(fs), |fs.disk|, fs.free)
  }

  // ---- Pointer updates ----

  function Put(direct: seq<nat>, k: nat, b: nat): seq<nat>
    requires k < |direct|
  {
    direct[k := b]
  }

  lemma UsedBySlot(d: seq<seq<nat>>, i: nat, k: nat)
    requires i < |d| && k < |d[i]|
    ensures Used(d, d[i][k])
  {
  }

  lemma UsedAfterSet(d: seq<seq<nat>>, i: nat, k: nat, b: nat, c: nat)
    requires i < |d| && k < |d[i]| && d[i][k] == 0 && b != 0 && c != 0
    ensures Used(d[i := Put(d[i], k, b)], c) <==> Used(d, c) || c == b
  {
    var d' := d[i := Put(d[i], k, b)];
    if Used(d, c) {
      var j, m :| 0 <= j < |d| && 0 <= m < |d[j]| && d[j][m] == c;
      assert d'[j][m] == c;
    }
    if c == b {
      assert d'[i][k] == c;
    }
    if Used(d', c) && c != b {
      var j, m :| 0 <= j < |d'| && 0 <= m < |d'[j]| && d'[j][m] == c;
      assert d[j][m] == c;
    }
  }

  lemma AllocateBlock(d: seq<seq<nat>>, first: nat, size: nat, free: seq<bool>, i: nat, k: nat, b: nat)
    requires Allocated(d, first, size, free)
    requires i < |d| && k < POINTERS_PER_INODE && d[i][k] == 0 && first <= b < size && free[b]
    ensures Allocated(d[i := Put(d[i], k, b)], first, size, free[b := false])
  {
    var d', free' := d[i := Put(d[i], k, b)], free[b := false];
    assert !Used(d, b);
    forall c | first <= c < size ensures free'[c] <==> !Used(d', c) {
      UsedAfterSet(d, i, k, b, c);
    }
    forall x, y, j, m | 0 <= x < |d'| && 0 <= y < |d'[x]| && 0 <= j < |d'| && 0 <= m < |d'[j]|
                        && d'[x][y] != 0 && d'[x][y] == d'[j][m]
      ensures x == j && y == m
    {
      if !(x == i && y == k) { UsedBySlot(d, x, y); }
      if !(j == i && m == k) { UsedBySlot(d, j, m); }
    }
  }

  lemma {:induction false} SetAllAt(free: seq<bool>, first: nat, size: nat, direct: seq<nat>, m: nat, v: bool, c: nat)
    requires m <= |direct| && first <= c < size <= |free|
    ensures SetAll(free, first, size, direct, m, v)[c] == if c in direct[..m] then v else free[c]
  {
    if m == 0 {
    } else {
      SetAllAt(free, first, size, direct, m - 1, v, c);
      assert direct[..m] == direct[..m - 1] + [direct[m - 1]];
    }
  }

  lemma UsedAfterClear(d: seq<seq<nat>>, i: nat, zeros: seq<nat>, c: nat)
    requires Unshared(d) && i < |d| && c != 0 && forall k :: 0 <= k < |zeros| ==> zeros[k] == 0
    ensures Used(d[i := zeros], c) <==> Used(d, c) && c !in d[i]
  {
    var d' := d[i := zeros];
    if Used(d', c) {
      var j, m :| 0 <= j < |d'| && 0 <= m < |d'[j]| && d'[j][m] == c;
      assert j != i && d[j][m] == c;
    }
    if Used(d, c) && c !in d[i] {
      var j, m :| 0 <= j < |d| && 0 <= m < |d[j]| && d[j][m] == c;
      assert j != i;
      assert d'[j][m] == c;
    }
  }

  lemma ReleaseBlocks(d: seq<seq<nat>>, first: nat, size: nat, free: seq<bool>, i: nat, zeros: seq<nat>)
    requires Allocated(d, first, size, free) && i < |d|
    requires |zeros| == POINTERS_PER_INODE && forall k :: 0 <= k < |zeros| ==> zeros[k] == 0
    ensures Allocated(d[i := zeros], first, size, SetAll(free, first, size, d[i], POINTERS_PER_INODE, true))
  {
    var d', free' := d[i := zeros], SetAll(free, first, size, d[i], POINTERS_PER_INODE, true);
    forall c | first <= c < size ensures free'[c] <==> !Used(d', c) {
      SetAllAt(free, first, size, d[i], POINTERS_PER_INODE, true, c);
      assert d[i][..POINTERS_PER_INODE] == d[i];
      UsedAfterClear(d, i, zeros, c);
    }
  }

  // ---- The operations keep the invariant ----

  lemma CreateKeepsWF(fs: FS)
    requires WF(fs)
    ensures WF(Create(fs).0)
    ensures var (fs', i) := Create(fs);
            if i == INVALID_RETURN then fs' == fs
            else i < |fs.table| && fs.table[i].valid == 0 && Blank(fs'.table[i]) && fs'.table[i].valid != 0
  {
    assert Directs(Create(fs).0.table) == Directs(fs.table);
  }

  lemma RemoveKeepsWF(fs: FS, i: nat)
    requires WF(fs) && i < |fs.table|
    ensures WF(Remove(fs, i))
  {
    var d, fs', zeros := Directs(fs.table), Remove(fs, i), Cleared(fs.table[i]).direct;
    assert Directs(fs'.table) == d[i := zeros];
    ReleaseBlocks(d, FirstData(fs), |fs.disk|, fs.free, i, zeros);
  }

  lemma UpdateSizeKeepsWF(fs: FS, i: nat, size: nat)
    requires WF(fs) && i < |fs.table|
    ensures WF(UpdateSize(fs, i, size))
  {
    assert Directs(UpdateSize(fs, i, size).table) == Directs(fs.table);
  }

  lemma WriteKeepsWF(fs: FS, i: nat, idx: nat, bytes: seq<byte>)
    requires WF(fs) && i < |fs.table| && idx < POINTERS_PER_INODE && |bytes| == BLOCK_SIZE
    requires fs.table[i].valid != 0 && fs.table[i].direct[idx] == 0 && !fs.halted
    ensures var fs' := WriteBlock(fs, i, idx, bytes); fs'.halted || WF(fs')
  {
    var b, fs' := NextFree(fs.free, FirstData(fs), |fs.disk|), WriteBlock(fs, i, idx, bytes);
    if b < |fs.disk| {
      var d := Directs(fs.table);
      assert Directs(fs'.table) == d[i := Put(d[i], idx, b)];
      AllocateBlock(d, FirstData(fs), |fs.disk|, fs.free, i, idx, b);
    }
  }
}
