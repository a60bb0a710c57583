/** What every state of every run satisfies: who owns which chopstick, exclusion, and that nobody is ever stuck. */
module DiningSafety {
  import opened Dining

  predicate Eating(p: Phil) {
    p.pc in {Take, Load, Store, PutFirst}
  }

  /** Whether philosopher i at this program point holds chopstick c. */
  predicate Holds(p: Phil, i: nat, c: nat, n: nat)
    requires i < n
  {
    || (p.pc in {Second, Take, Load, Store, PutFirst} && c == FirstChop(i, n))
    || (p.pc in {Take, Load, Store, PutFirst, PutSecond} && c == SecondChop(i, n))
  }

  function LeftUser(c: nat, n: nat): (i: nat)
    requires c < n
    ensures i < n
  {
    if c == 0 then n - 1 else c - 1
  }

  function HoldCount(s: Table, i: nat, c: nat): (h: nat)
    requires i < |s.phils|
    ensures h <= 1
  {
    if Holds(s.phils[i], i, c, |s.phils|) then 1 else 0
  }

  /** Each chopstick is free with count 1, or has count 0 and exactly one of its two users holds it. */
  ghost predicate Owned(s: Table) {
    && |s.chop| == |s.phils| >= 2
    && forall c :: 0 <= c < |s.chop| ==> s.chop[c] + HoldCount(s, c, c) + HoldCount(s, LeftUser(c, |s.chop|), c) == 1
  }

  /** The status flag at each program point. */
  ghost predicate FlagsOk(p: Phil) {
    && (p.pc in {Start, Done} <==> p.vState == VACATION)
    && (p.pc in {First, Second, Take} <==> p.vState == WAITING)
    && (p.pc in {Load, Store, PutFirst, PutSecond, Return} ==> p.vState == EATING)
    && (p.pc !in {PutFirst, PutSecond, Return} ==> p.pound == 0)
  }

  ghost predicate Inv(s: Table) {
    Owned(s) && forall i :: 0 <= i < |s.phils| ==> FlagsOk(s.phils[i])
  }

  lemma InitOwned(n: nat, rice: nat)
    requires n >= 2
    ensures Inv(Init(n, rice))
  {
  }

  lemma TwoChopsticks(i: nat, n: nat)
    requires i < n && n >= 2
    ensures FirstChop(i, n) != SecondChop(i, n)
    ensures {FirstChop(i, n), SecondChop(i, n)} == {i, Right(i, n)}
  {
  }

  /** A step moves a chopstick between its count and the philosopher's hands, never creating or losing one. */
  lemma LocalConserves(i: nat, l: Local, atomic: bool, c: nat)
    requires 2 <= |l.chop| && i < |l.chop| && c < |l.chop| && CanStep(i, l)
    requires Holds(l.phil, i, c, |l.chop|) ==> l.chop[c] == 0
    requires l.chop[c] <= 1
    ensures var l', n := LocalStep(i, l, atomic), |l.chop|;
            l'.chop[c] + (if Holds(l'.phil, i, c, n) then 1 else 0)
            == l.chop[c] + (if Holds(l.phil, i, c, n) then 1 else 0)
  {
    TwoChopsticks(i, |l.chop|);
    hide FirstChop, SecondChop;
    match l.phil.pc {
      case First =>
      case Second =>
      case PutFirst =>
      case PutSecond =>
      case _ =>
    }
  }

  lemma OwnedAt(s: Table, i: nat, atomic: bool, c: nat)
    requires Owned(s) && Enabled(s, i) && c < |s.chop|
    ensures var s' := Step(s, i, atomic);
            s'.chop[c] + HoldCount(s', c, c) + HoldCount(s', LeftUser(c, |s.chop|), c) == 1
  {
    assert s.chop[c] + HoldCount(s, c, c) + HoldCount(s, LeftUser(c, |s.chop|), c) == 1;
    OnlyUsersHold(s, i, c);
    LocalConserves(i, At(s, i), atomic, c);
    hide LocalStep, Holds;
    if i != c && i != LeftUser(c, |s.chop|) {
      NotAUser(At(s, i).phil, i, c, |s.chop|);
      NotAUser(LocalStep(i, At(s, i), atomic).phil, i, c, |s.chop|);
    }
  }

  lemma NotAUser(p: Phil, i: nat, c: nat, n: nat)
    requires n >= 2 && i < n && c < n && i != c && i != LeftUser(c, n)
    ensures !Holds(p, i, c, n)
  {
  }

  lemma OnlyUsersHold(s: Table, i: nat, c: nat)
    requires Owned(s) && i < |s.phils| && c < |s.chop|
    ensures s.chop[c] <= 1 && (Holds(s.phils[i], i, c, |s.phils|) ==> s.chop[c] == 0)
  {
    assert s.chop[c] + HoldCount(s, c, c) + HoldCount(s, LeftUser(c, |s.chop|), c) == 1;
    if i != c && i != LeftUser(c, |s.chop|) {
      NotAUser(s.phils[i], i, c, |s.chop|);
    }
  }

  lemma InvStep(s: Table, i: nat, atomic: bool)
    requires Inv(s) && Enabled(s, i)
    ensures Inv(Step(s, i, atomic))
  {
    var s' := Step(s, i, atomic);
    forall c | 0 <= c < |s'.chop|
      ensures s'.chop[c] + HoldCount(s', c, c) + HoldCount(s', LeftUser(c, |s'.chop|), c) == 1
    {
      OwnedAt(s, i, atomic, c);
    }
  }

  lemma {:induction false} RunsKeepInv(run: seq<Table>, n: nat, rice: nat, atomic: bool, j: nat)
    requires n >= 2 && IsRun(run, n, rice, atomic) && j < |run|
    ensures Inv(run[j]) && |run[j].phils| == n
  {
    hide Step, Inv;
    if j == 0 {
      InitOwned(n, rice);
    } else {
      RunsKeepInv(run, n, rice, atomic, j - 1);
      assert Next(run[j - 1], run[j - 1 + 1], atomic);
      var i: nat :| Enabled(run[j - 1], i) && run[j] == Step(run[j - 1], i, atomic);
      InvStep(run[j - 1], i, atomic);
    }
  }

  // ---- The status flag ----

  function Following(v: VState): VState {
    match v
    case VACATION => EATING
    case EATING => THINKING
    case THINKING => HUNGRY
    case HUNGRY => WAITING
    case WAITING => EATING
  }

  /** A step keeps the flag, moves it on by one, or is the last one of the thread. */
  lemma StatusGoesRound(s: Table, i: nat, atomic: bool)
    requires Inv(s) && Enabled(s, i)
    ensures var p, p' := s.phils[i], Step(s, i, atomic).phils[i];
            || p'.vState == p.vState || p'.vState == Following(p.vState)
            || (p.pc == Leave && p'.pc == Done && p'.vState == VACATION)
    ensures forall m :: 0 <= m < |s.phils| && m != i ==> Step(s, i, atomic).phils[m] == s.phils[m]
  {
    assert FlagsOk(s.phils[i]);
  }

  // ---- Exclusion ----

  lemma NeighboursNeverEatTogether(s: Table, i: nat)
    requires Owned(s) && i < |s.phils|
    ensures !(Eating(s.phils[i]) && Eating(s.phils[Right(i, |s.phils|)]))
  {
    var n := |s.phils|;
    var c := Right(i, n);
    TwoChopsticks(i, n);
    TwoChopsticks(c, n);
    assert s.chop[c] + HoldCount(s, c, c) + HoldCount(s, LeftUser(c, n), c) == 1;
    assert LeftUser(c, n) == i;
  }

  ghost function Eaters(s: Table): (e: set<nat>) {
    set i | 0 <= i < |s.phils| && Eating(s.phils[i])
  }

  ghost function RightOf(e: set<nat>, n: nat): (r: set<nat>)
    requires forall i :: i in e ==> i < n
  {
    set i | i in e :: Right(i, n)
  }

  lemma {:induction false} RightOfSize(e: set<nat>, n: nat)
    requires forall i :: i in e ==> i < n
    ensures |RightOf(e, n)| == |e|
  {
    if e == {} {
      assert RightOf(e, n) == {};
    } else {
      var i :| i in e;
      RightOfSize(e - {i}, n);
      assert RightOf(e, n) == RightOf(e - {i}, n) + {Right(i, n)};
      assert Right(i, n) !in RightOf(e - {i}, n);
    }
  }

  lemma {:induction false} BelowSize(e: set<nat>, n: nat)
    requires forall i :: i in e ==> i < n
    ensures |e| <= n
  {
    if n == 0 {
      assert e == {};
    } else {
      BelowSize(e - {n - 1}, n - 1);
      if n - 1 in e {
        assert e == e - {n - 1} + {n - 1};
      } else {
        assert e == e - {n - 1};
      }
    }
  }

  /** At most half of the philosophers eat at the same time. */
  lemma AtMostHalfEat(s: Table)
    requires Owned(s)
    ensures 2 * |Eaters(s)| <= |s.phils|
  {
    var n, e := |s.phils|, Eaters(s);
    var r := RightOf(e, n);
    RightOfSize(e, n);
    forall c | c in e && c in r ensures false {
      var i :| i in e && c == Right(i, n);
      NeighboursNeverEatTogether(s, i);
    }
    assert e * r == {};
    assert |e + r| == |e| + |r|;
    BelowSize(e + r, n);
  }

  // ---- Nobody is ever stuck ----

  /** Odd chopsticks, then chopstick 0, then the other even ones. */
  function ChopRank(c: nat): nat {
    if c % 2 == 1 then 0 else if c == 0 then 1 else 2
  }

  /** Everybody reaches for the lower-ranked chopstick first. */
  lemma LowerRankFirst(i: nat, n: nat)
    requires i < n && n >= 2
    ensures ChopRank(FirstChop(i, n)) < ChopRank(SecondChop(i, n))
  {
  }

  /** A chopstick that is not free has a user holding it. */
  lemma HolderOf(s: Table, c: nat) returns (i: nat)
    requires Owned(s) && c < |s.chop| && s.chop[c] == 0
    ensures i < |s.phils| && Holds(s.phils[i], i, c, |s.phils|)
  {
    assert s.chop[c] + HoldCount(s, c, c) + HoldCount(s, LeftUser(c, |s.chop|), c) == 1;
    i := if Holds(s.phils[c], c, c, |s.phils|) then c else LeftUser(c, |s.chop|);
  }

  /** Following the holders of the wanted chopsticks climbs the ranks, so it ends at someone who can move. */
  lemma {:induction false} SomeoneCanMove(s: Table, i: nat) returns (j: nat)
    requires Inv(s) && i < |s.phils| && s.phils[i].pc != Done
    ensures Enabled(s, j)
    decreases if s.phils[i].pc == Second then 3 - ChopRank(SecondChop(i, |s.phils|)) else 4
  {
    var n := |s.phils|;
    LowerRankFirst(i, n);
    if Enabled(s, i) {
      j := i;
    } else {
      var c := if s.phils[i].pc == First then FirstChop(i, n) else SecondChop(i, n);
      assert s.chop[c] == 0;
      var h := HolderOf(s, c);
      if Enabled(s, h) {
        j := h;
      } else {
        LowerRankFirst(h, n);
        assert s.phils[h].pc == Second && c == FirstChop(h, n);
        j := SomeoneCanMove(s, h);
      }
    }
  }

  ghost predicate AllDone(s: Table) {
    forall i :: 0 <= i < |s.phils| ==> s.phils[i].pc == Done
  }

  /** With two or more philosophers a stuck state is one in which everybody has left. */
  lemma StuckMeansDone(s: Table)
    requires Inv(s)
    ensures Stuck(s) <==> AllDone(s)
  {
    if !AllDone(s) {
      var i: nat :| i < |s.phils| && s.phils[i].pc != Done;
      var j := SomeoneCanMove(s, i);
    }
  }

  /** When everybody has left, every chopstick is back on the table. */
  lemma TableIsLaid(s: Table)
    requires Owned(s) && AllDone(s)
    ensures forall c :: 0 <= c < |s.chop| ==> s.chop[c] == 1
  {
    forall c | 0 <= c < |s.chop| ensures s.chop[c] == 1 {
      assert s.chop[c] + HoldCount(s, c, c) + HoldCount(s, LeftUser(c, |s.chop|), c) == 1;
    }
  }
}
