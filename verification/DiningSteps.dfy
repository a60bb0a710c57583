/** What one step of a thread does, field by field. */
module DiningSteps {
  import opened Dining

  /** What a step of `Run` does to the thread's own fields, when there are `rice` pounds. */
  predicate RunsOn(p: Phil, p': Phil, rice: int) {
    var (e, x) := (p.eaten, p.tmp);
    match p.pc
    case Start => p' == Phil(Check, EATING, e, p.pound, x)
    case Check => p' == Phil(if rice > 0 then Act else Leave, p.vState, e, p.pound, x)
    case Act =>
      (match p.vState
       case THINKING => p' == Phil(Check, HUNGRY, e, p.pound, x)
       case HUNGRY => p' == Phil(First, WAITING, e, 0, x)
       case EATING => p' == Phil(Check, THINKING, e, p.pound, x)
       case _ => p' == Phil(Check, p.vState, e, p.pound, x))
    case Return => p' == Phil(Check, if p.vState == EATING then THINKING else p.vState, e + p.pound, 0, x)
    case Leave => p' == Phil(Done, VACATION, e, p.pound, x)
    case _ => false
  }

  /** What a step of `Eat` does: odd philosophers take and put back the left chopstick first, even ones the right. */
  predicate EatsOn(i: nat, l: Local, l': Local, atomic: bool)
    requires i < |l.chop|
  {
    var (left, right, p) := (i, (i + 1) % |l.chop|, l.phil);
    var (first, second) := if i % 2 == 1 then (left, right) else (right, left);
    match p.pc
    case First => Takes(l, l', first, Second)
    case Second => Takes(l, l', second, Take)
    case Take =>
      if l.rice <= 0 then l' == Local(l.rice, l.chop, Phil(PutFirst, EATING, p.eaten, p.pound, p.tmp))
      else if atomic then l' == Local(l.rice - 1, l.chop, Phil(PutFirst, EATING, p.eaten, p.pound + 1, p.tmp))
      else l' == Local(l.rice, l.chop, Phil(Load, EATING, p.eaten, p.pound, p.tmp))
    case Load => l' == Local(l.rice, l.chop, Phil(Store, p.vState, p.eaten, p.pound, l.rice))
    case Store => l' == Local(p.tmp - 1, l.chop, Phil(PutFirst, p.vState, p.eaten, p.pound + 1, p.tmp))
    case PutFirst => PutsBack(l, l', first, PutSecond)
    case PutSecond => PutsBack(l, l', second, Return)
    case _ => false
  }

  /** A free chopstick is taken; a thread that finds it taken stays where it is. */
  predicate Takes(l: Local, l': Local, c: nat, next: Pc)
    requires c < |l.chop|
  {
    if l.chop[c] == 0 then l' == l
    else
      && l'.rice == l.rice && l'.phil == Phil(next, l.phil.vState, l.phil.eaten, l.phil.pound, l.phil.tmp)
      && l'.chop == l.chop[c := l.chop[c] - 1]
  }

  predicate PutsBack(l: Local, l': Local, c: nat, next: Pc)
    requires c < |l.chop|
  {
    && l'.rice == l.rice && l'.phil == Phil(next, l.phil.vState, l.phil.eaten, l.phil.pound, l.phil.tmp)
    && l'.chop == l.chop[c := if l.chop[c] == 0 then 1 else l.chop[c]]
  }

  lemma RightIsMod(who: nat, n: nat)
    requires who < n
    ensures (who + 1) % n == Right(who, n)
  {
  }

  lemma RunStepIs(i: nat, l: Local, atomic: bool)
    requires i < |l.chop| && l.phil.pc in {Start, Check, Act, Return, Leave}
    ensures CanStep(i, l)
    ensures var l' := LocalStep(i, l, atomic); l'.rice == l.rice && l'.chop == l.chop && RunsOn(l.phil, l'.phil, l.rice)
  {
  }

  /** A thread of which `CanStep` is false waits for its chopstick. */
  lemma EatStepIs(i: nat, l: Local, atomic: bool)
    requires i < |l.chop| && l.phil.pc in {First, Second, Take, Load, Store, PutFirst, PutSecond}
    ensures EatsOn(i, l, if CanStep(i, l) then LocalStep(i, l, atomic) else l, atomic)
  {
    RightIsMod(i, |l.chop|);
    hide Right;
  }
}
