/** The dining philosophers as interleaved steps. A thread's program counter names the next access it makes
    to shared data; local assignments belong to the step before or after them. */
module Dining {

  datatype VState = THINKING | HUNGRY | WAITING | EATING | VACATION

  /** The points of `Run` (Start, Check, Act, Return, Leave, Done) and of `Eat` (the others). */
  datatype Pc =
    Start | Check | Act | First | Second | Take | Load | Store | PutFirst | PutSecond | Return | Leave | Done

  /** One thread: `eaten` is RiceConsume, `pound` what `Eat` will return, `tmp` the value of Rice it has loaded. */
  datatype Phil = Phil(pc: Pc, vState: VState, eaten: nat, pound: nat, tmp: int)

  datatype Table = Table(rice: int, chop: seq<nat>, phils: seq<Phil>)

  /** What one thread can touch. */
  datatype Local = Local(rice: int, chop: seq<nat>, phil: Phil)

  function Right(i: nat, n: nat): (c: nat)
    requires i < n
    ensures c < n
  {
    if i + 1 == n then 0 else i + 1
  }

  /** Odd philosophers reach for the left chopstick first, even ones for the right. */
  function FirstChop(i: nat, n: nat): (c: nat)
    requires i < n
    ensures c < n
  {
    if i % 2 == 1 then i else Right(i, n)
  }

  function SecondChop(i: nat, n: nat): (c: nat)
    requires i < n
    ensures c < n
  {
    if i % 2 == 1 then Right(i, n) else i
  }

  /** A semaphore with maximum count 1. */
  function Signal(chop: seq<nat>, c: nat): (chop': seq<nat>)
    requires c < |chop|
    ensures |chop'| == |chop|
  {
    if chop[c] < 1 then chop[c := chop[c] + 1] else chop
  }

  function Wait(chop: seq<nat>, c: nat): (chop': seq<nat>)
    requires c < |chop| && chop[c] > 0
    ensures |chop'| == |chop|
  {
    chop[c := chop[c] - 1]
  }

  predicate CanStep(i: nat, l: Local)
    requires i < |l.chop|
  {
    match l.phil.pc
    case First => l.chop[FirstChop(i, |l.chop|)] > 0
    case Second => l.chop[SecondChop(i, |l.chop|)] > 0
    case Done => false
    case _ => true
  }

  /** One step of philosopher i. With `atomic` the test and the decrement of Rice are one step,
      otherwise the test, the load and the store are three. */
  function LocalStep(i: nat, l: Local, atomic: bool): (l': Local)
    requires i < |l.chop| && CanStep(i, l)
    ensures |l'.chop| == |l.chop|
  {
    var n, p := |l.chop|, l.phil;
    match p.pc
    case Start => l.(phil := p.(pc := Check, vState := EATING))
    case Check => l.(phil := p.(pc := if l.rice > 0 then Act else Leave))
    case Act =>
      if p.vState == THINKING then l.(phil := p.(pc := Check, vState := HUNGRY))
      else if p.vState == HUNGRY then l.(phil := p.(pc := First, vState := WAITING, pound := 0))
      else if p.vState == EATING then l.(phil := p.(pc := Check, vState := THINKING))
      else l.(phil := p.(pc := Check))
    case First => l.(chop := Wait(l.chop, FirstChop(i, n)), phil := p.(pc := Second))
    case Second => l.(chop := Wait(l.chop, SecondChop(i, n)), phil := p.(pc := Take))
    case Take =>
      if l.rice <= 0 then l.(phil := p.(pc := PutFirst, vState := EATING))
      else if atomic then l.(rice := l.rice - 1, phil := p.(pc := PutFirst, vState := EATING, pound := p.pound + 1))
      else l.(phil := p.(pc := Load, vState := EATING))
    case Load => l.(phil := p.(pc := Store, tmp := l.rice))
    case Store => l.(rice := p.tmp - 1, phil := p.(pc := PutFirst, pound := p.pound + 1))
    case PutFirst => l.(chop := Signal(l.chop, FirstChop(i, n)), phil := p.(pc := PutSecond))
    case PutSecond => l.(chop := Signal(l.chop, SecondChop(i, n)), phil := p.(pc := Return))
    case Return =>
      l.(phil := p.(pc := Check, eaten := p.eaten + p.pound, pound := 0,
                    vState := if p.vState == EATING then THINKING else p.vState))
    case Leave => l.(phil := p.(pc := Done, vState := VACATION))
  }

  function At(s: Table, i: nat): Local
    requires i < |s.phils|
  {
    Local(s.rice, s.chop, s.phils[i])
  }

  predicate Enabled(s: Table, i: nat)
    requires |s.chop| == |s.phils|
  {
    i < |s.phils| && CanStep(i, At(s, i))
  }

  function Step(s: Table, i: nat, atomic: bool): (s': Table)
    requires |s.chop| == |s.phils| && Enabled(s, i)
    ensures |s'.chop| == |s'.phils| == |s.phils|
  {
    var l := LocalStep(i, At(s, i), atomic);
    Table(l.rice, l.chop, s.phils[i := l.phil])
  }

  function Init(n: nat, rice: nat): Table {
    Table(rice, seq(n, _ => 1), seq(n, _ => Phil(Start, VACATION, 0, 0, 0)))
  }

  // ---- Runs ----

  ghost predicate Next(s: Table, s': Table, atomic: bool) {
    |s.chop| == |s.phils| && exists i: nat :: Enabled(s, i) && s' == Step(s, i, atomic)
  }

  ghost predicate IsRun(run: seq<Table>, n: nat, rice: nat, atomic: bool) {
    && |run| > 0 && run[0] == Init(n, rice)
    && forall j :: 0 <= j < |run| - 1 ==> Next(run[j], run[j + 1], atomic)
  }

  ghost predicate Stuck(s: Table) {
    |s.chop| == |s.phils| && forall i: nat :: !Enabled(s, i)
  }
}
