/** The objects: shared data with its semaphores, philosophers that update their own fields, and the program
    that starts them. `Advance` is one step of one thread; any scheduler is a choice of who advances next. */
module DiningThreads {
  import opened Dining
  import opened DiningSteps
  import opened DiningSafety
  import opened DiningProgress
  import opened DiningLimits
  import opened DiningRace
  import opened DiningReport

  class SharedData {
    var Rice: int
    const chopstic: array<nat>

    constructor (n: nat, rice: nat)
      ensures Rice == rice && fresh(chopstic) && chopstic[..] == seq(n, _ => 1)
    {
      Rice := rice;
      chopstic := new nat[n](_ => 1);
    }

    predicate MoreRice()
      reads this
    {
      Rice > 0
    }

    /** A thread that finds the chopstick taken has to wait: it does not pass. */
    method GetChopstic(who: nat) returns (passed: bool)
      requires who < chopstic.Length
      modifies chopstic
      ensures passed == (old(chopstic[who]) > 0)
      ensures chopstic[..] == if passed then old(chopstic[..])[who := old(chopstic[who]) - 1] else old(chopstic[..])
    {
      passed := chopstic[who] > 0;
      if passed {
        chopstic[who] := chopstic[who] - 1;
      }
    }

    method GetLeftChopstic(who: nat) returns (passed: bool)
      requires who < chopstic.Length
      modifies chopstic
      ensures passed == (old(chopstic[who]) > 0)
      ensures chopstic[..] == if passed then old(chopstic[..])[who := old(chopstic[who]) - 1] else old(chopstic[..])
    {
      passed := GetChopstic(who);
    }

    method GetRightChopstic(who: nat) returns (passed: bool)
      requires who < chopstic.Length
      modifies chopstic
      ensures var right := (who + 1) % chopstic.Length;
              && passed == (old(chopstic[right]) > 0)
              && chopstic[..] == if passed then old(chopstic[..])[right := old(chopstic[right]) - 1]
                                 else old(chopstic[..])
    {
      passed := GetChopstic((who + 1) % chopstic.Length);
    }

    /** The semaphores have maximum count 1, so releasing a free one changes nothing. */
    method PutChopstic(who: nat)
      requires who < chopstic.Length
      modifies chopstic
      ensures chopstic[..] == old(chopstic[..])[who := if old(chopstic[who]) == 0 then 1 else old(chopstic[who])]
    {
      if chopstic[who] < 1 {
        chopstic[who] := chopstic[who] + 1;
      }
    }

    method PutLeftChopstic(who: nat)
      requires who < chopstic.Length
      modifies chopstic
      ensures chopstic[..] == old(chopstic[..])[who := if old(chopstic[who]) == 0 then 1 else old(chopstic[who])]
    {
      PutChopstic(who);
    }

    method PutRightChopstic(who: nat)
      requires who < chopstic.Length
      modifies chopstic
      ensures var right := (who + 1) % chopstic.Length;
              chopstic[..] == old(chopstic[..])[right := if old(chopstic[right]) == 0 then 1 else old(chopstic[right])]
    {
      PutChopstic((who + 1) % chopstic.Length);
    }
  }

  class Philosopher {
    var RiceConsume: nat
    var v_State: VState
    var pc: Pc
    var pound: nat
    var tmp: int
    const myID: nat
    const Food: SharedData

    constructor (id: nat, data: SharedData)
      ensures myID == id && Food == data && AsPhil() == Phil(Start, VACATION, 0, 0, 0)
    {
      v_State := VACATION;
      myID := id;
      RiceConsume := 0;
      Food := data;
      pc, pound, tmp := Start, 0, 0;
    }

    function AsPhil(): Phil
      reads this
    {
      Phil(pc, v_State, RiceConsume, pound, tmp)
    }

    function View(): Local
      reads this, Food, Food.chopstic
    {
      Local(Food.Rice, Food.chopstic[..], AsPhil())
    }

    predicate CanAdvance()
      reads this, Food, Food.chopstic
      requires myID < Food.chopstic.Length
    {
      CanStep(myID, View())
    }

    /** One step of this thread; one that waits for a chopstick, or has ended, stays as it is. */
    method Advance(atomic: bool)
      requires myID < Food.chopstic.Length
      modifies this, Food`Rice, Food.chopstic
      ensures View() == if old(CanAdvance()) then LocalStep(myID, old(View()), atomic) else old(View())
    {
      match pc {
        case Done =>
        case Start | Check | Act | Return | Leave => RunStep();
        case First | Second | Take | Load | Store | PutFirst | PutSecond => EatStep(atomic);
      }
    }

    /** The steps of `Run`. */
    method RunStep()
      requires myID < Food.chopstic.Length && pc in {Start, Check, Act, Return, Leave}
      modifies this
      ensures CanStep(myID, old(View()))
      ensures View() == LocalStep(myID, old(View()), true) == LocalStep(myID, old(View()), false)
      ensures RunsOn(old(AsPhil()), AsPhil(), Food.Rice)
    {
      match pc {
        case Start =>
          v_State := EATING;
          pc := Check;
        case Check =>
          pc := if Food.MoreRice() then Act else Leave;
        case Act =>
          pc := Check;
          if v_State == THINKING {
            v_State := HUNGRY;
          } else if v_State == HUNGRY {
            v_State := WAITING;
            pound := 0;
            pc := First;
          } else if v_State == EATING {
            v_State := THINKING;
          }
        case Return =>
          RiceConsume := RiceConsume + pound;
          pound := 0;
          if v_State == EATING {
            v_State := THINKING;
          }
          pc := Check;
        case Leave =>
          v_State := VACATION;
          pc := Done;
      }
    }

    /** The steps of `Eat`. */
    method EatStep(atomic: bool)
      requires myID < Food.chopstic.Length && pc in {First, Second, Take, Load, Store, PutFirst, PutSecond}
      modifies this, Food`Rice, Food.chopstic
      ensures View() == if old(CanAdvance()) then LocalStep(myID, old(View()), atomic) else old(View())
      ensures EatsOn(myID, old(View()), View(), atomic)
    {
      RightIsMod(myID, Food.chopstic.Length);
      ghost var l := View();
      EatStepIs(myID, l, atomic);
      hide EatsOn;
      var passed: bool;
      match pc {
        case First =>
          if myID % 2 == 1 {
            passed := Food.GetLeftChopstic(myID);
          } else {
            passed := Food.GetRightChopstic(myID);
          }
          if passed {
            pc := Second;
          }
        case Second =>
          if myID % 2 == 1 {
            passed := Food.GetRightChopstic(myID);
          } else {
            passed := Food.GetLeftChopstic(myID);
          }
          if passed {
            pc := Take;
          }
        case Take =>
          v_State := EATING;
          if Food.Rice <= 0 {
            pc := PutFirst;
          } else if atomic {
            Food.Rice := Food.Rice - 1;
            pound := pound + 1;
            pc := PutFirst;
          } else {
            pc := Load;
          }
        case Load =>
          tmp := Food.Rice;
          pc := Store;
        case Store =>
          Food.Rice := tmp - 1;
          pound := pound + 1;
          pc := PutFirst;
        case PutFirst =>
          if myID % 2 == 1 {
            Food.PutLeftChopstic(myID);
          } else {
            Food.PutRightChopstic(myID);
          }
          pc := PutSecond;
        case PutSecond =>
          if myID % 2 == 1 {
            Food.PutRightChopstic(myID);
          } else {
            Food.PutLeftChopstic(myID);
          }
          pc := Return;
      }
    }
  }

  /** The program: N philosophers around one table. */
  class Dinner {
    const data: SharedData
    const phils: seq<Philosopher>
    ghost var model: Table

    ghost predicate Valid()
      reads this, data, data.chopstic, phils
    {
      && |phils| >= 2 && |model.phils| == |phils| && data.chopstic.Length == |phils|
      && model.rice == data.Rice && model.chop == data.chopstic[..]
      && (forall i, j :: 0 <= i < j < |phils| ==> phils[i] != phils[j])
      && (forall i :: 0 <= i < |phils| ==> phils[i].myID == i && phils[i].Food == data)
      && (forall i :: 0 <= i < |phils| ==> phils[i].AsPhil() == model.phils[i])
    }

    constructor (n: nat, rice: nat)
      requires n >= 2
      ensures Valid() && model == Init(n, rice) && |phils| == n
      ensures fresh(data) && fresh(data.chopstic) && forall p <- phils :: fresh(p)
    {
      var d := new SharedData(n, rice);
      var ps: seq<Philosopher> := [];
      for i := 0 to n
        invariant |ps| == i && d.Rice == rice && d.chopstic[..] == seq(n, _ => 1) && fresh(d) && fresh(d.chopstic)
        invariant forall j :: 0 <= j < i ==> fresh(ps[j]) && ps[j].myID == j && ps[j].Food == d
        invariant forall j :: 0 <= j < i ==> ps[j].AsPhil() == Phil(Start, VACATION, 0, 0, 0)
        invariant forall j, m :: 0 <= j < m < i ==> ps[j] != ps[m]
      {
        var p := new Philosopher(i, d);
        ps := ps + [p];
      }
      data, phils := d, ps;
      model := Init(n, rice);
    }

    method Advance(i: nat, atomic: bool)
      requires Valid() && i < |phils|
      modifies this`model, data`Rice, data.chopstic, phils[i]
      ensures model == (if Enabled(old(model), i) then Step(old(model), i, atomic) else old(model)) && Valid()
    {
      assert phils[i].View() == At(model, i);
      phils[i].Advance(atomic);
      if Enabled(model, i) {
        model := Step(model, i, atomic);
      }
    }

    method TotalRiceConsume() returns (total: nat)
      requires Valid()
      ensures total == Eaten(model.phils)
    {
      total := 0;
      for id := 0 to |phils|
        invariant total + Eaten(model.phils[id..]) == Eaten(model.phils)
      {
        total := total + ReadCount(id);
        assert model.phils[id..][1..] == model.phils[id + 1..];
      }
    }

    /** The program's own wait and print. `seen` are the philosophers as they were when their counts were read: what
        they had eaten or in hand is never less than the initial rice, and is just that if a pound is taken in one
        step or there are at most three philosophers. */
    method Report(ghost rice: nat, atomic: bool) returns (total: nat, ghost seen: seq<Phil>)
      requires Valid() && model == Init(|phils|, rice)
      modifies this`model, data`Rice, data.chopstic, phils
      ensures Valid() && LastIsDone(model)
      ensures |seen| == |phils| && total == Eaten(seen) && Handed(seen) >= rice
      ensures atomic || |phils| <= 3 ==> Handed(seen) == rice && total <= rice
      ensures atomic || |phils| <= 3 ==> (total == rice <==> forall i :: 0 <= i < |seen| ==> seen[i].pound == 0)
    {
      SoundAtStart(|phils|, rice, atomic);
      hide Sound;
      ghost var found := AwaitEnd(rice, atomic);
      total, seen := AddUp(rice, atomic, found);
      EatenOrInHand(seen);
    }

    /** Main waits until it finds no rice left, and then until the philosopher created last has gone on vacation. */
    method AwaitEnd(ghost rice: nat, atomic: bool) returns (ghost found: seq<Phil>)
      requires Valid() && Sound(model, rice, atomic)
      modifies this`model, data`Rice, data.chopstic, phils
      ensures Valid() && Sound(model, rice, atomic) && LastIsDone(model)
      ensures Handed(found) >= rice && SharesGrow(found, model.phils)
    {
      hide Sound, SharesGrow, Handed;
      while data.MoreRice()
        invariant Valid() && Sound(model, rice, atomic)
        decreases RaceMeasure(model)
      {
        LetOneGo(rice, atomic);
      }
      found := model.phils;
      AllHanded(model, rice, atomic);
      AwaitLast(rice, atomic);
    }

    method AwaitLast(ghost rice: nat, atomic: bool)
      requires Valid() && Sound(model, rice, atomic)
      modifies this`model, data`Rice, data.chopstic, phils
      ensures Valid() && Sound(model, rice, atomic) && LastIsDone(model)
      ensures SharesGrow(old(model.phils), model.phils)
    {
      hide Sound, SharesGrow;
      ghost var found := model.phils;
      assert SharesGrow(found, model.phils) by { SharesStay(found); }
      var last := phils[|phils| - 1];
      while last.pc != Done
        invariant Valid() && Sound(model, rice, atomic) && SharesGrow(found, model.phils)
        decreases RaceMeasure(model)
      {
        ghost var before := model.phils;
        LetOneGo(rice, atomic);
        SharesGrowOn(found, before, model.phils);
      }
    }

    /** While main waits some thread can go on. */
    method LetOneGo(ghost rice: nat, atomic: bool)
      requires Valid() && Sound(model, rice, atomic) && (model.rice > 0 || !LastIsDone(model))
      modifies this`model, data`Rice, data.chopstic, phils
      ensures Valid() && Sound(model, rice, atomic)
      ensures RaceMeasure(model) < old(RaceMeasure(model)) && SharesGrow(old(model.phils), model.phils)
      ensures old(LastIsDone(model)) ==> LastIsDone(model)
    {
      hide Sound, Step, Inv, SharesGrow;
      ghost var j := WhileMainWaits(model, rice, atomic);
      assert phils[j].View() == At(model, j);
      var i :| 0 <= i < |phils| && phils[i].CanAdvance();
      assert phils[i].View() == At(model, i);
      assert phils[i].myID == i && phils[i].CanAdvance();
      assert CanStep(i, At(model, i));
      GoingOn(model, i, rice, atomic);
      Advance(i, atomic);
    }

    /** Main adds up the counts while philosophers may still be eating. */
    method AddUp(ghost rice: nat, atomic: bool, ghost found: seq<Phil>) returns (total: nat, ghost seen: seq<Phil>)
      requires Valid() && Sound(model, rice, atomic) && LastIsDone(model)
      requires Handed(found) >= rice && SharesGrow(found, model.phils)
      modifies this`model, data`Rice, data.chopstic, phils
      ensures Valid() && LastIsDone(model)
      ensures |seen| == |phils| && total == Eaten(seen) && Handed(seen) >= rice
      ensures atomic || |phils| <= 3 ==> Handed(seen) == rice
    {
      total, seen := 0, [];
      NothingSeen(found, model.phils);
      hide Counting;
      for id := 0 to |phils|
        invariant Counting(id, total, found, seen, rice, atomic)
      {
        total, seen := CountNext(id, total, found, seen, rice, atomic);
      }
      Counted(total, found, seen, rice, atomic);
    }

    /** Main has added up the counts of the first `id` philosophers. */
    ghost predicate Counting(id: nat, total: nat, found: seq<Phil>, seen: seq<Phil>, rice: nat, atomic: bool)
      reads this, data, data.chopstic, phils
    {
      && Valid() && Sound(model, rice, atomic) && LastIsDone(model)
      && |seen| == id <= |phils| && total == Eaten(seen) && Between(found, seen, model.phils)
    }

    lemma Counted(total: nat, found: seq<Phil>, seen: seq<Phil>, rice: nat, atomic: bool)
      requires Counting(|phils|, total, found, seen, rice, atomic) && Handed(found) >= rice
      ensures Valid() && LastIsDone(model) && |seen| == |phils| && total == Eaten(seen)
      ensures Handed(seen) >= rice && (atomic || |phils| <= 3 ==> Handed(seen) == rice)
    {
      AllSeen(found, seen, model, rice, atomic);
    }

    /** Adds the next count; others may do steps before it is read. */
    method CountNext(id: nat, total: nat, ghost found: seq<Phil>, ghost seen: seq<Phil>, ghost rice: nat, atomic: bool)
      returns (total': nat, ghost seen': seq<Phil>)
      requires id < |phils| && Counting(id, total, found, seen, rice, atomic)
      modifies this`model, data`Rice, data.chopstic, phils
      ensures Counting(id + 1, total', found, seen', rice, atomic)
    {
      hide Sound, Between, SharesGrow, LastIsDone;
      ghost var before := model.phils;
      LetThemEat(rice, atomic);
      total' := total + ReadCount(id);
      SeenOneMore(found, seen, before, model.phils);
      EatenOneMore(seen, model.phils[id]);
      seen' := seen + [model.phils[id]];
    }

    function ReadCount(id: nat): (count: nat)
      requires Valid() && id < |phils|
      reads this, data, data.chopstic, phils
      ensures count == model.phils[id].eaten
    {
      assert phils[id].AsPhil() == model.phils[id];
      phils[id].RiceConsume
    }

    /** Some threads do some steps between two reads. */
    method LetThemEat(ghost rice: nat, atomic: bool)
      requires Valid() && Sound(model, rice, atomic) && LastIsDone(model)
      modifies this`model, data`Rice, data.chopstic, phils
      ensures Valid() && Sound(model, rice, atomic) && LastIsDone(model)
      ensures SharesGrow(old(model.phils), model.phils)
    {
      hide Sound, Step, Inv, SharesGrow;
      ghost var before := model.phils;
      assert SharesGrow(before, model.phils) by { SharesStay(before); }
      while *
        invariant Valid() && Sound(model, rice, atomic) && LastIsDone(model)
        invariant SharesGrow(before, model.phils)
        decreases RaceMeasure(model)
      {
        var i :| 0 <= i < |phils|;
        if !phils[i].CanAdvance() {
          break;
        }
        assert phils[i].View() == At(model, i);
        GoingOn(model, i, rice, atomic);
        ghost var now := model.phils;
        Advance(i, atomic);
        SharesGrowOn(before, now, model.phils);
      }
    }

    /** However the threads are scheduled they all finish with every chopstick back, and the counts are added up
        then. If a pound is taken in one step, or if there are at most three philosophers, they total the initial
        rice; never less. */
    method Dine(ghost rice: nat, atomic: bool) returns (total: nat)
      requires Valid() && model == Init(|phils|, rice)
      modifies this`model, data`Rice, data.chopstic, phils
      ensures Valid() && model.rice <= 0 && total >= rice
      ensures atomic || |phils| <= 3 ==> Finished(model, rice) && total == rice
      ensures forall i :: 0 <= i < |phils| ==> phils[i].pc == Done && phils[i].v_State == VACATION
      ensures forall c :: 0 <= c < |phils| ==> data.chopstic[c] == 1
    {
      SoundAtStart(|phils|, rice, atomic);
      hide Sound;
      RunThreads(rice, atomic);
      SoundAtEnd(model, rice, atomic);
      total := TotalRiceConsume();
      forall i | 0 <= i < |phils| ensures phils[i].pc == Done && phils[i].v_State == VACATION {
        assert phils[i].AsPhil() == model.phils[i];
      }
    }

    /** Any schedule, until no thread can move. */
    method RunThreads(ghost rice: nat, atomic: bool)
      requires Valid() && Sound(model, rice, atomic)
      modifies this`model, data`Rice, data.chopstic, phils
      ensures Valid() && Sound(model, rice, atomic) && Stuck(model)
    {
      hide Sound, Step, Inv;
      while exists i :: 0 <= i < |phils| && phils[i].CanAdvance()
        invariant Valid() && Sound(model, rice, atomic)
        decreases RaceMeasure(model)
      {
        var i :| 0 <= i < |phils| && phils[i].CanAdvance();
        assert Inv(model) by { SoundIsInv(model, rice, atomic); }
        SoundStep(model, i, rice, atomic);
        RaceDecreases(model, i, atomic);
        Advance(i, atomic);
      }
      forall i: nat | i < |phils| ensures !Enabled(model, i) {
        assert phils[i].View() == At(model, i);
      }
    }
  }

  // ---- What holds while they dine ----

  ghost predicate Sound(s: Table, rice: nat, atomic: bool) {
    && Inv(s)
    && if atomic then RiceOk(s) && s.rice + Handed(s.phils) == rice
       else NothingLost(s, rice) && SomeoneStays(s) && (|s.phils| <= 3 ==> Exact(s, rice))
  }

  lemma SoundIsInv(s: Table, rice: nat, atomic: bool)
    requires Sound(s, rice, atomic)
    ensures Inv(s)
  {
  }

  lemma SoundAtStart(n: nat, rice: nat, atomic: bool)
    requires n >= 2
    ensures Sound(Init(n, rice), rice, atomic)
  {
    InitOwned(n, rice);
    NothingHanded(n, rice);
    InitLosesNothing(n, rice);
    StartStays(n, rice);
  }

  lemma SoundStep(s: Table, i: nat, rice: nat, atomic: bool)
    requires Sound(s, rice, atomic) && Enabled(s, i)
    ensures Sound(Step(s, i, atomic), rice, atomic)
  {
    hide Step, Inv, RiceOk, NothingLost, SomeoneStays, Exact, Handed;
    InvStep(s, i, atomic);
    if atomic {
      RiceStep(s, i);
    } else {
      NothingLostStep(s, i, rice);
      SomeoneStaysStep(s, i);
      if |s.phils| <= 3 {
        ExactStep(s, i, rice);
      }
    }
  }

  lemma SoundAtEnd(s: Table, rice: nat, atomic: bool)
    requires Sound(s, rice, atomic) && Stuck(s)
    ensures AllDone(s) && s.rice <= 0 && Eaten(s.phils) >= rice
    ensures forall i :: 0 <= i < |s.phils| ==> s.phils[i].vState == VACATION
    ensures forall c :: 0 <= c < |s.chop| ==> s.chop[c] == 1
    ensures atomic || |s.phils| <= 3 ==> Finished(s, rice)
  {
    StuckMeansDone(s);
    TableIsLaid(s);
    EatenIsHanded(s.phils);
    assert s.phils[0].pc == Done;
  }

  // ---- While main waits and reads ----

  lemma WhileMainWaits(s: Table, rice: nat, atomic: bool) returns (i: nat)
    requires Sound(s, rice, atomic) && (s.rice > 0 || !LastIsDone(s))
    ensures Enabled(s, i)
  {
    if forall j: nat :: !Enabled(s, j) {
      SoundAtEnd(s, rice, atomic);
      assert false;
    }
    i :| Enabled(s, i);
  }

  /** What one step of a thread keeps. */
  lemma GoingOn(s: Table, i: nat, rice: nat, atomic: bool)
    requires Sound(s, rice, atomic) && Enabled(s, i)
    ensures var s' := Step(s, i, atomic);
            && Sound(s', rice, atomic) && RaceMeasure(s') < RaceMeasure(s) && SharesGrow(s.phils, s'.phils)
            && (LastIsDone(s) ==> LastIsDone(s'))
  {
    assert Inv(s) by { SoundIsInv(s, rice, atomic); }
    hide Sound, RaceMeasure, SharesGrow;
    SoundStep(s, i, rice, atomic);
    RaceDecreases(s, i, atomic);
    ShareStep(s, i, atomic);
  }

  lemma AllHanded(s: Table, rice: nat, atomic: bool)
    requires Sound(s, rice, atomic) && s.rice <= 0
    ensures Handed(s.phils) >= rice
  {
  }

  lemma SharesStay(phils: seq<Phil>)
    ensures SharesGrow(phils, phils)
  {
  }

  lemma SharesGrowOn(a: seq<Phil>, b: seq<Phil>, c: seq<Phil>)
    requires SharesGrow(a, b) && SharesGrow(b, c)
    ensures SharesGrow(a, c)
  {
    forall i | 0 <= i < |a| ensures Share(a[i]) <= Share(c[i]) {
      assert Share(a[i]) <= Share(b[i]) <= Share(c[i]);
    }
  }

  /** The philosophers seen so far lie between what they were when main found no rice and what they are now. */
  ghost predicate Between(found: seq<Phil>, seen: seq<Phil>, phils: seq<Phil>) {
    && SharesGrow(found, phils) && |seen| <= |phils|
    && SharesGrow(found[..|seen|], seen) && SharesGrow(seen, phils[..|seen|])
  }

  lemma NothingSeen(found: seq<Phil>, phils: seq<Phil>)
    requires SharesGrow(found, phils)
    ensures Between(found, [], phils)
  {
  }

  lemma SeenOneMore(found: seq<Phil>, seen: seq<Phil>, before: seq<Phil>, phils: seq<Phil>)
    requires Between(found, seen, before) && SharesGrow(before, phils) && |seen| < |phils|
    ensures Between(found, seen + [phils[|seen|]], phils)
  {
    var n := |seen|;
    hide Share;
    SharesGrowOn(found, before, phils);
    forall i | 0 <= i < n ensures Share(found[i]) <= Share(seen[i]) <= Share(phils[i]) {
      assert Share(found[..n][i]) <= Share(seen[i]) <= Share(before[..n][i]);
      assert Share(before[i]) <= Share(phils[i]);
    }
    assert Share(found[n]) <= Share(phils[n]);
  }

  lemma AllSeen(found: seq<Phil>, seen: seq<Phil>, s: Table, rice: nat, atomic: bool)
    requires Sound(s, rice, atomic) && Between(found, seen, s.phils) && |seen| == |s.phils| && Handed(found) >= rice
    ensures Handed(seen) >= rice
    ensures atomic || |s.phils| <= 3 ==> Handed(seen) == rice
  {
    assert found[..|seen|] == found && s.phils[..|seen|] == s.phils;
    MoreShares(found, seen);
    MoreShares(seen, s.phils);
  }

  lemma {:induction false} EatenOneMore(phils: seq<Phil>, p: Phil)
    ensures Eaten(phils + [p]) == Eaten(phils) + p.eaten
  {
    if phils == [] {
      assert phils + [p] == [p] && [p][1..] == [];
    } else {
      EatenOneMore(phils[1..], p);
      assert (phils + [p])[1..] == phils[1..] + [p];
    }
  }
}
