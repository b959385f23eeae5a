// src/cycInt.c and the drain loop of src/m68000.c in their own form: a table updated in place,
// with every function tied to what module Scheduler says it does.
module CycleInterrupts {
  import opened Scheduler
  import opened SchedulerRuns

  const EVENT_LOOP: nat := 15

  class CycInt {
    var InterruptHandlers: array<Handler>
    var PendingInterrupt: Handler
    var ActiveInterrupt: nat
    var nCyclesOver: int
    var nCyclesMainCounter: int
    var usCheckCycles: int
    const config: Config

    ghost predicate Valid()
      reads this
    {
      InterruptHandlers.Length == MAX_INTERRUPTS && ActiveInterrupt < MAX_INTERRUPTS
    }

    ghost function Now(): (s: State)
      reads this, InterruptHandlers
      ensures |s.table| == InterruptHandlers.Length && s.active == ActiveInterrupt
    {
      State(InterruptHandlers[..], PendingInterrupt, ActiveInterrupt, nCyclesOver, nCyclesMainCounter, usCheckCycles)
    }

    constructor (c: Config)
      ensures Valid() && fresh(InterruptHandlers) && config == c && Coherent(Now())
    {
      InterruptHandlers := new Handler[MAX_INTERRUPTS](i => Handler(NONE, INT64_MAX, i));
      PendingInterrupt := Handler(NONE, 0, 0);
      ActiveInterrupt, nCyclesOver, nCyclesMainCounter, usCheckCycles := 0, 0, 0, 0;
      config := c;
    }

    method Reset()
      requires Valid()
      modifies this, InterruptHandlers
      ensures Valid() && InterruptHandlers == old(InterruptHandlers) && Now() == Scheduler.Reset(old(Now()))
    {
      PendingInterrupt := PendingInterrupt.(time := 0);
      ActiveInterrupt, nCyclesOver, nCyclesMainCounter, usCheckCycles := 0, 0, 0, 0;
      for i := 0 to MAX_INTERRUPTS
        invariant Valid() && InterruptHandlers == old(InterruptHandlers)
        invariant forall k | 0 <= k < i :: InterruptHandlers[k] == Handler(NONE, INT64_MAX, k)
        modifies InterruptHandlers
      {
        InterruptHandlers[i] := Handler(NONE, INT64_MAX, i);
      }
      assert InterruptHandlers[..] == Scheduler.Reset(old(Now())).table;
    }

    method SetNewInterrupt()
      requires Valid()
      modifies this`PendingInterrupt, this`ActiveInterrupt
      ensures Valid() && Now() == SetNew(old(Now()))
    {
      var lowestCycleCount := INT64_MAX;
      var lowestInterrupt := 0;
      for i := 1 to MAX_INTERRUPTS
        invariant Valid() && lowestInterrupt == Best(InterruptHandlers[..], i) < MAX_INTERRUPTS
        invariant lowestCycleCount == if lowestInterrupt == 0 then INT64_MAX
                  else InterruptHandlers[lowestInterrupt].time
      {
        if InterruptHandlers[i].kind == CPU && InterruptHandlers[i].time < lowestCycleCount {
          lowestCycleCount := InterruptHandlers[i].time;
          lowestInterrupt := i;
        }
      }
      PendingInterrupt := InterruptHandlers[lowestInterrupt];
      ActiveInterrupt := lowestInterrupt;
    }

    method UpdateInterrupt()
      requires Valid()
      modifies this`nCyclesOver, InterruptHandlers
      ensures Valid() && Now() == Update(old(Now()))
    {
      ghost var s := Now();
      for i := 0 to MAX_INTERRUPTS
        invariant Valid() && nCyclesOver == s.over
        invariant forall k | 0 <= k < MAX_INTERRUPTS ::
          InterruptHandlers[k] == if k < i then Update(s).table[k] else s.table[k]
        modifies InterruptHandlers
      {
        if InterruptHandlers[i].kind == CPU {
          InterruptHandlers[i] := InterruptHandlers[i].(time := InterruptHandlers[i].time - nCyclesOver);
        }
      }
      nCyclesOver := 0;
      assert InterruptHandlers[..] == Update(s).table;
    }

    method SetNewInterruptUs(now: int) returns (found: bool)
      requires Valid()
      modifies this`PendingInterrupt, this`ActiveInterrupt
      ensures Valid() && Now() == SetNewUs(config, old(Now()), now)
      ensures found <==> config.realtime && Due(old(Now()).table, now, 0) < MAX_INTERRUPTS
    {
      if config.realtime {
        for i := 0 to MAX_INTERRUPTS
          invariant Due(InterruptHandlers[..], now, 0) == Due(InterruptHandlers[..], now, i)
        {
          if InterruptHandlers[i].kind == US && now > InterruptHandlers[i].time {
            PendingInterrupt := InterruptHandlers[i];
            PendingInterrupt := PendingInterrupt.(time := -1);
            ActiveInterrupt := i;
            return true;
          }
        }
      }
      return false;
    }

    method AddCycles(cycles: nat, now: int)
      requires Valid()
      modifies this
      ensures Valid() && InterruptHandlers == old(InterruptHandlers) && Now() == Tick(config, old(Now()), cycles, now)
    {
      hide Due;
      nCyclesOver := nCyclesOver + cycles;
      if PendingInterrupt.kind == CPU {
        PendingInterrupt := PendingInterrupt.(time := PendingInterrupt.time - cycles);
      }
      if usCheckCycles < 0 {
        var found := SetNewInterruptUs(now);
        if !found {
          usCheckCycles := 100 * config.cpuFreq;
        }
      } else {
        usCheckCycles := usCheckCycles - cycles;
      }
      nCyclesMainCounter := nCyclesMainCounter + cycles;
    }

    method AcknowledgeInterrupt()
      requires Valid()
      modifies this, InterruptHandlers
      ensures Valid() && InterruptHandlers == old(InterruptHandlers) && Now() == Acknowledge(old(Now()))
    {
      hide Update, SetNew;
      UpdateInterrupt();
      InterruptHandlers[ActiveInterrupt] := InterruptHandlers[ActiveInterrupt].(kind := NONE);
      assert Now() == Disarm(Update(old(Now())), old(ActiveInterrupt));
      SetNewInterrupt();
    }

    method Arm(h: nat, kind: Kind, time: int)
      requires Valid() && h < MAX_INTERRUPTS
      modifies this, InterruptHandlers
      ensures Valid() && InterruptHandlers == old(InterruptHandlers)
      ensures var r := Synced(old(Now())); Now() == SetNew(r.(table :=
              r.table[h := Handler(kind, time, r.table[h].fn)]))
    {
      hide Update, SetNew;
      if ActiveInterrupt > 0 {
        UpdateInterrupt();
      }
      assert Now() == Synced(old(Now()));
      InterruptHandlers[h] := Handler(kind, time, InterruptHandlers[h].fn);
      SetNewInterrupt();
    }

    method AddRelativeInterruptCycles(cycleTime: nat, h: nat)
      requires Valid() && h < MAX_INTERRUPTS
      modifies this, InterruptHandlers
      ensures Valid() && InterruptHandlers == old(InterruptHandlers) && Now() == ArmCycles(old(Now()), h, cycleTime)
    {
      hide SetNew, Synced;
      Arm(h, CPU, cycleTime);
    }

    method AddRelativeInterruptUs(us: nat, usreal: int, h: nat, now: int)
      requires Valid() && h < MAX_INTERRUPTS
      modifies this, InterruptHandlers
      ensures Valid() && InterruptHandlers == old(InterruptHandlers)
      ensures Now() == ArmUs(config, old(Now()), h, us, usreal, now)
    {
      hide SetNew, Synced, CyclesOf;
      if config.realtime {
        var t := if usreal > 0 then usreal else us;
        Arm(h, US, now + t);
      } else {
        AddRelativeInterruptCycles(CyclesOf(config, us), h);
      }
    }

    method AddRelativeInterruptUsCycles(us: nat, usreal: int, h: nat)
      requires Valid() && h < MAX_INTERRUPTS
      modifies this, InterruptHandlers
      ensures Valid() && InterruptHandlers == old(InterruptHandlers)
      ensures Now() == ArmUsCycles(config, old(Now()), h, us, usreal)
    {
      hide SetNew, Synced, CyclesOf;
      var t: nat := if config.realtime && usreal > 0 then usreal else us;
      AddRelativeInterruptCycles(CyclesOf(config, t), h);
    }

    method RemovePendingInterrupt(h: nat)
      requires Valid() && h < MAX_INTERRUPTS
      modifies this, InterruptHandlers
      ensures Valid() && InterruptHandlers == old(InterruptHandlers) && Now() == Remove(old(Now()), h)
    {
      hide Update, SetNew;
      UpdateInterrupt();
      InterruptHandlers[h] := InterruptHandlers[h].(kind := NONE);
      assert Now() == Disarm(Update(old(Now())), h);
      SetNewInterrupt();
    }

    // One operation of a device handler.
    method Perform(op: Op)
      requires Valid() && DeviceOp(config, op)
      modifies this, InterruptHandlers
      ensures Valid() && InterruptHandlers == old(InterruptHandlers)
      ensures Allowed(config, old(Now()), op) && Now() == Apply(config, old(Now()), op)
    {
      hide SetNew, Synced, CyclesOf;
      match op
      case OpArm(h, time) => AddRelativeInterruptCycles(time, h);
      case OpArmUs(h, us, usreal, now) => AddRelativeInterruptUs(us, usreal, h, now);
      case OpArmUsCycles(h, us, usreal) => AddRelativeInterruptUsCycles(us, usreal, h);
      case OpRemove(h) => RemovePendingInterrupt(h);
    }

    // A device handler acknowledges its interrupt, then arms and removes events of devices.
    method CallHandler(ops: seq<Op>)
      requires Valid() && Shaped(Now()) && nCyclesOver >= 0 && Ripe(Now())
      requires forall op | op in ops :: DeviceOp(config, op)
      modifies this, InterruptHandlers
      ensures Valid() && InterruptHandlers == old(InterruptHandlers)
      ensures Coherent(Now()) && nCyclesOver == 0 && (old(Quiet(Now())) ==> Quiet(Now()))
      ensures IsRun(config, old(Now()), [OpFire] + ops, Now())
    {
      hide Acknowledge, Apply, Allowed, Coherent, Quiet, IsRun, Shaped;
      if Quiet(Now()) { AcknowledgeQuiet(Now()); }
      AcknowledgeCoherent(Now());
      AcknowledgeOver(Now());
      RunOfFire(config, Now());
      ghost var s0 := Now();
      AcknowledgeInterrupt();
      assert [OpFire] + ops[..0] == [OpFire];
      for i := 0 to |ops|
        invariant Valid() && InterruptHandlers == old(InterruptHandlers)
        invariant Coherent(Now()) && nCyclesOver == 0 && (old(Quiet(Now())) ==> Quiet(Now()))
        invariant IsRun(config, s0, [OpFire] + ops[..i], Now())
      {
        assert ops[i] in ops;
        ghost var s := Now();
        Perform(ops[i]);
        DeviceOpServed(config, s, ops[i]);
        RunMore(config, s0, [OpFire] + ops[..i], s, ops[i]);
        assert [OpFire] + ops[..i + 1] == [OpFire] + ops[..i] + [ops[i]];
      }
      assert ops[..|ops|] == ops;
    }
  }

  // From s the operations lead to r, each of them allowed and on time where it comes.
  ghost predicate IsRun(c: Config, s: State, ops: seq<Op>, r: State) {
    SchedulerRuns.Valid(c, s, ops) && Punctual(c, s, ops) && After(c, s, ops) == r
  }

  lemma RunOfNone(c: Config, s: State)
    ensures IsRun(c, s, [], s)
  {}

  lemma RunOfFire(c: Config, s: State)
    requires |s.table| == MAX_INTERRUPTS && s.active < MAX_INTERRUPTS && Ripe(s)
    ensures IsRun(c, s, [OpFire], Acknowledge(s))
  {
    hide Acknowledge;
    assert [OpFire][1..] == [];
  }

  lemma {:induction false} RunMore(c: Config, s: State, ops: seq<Op>, r: State, op: Op)
    requires IsRun(c, s, ops, r) && Allowed(c, r, op) && OnTime(c, r, op)
    ensures IsRun(c, s, ops + [op], Apply(c, r, op))
    decreases |ops|
  {
    hide Apply, Allowed, OnTime;
    if ops == [] {
      assert r == s && ops + [op] == [op] && [op][1..] == [];
      RunOfNone(c, Apply(c, s, op));
    } else {
      assert (ops + [op])[1..] == ops[1..] + [op];
      RunMore(c, Apply(c, s, ops[0]), ops[1..], r, op);
    }
  }

  lemma {:induction false} RunConcat(c: Config, s: State, ops: seq<Op>, r: State, more: seq<Op>, t: State)
    requires IsRun(c, s, ops, r) && IsRun(c, r, more, t)
    ensures IsRun(c, s, ops + more, t)
    decreases |ops|
  {
    hide Apply, Allowed, OnTime;
    if ops == [] {
      assert ops + more == more;
    } else {
      assert (ops + more)[1..] == ops[1..] + more;
      RunConcat(c, Apply(c, s, ops[0]), ops[1..], r, more, t);
    }
  }

  // What a device handler may do to the schedule: anything but touch the event-loop event.
  predicate DeviceOp(c: Config, op: Op) {
    match op
    case OpArm(h, time) => 1 <= h < MAX_INTERRUPTS && h != EVENT_LOOP && time < INT64_MAX
    case OpArmUs(h, us, usreal, now) => 1 <= h < MAX_INTERRUPTS && h != EVENT_LOOP && CyclesOf(c, us) < INT64_MAX
    case OpArmUsCycles(h, us, usreal) => 1 <= h < MAX_INTERRUPTS && h != EVENT_LOOP && Cycles(c, us, usreal) < INT64_MAX
    case OpRemove(h) => 1 <= h < MAX_INTERRUPTS && h != EVENT_LOOP
    case _ => false
  }

  // Nothing short of more cycles can make the event-loop event ripe.
  ghost predicate Quiet(s: State) {
    && |s.table| == MAX_INTERRUPTS && s.over == 0
    && (s.table[EVENT_LOOP].kind == CPU ==> s.table[EVENT_LOOP].time > 0)
    && (s.pending.fn == EVENT_LOOP ==> s.pending.time > 0)
  }

  lemma SetNewQuiet(s: State)
    requires Shaped(s) && s.over == 0
    requires s.table[EVENT_LOOP].kind == CPU ==> s.table[EVENT_LOOP].time > 0
    ensures Quiet(SetNew(s))
  {
    hide Best;
    BestIsLeast(s.table, MAX_INTERRUPTS);
  }

  lemma AcknowledgeQuiet(s: State)
    requires Shaped(s) && Quiet(s)
    ensures Quiet(Acknowledge(s))
  {
    hide SetNew;
    UpdateKeepsDeadlines(s);
    SetNewQuiet(Disarm(Update(s), s.active));
  }

  lemma ArmQuiet(s: State, h: nat, kind: Kind, time: int)
    requires Shaped(s) && Quiet(s) && 1 <= h < MAX_INTERRUPTS && h != EVENT_LOOP && (kind == CPU ==> time < INT64_MAX)
    ensures var r := Synced(s); Quiet(SetNew(r.(table := r.table[h := Handler(kind, time, r.table[h].fn)])))
  {
    hide SetNew;
    SyncedShaped(s);
    var r := Synced(s);
    SetNewQuiet(r.(table := r.table[h := Handler(kind, time, r.table[h].fn)]));
  }

  lemma DeviceOpQuiet(c: Config, s: State, op: Op)
    requires Shaped(s) && Quiet(s) && DeviceOp(c, op) && Allowed(c, s, op)
    ensures Quiet(Apply(c, s, op))
  {
    hide SetNew, Synced, Shaped, Quiet, CyclesOf;
    match op
    case OpArm(h, time) => ArmQuiet(s, h, CPU, time);
    case OpArmUs(h, us, usreal, now) =>
      ArmQuiet(s, h, US, now + (if usreal > 0 then usreal else us));
      ArmQuiet(s, h, CPU, CyclesOf(c, us));
    case OpArmUsCycles(h, us, usreal) => ArmQuiet(s, h, CPU, Cycles(c, us, usreal));
    case OpRemove(h) => RemoveQuiet(s, h);
  }

  lemma RemoveQuiet(s: State, h: nat)
    requires Shaped(s) && Quiet(s) && 1 <= h < MAX_INTERRUPTS && h != EVENT_LOOP
    ensures Quiet(Remove(s, h))
  {
    hide SetNew;
    UpdateKeepsDeadlines(s);
    SetNewQuiet(Disarm(Update(s), h));
  }

  lemma AcknowledgeOver(s: State)
    requires |s.table| == MAX_INTERRUPTS && s.active < MAX_INTERRUPTS
    ensures Acknowledge(s).over == 0 && |Acknowledge(s).table| == MAX_INTERRUPTS
  {}

  // No cycles pass inside a handler, so nothing it arms is late or early.
  lemma DeviceOpServed(c: Config, s: State, op: Op)
    requires Coherent(s) && s.over == 0 && DeviceOp(c, op) && Allowed(c, s, op)
    ensures OnTime(c, s, op) && Coherent(Apply(c, s, op)) && Apply(c, s, op).over == 0
    ensures Quiet(s) ==> Quiet(Apply(c, s, op))
  {
    hide Best, Agrees, Shaped, Quiet, CyclesOf;
    StepCoherent(c, s, op);
    AgreesParts(s);
    if Quiet(s) { DeviceOpQuiet(c, s, op); }
  }

  // The event-loop event, acknowledged and armed again with a positive delay, stays quiet.
  lemma EventLoopServed(c: Config, s: State, now: int)
    requires Shaped(s) && s.over >= 0 && c.cpuFreq > 0 && CyclesOf(c, 5000) < INT64_MAX
    ensures var r := ArmUs(c, Acknowledge(s), EVENT_LOOP, 5000, 0, now); Coherent(r) && Quiet(r)
  {
    hide Best, CyclesOf, Agrees;
    AcknowledgeCoherent(s);
    var a := Acknowledge(s);
    AgreesParts(a);
    assert a.over == 0;
    ArmUsCoherent(c, a, EVENT_LOOP, 5000, 0, now);
    SyncedShaped(a);
    assert CyclesOf(c, 5000) > 0 by { PositiveCycles(c); }
    var r := Synced(a);
    var h := if c.realtime then Handler(US, now + 5000, EVENT_LOOP) else Handler(CPU, CyclesOf(c, 5000), EVENT_LOOP);
    SetNewQuiet(r.(table := r.table[EVENT_LOOP := h]));
  }

  lemma PositiveCycles(c: Config)
    requires c.cpuFreq > 0
    ensures CyclesOf(c, 5000) > 0
  {}

  // What one device handler call does: its operations, and the stop flag it leaves.
  datatype Handling = Handling(ops: seq<Op>, stop: bool)

  // The handler calls of a run.
  ghost function CountFires(ops: seq<Op>): nat {
    if ops == [] then 0 else CountFires(ops[..|ops| - 1]) + (if ops[|ops| - 1].OpFire? then 1 else 0)
  }

  lemma {:induction false} CountFiresAppend(ops: seq<Op>, more: seq<Op>)
    ensures CountFires(ops + more) == CountFires(ops) + CountFires(more)
    decreases |more|
  {
    if more == [] {
      assert ops + more == ops;
    } else {
      assert (ops + more)[..|ops + more| - 1] == ops + more[..|more| - 1];
      CountFiresAppend(ops, more[..|more| - 1]);
    }
  }

  lemma {:induction false} NoFires(c: Config, ops: seq<Op>)
    requires forall op | op in ops :: DeviceOp(c, op)
    ensures CountFires(ops) == 0
    decreases |ops|
  {
    if ops != [] {
      assert ops[|ops| - 1] in ops;
      NoFires(c, ops[..|ops| - 1]);
    }
  }

  // One call more, of a handler that does ops.
  lemma CallCounts(c: Config, run: seq<Op>, ops: seq<Op>)
    requires forall op | op in ops :: DeviceOp(c, op)
    ensures CountFires(run + ([OpFire] + ops)) == CountFires(run) + 1
  {
    hide DeviceOp;
    CountFiresAppend(run, [OpFire] + ops);
    CountFiresAppend([OpFire], ops);
    NoFires(c, ops);
  }

  // The event-loop event, acknowledged and armed again.
  method ServeEventLoop(q: CycInt, now: int, ghost s0: State, ghost run: seq<Op>) returns (ghost run': seq<Op>)
    requires q.Valid() && Shaped(q.Now()) && q.nCyclesOver >= 0 && Ripe(q.Now())
    requires q.config.cpuFreq > 0 && CyclesOf(q.config, 5000) < INT64_MAX && IsRun(q.config, s0, run, q.Now())
    modifies q, q.InterruptHandlers
    ensures q.Valid() && q.InterruptHandlers == old(q.InterruptHandlers) && Coherent(q.Now()) && Quiet(q.Now())
    ensures IsRun(q.config, s0, run', q.Now()) && CountFires(run') == CountFires(run) + 1
  {
    hide Acknowledge, ArmUs, Coherent, Quiet, CyclesOf, IsRun, Shaped;
    EventLoopServed(q.config, q.Now(), now);
    AcknowledgeOver(q.Now());
    ghost var s, op := q.Now(), OpArmUs(EVENT_LOOP, 5000, 0, now);
    RunOfFire(q.config, s);
    q.AcknowledgeInterrupt();
    RunMore(q.config, s, [OpFire], q.Now(), op);
    q.AddRelativeInterruptUs(1000 * 1000 / 200, 0, EVENT_LOOP, now);
    RunConcat(q.config, s0, run, s, [OpFire] + [op], q.Now());
    CountFiresAppend(run, [OpFire] + [op]);
    CountFiresAppend([OpFire], [op]);
    run' := run + ([OpFire] + [op]);
  }

  // The loop of Uae2026JitCpuCheckTicks, for any behaviour of the handlers it calls.  What it does
  // is a run of the scheduler in which a handler is called only when one is due.  It may start in
  // any state, also one that a reset or an arming after idle cycles has left: the first call
  // makes it coherent.
  method DrainPending(q: CycInt, stopped: bool, script: seq<Handling>, now: int)
    returns (calls: nat, loops: nat, interrupt: bool, stop: bool, ghost run: seq<Op>)
    requires q.Valid() && Shaped(q.Now()) && q.nCyclesOver >= 0
    requires q.config.cpuFreq > 0 && CyclesOf(q.config, 5000) < INT64_MAX
    requires forall k, op | 0 <= k < |script| && op in script[k].ops :: DeviceOp(q.config, op)
    modifies q, q.InterruptHandlers
    ensures q.Valid() && if calls + loops == 0 then q.Now() == old(q.Now()) else Coherent(q.Now())
    ensures calls <= 32 && loops <= 1 && (loops == 1 ==> Quiet(q.Now()))
    ensures interrupt ==> calls == 32
    ensures interrupt || stop || !Ripe(q.Now())
    ensures stop == StopAfter(stopped, script, calls)
    ensures IsRun(q.config, old(q.Now()), run, q.Now()) && CountFires(run) == calls + loops
  {
    hide Acknowledge, ArmUs, Coherent, Quiet, CyclesOf, IsRun, CountFires, DeviceOp, Shaped;
    calls, loops, interrupt, stop, run := 0, 0, false, stopped, [];
    ghost var table, s0 := q.InterruptHandlers, q.Now();
    RunOfNone(q.config, s0);
    NoFires(q.config, []);
    while q.PendingInterrupt.time <= 0 && q.PendingInterrupt.fn != 0 && !stop
      invariant q.Valid() && q.InterruptHandlers == table && Shaped(q.Now()) && q.nCyclesOver >= 0
      invariant if calls + loops == 0 then q.Now() == s0 else Coherent(q.Now())
      invariant calls <= 32 && loops <= 1 && (loops == 1 ==> Quiet(q.Now()))
      invariant stop == StopAfter(stopped, script, calls)
      invariant IsRun(q.config, s0, run, q.Now()) && CountFires(run) == calls + loops
      decreases 1 - loops, 32 - calls
    {
      if q.PendingInterrupt.fn == EVENT_LOOP {
        if loops == 1 { QuietNotRipe(q.Now()); }
        run := ServeEventLoop(q, now, s0, run);
        CoherentParts(q.Now());
        loops := loops + 1;
        continue;
      }
      if calls >= 32 {
        interrupt := true;
        break;
      }
      calls := calls + 1;
      var h := if calls <= |script| then script[calls - 1] else Handling([], stop);
      ghost var s := q.Now();
      q.CallHandler(h.ops);
      CoherentParts(q.Now());
      stop := h.stop;
      RunConcat(q.config, s0, run, s, [OpFire] + h.ops, q.Now());
      CallCounts(q.config, run, h.ops);
      run := run + ([OpFire] + h.ops);
    }
  }

  // The stop flag after so many handler calls; handlers beyond the script leave it.
  function StopAfter(stopped: bool, script: seq<Handling>, calls: nat): bool {
    if calls == 0 then stopped else if calls <= |script| then script[calls - 1].stop else false
  }

  lemma CoherentParts(s: State)
    requires Coherent(s)
    ensures Shaped(s) && s.over >= 0
  {}

  lemma QuietNotRipe(s: State)
    requires Quiet(s) && s.pending.fn == EVENT_LOOP
    ensures s.pending.time > 0
  {}
}
