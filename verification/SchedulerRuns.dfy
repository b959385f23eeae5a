// The lazy scheduler refines one that keeps absolute deadlines, over every run.
module SchedulerRuns {
  import opened Scheduler

  // What the table stands for: when each cycle event and each microsecond event is due.
  datatype Agenda = Agenda(now: int, cpu: map<nat, int>, us: map<nat, int>)

  ghost function Abstract(s: State): Agenda {
    Agenda(s.main,
           map h: nat | h < MAX_INTERRUPTS && IsCpu(s, h) :: Deadline(s, h),
           map h: nat | h < MAX_INTERRUPTS && IsUs(s, h) :: s.table[h].time)
  }

  predicate IsUs(s: State, h: nat) { h < |s.table| && s.table[h].kind == US }

  datatype Op =
    | OpTick(cycles: nat, now: int)
    | OpArm(h: nat, time: nat)
    | OpArmUs(h: nat, us: nat, usreal: int, now: int)
    | OpArmUsCycles(h: nat, us: nat, usreal: int)
    | OpRemove(h: nat)
    | OpFire

  function Cycles(c: Config, us: nat, usreal: int): nat {
    CyclesOf(c, if c.realtime && usreal > 0 then usreal else us)
  }

  // A handler runs when its pending time is used up; it acknowledges first.
  predicate Ripe(s: State) { s.pending.time <= 0 && s.pending.fn != 0 }

  predicate Allowed(c: Config, s: State, op: Op) {
    |s.table| == MAX_INTERRUPTS && s.active < MAX_INTERRUPTS &&
    match op
    case OpTick(cycles, now) => true
    case OpArm(h, time) => 1 <= h < MAX_INTERRUPTS && time < INT64_MAX
    case OpArmUs(h, us, usreal, now) => 1 <= h < MAX_INTERRUPTS && CyclesOf(c, us) < INT64_MAX
    case OpArmUsCycles(h, us, usreal) => 1 <= h < MAX_INTERRUPTS && Cycles(c, us, usreal) < INT64_MAX
    case OpRemove(h) => h < MAX_INTERRUPTS
    case OpFire => Ripe(s)
  }

  // What arming by cycles needs to be on time.
  predicate OnTime(c: Config, s: State, op: Op) {
    match op
    case OpArm(_, _) => Timely(s)
    case OpArmUs(_, _, _, _) => c.realtime || Timely(s)
    case OpArmUsCycles(_, _, _) => Timely(s)
    case _ => true
  }

  function Apply(c: Config, s: State, op: Op): State
    requires Allowed(c, s, op)
  {
    match op
    case OpTick(cycles, now) => Tick(c, s, cycles, now)
    case OpArm(h, time) => ArmCycles(s, h, time)
    case OpArmUs(h, us, usreal, now) => ArmUs(c, s, h, us, usreal, now)
    case OpArmUsCycles(h, us, usreal) => ArmUsCycles(c, s, h, us, usreal)
    case OpRemove(h) => Remove(s, h)
    case OpFire => Acknowledge(s)
  }

  // The same operations on absolute deadlines; fired is the event a handler call delivers.
  function ApplyAgenda(c: Config, a: Agenda, op: Op, fired: nat): Agenda {
    match op
    case OpTick(cycles, now) => a.(now := a.now + cycles)
    case OpArm(h, time) => a.(cpu := a.cpu[h := a.now + time], us := a.us - {h})
    case OpArmUs(h, us, usreal, now) =>
      if c.realtime then a.(cpu := a.cpu - {h}, us := a.us[h := now + (if usreal > 0 then usreal else us)])
      else a.(cpu := a.cpu[h := a.now + CyclesOf(c, us)], us := a.us - {h})
    case OpArmUsCycles(h, us, usreal) => a.(cpu := a.cpu[h := a.now + Cycles(c, us, usreal)], us := a.us - {h})
    case OpRemove(h) => a.(cpu := a.cpu - {h}, us := a.us - {h})
    case OpFire => a.(cpu := a.cpu - {fired}, us := a.us - {fired})
  }

  // Every operation keeps table and pending copy in agreement, and the countdown right exactly
  // when it is on time.
  lemma StepCoherent(c: Config, s: State, op: Op)
    requires Agrees(s) && Allowed(c, s, op)
    ensures Agrees(Apply(c, s, op))
    ensures Coherent(s) ==> (Coherent(Apply(c, s, op)) <==> OnTime(c, s, op))
  {
    hide Tick, ArmCycles, ArmUs, Remove, Acknowledge, Agrees, Timely, CyclesOf;
    AgreesParts(s);
    match op
    case OpTick(cycles, now) => TickCoherent(c, s, cycles, now);
    case OpArm(h, time) => ArmCyclesCoherent(s, h, time);
    case OpArmUs(h, us, usreal, now) => ArmUsCoherent(c, s, h, us, usreal, now);
    case OpArmUsCycles(h, us, usreal) => ArmCyclesCoherent(s, h, Cycles(c, us, usreal));
    case OpRemove(h) => RemoveCoherent(s, h);
    case OpFire => AcknowledgeCoherent(s);
  }

  // ----- one step -----

  lemma ArmRefines(s: State, h: nat, time: nat)
    requires Shaped(s) && s.over >= 0 && 1 <= h < MAX_INTERRUPTS && time < INT64_MAX
    ensures var a, r := Abstract(s), Abstract(ArmCycles(s, h, time));
      r == a.(cpu := a.cpu[h := a.now + time], us := a.us - {h}) <==> Timely(s)
  {
    hide ArmCycles, Timely;
    ArmedOnTime(s, h, time);
    ArmCyclesMain(s, h, time);
    var a, q := Abstract(s), ArmCycles(s, h, time);
    var r := Abstract(q);
    forall g | 0 <= g < MAX_INTERRUPTS && g != h && IsCpu(s, g)
      ensures IsCpu(q, g) && Deadline(q, g) == Deadline(s, g)
    {
      ArmCyclesKeepsDeadline(s, h, time, g);
    }
    assert r.cpu[h] == Deadline(q, h);
    if Timely(s) { assert r.cpu == a.cpu[h := a.now + time]; }
    assert r.us == a.us - {h};
  }

  lemma ArmCyclesMain(s: State, h: nat, time: nat)
    requires Shaped(s) && s.over >= 0 && h < MAX_INTERRUPTS
    ensures var r := ArmCycles(s, h, time);
      && r.main == s.main && |r.table| == MAX_INTERRUPTS
      && forall g | 0 <= g < MAX_INTERRUPTS && g != h ::
           r.table[g].kind == s.table[g].kind && (s.table[g].kind == US ==> r.table[g] == s.table[g])
  {
    hide Best;
  }

  lemma ArmUsRefines(c: Config, s: State, h: nat, us: nat, usreal: int, now: int)
    requires Shaped(s) && s.over >= 0 && 1 <= h < MAX_INTERRUPTS && c.realtime
    ensures var a, r := Abstract(s), Abstract(ArmUs(c, s, h, us, usreal, now));
      r == a.(cpu := a.cpu - {h}, us := a.us[h := now + (if usreal > 0 then usreal else us)])
  {
    hide ArmUs;
    ArmUsMain(c, s, h, us, usreal, now);
    var a, q := Abstract(s), ArmUs(c, s, h, us, usreal, now);
    var r := Abstract(q);
    forall g | 0 <= g < MAX_INTERRUPTS && g != h && IsCpu(s, g)
      ensures IsCpu(q, g) && Deadline(q, g) == Deadline(s, g)
    {
      ArmUsKeepsDeadline(c, s, h, us, usreal, now, g);
    }
    assert r.cpu == a.cpu - {h};
    assert r.us == a.us[h := now + (if usreal > 0 then usreal else us)];
  }

  lemma ArmUsMain(c: Config, s: State, h: nat, us: nat, usreal: int, now: int)
    requires Shaped(s) && s.over >= 0 && h < MAX_INTERRUPTS && c.realtime
    ensures var r := ArmUs(c, s, h, us, usreal, now);
      && r.main == s.main && |r.table| == MAX_INTERRUPTS
      && r.table[h].kind == US && r.table[h].time == now + (if usreal > 0 then usreal else us)
      && forall g | 0 <= g < MAX_INTERRUPTS && g != h ::
           r.table[g].kind == s.table[g].kind && (s.table[g].kind == US ==> r.table[g] == s.table[g])
  {
    hide Best;
  }

  lemma RemoveRefines(s: State, h: nat)
    requires Shaped(s) && s.over >= 0 && h < MAX_INTERRUPTS
    ensures var a, r := Abstract(s), Abstract(Remove(s, h)); r == a.(cpu := a.cpu - {h}, us := a.us - {h})
  {
    hide Remove;
    RemoveMain(s, h);
    var a, q := Abstract(s), Remove(s, h);
    var r := Abstract(q);
    forall g | 0 <= g < MAX_INTERRUPTS && g != h && IsCpu(s, g)
      ensures IsCpu(q, g) && Deadline(q, g) == Deadline(s, g)
    {
      RemoveKeepsDeadline(s, h, g);
    }
    assert r.cpu == a.cpu - {h};
    assert r.us == a.us - {h};
  }

  lemma RemoveMain(s: State, h: nat)
    requires Shaped(s) && s.over >= 0 && h < MAX_INTERRUPTS
    ensures var r := Remove(s, h);
      && r.main == s.main && |r.table| == MAX_INTERRUPTS && r.table[h].kind == NONE
      && forall g | 0 <= g < MAX_INTERRUPTS && g != h ::
           r.table[g].kind == s.table[g].kind && (s.table[g].kind == US ==> r.table[g] == s.table[g])
  {
    hide Best;
  }

  lemma TickRefines(c: Config, s: State, cycles: nat, now: int)
    requires Shaped(s)
    ensures var a, r := Abstract(s), Abstract(Tick(c, s, cycles, now)); r == a.(now := a.now + cycles)
  {
    hide Due;
    var r := Tick(c, s, cycles, now);
    forall g | 0 <= g < MAX_INTERRUPTS ensures r.table == s.table && Deadline(r, g) == Deadline(s, g) {
      TickKeepsDeadline(c, s, cycles, now, g);
    }
    TickKeepsDeadline(c, s, cycles, now, 0);
  }

  // Acknowledging is removing the active event.
  lemma AcknowledgeIsRemove(s: State)
    requires Shaped(s)
    ensures Acknowledge(s) == Remove(s, s.active)
  {}

  // Every operation does to the deadlines what the simple scheduler does, exactly when it is on time.
  lemma StepRefines(c: Config, s: State, op: Op)
    requires Shaped(s) && s.over >= 0 && Allowed(c, s, op)
    ensures Abstract(Apply(c, s, op)) == ApplyAgenda(c, Abstract(s), op, s.active) <==> OnTime(c, s, op)
  {
    hide Tick, ArmCycles, ArmUs, Remove, Acknowledge, Timely, Abstract, CyclesOf;
    match op
    case OpTick(cycles, now) => TickRefines(c, s, cycles, now);
    case OpArm(h, time) => ArmRefines(s, h, time);
    case OpArmUs(h, us, usreal, now) =>
      if c.realtime {
        ArmUsRefines(c, s, h, us, usreal, now);
      } else {
        ArmUsIsArm(c, s, h, us, usreal, now);
        ArmRefines(s, h, CyclesOf(c, us));
      }
    case OpArmUsCycles(h, us, usreal) => ArmRefines(s, h, Cycles(c, us, usreal));
    case OpRemove(h) => RemoveRefines(s, h);
    case OpFire => AcknowledgeIsRemove(s); RemoveRefines(s, s.active);
  }

  lemma ArmUsIsArm(c: Config, s: State, h: nat, us: nat, usreal: int, now: int)
    requires |s.table| == MAX_INTERRUPTS && h < MAX_INTERRUPTS && !c.realtime
    ensures ArmUs(c, s, h, us, usreal, now) == ArmCycles(s, h, CyclesOf(c, us))
  {}

  // ----- what a delivery means -----

  // A pending microsecond event was found due: its time is before clock.
  ghost predicate Presented(s: State, clock: int) {
    s.pending.kind == US ==> IsUs(s, s.active) && s.table[s.active].time < clock
  }

  // The latest host time at which the loop has looked.
  function Clock(clock: int, op: Op): int {
    if op.OpTick? && op.now > clock then op.now else clock
  }

  lemma PresentedStep(c: Config, s: State, op: Op, clock: int)
    requires Shaped(s) && s.over >= 0 && Allowed(c, s, op) && Presented(s, clock)
    ensures Presented(Apply(c, s, op), Clock(clock, op))
  {
    hide Best, Due, Update, Synced, CyclesOf;
    match op
    case OpTick(cycles, now) => DueIsDue(s.table, now, 0);
    case OpFire => UpdateKeepsDeadlines(s); UpdateOver(s); SetNewAgrees(Disarm(Update(s), s.active));
    case OpRemove(h) => UpdateKeepsDeadlines(s); UpdateOver(s); SetNewAgrees(Disarm(Update(s), h));
    case OpArm(h, time) => ArmNotUs(s, h, CPU, time);
    case OpArmUs(h, us, usreal, now) =>
      ArmNotUs(s, h, US, now + (if usreal > 0 then usreal else us));
      ArmNotUs(s, h, CPU, CyclesOf(c, us));
    case OpArmUsCycles(h, us, usreal) => ArmNotUs(s, h, CPU, Cycles(c, us, usreal));
  }

  lemma ArmNotUs(s: State, h: nat, kind: Kind, time: int)
    requires Shaped(s) && s.over >= 0 && 1 <= h < MAX_INTERRUPTS && (kind == CPU ==> time < INT64_MAX)
    ensures var r := Synced(s); SetNew(r.(table := r.table[h := Handler(kind, time, r.table[h].fn)])).pending.kind != US
  {
    hide SetNew, Synced;
    SyncedShaped(s);
    var r := Synced(s);
    SetNewAgrees(r.(table := r.table[h := Handler(kind, time, r.table[h].fn)]));
  }

  // A ripe cycle event is due, and no armed event is due earlier or equally with a lower id; a
  // ripe microsecond event is armed and past its time.
  lemma FireIsRight(s: State, clock: int)
    requires Coherent(s) && Ripe(s) && Presented(s, clock)
    ensures var a := Abstract(s);
      if IsCpu(s, s.active) then
        && s.active in a.cpu && a.cpu[s.active] <= a.now
        && forall g | g in a.cpu :: a.cpu[s.active] < a.cpu[g] || (a.cpu[s.active] == a.cpu[g] && s.active <= g)
      else s.active in a.us && a.us[s.active] < clock
  {
    hide Shaped;
    assert s.active < MAX_INTERRUPTS && |s.table| == MAX_INTERRUPTS by { AgreesParts(s); ShapedParts(s); }
    assert s.active > 0;
    var a := Abstract(s);
    if IsCpu(s, s.active) {
      forall g | g in a.cpu
        ensures a.cpu[s.active] < a.cpu[g] || (a.cpu[s.active] == a.cpu[g] && s.active <= g)
      {
        assert IsCpu(s, g) && Earlier(s, s.active, g);
      }
    }
  }

  lemma ShapedParts(s: State)
    requires Shaped(s)
    ensures s.active < MAX_INTERRUPTS && |s.table| == MAX_INTERRUPTS
  {}

  // Conversely a cycle event that is due makes the pending slot ripe, unless a microsecond event
  // already has: nothing due is overlooked.
  lemma DueIsRipe(s: State, h: nat)
    requires Coherent(s) && IsCpu(s, h) && Deadline(s, h) <= s.main
    ensures Ripe(s)
  {
    assert s.active > 0;
    if s.pending.kind == CPU { assert Earlier(s, s.active, h); }
  }

  // In realtime mode, once the check counter has run out, a step of the loop presents the lowest
  // microsecond event whose time has passed, however often its slot was overwritten before.
  lemma TickFindsUs(c: Config, s: State, cycles: nat, now: int, h: nat)
    requires Shaped(s) && c.realtime && s.usCheck < 0 && IsUs(s, h) && now > s.table[h].time
    ensures var r := Tick(c, s, cycles, now);
      && r.active <= h && Ripe(r) && IsUs(r, r.active) && now > r.table[r.active].time
      && r.pending.fn == r.active
      && forall g | 0 <= g < r.active :: IsUs(s, g) ==> now <= s.table[g].time
  {
    hide Due;
    DueIsDue(s.table, now, 0);
  }

  // The check counter: it counts down, and at a check without a due event it starts again at a
  // hundred microseconds.  Outside real-time mode no check presents anything.
  lemma TickCounts(c: Config, s: State, cycles: nat, now: int)
    requires Shaped(s)
    ensures var r := Tick(c, s, cycles, now);
      && r.usCheck == (if s.usCheck >= 0 then s.usCheck - cycles
                       else if c.realtime && exists h: nat :: IsUs(s, h) && now > s.table[h].time then s.usCheck
                       else 100 * c.cpuFreq)
      && (!c.realtime || s.usCheck >= 0 ==> r.active == s.active && r.pending.fn == s.pending.fn)
  {
    hide Due;
    DueIsDue(s.table, now, 0);
    var d := Due(s.table, now, 0);
    if d < MAX_INTERRUPTS { assert IsUs(s, d); }
  }

  lemma UsCheckStepBound(c: Config, s: State, op: Op)
    requires Shaped(s) && Allowed(c, s, op) && s.usCheck <= 100 * c.cpuFreq
    ensures Apply(c, s, op).usCheck <= 100 * c.cpuFreq
  {
    hide Best, Due, Update, CyclesOf;
    UpdateOver(s);
    if op.OpTick? { TickCounts(c, s, op.cycles, op.now); }
  }

  // ----- runs -----

  ghost predicate Valid(c: Config, s: State, ops: seq<Op>)
    decreases |ops|
  {
    ops == [] || (Allowed(c, s, ops[0]) && Valid(c, Apply(c, s, ops[0]), ops[1..]))
  }

  function After(c: Config, s: State, ops: seq<Op>): State
    requires Valid(c, s, ops)
    decreases |ops|
  {
    if ops == [] then s else After(c, Apply(c, s, ops[0]), ops[1..])
  }

  function AfterAgenda(c: Config, a: Agenda, ops: seq<Op>, fired: seq<nat>): Agenda
    requires |fired| == |ops|
    decreases |ops|
  {
    if ops == [] then a else AfterAgenda(c, ApplyAgenda(c, a, ops[0], fired[0]), ops[1..], fired[1..])
  }

  // The active event before each operation: the one a handler call delivers.
  function Actives(c: Config, s: State, ops: seq<Op>): (f: seq<nat>)
    requires Valid(c, s, ops)
    ensures |f| == |ops|
    decreases |ops|
  {
    if ops == [] then [] else [s.active] + Actives(c, Apply(c, s, ops[0]), ops[1..])
  }

  // Every arming of the run by cycles is on time.
  ghost predicate Punctual(c: Config, s: State, ops: seq<Op>)
    requires Valid(c, s, ops)
    decreases |ops|
  {
    ops == [] || (OnTime(c, s, ops[0]) && Punctual(c, Apply(c, s, ops[0]), ops[1..]))
  }

  // Coherent before and after every operation.
  ghost predicate AlwaysCoherent(c: Config, s: State, ops: seq<Op>)
    requires Valid(c, s, ops)
    decreases |ops|
  {
    Coherent(s) && (ops == [] || AlwaysCoherent(c, Apply(c, s, ops[0]), ops[1..]))
  }

  lemma {:induction false} RunCoherent(c: Config, s: State, ops: seq<Op>)
    requires Coherent(s) && Valid(c, s, ops)
    ensures AlwaysCoherent(c, s, ops) <==> Punctual(c, s, ops)
    decreases |ops|
  {
    hide Apply, Agrees, Allowed, OnTime;
    if ops != [] {
      StepCoherent(c, s, ops[0]);
      if OnTime(c, s, ops[0]) { RunCoherent(c, Apply(c, s, ops[0]), ops[1..]); }
    }
  }

  // Over any such run the lazy scheduler is in step with the simple one.
  lemma {:induction false} RunRefines(c: Config, s: State, ops: seq<Op>)
    requires Coherent(s) && Valid(c, s, ops) && Punctual(c, s, ops)
    ensures Coherent(After(c, s, ops))
    ensures Abstract(After(c, s, ops)) == AfterAgenda(c, Abstract(s), ops, Actives(c, s, ops))
    decreases |ops|
  {
    hide Apply, ApplyAgenda, Agrees, Abstract, Allowed, OnTime;
    if ops != [] {
      AgreesParts(s);
      StepCoherent(c, s, ops[0]);
      StepRefines(c, s, ops[0]);
      RunRefines(c, Apply(c, s, ops[0]), ops[1..]);
      assert Actives(c, s, ops)[1..] == Actives(c, Apply(c, s, ops[0]), ops[1..]);
    }
  }

  lemma {:induction false} RunAgrees(c: Config, s: State, ops: seq<Op>)
    requires Agrees(s) && Valid(c, s, ops)
    ensures Agrees(After(c, s, ops))
    decreases |ops|
  {
    hide Apply, Agrees, Allowed;
    if ops != [] {
      StepCoherent(c, s, ops[0]);
      RunAgrees(c, Apply(c, s, ops[0]), ops[1..]);
    }
  }

  // Some step of the loop looked at a host time past t.
  ghost predicate LookedPast(ops: seq<Op>, t: int) {
    exists k | 0 <= k < |ops| :: ops[k].OpTick? && ops[k].now > t
  }

  // A microsecond event is pending only after a step of the loop past its time.
  lemma {:induction false} UsNotEarly(c: Config, s: State, ops: seq<Op>, clock: int)
    requires Agrees(s) && Valid(c, s, ops) && Presented(s, clock)
    ensures var r := After(c, s, ops);
      r.pending.kind == US ==>
        IsUs(r, r.active) && (r.table[r.active].time < clock || LookedPast(ops, r.table[r.active].time))
    decreases |ops|
  {
    hide Apply, Agrees, Allowed;
    if ops != [] {
      AgreesParts(s);
      StepCoherent(c, s, ops[0]);
      PresentedStep(c, s, ops[0], clock);
      UsNotEarly(c, Apply(c, s, ops[0]), ops[1..], Clock(clock, ops[0]));
      var r := After(c, s, ops);
      if r.pending.kind == US { LookedPastMore(ops, r.table[r.active].time); }
    }
  }

  lemma LookedPastMore(ops: seq<Op>, t: int)
    requires ops != []
    ensures LookedPast(ops, t) <==> LookedPast(ops[1..], t) || (ops[0].OpTick? && ops[0].now > t)
  {
    if LookedPast(ops[1..], t) {
      var k :| 0 <= k < |ops[1..]| && ops[1..][k].OpTick? && ops[1..][k].now > t;
      assert ops[k + 1] == ops[1..][k];
    }
    if LookedPast(ops, t) {
      var k :| 0 <= k < |ops| && ops[k].OpTick? && ops[k].now > t;
      if k > 0 { assert ops[1..][k - 1] == ops[k]; }
    }
  }

  // Whenever a handler is due to be called, on any such run from a clean start: a cycle event is
  // the earliest and not early, a microsecond event was seen past its time by a step of the run.
  lemma RunFiresRight(c: Config, s: State, ops: seq<Op>)
    requires Coherent(s) && s.pending.kind != US && Valid(c, s, ops) && Punctual(c, s, ops)
    requires Ripe(After(c, s, ops))
    ensures var r := After(c, s, ops); var a := Abstract(r);
      if IsCpu(r, r.active) then
        && r.active in a.cpu && a.cpu[r.active] <= a.now
        && forall g | g in a.cpu :: a.cpu[r.active] < a.cpu[g] || (a.cpu[r.active] == a.cpu[g] && r.active <= g)
      else r.active in a.us && LookedPast(ops, a.us[r.active])
  {
    hide Apply, Allowed, Valid, Punctual, After, LookedPast;
    RunRefines(c, s, ops);
    var r := After(c, s, ops);
    var t := if r.active < |r.table| then r.table[r.active].time else 0;
    UsNotEarly(c, s, ops, t);
    FireIsRight(r, t + 1);
  }

  // ----- no microsecond event is missed -----

  // h stays armed for the host time t from beginning to end.
  ghost predicate StaysArmed(c: Config, s: State, ops: seq<Op>, h: nat, t: int)
    requires Valid(c, s, ops)
    decreases |ops|
  {
    IsUs(s, h) && s.table[h].time == t && (ops == [] || StaysArmed(c, Apply(c, s, ops[0]), ops[1..], h, t))
  }

  ghost predicate AllPast(ops: seq<Op>, t: int) {
    forall k | 0 <= k < |ops| && ops[k].OpTick? :: ops[k].now > t
  }

  function Elapsed(ops: seq<Op>): nat {
    if ops == [] then 0 else (if ops[0].OpTick? then ops[0].cycles else 0) + Elapsed(ops[1..])
  }

  lemma UsCheckStep(c: Config, s: State, op: Op, h: nat, t: int)
    requires Shaped(s) && Allowed(c, s, op) && c.realtime && IsUs(s, h) && s.table[h].time == t
    requires op.OpTick? ==> op.now > t
    ensures var u := Apply(c, s, op).usCheck;
      u == if op.OpTick? && s.usCheck >= 0 then s.usCheck - op.cycles else s.usCheck
  {
    hide Best, Due, Update, CyclesOf;
    UpdateOver(s);
    if op.OpTick? { DueIsDue(s.table, op.now, 0); }
  }

  // Once its time has passed, an armed microsecond event runs the check counter out.
  lemma {:induction false} UsCheckRunsOut(c: Config, s: State, ops: seq<Op>, h: nat, t: int)
    requires Agrees(s) && Valid(c, s, ops) && c.realtime && StaysArmed(c, s, ops, h, t) && AllPast(ops, t)
    requires Elapsed(ops) > s.usCheck
    ensures var r := After(c, s, ops);
      Agrees(r) && r.usCheck < 0 && IsUs(r, h) && r.table[h].time == t
    decreases |ops|
  {
    hide Apply, Agrees, Allowed, IsUs;
    if ops != [] {
      AgreesParts(s);
      StepCoherent(c, s, ops[0]);
      UsCheckStep(c, s, ops[0], h, t);
      assert AllPast(ops[1..], t) by { forall k | 0 <= k < |ops[1..]| ensures ops[1..][k] == ops[k + 1] {} }
      UsCheckRunsOut(c, Apply(c, s, ops[0]), ops[1..], h, t);
    }
  }

  // The counter never shows more than a hundred microseconds.
  lemma {:induction false} UsCheckBounded(c: Config, s: State, ops: seq<Op>)
    requires Agrees(s) && Valid(c, s, ops) && s.usCheck <= 100 * c.cpuFreq
    ensures After(c, s, ops).usCheck <= 100 * c.cpuFreq
    decreases |ops|
  {
    hide Apply, Agrees, Allowed;
    if ops != [] {
      AgreesParts(s);
      StepCoherent(c, s, ops[0]);
      UsCheckStepBound(c, s, ops[0]);
      UsCheckBounded(c, Apply(c, s, ops[0]), ops[1..]);
    }
  }

  // A microsecond event that stays armed past its time is not missed: when the loop has gone on
  // for more cycles than the counter showed, its next step presents this event or a lower one
  // that is due as well, whatever came in between.
  lemma UsFoundInTime(c: Config, s: State, ops: seq<Op>, h: nat, t: int, cycles: nat, now: int)
    requires Agrees(s) && Valid(c, s, ops) && c.realtime && StaysArmed(c, s, ops, h, t)
    requires AllPast(ops, t) && now > t && Elapsed(ops) > s.usCheck
    ensures |After(c, s, ops).table| == MAX_INTERRUPTS
    ensures var r := Tick(c, After(c, s, ops), cycles, now);
      && r.active <= h && Ripe(r) && IsUs(r, r.active) && now > r.table[r.active].time
      && r.pending.fn == r.active
  {
    hide Apply, Agrees, Allowed, Valid, After, StaysArmed, Tick;
    UsCheckRunsOut(c, s, ops, h, t);
    var r := After(c, s, ops);
    AgreesParts(r);
    TickFindsUs(c, r, cycles, now, h);
  }

  // From any state that a run from a reset can reach, a hundred microseconds' worth of cycles and
  // one step more are enough.
  lemma UsFoundWithin(c: Config, s0: State, before: seq<Op>, ops: seq<Op>, h: nat, t: int, cycles: nat, now: int)
    requires Agrees(s0) && s0.usCheck <= 100 * c.cpuFreq && Valid(c, s0, before) && Valid(c, After(c, s0, before), ops)
    requires c.realtime && StaysArmed(c, After(c, s0, before), ops, h, t)
    requires AllPast(ops, t) && now > t && Elapsed(ops) > 100 * c.cpuFreq
    ensures |After(c, After(c, s0, before), ops).table| == MAX_INTERRUPTS
    ensures var r := Tick(c, After(c, After(c, s0, before), ops), cycles, now);
      && r.active <= h && Ripe(r) && IsUs(r, r.active) && now > r.table[r.active].time
      && r.pending.fn == r.active
  {
    hide Apply, Agrees, Allowed, Valid, After, StaysArmed, Tick, AllPast;
    RunAgrees(c, s0, before);
    UsCheckBounded(c, s0, before);
    UsFoundInTime(c, After(c, s0, before), ops, h, t, cycles, now);
  }

  // The deadlines of the cycle events a run delivers, in the order of delivery.
  function Delivered(c: Config, s: State, ops: seq<Op>): seq<int>
    requires Valid(c, s, ops)
    decreases |ops|
  {
    if ops == [] then []
    else (if ops[0].OpFire? && IsCpu(s, s.active) then [Deadline(s, s.active)] else [])
         + Delivered(c, Apply(c, s, ops[0]), ops[1..])
  }

  ghost predicate NothingBefore(a: Agenda, d: int) {
    d <= a.now && forall g | g in a.cpu :: d <= a.cpu[g]
  }

  // No operation brings in a deadline before d once d has been reached.
  lemma NothingBeforeStep(c: Config, a: Agenda, op: Op, fired: nat, d: int)
    requires NothingBefore(a, d)
    ensures NothingBefore(ApplyAgenda(c, a, op, fired), d)
  {
  }

  ghost predicate AllFrom(ds: seq<int>, d: int) { forall i | 0 <= i < |ds| :: d <= ds[i] }

  ghost predicate Ordered(ds: seq<int>) { forall i, j | 0 <= i < j < |ds| :: ds[i] <= ds[j] }

  lemma OrderedCons(x: int, ds: seq<int>, d: int)
    requires AllFrom(ds, x) && Ordered(ds) && d <= x
    ensures AllFrom([x] + ds, d) && Ordered([x] + ds)
  {}

  // Cycle events are delivered in the order of their deadlines, over any run.
  lemma {:induction false} DeliveredInOrder(c: Config, s: State, ops: seq<Op>, d: int)
    requires Coherent(s) && Valid(c, s, ops) && Punctual(c, s, ops) && NothingBefore(Abstract(s), d)
    ensures var ds := Delivered(c, s, ops);
      AllFrom(ds, d) && Ordered(ds)
    decreases |ops|
  {
    hide Apply, ApplyAgenda, Agrees, Abstract, Allowed, OnTime, Ordered, AllFrom;
    if ops == [] {
      NoneDelivered(d);
    } else {
      AgreesParts(s);
      var r := Apply(c, s, ops[0]);
      StepCoherent(c, s, ops[0]);
      StepRefines(c, s, ops[0]);
      var d' := d;
      if ops[0].OpFire? && IsCpu(s, s.active) {
        d' := Deadline(s, s.active);
        DeliveryIsLeast(c, s, ops[0], d);
      }
      NothingBeforeStep(c, Abstract(s), ops[0], s.active, d');
      DeliveredInOrder(c, r, ops[1..], d');
      var rest := Delivered(c, r, ops[1..]);
      if ops[0].OpFire? && IsCpu(s, s.active) {
        assert Delivered(c, s, ops) == [d'] + rest;
        OrderedCons(d', rest, d);
      } else {
        assert Delivered(c, s, ops) == [] + rest == rest;
      }
    }
  }

  lemma NoneDelivered(d: int)
    ensures AllFrom([], d) && Ordered([])
  {}

  lemma DeliveryIsLeast(c: Config, s: State, op: Op, d: int)
    requires Coherent(s) && Allowed(c, s, op) && op.OpFire? && IsCpu(s, s.active) && NothingBefore(Abstract(s), d)
    ensures d <= Deadline(s, s.active) && NothingBefore(Abstract(s), Deadline(s, s.active))
  {
    hide Shaped;
    AgreesParts(s);
    FireIsRight(s, s.table[s.active].time + 1);
  }

  // ----- each arming is delivered at most once -----

  function Arms(ops: seq<Op>, h: nat): nat {
    if ops == [] then 0
    else (match ops[0]
          case OpArm(g, _) => if g == h then 1 else 0
          case OpArmUs(g, _, _, _) => if g == h then 1 else 0
          case OpArmUsCycles(g, _, _) => if g == h then 1 else 0
          case _ => 0) + Arms(ops[1..], h)
  }

  function Fires(c: Config, s: State, ops: seq<Op>, h: nat): nat
    requires Valid(c, s, ops)
    decreases |ops|
  {
    if ops == [] then 0
    else (if ops[0].OpFire? && s.active == h then 1 else 0) + Fires(c, Apply(c, s, ops[0]), ops[1..], h)
  }

  function Armed(s: State, h: nat): nat { if h < |s.table| && s.table[h].kind != NONE then 1 else 0 }

  lemma ArmedStep(c: Config, s: State, op: Op, h: nat)
    requires Agrees(s) && Allowed(c, s, op)
    ensures Armed(Apply(c, s, op), h) + (if op.OpFire? && s.active == h then 1 else 0) <= Armed(s, h) + Arms([op], h)
  {
    hide Best, Due;
    assert [op][1..] == [];
    assert Arms([], h) == 0;
    AgreesParts(s);
  }

  // Over any run at all, on time or not.
  lemma {:induction false} AtMostOnce(c: Config, s: State, ops: seq<Op>, h: nat)
    requires Agrees(s) && Valid(c, s, ops)
    ensures Fires(c, s, ops, h) + Armed(After(c, s, ops), h) <= Armed(s, h) + Arms(ops, h)
    decreases |ops|
  {
    hide Apply, Agrees, Allowed, Armed;
    if ops != [] {
      StepCoherent(c, s, ops[0]);
      ArmedStep(c, s, ops[0], h);
      AtMostOnce(c, Apply(c, s, ops[0]), ops[1..], h);
      ArmsSplit(ops, h);
    }
  }

  lemma ArmsSplit(ops: seq<Op>, h: nat)
    requires ops != []
    ensures Arms(ops, h) == Arms([ops[0]], h) + Arms(ops[1..], h)
  {
    assert [ops[0]][1..] == [];
    assert Arms([], h) == 0;
  }

  // ----- a deadline stays what it is -----

  // The operation arms, removes or delivers h.
  predicate Touches(s: State, op: Op, h: nat) {
    match op
    case OpTick(_, _) => false
    case OpArm(g, _) => g == h
    case OpArmUs(g, _, _, _) => g == h
    case OpArmUsCycles(g, _, _) => g == h
    case OpRemove(g) => g == h
    case OpFire => s.active == h
  }

  ghost predicate Spares(c: Config, s: State, ops: seq<Op>, h: nat)
    requires Valid(c, s, ops)
    decreases |ops|
  {
    ops == [] || (!Touches(s, ops[0], h) && Spares(c, Apply(c, s, ops[0]), ops[1..], h))
  }

  lemma DeadlineStep(c: Config, s: State, op: Op, h: nat)
    requires Shaped(s) && s.over >= 0 && Allowed(c, s, op) && IsCpu(s, h) && !Touches(s, op, h)
    ensures IsCpu(Apply(c, s, op), h) && Deadline(Apply(c, s, op), h) == Deadline(s, h)
  {
    hide Tick, ArmCycles, ArmUs, Remove, Acknowledge, CyclesOf;
    match op
    case OpTick(cycles, now) => TickKeepsDeadline(c, s, cycles, now, h);
    case OpArm(g, time) => ArmCyclesKeepsDeadline(s, g, time, h);
    case OpArmUs(g, us, usreal, now) => ArmUsKeepsDeadline(c, s, g, us, usreal, now, h);
    case OpArmUsCycles(g, us, usreal) => ArmCyclesKeepsDeadline(s, g, Cycles(c, us, usreal), h);
    case OpRemove(g) => RemoveKeepsDeadline(s, g, h);
    case OpFire => AcknowledgeKeepsDeadline(s, h);
  }

  // Main counter plus time minus elapsed cycles of an armed event is constant until the event is
  // delivered, removed or armed again, over any run, on time or not.
  lemma {:induction false} DeadlineStays(c: Config, s: State, ops: seq<Op>, h: nat)
    requires Agrees(s) && Valid(c, s, ops) && IsCpu(s, h) && Spares(c, s, ops, h)
    ensures var r := After(c, s, ops); IsCpu(r, h) && Deadline(r, h) == Deadline(s, h)
    decreases |ops|
  {
    hide Apply, Agrees, Allowed, IsCpu, Touches;
    if ops != [] {
      AgreesParts(s);
      StepCoherent(c, s, ops[0]);
      DeadlineStep(c, s, ops[0], h);
      DeadlineStays(c, Apply(c, s, ops[0]), ops[1..], h);
    }
  }

  // ----- where it falls short -----

  // After a reset with a handler pending the loop calls it at once, with nothing armed.
  lemma ResetCallsUnarmed(s: State)
    ensures Ripe(Reset(s)) <==> s.pending.fn != 0
    ensures forall h :: Armed(Reset(s), h) == 0
  {}

  // Cycles that pass while nothing is active are charged to the next event at its first sync:
  // armed at cycle 10 for 20 cycles, after 10 idle ones, the event is ripe at cycle 20 once
  // another event is armed beside it.
  lemma {:induction false} IdleCyclesCountTwice(s0: State)
    requires s0 == Reset(State([], Handler(NONE, 0, 0), 0, 0, 0, 0))
    ensures var c := Config(false, 25);
      var s2 := ArmCycles(Tick(c, s0, 10, 0), 1, 20);
      var s4 := Tick(c, ArmCycles(s2, 2, 1000), 10, 0);
      s2.main == 10 && s4.main == 20 && Ripe(s4) && s4.active == 1
  {
    hide Best;
    var c := Config(false, 25);
    var s1 := Tick(c, s0, 10, 0);
    IdleArm(s1, 1, 20);
    var s2 := ArmCycles(s1, 1, 20);
    IdleRearm(s2);
  }

  lemma {:induction false} IdleArm(s: State, h: nat, time: nat)
    requires Shaped(s) && s.active == 0 && 1 <= h < MAX_INTERRUPTS && time < INT64_MAX
    requires forall i | 0 <= i < MAX_INTERRUPTS :: s.table[i].kind == NONE
    ensures var r := ArmCycles(s, h, time);
      r == s.(table := s.table[h := Handler(CPU, time, h)], pending := Handler(CPU, time, h), active := h)
  {
    hide Best;
    var t := s.table[h := Handler(CPU, time, h)];
    BestIsLeast(t, MAX_INTERRUPTS);
    assert t[h].kind == CPU;
    assert Best(t, MAX_INTERRUPTS) == h;
  }

  lemma {:induction false} IdleRearm(s: State)
    requires Shaped(s) && s.active == 1 && s.over == 10 && s.table[1] == Handler(CPU, 20, 1)
    requires forall i | 2 <= i < MAX_INTERRUPTS :: s.table[i].kind == NONE
    ensures var r := ArmCycles(s, 2, 1000);
      r.active == 1 && r.pending == Handler(CPU, 10, 1) && r.main == s.main && r.usCheck == s.usCheck
      && |r.table| == MAX_INTERRUPTS
  {
    hide Best;
    var t := Update(s).table[2 := Handler(CPU, 1000, 2)];
    BestIsLeast(t, MAX_INTERRUPTS);
    assert t[1] == Handler(CPU, 10, 1) && t[2].kind == CPU;
    assert Best(t, MAX_INTERRUPTS) == 1;
  }
}
