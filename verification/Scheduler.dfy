// src/cycInt.c as a function of its state: the table of handlers, the pending copy that the
// execution loop counts down, and the cycles not yet subtracted from the table.
module Scheduler {

  const MAX_INTERRUPTS: nat := 18
  const INT64_MAX: int := 0x7fff_ffff_ffff_ffff

  datatype Kind = NONE | CPU | US

  // fn is the index in pIntHandlerFunctions; entry 0 is NULL.
  datatype Handler = Handler(kind: Kind, time: int, fn: nat)

  datatype State = State(table: seq<Handler>, pending: Handler, active: nat,
                         over: int, main: int, usCheck: int)

  // What the emulator is configured with.
  datatype Config = Config(realtime: bool, cpuFreq: nat)

  function CyclesOf(c: Config, us: nat): nat { us * c.cpuFreq }

  ghost predicate Shaped(s: State) {
    && |s.table| == MAX_INTERRUPTS && s.active < MAX_INTERRUPTS
    && (forall i | 0 <= i < MAX_INTERRUPTS :: s.table[i].fn == i)
    && s.table[0].kind == NONE
    && (forall i | 0 <= i < MAX_INTERRUPTS :: s.table[i].kind == CPU ==> s.table[i].time < INT64_MAX)
  }

  // ----- CycInt_SetNewInterrupt -----

  // The entry the scan over 1..n-1 ends with: the first of the least CPU times, 0 if none.
  function Best(t: seq<Handler>, n: nat): (b: nat)
    requires n <= |t| && |t| > 0
    ensures b < n || b == 0
  {
    if n <= 1 then 0
    else
      var b := Best(t, n - 1);
      if t[n - 1].kind == CPU && t[n - 1].time < (if b == 0 then INT64_MAX else t[b].time) then n - 1 else b
  }

  function SetNew(s: State): State
    requires |s.table| == MAX_INTERRUPTS
  {
    var b := Best(s.table, MAX_INTERRUPTS);
    s.(pending := s.table[b], active := b)
  }

  // ----- CycInt_UpdateInterrupt -----

  function Update(s: State): (r: State)
    ensures |r.table| == |s.table|
  {
    s.(table := seq(|s.table|, i requires 0 <= i < |s.table| =>
                      if s.table[i].kind == CPU then s.table[i].(time := s.table[i].time - s.over) else s.table[i]),
       over := 0)
  }

  // ----- CycInt_SetNewInterruptUs -----

  // The first microsecond event at or after i whose time has passed, or MAX_INTERRUPTS.
  function Due(t: seq<Handler>, now: int, i: nat): (d: nat)
    requires i <= |t|
    ensures i <= d <= |t|
    decreases |t| - i
  {
    if i == |t| || (t[i].kind == US && now > t[i].time) then i else Due(t, now, i + 1)
  }

  function SetNewUs(c: Config, s: State, now: int): State
    requires |s.table| == MAX_INTERRUPTS
  {
    var d := if c.realtime then Due(s.table, now, 0) else MAX_INTERRUPTS;
    if d == MAX_INTERRUPTS then s
    else s.(pending := s.table[d].(time := -1), active := d)
  }

  // ----- the operations -----

  // M68000_AddCycles: the execution loop's step.
  function Tick(c: Config, s: State, cycles: nat, now: int): State
    requires |s.table| == MAX_INTERRUPTS
  {
    var s1 := s.(over := s.over + cycles,
                 pending := if s.pending.kind == CPU then s.pending.(time := s.pending.time - cycles) else s.pending);
    var s2 :=
      if s1.usCheck < 0 then
        var r := SetNewUs(c, s1, now);
        if c.realtime && Due(s1.table, now, 0) < MAX_INTERRUPTS then r else r.(usCheck := 100 * c.cpuFreq)
      else s1.(usCheck := s1.usCheck - cycles);
    s2.(main := s2.main + cycles)
  }

  function Reset(s: State): State {
    State(seq(MAX_INTERRUPTS, i requires 0 <= i => Handler(NONE, INT64_MAX, i)), s.pending.(time := 0), 0, 0, 0, 0)
  }

  function Disarm(s: State, h: nat): (r: State)
    requires h < |s.table|
    ensures |r.table| == |s.table|
  {
    s.(table := s.table[h := s.table[h].(kind := NONE)])
  }

  function Acknowledge(s: State): State
    requires |s.table| == MAX_INTERRUPTS && s.active < MAX_INTERRUPTS
  {
    SetNew(Disarm(Update(s), s.active))
  }

  function Remove(s: State, h: nat): State
    requires |s.table| == MAX_INTERRUPTS && h < MAX_INTERRUPTS
  {
    SetNew(Disarm(Update(s), h))
  }

  // The elapsed cycles are subtracted first only while some interrupt is active.
  function Synced(s: State): (r: State)
    ensures |r.table| == |s.table|
  {
    if s.active > 0 then Update(s) else s
  }

  function ArmCycles(s: State, h: nat, time: nat): State
    requires |s.table| == MAX_INTERRUPTS && h < MAX_INTERRUPTS
  {
    var r := Synced(s);
    SetNew(r.(table := r.table[h := Handler(CPU, time, r.table[h].fn)]))
  }

  function ArmUs(c: Config, s: State, h: nat, us: nat, usreal: int, now: int): State
    requires |s.table| == MAX_INTERRUPTS && h < MAX_INTERRUPTS
  {
    if c.realtime then
      var r := Synced(s);
      SetNew(r.(table := r.table[h := Handler(US, now + (if usreal > 0 then usreal else us), r.table[h].fn)]))
    else ArmCycles(s, h, CyclesOf(c, us))
  }

  function ArmUsCycles(c: Config, s: State, h: nat, us: nat, usreal: int): State
    requires |s.table| == MAX_INTERRUPTS && h < MAX_INTERRUPTS
  {
    ArmCycles(s, h, CyclesOf(c, if c.realtime && usreal > 0 then usreal else us))
  }

  // ----- deadlines -----

  predicate IsCpu(s: State, h: nat) { h < |s.table| && s.table[h].kind == CPU }

  // The absolute cycle at which a CPU event is due.
  function Deadline(s: State, h: nat): int
    requires h < |s.table|
  {
    s.main + s.table[h].time - s.over
  }

  // a is due before b; ties go to the lower id.
  predicate Earlier(s: State, a: nat, b: nat)
    requires a < |s.table| && b < |s.table|
  {
    Deadline(s, a) < Deadline(s, b) || (Deadline(s, a) == Deadline(s, b) && a <= b)
  }

  // The pending copy is of the active entry, the earliest one among the cycle events.
  ghost predicate Agrees(s: State) {
    && Shaped(s) && s.over >= 0
    && (s.active == 0 ==> s.pending.fn == 0 && s.pending.kind == NONE
                          && forall i | 0 <= i < MAX_INTERRUPTS :: s.table[i].kind != CPU)
    && (s.active > 0 ==> s.pending.fn == s.active && s.pending.kind == s.table[s.active].kind && s.pending.kind != NONE)
    && (s.pending.kind == US ==> s.pending.time == -1)
    && (s.pending.kind == CPU ==> forall i | 0 <= i < MAX_INTERRUPTS :: IsCpu(s, i) ==> Earlier(s, s.active, i))
  }

  // And what is left to count down is the time to its deadline.
  ghost predicate Coherent(s: State) {
    Agrees(s) && (s.pending.kind == CPU ==> s.pending.time == Deadline(s, s.active) - s.main)
  }

  // No elapsed cycles are left over that arming an event by cycles would not subtract first.
  predicate Timely(s: State) { s.active > 0 || s.over == 0 }

  lemma {:induction false} BestIsLeast(t: seq<Handler>, n: nat)
    requires 0 < n <= |t| && t[0].kind == NONE
    requires forall i | 0 <= i < |t| :: t[i].kind == CPU ==> t[i].time < INT64_MAX
    ensures Best(t, n) == 0 ==> forall i | 0 <= i < n :: t[i].kind != CPU
    ensures var b := Best(t, n); b != 0 ==>
      && t[b].kind == CPU
      && forall i | 0 <= i < n && t[i].kind == CPU :: t[b].time < t[i].time || (t[b].time == t[i].time && b <= i)
    decreases n
  {
    if n > 1 { BestIsLeast(t, n - 1); }
  }

  // Whatever the table was, a rescan agrees with it, and right after the elapsed cycles were
  // subtracted it is coherent.
  lemma SetNewAgrees(s: State)
    requires Shaped(s) && s.over >= 0
    ensures Agrees(SetNew(s))
    ensures SetNew(s).pending.kind != US
  {
    hide Best;
    BestIsLeast(s.table, MAX_INTERRUPTS);
  }

  lemma SetNewCoherent(s: State)
    requires Shaped(s) && s.over == 0
    ensures Coherent(SetNew(s))
  {
    hide Best, Agrees;
    SetNewAgrees(s);
  }

  lemma UpdateKeepsDeadlines(s: State)
    requires Shaped(s) && s.over >= 0
    ensures Shaped(Update(s))
    ensures forall i | 0 <= i < MAX_INTERRUPTS ::
              Update(s).table[i].kind == s.table[i].kind
              && (IsCpu(s, i) ==> Deadline(Update(s), i) == Deadline(s, i))
              && (s.table[i].kind == US ==> Update(s).table[i] == s.table[i])
  {}

  // ----- when an operation keeps the table and the pending copy in agreement -----

  lemma AcknowledgeCoherent(s: State)
    requires Shaped(s) && s.over >= 0
    ensures Coherent(Acknowledge(s))
  {
    hide SetNew, Update, Coherent;
    UpdateKeepsDeadlines(s);
    UpdateOver(s);
    SetNewCoherent(Disarm(Update(s), s.active));
  }

  lemma UpdateOver(s: State)
    ensures Update(s).over == 0 && Update(s).main == s.main && Update(s).usCheck == s.usCheck
  {}

  lemma RemoveCoherent(s: State, h: nat)
    requires Shaped(s) && s.over >= 0 && h < MAX_INTERRUPTS
    ensures Coherent(Remove(s, h))
  {
    hide SetNew, Update, Coherent;
    UpdateKeepsDeadlines(s);
    UpdateOver(s);
    SetNewCoherent(Disarm(Update(s), h));
  }

  lemma SyncedShaped(s: State)
    requires Shaped(s) && s.over >= 0
    ensures Shaped(Synced(s)) && Synced(s).main == s.main
    ensures Synced(s).over == if Timely(s) then 0 else s.over
    ensures forall i | 0 <= i < MAX_INTERRUPTS :: Synced(s).table[i].kind == s.table[i].kind
  {
    hide Update;
    UpdateKeepsDeadlines(s);
    UpdateOver(s);
  }

  // Arming by cycles is the one operation with a condition: when no cycle event is active the
  // elapsed cycles are not subtracted first, and the new event would be charged with them.
  lemma ArmCyclesCoherent(s: State, h: nat, time: nat)
    requires Agrees(s) && 1 <= h < MAX_INTERRUPTS && time < INT64_MAX
    ensures Agrees(ArmCycles(s, h, time))
    ensures Coherent(ArmCycles(s, h, time)) <==> Timely(s)
  {
    hide Best, Update, Synced, Agrees;
    AgreesParts(s);
    SyncedShaped(s);
    var r := Synced(s);
    var q := r.(table := r.table[h := Handler(CPU, time, r.table[h].fn)]);
    SetNewAgrees(q);
    BestIsLeast(q.table, MAX_INTERRUPTS);
    assert q.table[h].kind == CPU;
  }

  lemma ArmUsCoherent(c: Config, s: State, h: nat, us: nat, usreal: int, now: int)
    requires Agrees(s) && 1 <= h < MAX_INTERRUPTS && CyclesOf(c, us) < INT64_MAX
    ensures Agrees(ArmUs(c, s, h, us, usreal, now))
    ensures Coherent(ArmUs(c, s, h, us, usreal, now)) <==> c.realtime || Timely(s)
  {
    hide Best, Update, Synced, ArmCycles, Agrees, CyclesOf;
    if c.realtime {
      AgreesParts(s);
      SyncedShaped(s);
      var r := Synced(s);
      var q := r.(table := r.table[h := Handler(US, now + (if usreal > 0 then usreal else us), r.table[h].fn)]);
      SetNewAgrees(q);
      BestIsLeast(q.table, MAX_INTERRUPTS);
    } else {
      ArmCyclesCoherent(s, h, CyclesOf(c, us));
    }
  }

  lemma AgreesParts(s: State)
    requires Agrees(s)
    ensures Shaped(s) && s.over >= 0
    ensures s.active == 0 ==> forall i | 0 <= i < MAX_INTERRUPTS :: s.table[i].kind != CPU
  {}

  lemma {:induction false} DueIsDue(t: seq<Handler>, now: int, i: nat)
    requires i <= |t|
    ensures var d := Due(t, now, i); d < |t| ==> t[d].kind == US && now > t[d].time
    ensures forall k | i <= k < Due(t, now, i) :: !(t[k].kind == US && now > t[k].time)
    decreases |t| - i
  {
    if !(i == |t| || (t[i].kind == US && now > t[i].time)) { DueIsDue(t, now, i + 1); }
  }

  // A step of the execution loop keeps the agreement, whatever is active.
  lemma TickCoherent(c: Config, s: State, cycles: nat, now: int)
    requires Agrees(s)
    ensures Agrees(Tick(c, s, cycles, now))
    ensures Coherent(s) ==> Coherent(Tick(c, s, cycles, now))
  {
    hide Due;
    DueIsDue(s.table, now, 0);
    var r := Tick(c, s, cycles, now);
    assert r.table == s.table && r.over == s.over + cycles && r.main == s.main + cycles;
    forall i | 0 <= i < MAX_INTERRUPTS ensures Deadline(r, i) == Deadline(s, i) {}
    if r.pending.kind == CPU {
      assert r.active == s.active && s.pending.kind == CPU;
      forall i | 0 <= i < MAX_INTERRUPTS && IsCpu(r, i) ensures Earlier(r, r.active, i) {
        assert IsCpu(s, i) && Earlier(s, s.active, i);
      }
    }
  }

  // A reset leaves the pending copy's handler in place, so it is a clean start only if no
  // handler was pending.
  lemma ResetCoherent(s: State)
    ensures Shaped(Reset(s))
    ensures Coherent(Reset(s)) <==> s.pending.fn == 0 && s.pending.kind == NONE
    ensures Timely(Reset(s)) && Reset(s).main == 0 && Reset(s).usCheck == 0
  {}

  // ----- what arming promises -----

  // The event is due the requested number of cycles from now exactly when the elapsed cycles
  // have been accounted for; otherwise it is early by the cycles spent idle.
  lemma ArmedOnTime(s: State, h: nat, time: nat)
    requires Shaped(s) && s.over >= 0 && 1 <= h < MAX_INTERRUPTS && time < INT64_MAX
    ensures var r := ArmCycles(s, h, time);
      && IsCpu(r, h)
      && (Deadline(r, h) == s.main + time <==> Timely(s))
      && Deadline(r, h) == s.main + time - (if Timely(s) then 0 else s.over)
  {
    hide Best, Update;
    UpdateOver(s);
  }

  // The distance of an event's deadline from now.
  function Distance(s: State, h: nat): int
    requires h < |s.table|
  {
    Deadline(s, h) - s.main
  }

  // A microsecond is as many cycles as the clock has megahertz: outside real-time mode an event
  // armed on time is due us times that many cycles from now.
  lemma ArmedUsOnTime(c: Config, s: State, h: nat, us: nat, usreal: int, now: int)
    requires Shaped(s) && s.over >= 0 && 1 <= h < MAX_INTERRUPTS && us * c.cpuFreq < INT64_MAX
    requires !c.realtime && Timely(s)
    ensures var r := ArmUs(c, s, h, us, usreal, now);
      && IsCpu(r, h) && Distance(r, h) == us * c.cpuFreq
      && (c.cpuFreq > 0 ==> Distance(r, h) / c.cpuFreq == us && Distance(r, h) % c.cpuFreq == 0)
  {
    hide ArmCycles, Timely;
    ArmedOnTime(s, h, us * c.cpuFreq);
    ArmCyclesKeepsMain(s, h, us * c.cpuFreq);
    if c.cpuFreq > 0 { ProductParts(us, c.cpuFreq); }
  }

  // In real-time mode it is due so many microseconds after now, by the host's clock.
  lemma ArmedRealTime(c: Config, s: State, h: nat, us: nat, usreal: int, now: int)
    requires Shaped(s) && 1 <= h < MAX_INTERRUPTS && c.realtime
    ensures var r := ArmUs(c, s, h, us, usreal, now);
      && |r.table| == MAX_INTERRUPTS && r.table[h].kind == US
      && (usreal > 0 ==> r.table[h].time - now == usreal) && (usreal <= 0 ==> r.table[h].time - now == us)
  {
    hide Best;
  }

  // The form that always counts cycles takes the real-time value instead in real-time mode, if
  // there is one.
  lemma ArmedUsCyclesOnTime(c: Config, s: State, h: nat, us: nat, usreal: int)
    requires Shaped(s) && s.over >= 0 && 1 <= h < MAX_INTERRUPTS && Timely(s)
    requires us * c.cpuFreq < INT64_MAX && usreal * c.cpuFreq < INT64_MAX
    ensures var r := ArmUsCycles(c, s, h, us, usreal);
      && IsCpu(r, h)
      && (c.realtime && usreal > 0 ==> Distance(r, h) == usreal * c.cpuFreq)
      && (!c.realtime || usreal <= 0 ==> Distance(r, h) == us * c.cpuFreq)
  {
    hide ArmCycles, Timely;
    var t := if c.realtime && usreal > 0 then usreal else us;
    ArmedOnTime(s, h, t * c.cpuFreq);
    ArmCyclesKeepsMain(s, h, t * c.cpuFreq);
  }

  // Waiting longer by some microseconds is waiting longer by their cycles.
  lemma LongerByCycles(c: Config, s: State, h: nat, a: nat, b: nat, usreal: int, now: int)
    requires Shaped(s) && s.over >= 0 && 1 <= h < MAX_INTERRUPTS && (a + b) * c.cpuFreq < INT64_MAX
    requires !c.realtime && Timely(s)
    ensures Distance(ArmUs(c, s, h, a + b, usreal, now), h) == Distance(ArmUs(c, s, h, a, usreal, now),
            h) + b * c.cpuFreq
  {
    hide ArmUs, Timely;
    ProductSum(a, b, c.cpuFreq);
    ArmedUsOnTime(c, s, h, a + b, usreal, now);
    ArmedUsOnTime(c, s, h, a, usreal, now);
  }

  lemma ArmCyclesKeepsMain(s: State, h: nat, time: nat)
    requires |s.table| == MAX_INTERRUPTS && h < MAX_INTERRUPTS
    ensures ArmCycles(s, h, time).main == s.main
  {
    hide Best;
  }

  lemma ProductParts(a: nat, b: nat)
    requires b > 0
    ensures a * b / b == a && a * b % b == 0
  {
    Quotient(a * b, a * b / b, a * b % b, b, a);
  }

  lemma Quotient(n: int, q: int, r: int, b: nat, a: int)
    requires n == q * b + r && 0 <= r < b && n == a * b
    ensures q == a && r == 0
  {
    if q < a {
      Larger(q, a, b);
    } else if a < q {
      Larger(a, q, b);
    }
  }

  lemma Factors(a: nat, b: nat)
    ensures a * b >= 0
  {}

  lemma Larger(a: int, b: int, c: nat)
    requires a < b
    ensures b * c >= a * c + c
  {
    var k: nat := b - a - 1;
    Factors(k, c);
    assert b * c == a * c + c + k * c;
  }

  lemma ProductSum(a: nat, b: nat, c: nat)
    ensures (a + b) * c == a * c + b * c && a * c >= 0 && b * c >= 0
  {}

  // ----- nobody else's deadline moves -----

  lemma TickKeepsDeadline(c: Config, s: State, cycles: nat, now: int, h: nat)
    requires Shaped(s) && h < MAX_INTERRUPTS
    ensures var r := Tick(c, s, cycles, now); r.table == s.table && Deadline(r, h) == Deadline(s, h)
  {
    hide Due;
  }

  lemma AcknowledgeKeepsDeadline(s: State, h: nat)
    requires Shaped(s) && s.over >= 0 && h < MAX_INTERRUPTS && h != s.active && IsCpu(s, h)
    ensures var r := Acknowledge(s); IsCpu(r, h) && Deadline(r, h) == Deadline(s, h)
  {
    hide Best;
  }

  lemma RemoveKeepsDeadline(s: State, g: nat, h: nat)
    requires Shaped(s) && s.over >= 0 && g < MAX_INTERRUPTS && h < MAX_INTERRUPTS && h != g && IsCpu(s, h)
    ensures var r := Remove(s, g); IsCpu(r, h) && Deadline(r, h) == Deadline(s, h)
  {
    hide Best;
  }

  lemma ArmCyclesKeepsDeadline(s: State, g: nat, time: nat, h: nat)
    requires Shaped(s) && s.over >= 0 && g < MAX_INTERRUPTS && h < MAX_INTERRUPTS && h != g && IsCpu(s, h)
    ensures var r := ArmCycles(s, g, time); IsCpu(r, h) && Deadline(r, h) == Deadline(s, h)
  {
    hide Best;
  }

  lemma ArmUsKeepsDeadline(c: Config, s: State, g: nat, us: nat, usreal: int, now: int, h: nat)
    requires Shaped(s) && s.over >= 0 && g < MAX_INTERRUPTS && h < MAX_INTERRUPTS && h != g && IsCpu(s, h)
    ensures var r := ArmUs(c, s, g, us, usreal, now); IsCpu(r, h) && Deadline(r, h) == Deadline(s, h)
  {
    hide Best;
    if !c.realtime { ArmCyclesKeepsDeadline(s, g, CyclesOf(c, us), h); }
  }
}
