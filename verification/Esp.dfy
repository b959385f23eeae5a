// The NCR53C90 SCSI controller of src/esp.c: its two-deep command register, whose start and
// finish functions call each other, its resets, its interrupt and its 16-byte FIFO.
module Esp {
  import opened Bytes

  const ESP_FIFO_SIZE: nat := 16
  const SCSI_CDB_MAX_SIZE: nat := 12

  const NOP: byte := 0x00
  const FLUSH: byte := 0x01
  const RESET: byte := 0x02
  const BUSRESET: byte := 0x03
  const TI: byte := 0x10
  const ICCS: byte := 0x11
  const MSGACC: byte := 0x12
  const PAD: byte := 0x18
  const SATN: byte := 0x1a
  const SEL: byte := 0x41
  const SELATN: byte := 0x42
  const ENSEL: byte := 0x44

  // The command without its DMA bit.
  function Op(cmd: byte): byte { cmd % 128 }

  // Not among the emulated commands, but known: these stop the emulator.
  predicate Stops(op: byte) {
    op == 0x40 || op == 0x43 || op == 0x45 || op == SATN || 0x20 <= op <= 0x25 || 0x27 <= op <= 0x2b
  }

  function Least(a: nat, b: nat): nat { if a < b then a else b }

  datatype Role = Disconnected | Initiator | Target
  datatype Phase = DataOut | DataIn | CommandPhase | StatusPhase | MessageOut | MessageIn
  datatype Cause = FunctionComplete | BusService | Disconnect | IllegalCommand | BusWasReset
  datatype IoState = Transferring | Flushing | IoDone

  // Commands other than the resets are only for one role of the chip.
  predicate Fits(cmd: byte, role: Role) {
    cmd / 16 % 8 == 0
    || match role
       case Disconnected => cmd / 64 % 2 == 1
       case Initiator => cmd / 16 % 2 == 1
       case Target => cmd / 32 % 2 == 1
  }

  // Resets, FIFO flushes and NOPs are for every role; selections for a disconnected chip; transfers,
  // status, messages and padding for an initiator.
  lemma Roles(op: byte, role: Role)
    requires op < 128
    ensures op == 0x00 || op == 0x01 || op == 0x02 || op == 0x03 ==> Fits(op, role)
    ensures op == 0x41 || op == 0x42 || op == 0x44 ==> (Fits(op, role) <==> role == Disconnected)
    ensures op == 0x10 || op == 0x11 || op == 0x12 || op == 0x18 ==> (Fits(op, role) <==> role == Initiator)
  {}

  // The DMA bit does not matter.
  lemma RolesWithDma(cmd: byte, role: Role)
    ensures Fits(cmd, role) == Fits(Op(cmd), role) && Op(cmd) < 128
  {
    var op := Op(cmd);
    if cmd >= 128 {
      assert op == cmd - 128;
      assert cmd / 16 == op / 16 + 8;
      assert cmd / 32 == op / 32 + 4;
      assert cmd / 64 == op / 64 + 2;
    }
  }

  // What the chip and the disk are like when a command begins.
  datatype Scene = Scene(queue: seq<byte>, phase: Phase, role: Role, causes: set<Cause>, dma: bool, counter: nat,
                         writeCount: nat, quietBusReset: bool, answers: bool, reply: Phase, replySize: nat,
                         dataLeft: nat, afterStatus: Phase, dataByte: byte, statusByte: byte, messageByte: byte) {
    // Every DMA command loads the transfer counter, where 0 stands for the maximum.
    function Loaded(cmd: byte): Scene {
      this.(dma := cmd >= 0x80,
            counter := if cmd < 0x80 then counter else if writeCount == 0 then 0x10000 else writeCount)
    }
  }

  // ----- order of commands -----

  ghost function WithoutResets(log: seq<byte>): seq<byte> {
    if log == [] then []
    else WithoutResets(log[..|log| - 1]) + (if Op(log[|log| - 1]) == RESET then [] else [log[|log| - 1]])
  }

  // a is b with some elements left out.
  ghost predicate Within(a: seq<byte>, b: seq<byte>) {
    if a == [] then true
    else if b == [] then false
    else (a[|a| - 1] == b[|b| - 1] && Within(a[..|a| - 1], b[..|b| - 1])) || Within(a, b[..|b| - 1])
  }

  lemma {:induction false} WithoutResetsMore(log: seq<byte>, c: byte)
    ensures WithoutResets(log + [c]) == WithoutResets(log) + (if Op(c) == RESET then [] else [c])
  {
    assert (log + [c])[..|log|] == log;
  }

  lemma WithinLonger(a: seq<byte>, b: seq<byte>, c: byte)
    requires Within(a, b)
    ensures Within(a, b + [c])
  {
    assert (b + [c])[..|b|] == b;
  }

  lemma WithinBoth(a: seq<byte>, b: seq<byte>, c: byte)
    requires Within(a, b)
    ensures Within(a + [c], b + [c])
  {
    assert (b + [c])[..|b|] == b && (a + [c])[..|a|] == a;
  }

  lemma {:induction false} WithinShorter(a: seq<byte>, b: seq<byte>, c: byte)
    requires Within(a + [c], b)
    ensures Within(a, b)
    decreases |b|
  {
    assert (a + [c])[..|a|] == a;
    if a != [] {
      assert b != [];
      var b' := b[..|b| - 1];
      assert b == b' + [b[|b| - 1]];
      if Within(a, b') {
        WithinLonger(a, b', b[|b| - 1]);
      } else {
        WithinShorter(a, b', c);
      }
    }
  }

  // Commands are started in the order they were written, none more often than it was written,
  // and those of next are still to come.  Resets are not counted.
  ghost predicate Ordered(started: seq<byte>, next: seq<byte>, written: seq<byte>) {
    Within(WithoutResets(started) + next, WithoutResets(written))
  }

  lemma OrderDropped(st: seq<byte>, next: seq<byte>, wr: seq<byte>)
    requires Ordered(st, next, wr) && |next| <= 1
    ensures Ordered(st, [], wr)
  {
    hide Within, WithoutResets;
    var r := WithoutResets(st);
    assert r + [] == r;
    if |next| == 1 {
      assert next == [next[0]];
      WithinShorter(r, WithoutResets(wr), next[0]);
    } else {
      assert next == [];
    }
  }

  lemma OrderStarted(st: seq<byte>, next: seq<byte>, wr: seq<byte>, c: byte)
    requires Ordered(st, next, wr) && |next| <= 1
    ensures Ordered(st + [c], [], wr + [c])
  {
    hide Within, WithoutResets;
    OrderDropped(st, next, wr);
    WithoutResetsMore(st, c);
    WithoutResetsMore(wr, c);
    var r, w := WithoutResets(st), WithoutResets(wr);
    assert r + [] == r && w + [] == w && (r + [c]) + [] == r + [c];
    if Op(c) != RESET { WithinBoth(r, w, c); }
  }

  lemma OrderQueued(st: seq<byte>, next: seq<byte>, wr: seq<byte>, c: byte)
    requires Ordered(st, next, wr) && |next| <= 1 && Op(c) != RESET
    ensures Ordered(st, [c], wr + [c])
  {
    hide Within, WithoutResets;
    OrderDropped(st, next, wr);
    WithoutResetsMore(wr, c);
    var r := WithoutResets(st);
    assert r + [] == r;
    WithinBoth(r, WithoutResets(wr), c);
  }

  lemma OrderTaken(st: seq<byte>, wr: seq<byte>, c: byte)
    requires Ordered(st, [c], wr) && Op(c) != RESET
    ensures Ordered(st + [c], [], wr)
  {
    hide Within;
    WithoutResetsMore(st, c);
    assert WithoutResets(st) + [c] + [] == WithoutResets(st) + [c];
  }

  lemma OrderReset(st: seq<byte>, next: seq<byte>, wr: seq<byte>, c: byte)
    requires Ordered(st, next, wr) && |next| <= 1 && Op(c) == RESET
    ensures Ordered(st + [c], [], wr)
  {
    hide Within;
    OrderDropped(st, next, wr);
    WithoutResetsMore(st, c);
    assert WithoutResets(st) + [] == WithoutResets(st);
  }

  // A reset starts at once, twice if a command waits, unless it is one that is stuck and not written again.
  lemma OrderResets(st: seq<byte>, next: seq<byte>, wr: seq<byte>, c: byte, twice: bool, stored: bool)
    requires Ordered(st, next, wr) && |next| <= 1 && (Op(c) == RESET || (stored && !twice))
    ensures Ordered(st + (if twice then [c, c] else [c]), [], if stored then wr + [c] else wr)
  {
    hide Ordered;
    if stored { OrderStarted(st, next, wr, c); } else { OrderReset(st, next, wr, c); }
    if twice {
      OrderReset(st + [c], [], if stored then wr + [c] else wr, c);
      assert st + [c] + [c] == st + [c, c];
    }
  }

  datatype Operation =
    | WriteCommand(cmd: byte) | ReadStatus | Delayed | Reset | Io(turn: Turn) | PutByte(b: byte) | GetByte

  // One turn of the transfer handler: the bytes the DMA channel would move, and the disk's phase
  // afterwards.
  datatype Turn = Turn(moved: nat, after: Phase)

  predicate IsData(p: Phase) { p == DataIn || p == DataOut }

  // Some turn of a transfer that begins in phase p with this count uses the count up or leaves
  // the phase.  In any other phase none ever does.
  predicate EndsTransfer(p: Phase, counter: nat, turns: seq<Turn>) {
    IsData(p) && turns != []
    && (turns[0].moved >= counter || turns[0].after != p || EndsTransfer(p, counter - turns[0].moved, turns[1..]))
  }

  // A reset of chip or bus.
  predicate Resets(op: Operation) {
    op.Reset? || (op.WriteCommand? && (Op(op.cmd) == RESET || Op(op.cmd) == BUSRESET))
  }

  predicate ChipReset(op: Operation) { op.WriteCommand? && Op(op.cmd) == RESET }

  ghost predicate NoChipReset(ops: seq<Operation>) {
    forall i :: 0 <= i < |ops| ==> !ChipReset(ops[i])
  }

  // The command an access writes, and those of a run of accesses.
  function CommandOf(op: Operation): seq<byte> { if op.WriteCommand? then [op.cmd] else [] }

  function Commands(ops: seq<Operation>): seq<byte> {
    if ops == [] then [] else Commands(ops[..|ops| - 1]) + CommandOf(ops[|ops| - 1])
  }

  ghost predicate NoReset(ops: seq<Operation>) {
    forall i :: 0 <= i < |ops| ==> !Resets(ops[i])
  }

  ghost predicate NoNop(ops: seq<Operation>) {
    forall i :: 0 <= i < |ops| ==> !(ops[i].WriteCommand? && Op(ops[i].cmd) == NOP)
  }

  // s is s0 and then any number of times c.
  ghost predicate OnlyRepeats(s0: seq<byte>, s: seq<byte>, c: byte) {
    |s0| <= |s| && s[..|s0|] == s0 && forall i :: |s0| <= i < |s| ==> s[i] == c
  }

  class Chip {
    // command[0], command[1] and esp_cmd_state
    var cmd0: byte
    var cmd1: byte
    var inProgress: bool
    var waiting: bool

    var role: Role
    var phase: Phase
    var irq: bool
    var grossError: bool
    var countZero: bool
    var causes: set<Cause>
    var seqStep: nat

    // the delayed interrupt, and the handler that serves DMA transfers
    var armed: bool
    var ioArmed: bool
    var ioState: IoState

    var modeDma: bool
    var counter: nat
    var writeCount: nat
    var quietBusReset: bool

    const fifo: array<byte>
    var fifoCount: nat

    // the disk: whether it answers, the phase it replies to a command with and how much data it has
    // then, what is left of its data phase, where its status leads, and the bytes it gives
    var answers: bool
    var reply: Phase
    var replySize: nat
    var dataLeft: nat
    var afterStatus: Phase
    var dataByte: byte
    var statusByte: byte
    var messageByte: byte
    var identify: byte
    var cdb: seq<byte>

    // abort() was called
    var halted: bool

    // every command started, and every command written and not turned away
    ghost var started: seq<byte>
    ghost var written: seq<byte>

    ghost predicate FifoOk()
      reads this`fifoCount, fifo
    {
      fifo.Length == ESP_FIFO_SIZE && fifoCount <= ESP_FIFO_SIZE
      && forall i :: fifoCount <= i < ESP_FIFO_SIZE ==> fifo[i] == 0
    }

    ghost function Queue(): seq<byte>
      requires FifoOk()
      reads this`fifoCount, fifo
    {
      fifo[..fifoCount]
    }

    // esp_fifo_read
    method FifoRead() returns (v: byte)
      requires FifoOk()
      modifies this`fifoCount, fifo
      ensures FifoOk()
      ensures old(Queue()) == [] ==> v == 0 && Queue() == []
      ensures old(Queue()) != [] ==> v == old(Queue())[0] && Queue() == old(Queue())[1..]
    {
      if fifoCount > 0 {
        v := fifo[0];
        ghost var f := fifo[..];
        for i := 0 to ESP_FIFO_SIZE - 1
          invariant fifoCount == old(fifoCount) && forall j :: 0 <= j < i ==> fifo[j] == f[j + 1]
          invariant forall j :: i <= j < ESP_FIFO_SIZE ==> fifo[j] == f[j]
        {
          fifo[i] := fifo[i + 1];
        }
        fifo[ESP_FIFO_SIZE - 1] := 0;
        fifoCount := fifoCount - 1;
      } else {
        v := 0;
      }
    }

    // esp_fifo_write: a full FIFO loses its newest byte.
    method FifoWrite(v: byte)
      requires FifoOk()
      modifies this`fifoCount, this`grossError, fifo
      ensures FifoOk()
      ensures |old(Queue())| < ESP_FIFO_SIZE ==> Queue() == old(Queue()) + [v] && grossError == old(grossError)
      ensures |old(Queue())| == ESP_FIFO_SIZE ==> Queue() == old(Queue())[..ESP_FIFO_SIZE - 1] + [v] && grossError
    {
      if fifoCount == ESP_FIFO_SIZE {
        fifo[fifoCount - 1] := v;
        grossError := true;
      } else {
        fifoCount := fifoCount + 1;
        fifo[fifoCount - 1] := v;
      }
    }

    // esp_fifo_clear
    method FifoClear()
      requires fifo.Length == ESP_FIFO_SIZE
      modifies this`fifoCount, fifo
      ensures FifoOk() && Queue() == []
    {
      for i := 0 to ESP_FIFO_SIZE
        invariant forall j :: 0 <= j < i ==> fifo[j] == 0
      {
        fifo[i] := 0;
      }
      fifoCount := 0;
    }

    // ----- the command register -----

    // A command in progress has its interrupt raised or on the way, or a turn of the transfer
    // handler coming, which need not end it.
    ghost predicate Live()
      reads this`inProgress, this`halted, this`irq, this`armed, this`ioArmed, this`ioState
    {
      inProgress ==> halted || irq || armed || (ioArmed && ioState == Transferring)
    }

    // A waiting command waits behind one in progress, and is no reset; and the second place of
    // the command register is empty otherwise, unless a chip reset is stuck in it.
    ghost predicate QueueOk()
      reads this`cmd1, this`inProgress, this`waiting
    {
      && (waiting ==> inProgress && Op(cmd1) != RESET && Op(cmd1) != BUSRESET)
      && (!waiting ==> cmd1 == 0 || (Op(cmd1) == RESET && !inProgress))
    }

    ghost predicate InOrder()
      reads this`cmd1, this`waiting, this`started, this`written
    {
      Ordered(started, if waiting then [cmd1] else [], written)
    }

    ghost predicate Valid()
      reads this, fifo
    {
      FifoOk() && role != Target && QueueOk() && Live() && InOrder()
    }

    // A chip reset is stuck in the command register.
    ghost predicate Locked()
      reads this`cmd1
    {
      Op(cmd1) == RESET
    }

    // A transfer command is in progress, with nothing raised or armed but the transfer handler.
    ghost predicate InTransfer()
      reads this`inProgress, this`irq, this`armed, this`ioArmed, this`ioState
    {
      inProgress && !irq && !armed && ioArmed && ioState == Transferring
    }

    // The same outside the data phases, where the handler does nothing but arm itself again.
    ghost predicate Stranded()
      reads this`inProgress, this`irq, this`armed, this`ioArmed, this`ioState, this`phase, this`halted
    {
      InTransfer() && !IsData(phase) && !halted
    }

    ghost function Now(): Scene
      requires FifoOk()
      reads this`phase, this`role, this`causes, this`modeDma, this`counter, this`writeCount, this`quietBusReset
      reads this`answers, this`reply, this`replySize, this`dataLeft, this`afterStatus, this`dataByte, this`statusByte
      reads this`messageByte, this`fifoCount, fifo
    {
      Scene(Queue(), phase, role, causes, modeDma, counter, writeCount, quietBusReset, answers, reply, replySize,
            dataLeft, afterStatus, dataByte, statusByte, messageByte)
    }

    // The disk has got its message and its command block from the front of the FIFO, which held q.
    ghost predicate SelectedWith(q: seq<byte>, atn: bool)
      requires FifoOk()
      reads this`identify, this`cdb, this`fifoCount, fifo
    {
      var rest := if atn && q != [] then q[1..] else q;
      var n := Least(|rest|, SCSI_CDB_MAX_SIZE);
      identify == (if atn && q != [] then q[0] else 0) && cdb == rest[..n] && Queue() == rest[n..]
    }

    // What a selection leaves, with and without a message before the command block.
    ghost predicate Selection(s: Scene, atn: bool)
      requires FifoOk()
      reads this, fifo
    {
      if s.answers && s.dma then halted
      else
        && !halted && armed
        && (if s.answers then
              && role == Initiator && phase == s.reply && dataLeft == s.replySize
              && causes == {BusService, FunctionComplete} && SelectedWith(s.queue, atn)
            else role == Disconnected && phase == StatusPhase && causes == {Disconnect} && Queue() == s.queue)
    }

    // What a transfer without DMA leaves; one with DMA only arms the transfer handler.
    ghost predicate Transfers(s: Scene)
      requires FifoOk()
      reads this, fifo
    {
      && role == s.role && modeDma == s.dma
      && if s.dma then
        && !halted && ioArmed && ioState == Transferring
        && phase == s.phase && counter == s.counter && Queue() == s.queue
      else if s.phase == DataIn then
        && !halted && armed && (|s.queue| < ESP_FIFO_SIZE ==> Queue() == s.queue + [s.dataByte])
        && dataLeft == (if s.dataLeft > 0 then s.dataLeft - 1 else 0)
        && phase == if dataLeft == 0 then StatusPhase else DataIn
      else if s.phase == MessageIn || s.phase == StatusPhase then
        !halted && armed && Queue() == s.queue
      else halted
    }

    // What a command-complete sequence leaves: the status byte, and the message byte if the disk
    // goes on to that phase.
    ghost predicate Completes(s: Scene)
      requires FifoOk()
      reads this, fifo
    {
      if s.dma then halted
      else
        && !halted && armed && phase == s.afterStatus
        && causes == (if s.afterStatus == MessageIn then {FunctionComplete} else {BusService})
        && (|s.queue| + 2 <= ESP_FIFO_SIZE ==>
              Queue() == s.queue + [s.statusByte] + (if s.afterStatus == MessageIn then [s.messageByte] else []))
    }

    ghost predicate Pads(s: Scene)
      requires FifoOk()
      reads this, fifo
    {
      if s.phase != DataIn && s.phase != DataOut then halted
      else
        && !halted && armed && Queue() == s.queue && role == s.role
        && counter == s.counter - Least(s.counter, if s.dataLeft == 0 then 1 else s.dataLeft)
        && causes == if counter == 0 then {FunctionComplete} else {BusService}
    }

    ghost predicate ResetsBus(s: Scene)
      reads this
    {
      && !halted && role == Disconnected
      && if s.quietBusReset then !inProgress && causes == s.causes
         else armed && inProgress && causes == {BusWasReset} && phase == MessageIn
    }

    // What each command does, by its number, when it fits the role of the chip.
    ghost predicate Does(op: byte, s: Scene)
      requires FifoOk()
      reads this, fifo
    {
      && (op == 0x00 || op == 0x44 ==> !halted && !inProgress && Queue() == s.queue)
      && (op == 0x01 ==> !halted && !inProgress && Queue() == [])
      && (op == 0x02 ==> WasReset())
      && (op == 0x03 ==> ResetsBus(s))
      && (op == 0x10 ==> Transfers(s))
      && (op == 0x11 ==> Completes(s))
      && (op == 0x12 ==> !halted && armed && role == Disconnected && phase == StatusPhase && causes == {BusService})
      && (op == 0x18 ==> Pads(s))
      && (op == 0x41 ==> Selection(s, false))
      && (op == 0x42 ==> Selection(s, true))
      && (op == 0x1a || op == 0x40 || op == 0x43 || op == 0x45 ==> halted)
      && (0x03 < op < 0x10 || 0x12 < op < 0x18 || op == 0x19 || 0x1a < op < 0x20 || 0x2b < op < 0x40 || op > 0x45 ==>
            !halted && armed && inProgress && causes == s.causes + {IllegalCommand})
    }

    // The delayed interrupt is armed.
    method Arm()
      modifies this`armed
      ensures armed
    {
      armed := true;
    }

    // esp_command_clear
    method CommandClear()
      modifies this`cmd0, this`cmd1, this`waiting
      ensures cmd0 == 0
      ensures if Op(old(cmd1)) == RESET then cmd1 == old(cmd1) && waiting == old(waiting) else cmd1 == 0 && !waiting
    {
      cmd0 := 0;
      if Op(cmd1) != RESET {
        cmd1 := 0;
        waiting := false;
      }
    }

    // An illegal command is cleared, and raises the interrupt.
    method TurnAway()
      requires cmd1 == 0 && !waiting
      modifies this`cmd0, this`cmd1, this`waiting, this`causes, this`armed
      ensures cmd0 == 0 && cmd1 == 0 && !waiting && causes == old(causes) + {IllegalCommand} && armed
    {
      CommandClear();
      causes := causes + {IllegalCommand};
      Arm();
    }

    // esp_finish_command
    method FinishCommand()
      requires FifoOk() && role != Target && !halted
      modifies this, fifo
      decreases if waiting then 1 else 0, 0
      ensures FifoOk() && role != Target && Live() && !waiting && written == old(written)
      ensures !old(waiting) ==>
                && !inProgress && cmd1 == old(cmd1) && started == old(started) && irq == old(irq) && !halted
                && fifo[..] == old(fifo[..]) && fifoCount == old(fifoCount) && role == old(role)
                && causes == old(causes) && counter == old(counter) && grossError == old(grossError)
      ensures old(waiting) ==>
                && cmd1 == 0 && started == old(started) + [old(cmd1)]
                && (Op(old(cmd1)) == RESET ==> WasReset())
                && (Fits(old(cmd1), old(role)) ==> Does(Op(old(cmd1)), old(Now()).Loaded(old(cmd1))))
    {
      hide Does, Fits, WasReset, FifoOk, Queue, Scene.Loaded, Op;
      inProgress := false;
      if waiting {
        cmd0 := cmd1;
        cmd1 := 0;
        waiting := false;
        StartCommand(cmd0);
      }
    }

    // What a chip reset leaves.
    ghost predicate WasReset()
      reads this, fifo
    {
      && !inProgress && !irq && causes == {} && !grossError && role == Disconnected && counter == 0 && fifoCount == 0
      && !halted
    }

    // esp_reset_soft
    method ResetSoft()
      modifies this`countZero, this`modeDma, this`counter, this`seqStep, this`cmd0, this`cmd1, this`waiting, this`role
      ensures if Op(old(cmd1)) == RESET then cmd1 == old(cmd1) && waiting == old(waiting) else cmd1 == 0 && !waiting
      ensures role == Disconnected && counter == 0 && !countZero && !modeDma && seqStep == 0
    {
      countZero := false;
      modeDma := false;
      counter := 0;
      seqStep := 0;
      CommandClear();
      role := Disconnected;
    }

    // esp_reset_hard
    method ResetHard()
      requires FifoOk() && !halted
      modifies this, fifo
      decreases if waiting then 1 else 0, 1
      ensures FifoOk() && role != Target && !waiting && written == old(written) && WasReset()
      ensures if Op(old(cmd1)) != RESET then cmd1 == 0 && started == old(started)
              else if old(waiting) then cmd1 == 0 && started == old(started) + [old(cmd1)]
              else cmd1 == old(cmd1) && started == old(started)
    {
      FifoClear();
      irq, causes, grossError := false, {}, false;
      ResetSoft();
      FinishCommand();
    }

    // esp_start_command
    method StartCommand(cmd: byte)
      requires FifoOk() && role != Target && !halted
      requires (cmd1 == 0 && !waiting) || (cmd1 == cmd && (Op(cmd) == RESET || Op(cmd) == BUSRESET))
      modifies this, fifo
      decreases if waiting then 1 else 0, 3
      ensures FifoOk() && role != Target && Live() && !waiting && written == old(written)
      ensures Op(cmd) == RESET ==> WasReset()
      ensures if Op(cmd) == RESET && old(cmd1) == cmd && !old(waiting) then cmd1 == cmd else cmd1 == 0
      ensures started == old(started) + (if Op(cmd) == RESET && old(waiting) then [cmd, cmd] else [cmd])
      ensures !Fits(cmd, old(role))
              ==> causes == old(causes) + {IllegalCommand} && armed && inProgress && role == old(role) && cmd0 == 0
      ensures Fits(cmd, old(role)) && Op(cmd) == TI && cmd >= 128 && old(!irq && !armed) ==>
                InTransfer() && phase == old(phase) && !halted
      ensures Fits(cmd, old(role)) ==> Does(Op(cmd), old(Now()).Loaded(cmd))
    {
      hide Does, Fits, FifoOk, WasReset, Op, Queue, Scene.Loaded, InTransfer;
      RolesWithDma(cmd, role);
      Roles(Op(cmd), role);
      started := started + [cmd];
      inProgress := true;
      if !Fits(cmd, role) {
        TurnAway();
        return;
      }
      LoadCounter(cmd);
      Dispatch(cmd);
    }

    // Every DMA command loads the transfer counter, where 0 stands for the maximum.
    method LoadCounter(cmd: byte)
      modifies this`counter, this`countZero, this`modeDma
      ensures modeDma == (cmd / 128 == 1) && countZero == (old(countZero) && !modeDma)
      ensures counter == if !modeDma then old(counter) else if writeCount == 0 then 0x10000 else writeCount
      ensures old(FifoOk()) ==> FifoOk() && Now() == old(Now()).Loaded(cmd)
    {
      if cmd / 128 == 1 {
        counter := if writeCount == 0 then 0x10000 else writeCount;
        countZero := false;
        modeDma := true;
      } else {
        modeDma := false;
      }
    }

    // The switch of esp_start_command.
    method Dispatch(cmd: byte)
      requires FifoOk() && role != Target && !halted && inProgress
      requires (cmd1 == 0 && !waiting) || (cmd1 == cmd && (Op(cmd) == RESET || Op(cmd) == BUSRESET))
      modifies this, fifo
      decreases if waiting then 1 else 0, 2
      ensures FifoOk() && role != Target && Live() && !waiting && written == old(written)
      ensures Op(cmd) == RESET ==> WasReset()
      ensures if Op(cmd) == RESET && old(cmd1) == cmd && !old(waiting) then cmd1 == cmd else cmd1 == 0
      ensures started == old(started) + (if Op(cmd) == RESET && old(waiting) then [cmd] else [])
      ensures Op(cmd) == TI && old(modeDma && !irq && !armed)
              ==> InTransfer() && phase == old(phase) && !halted
      ensures Does(Op(cmd), old(Now()))
    {
      hide Selection, Transfers, Completes, Pads, ResetsBus, WasReset;
      var op := Op(cmd);
      if op == NOP || op == ENSEL {
        FinishCommand();
      } else if op == FLUSH {
        FifoClear();
        FinishCommand();
      } else if op == RESET {
        ResetHard();
      } else if op == BUSRESET {
        BusReset();
      } else {
        Device(op);
      }
    }

    // esp_bus_reset
    method BusReset()
      requires FifoOk() && !halted && inProgress && Op(cmd1) != RESET
      modifies this, fifo
      decreases if waiting then 1 else 0, 1
      ensures FifoOk() && role == Disconnected && Live() && !waiting && cmd1 == 0
      ensures written == old(written) && started == old(started)
      ensures ResetsBus(old(Now()))
    {
      ResetSoft();
      if !quietBusReset {
        causes := {BusWasReset};
        phase := MessageIn;
        Arm();
      } else {
        FinishCommand();
      }
    }

    // esp_message_accepted
    method MessageAccepted()
      modifies this`phase, this`causes, this`role, this`armed
      ensures role == Disconnected && phase == StatusPhase && causes == {BusService} && armed
    {
      phase := StatusPhase;
      causes := {BusService};
      role := Disconnected;
      Arm();
    }

    // The commands that concern the disk.
    method Device(op: byte)
      requires FifoOk() && role != Target && !halted && inProgress && cmd1 == 0 && !waiting
      modifies this, fifo
      ensures FifoOk() && role != Target && Live() && !waiting && cmd1 == 0
      ensures written == old(written) && started == old(started)
      ensures op == TI && old(modeDma && !irq && !armed)
              ==> InTransfer() && phase == old(phase) && !halted
      ensures Stops(op) ==> halted
      ensures op == NOP || op == FLUSH || op == RESET || op == BUSRESET || op == ENSEL || (op > 0x45 && !Stops(op)) ==>
                causes == old(causes) + {IllegalCommand} && armed && cmd0 == 0
      ensures op != NOP && op != FLUSH && op != RESET && op != BUSRESET && op != ENSEL ==> Does(op, old(Now()))
    {
      hide Selection, Transfers, Completes, Pads, ResetsBus, WasReset, FifoOk, Queue;
      if op == SEL || op == SELATN {
        Select(op == SELATN);
      } else if op == TI {
        TransferInfo();
      } else if op == ICCS {
        CommandComplete();
      } else if op == MSGACC {
        MessageAccepted();
      } else if op == PAD {
        TransferPad();
      } else if Stops(op) {
        halted := true;
      } else {
        TurnAway();
      }
    }

    // The command block, as far as it and the FIFO go.
    method ReadBlock()
      requires FifoOk()
      modifies this`cdb, this`fifoCount, fifo
      ensures FifoOk() && cdb == old(Queue())[..Least(|old(Queue())|, SCSI_CDB_MAX_SIZE)]
      ensures Queue() == old(Queue())[Least(|old(Queue())|, SCSI_CDB_MAX_SIZE)..]
    {
      cdb := [];
      ghost var rest := Queue();
      while |cdb| < SCSI_CDB_MAX_SIZE && fifoCount > 0
        invariant FifoOk() && |cdb| <= SCSI_CDB_MAX_SIZE && |cdb| <= |rest| && cdb == rest[..|cdb|]
                  && Queue() == rest[|cdb|..]
        decreases fifoCount
      {
        var v := FifoRead();
        cdb := cdb + [v];
      }
    }

    // The identify message, if there is one, and the command block, both from the FIFO.
    method ReadCommand(atn: bool)
      requires FifoOk()
      modifies this`seqStep, this`phase, this`identify, this`cdb, this`fifoCount, fifo
      ensures FifoOk() && SelectedWith(old(Queue()), atn) && phase == CommandPhase && seqStep == 3
    {
      hide FifoOk;
      identify := 0;
      if atn {
        phase := MessageOut;
        seqStep := 1;
        identify := FifoRead();
      }
      phase := CommandPhase;
      seqStep := 3;
      ReadBlock();
    }

    // Nobody answers.
    method SelectionTimeout()
      requires cmd1 == 0 && !waiting
      modifies this`seqStep, this`causes, this`cmd0, this`cmd1, this`waiting, this`role, this`armed, this`phase
      ensures role == Disconnected && phase == StatusPhase && causes == {Disconnect} && armed && seqStep == 0
      ensures cmd0 == 0 && cmd1 == 0 && !waiting
    {
      seqStep := 0;
      phase := StatusPhase;
      causes := {Disconnect};
      CommandClear();
      role := Disconnected;
      Arm();
    }

    // The disk answers, and gets the command.
    method SelectDisk(atn: bool)
      requires FifoOk() && cmd1 == 0 && !waiting
      modifies this`seqStep, this`causes, this`cmd0, this`cmd1, this`waiting, this`role, this`armed,
               this`phase, this`dataLeft, this`identify, this`cdb, this`fifoCount, fifo
      ensures FifoOk() && SelectedWith(old(Queue()), atn)
      ensures role == Initiator && phase == reply && dataLeft == replySize && armed && seqStep == 4
      ensures causes == {BusService, FunctionComplete} && cmd0 == 0 && cmd1 == 0 && !waiting
    {
      hide FifoOk, Queue, SelectedWith;
      ReadCommand(atn);
      phase, dataLeft := reply, replySize;
      seqStep := 4;
      CommandClear();
      causes := {BusService, FunctionComplete};
      role := Initiator;
      Arm();
    }

    // esp_select
    method Select(atn: bool)
      requires FifoOk() && role != Target && !halted && cmd1 == 0 && !waiting
      modifies this`seqStep, this`causes, this`cmd0, this`cmd1, this`waiting, this`role, this`armed, this`halted,
               this`phase, this`dataLeft, this`identify, this`cdb, this`fifoCount, fifo
      ensures FifoOk() && role != Target && (halted || armed) && cmd1 == 0 && !waiting && (!halted ==> cmd0 == 0)
      ensures Selection(old(Now()), atn) && (!halted ==> seqStep == if answers then 4 else 0)
    {
      hide FifoOk, Queue, SelectedWith;
      seqStep := 0;
      if !answers {
        SelectionTimeout();
      } else if modeDma {
        halted := true;
      } else {
        SelectDisk(atn);
      }
    }

    // esp_transfer_done
    method TransferDone(toMemory: bool) returns (done: bool)
      modifies this`causes, this`countZero, this`armed, this`cmd0, this`cmd1, this`waiting
      ensures done == (counter == 0 || phase != (if toMemory then DataIn else DataOut))
      ensures done ==>
                causes == (if counter == 0 then {FunctionComplete} else {BusService}) && (counter == 0 ==> countZero)
      ensures if done then armed else armed == old(armed)
      ensures if done && counter != 0 && Op(old(cmd1)) != RESET then cmd1 == 0 && !waiting
              else cmd1 == old(cmd1) && waiting == old(waiting)
    {
      if counter == 0 {
        causes := {FunctionComplete};
        countZero := true;
        Arm();
        done := true;
      } else if phase != (if toMemory then DataIn else DataOut) {
        CommandClear();
        causes := {BusService};
        Arm();
        done := true;
      } else {
        done := false;
      }
    }

    // esp_transfer_info
    method TransferInfo()
      requires FifoOk() && !halted
      modifies this`ioState, this`ioArmed, this`armed, this`halted, this`fifoCount, this`grossError, this`dataLeft,
               this`phase, fifo
      ensures FifoOk() && (halted || armed || (ioArmed && ioState == Transferring))
      ensures modeDma ==>
                ioArmed && ioState == Transferring && !halted && armed == old(armed) && phase == old(phase)
      ensures Transfers(old(Now()))
    {
      if modeDma {
        ioState := Transferring;
        ioArmed := true;
      } else if phase == DataIn {
        FifoWrite(dataByte);
        dataLeft := if dataLeft > 0 then dataLeft - 1 else 0;
        if dataLeft == 0 { phase := StatusPhase; }
        Arm();
      } else if phase == MessageIn || phase == StatusPhase {
        Arm();
      } else {
        halted := true;
      }
    }

    // esp_transfer_pad: bytes are sent or received until the count or the phase ends.
    method TransferPad()
      requires FifoOk() && cmd1 == 0 && !waiting && !halted
      modifies this`counter, this`dataLeft, this`phase, this`causes, this`countZero, this`armed, this`cmd0, this`cmd1,
               this`waiting, this`halted
      ensures FifoOk() && (halted || armed) && cmd1 == 0 && !waiting
      ensures Pads(old(Now()))
    {
      var p := phase;
      if p != DataIn && p != DataOut {
        halted := true;
        return;
      }
      while phase == p && counter > 0
        invariant cmd1 == 0 && !waiting && !halted && counter <= old(counter)
        invariant counter == old(counter) ==> dataLeft == old(dataLeft) && phase == p
        invariant counter < old(counter) ==>
                    && dataLeft == (if old(dataLeft) == 0 then 0 else old(dataLeft) - (old(counter) - counter))
                    && phase == (if dataLeft == 0 then StatusPhase else p)
                    && (old(dataLeft) == 0 ==> counter == old(counter) - 1)
        decreases counter
      {
        dataLeft := if dataLeft > 0 then dataLeft - 1 else 0;
        if dataLeft == 0 { phase := StatusPhase; }
        counter := counter - 1;
      }
      var done := TransferDone(p == DataIn);
    }

    // esp_initiator_command_complete
    method CommandComplete()
      requires FifoOk() && cmd1 == 0 && !waiting && !halted
      modifies this`phase, this`causes, this`armed, this`cmd0, this`cmd1, this`waiting, this`halted, this`fifoCount,
               this`grossError, fifo
      ensures FifoOk() && (halted || armed) && cmd1 == 0 && !waiting
      ensures Completes(old(Now())) && (!modeDma && phase != MessageIn ==> cmd0 == 0)
    {
      if modeDma {
        halted := true;
        return;
      }
      FifoWrite(statusByte);
      phase := afterStatus;
      if phase != MessageIn {
        CommandClear();
        causes := {BusService};
        Arm();
        return;
      }
      FifoWrite(messageByte);
      causes := {FunctionComplete};
      Arm();
    }

    // ----- what the processor and the scheduler do -----

    // esp_command_write
    method CommandWrite(cmd: byte)
      requires Valid() && !halted
      modifies this, fifo
      ensures Valid()
      ensures old(Locked()) && Op(cmd) != NOP ==>
                started == old(started) + [old(cmd1)] && written == old(written) && cmd1 == old(cmd1) && WasReset()
      ensures !old(Locked()) && Op(cmd) == RESET ==>
                && started == old(started) + (if old(waiting) then [cmd, cmd] else [cmd]) && WasReset() && !waiting
                && (Locked() <==> !old(waiting))
      ensures !old(Locked()) && Op(cmd) == BUSRESET ==> started == old(started) + [cmd] && !waiting && cmd1 == 0
      ensures Op(cmd) == NOP || (!old(Locked()) && Op(cmd) != RESET && Op(cmd) != BUSRESET) ==>
                if old(inProgress)
                then waiting && cmd1 == cmd && inProgress && started == old(started)
                  && grossError == (old(grossError) || old(waiting))
                else started == old(started) + [cmd] && !waiting && cmd1 == 0
      ensures !(old(Locked()) && Op(cmd) != NOP) ==> written == old(written) + [cmd]
      ensures old(!Locked() && !inProgress && role == Initiator && !irq && !armed) && cmd == 128 + TI ==>
                InTransfer() && phase == old(phase) && !halted
      ensures !old(Locked()) && (!old(inProgress) || Op(cmd) == RESET || Op(cmd) == BUSRESET) && Fits(cmd, old(role))
              ==> Does(Op(cmd), old(Now()).Loaded(cmd))
      ensures old(!Locked() && !inProgress) && !Fits(cmd, old(role)) ==>
                causes == old(causes) + {IllegalCommand} && armed && inProgress && role == old(role)
      ensures old(Stranded()) && Op(cmd) != RESET && Op(cmd) != BUSRESET
              ==> Stranded() && phase == old(phase) && started == old(started)
    {
      hide Ordered, Within, WithoutResets, FifoOk, Queue, Does, Fits, Scene.Loaded, Now;
      RolesWithDma(cmd, role);
      Roles(Op(cmd), role);
      ghost var st, wr, next := started, written, if waiting then [cmd1] else [];
      if Op(cmd1) != RESET || Op(cmd) == NOP {
        Store(cmd);
      }
      if Op(cmd1) == RESET || Op(cmd1) == BUSRESET {
        OrderResets(st, next, wr, cmd1, waiting && Op(cmd1) == RESET, wr != written);
        StartReset();
        return;
      }
      if inProgress {
        waiting := true;
        OrderQueued(st, next, wr, cmd);
      } else {
        OrderStarted(st, next, wr, cmd);
        StartWritten();
      }
    }

    // A command that was just written starts at once.
    method StartWritten()
      requires FifoOk() && role != Target && !halted && !waiting && Ordered(started + [cmd1], [], written)
      modifies this, fifo
      ensures Valid() && !waiting && cmd1 == 0 && written == old(written) && started == old(started) + [old(cmd1)]
      ensures Fits(old(cmd1), old(role)) && old(Op(cmd1) == TI && cmd1 >= 128 && !irq && !armed) ==>
                InTransfer() && phase == old(phase) && !halted
      ensures Fits(old(cmd1), old(role)) ==> Does(old(Op(cmd1)), old(Now()).Loaded(old(cmd1)))
      ensures !Fits(old(cmd1), old(role))
              ==> causes == old(causes) + {IllegalCommand} && armed && inProgress && role == old(role)
    {
      hide Ordered, FifoOk, Queue, Does, Fits, Scene.Loaded, Now, Live, InTransfer;
      cmd0 := cmd1;
      cmd1 := 0;
      StartCommand(cmd0);
    }

    // A reset starts from where it is stored, and a chip reset twice if a command waits: it is then
    // taken for the waiting one.
    method StartReset()
      requires FifoOk() && role != Target && !halted && (Op(cmd1) == RESET || Op(cmd1) == BUSRESET)
      requires Ordered(started + (if waiting && Op(cmd1) == RESET then [cmd1, cmd1] else [cmd1]), [], written)
      modifies this, fifo
      ensures Valid() && !waiting && written == old(written)
      ensures started == old(started) + (if old(waiting && Op(cmd1) == RESET) then [old(cmd1), old(cmd1)]
              else [old(cmd1)])
      ensures if old(Op(cmd1) == RESET && !waiting) then cmd1 == old(cmd1) else cmd1 == 0
      ensures old(Op(cmd1)) == RESET ==> WasReset()
      ensures Fits(old(cmd1), old(role)) ==> Does(old(Op(cmd1)), old(Now()).Loaded(old(cmd1)))
    {
      hide Ordered, FifoOk, Queue, Does, Fits, Scene.Loaded, Now, Live, InTransfer;
      StartCommand(cmd1);
    }

    // The command goes to the second place of the register, over one that waits there.
    method Store(cmd: byte)
      modifies this`cmd1, this`grossError, this`written
      ensures cmd1 == cmd && grossError == (old(grossError) || waiting) && written == old(written) + [cmd]
      ensures old(FifoOk()) ==> FifoOk() && Now() == old(Now())
    {
      cmd1 := cmd;
      written := written + [cmd];
      if waiting { grossError := true; }
    }

    // ESP_IntStatus_Read, with esp_lower_irq: reading the interrupt status ends the command in
    // progress, and starts the waiting one.
    method ReadIntStatus() returns (v: set<Cause>)
      requires Valid() && !halted
      modifies this, fifo
      ensures Valid() && v == old(causes) && written == old(written)
      ensures started == old(started) + (if old(irq && waiting) then [old(cmd1)] else [])
      ensures old(irq) && !old(waiting) ==> !inProgress && !irq && causes == {} && !grossError && cmd1 == old(cmd1)
      ensures old(irq && waiting) ==> !waiting && cmd1 == 0
      ensures old(irq && waiting) && Fits(old(cmd1), old(role))
              ==> Does(Op(old(cmd1)), old(Now()).(causes := {}).Loaded(old(cmd1)))
      ensures !old(irq && waiting) ==> !halted
      ensures !old(irq) ==>
                && inProgress == old(inProgress) && waiting == old(waiting) && cmd1 == old(cmd1)
                && causes == old(causes)
      ensures old(Stranded()) ==> Stranded() && phase == old(phase) && started == old(started)
    {
      hide Ordered;
      v := causes;
      ghost var st, wr, c, took := started, written, cmd1, irq && waiting;
      if irq {
        causes := {};
        grossError := false;
        irq := false;
        FinishCommand();
      }
      if took { OrderTaken(st, wr, c); }
    }

    // ESP_InterruptHandler, which is called only when it is armed.
    method DelayedInterrupt()
      requires Valid()
      modifies this`armed, this`irq
      ensures Valid() && !armed && irq == (old(irq) || old(armed)) && (old(Stranded()) ==> Stranded())
    {
      if armed {
        armed := false;
        irq := true;
      }
    }

    // The reset bit of the DMA control register: a chip reset that bypasses the command register,
    // and drops what waits in it.
    method ControlReset()
      requires Valid() && !halted
      modifies this, fifo
      ensures Valid() && WasReset() && !waiting && started == old(started) && written == old(written)
      ensures cmd1 == if old(Locked()) then old(cmd1) else 0
    {
      hide Ordered;
      OrderDropped(started, if waiting then [cmd1] else [], written);
      ResetHard();
    }

    // ESP_IO_Handler.  Outside the data phases it only arms itself again.
    method IoHandler(turn: Turn)
      requires Valid()
      modifies this`counter, this`phase, this`ioArmed, this`ioState, this`causes, this`countZero, this`armed,
               this`cmd0, this`cmd1, this`waiting
      ensures Valid() && started == old(started) && written == old(written) && (old(Locked()) ==> cmd1 == old(cmd1))
      ensures if old(ioState == Transferring && IsData(phase)) then
                var done := turn.moved >= old(counter) || turn.after != old(phase);
                && counter == old(counter) - Least(turn.moved, old(counter)) && phase == turn.after
                && armed == (old(armed) || done)
                && ioArmed == (!done || old(phase) == DataIn)
                && ioState == (if done && old(phase) == DataIn then Flushing else Transferring)
              else
                && counter == old(counter) && phase == old(phase) && ioState == old(ioState) && armed == old(armed)
                && causes == old(causes) && waiting == old(waiting) && cmd1 == old(cmd1)
                && ioArmed == (ioState == Transferring)
      ensures cmd1 == old(cmd1) || cmd1 == 0
      ensures old(Stranded()) ==> Stranded() && phase == old(phase)
    {
      hide Ordered, FifoOk, QueueOk, InOrder;
      ioArmed := false;
      if ioState == Transferring {
        var toMemory := phase == DataIn;
        var done := false;
        if phase == DataIn || phase == DataOut {
          done := IoTurn(turn);
        }
        if done && toMemory { ioState := Flushing; }
        if !done || toMemory { ioArmed := true; }
      }
    }

    method IoTurn(turn: Turn) returns (done: bool)
      requires QueueOk() && InOrder() && IsData(phase)
      modifies this`counter, this`phase, this`causes, this`countZero, this`armed, this`cmd0, this`cmd1, this`waiting
      ensures QueueOk() && InOrder() && armed == (old(armed) || done) && (old(Locked()) ==> cmd1 == old(cmd1))
      ensures counter == old(counter) - Least(turn.moved, old(counter)) && phase == turn.after
      ensures done == (turn.moved >= old(counter) || turn.after != old(phase))
      ensures cmd1 == old(cmd1) || cmd1 == 0
    {
      hide Ordered;
      OrderDropped(started, if waiting then [cmd1] else [], written);
      var toMemory := phase == DataIn;
      counter, phase := counter - Least(turn.moved, counter), turn.after;
      done := TransferDone(toMemory);
    }

    // Any number of turns raise the interrupt that ends a transfer exactly when one of them uses
    // up the count or changes the data phase; otherwise it goes on.
    method Transfer(turns: seq<Turn>)
      requires Valid() && InTransfer()
      modifies this`counter, this`phase, this`ioArmed, this`ioState, this`causes, this`countZero, this`armed,
               this`cmd0, this`cmd1, this`waiting
      ensures Valid() && started == old(started) && inProgress && !irq
      ensures armed <==> EndsTransfer(old(phase), old(counter), turns)
      ensures !armed ==> InTransfer() && phase == old(phase)
      ensures !old(IsData(phase)) ==> counter == old(counter) && causes == old(causes)
    {
      hide Valid;
      for i := 0 to |turns|
        invariant Valid() && started == old(started)
        invariant armed ==> EndsTransfer(old(phase), old(counter), turns)
        invariant !armed ==>
                    && InTransfer() && phase == old(phase)
                    && (EndsTransfer(phase, counter, turns[i..]) <==> EndsTransfer(old(phase), old(counter), turns))
        invariant !old(IsData(phase)) ==> !armed && counter == old(counter) && causes == old(causes)
      {
        assert turns[i..][1..] == turns[i + 1..];
        IoHandler(turns[i]);
      }
    }

    // One access: does the emulator go on?
    method Access(op: Operation)
      requires Valid() && !halted
      modifies this, fifo
      ensures Valid()
      ensures old(Stranded()) && !Resets(op) ==> Stranded() && phase == old(phase) && started == old(started)
      ensures old(Locked()) && !(op.WriteCommand? && Op(op.cmd) == NOP) ==>
                cmd1 == old(cmd1) && !halted && (started == old(started) || started == old(started) + [cmd1])
      ensures !old(Locked()) && !ChipReset(op) ==> !Locked() && written == old(written) + CommandOf(op)
    {
      hide Ordered, FifoOk, Live, InOrder, InTransfer, Stranded;
      match op
      case WriteCommand(cmd) => CommandWrite(cmd);
      case ReadStatus => var v := ReadIntStatus();
      case Delayed => DelayedInterrupt();
      case Reset => ControlReset();
      case Io(turn) => IoHandler(turn);
      case PutByte(b) => FifoWrite(b);
      case GetByte => var b := FifoRead();
    }

    // Any run of register accesses, interrupts and DMA turns, as far as the emulator goes on, keeps
    // the command queue in order; no command is turned away unless a chip reset is written; once
    // one is stuck, nothing but it is started until a NOP is written; and a transfer outside the
    // data phases stays in progress, and all that is written waits, until a reset.
    method Drive(ops: seq<Operation>) returns (n: nat)
      requires Valid() && !halted
      modifies this, fifo
      ensures Valid() && n <= |ops| && (halted || n == |ops|)
      ensures !old(Locked()) && NoChipReset(ops) ==> !Locked() && written == old(written) + Commands(ops[..n])
      ensures old(Locked()) && NoNop(ops)
              ==> Locked() && !inProgress && !waiting && !halted && OnlyRepeats(old(started), started, cmd1)
      ensures old(Stranded()) && NoReset(ops) ==> Stranded() && started == old(started)
    {
      hide Ordered, FifoOk, Live, InTransfer, Stranded;
      n := 0;
      while n < |ops| && !halted
        invariant Valid() && n <= |ops|
        invariant !old(Locked()) && NoChipReset(ops) ==> !Locked() && written == old(written) + Commands(ops[..n])
        invariant old(Locked()) && NoNop(ops)
                  ==> cmd1 == old(cmd1) && !halted && OnlyRepeats(old(started), started, cmd1)
        invariant old(Stranded()) && NoReset(ops) ==> Stranded() && started == old(started)
        decreases |ops| - n
      {
        assert NoReset(ops) ==> !Resets(ops[n]);
        assert NoChipReset(ops) ==> !ChipReset(ops[n]);
        assert ops[..n + 1][..n] == ops[..n];
        Access(ops[n]);
        n := n + 1;
      }
    }
  }
}
