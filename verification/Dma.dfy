// The SCSI channel of src/dma.c, shared by the SCSI and floppy controllers: a 16-byte burst
// buffer between a device and guest memory, whose residue survives from call to call.
module Dma {
  import opened Bytes

  const DMA_BURST_SIZE: nat := 16

  function Min(a: nat, b: nat): nat { if a < b then a else b }

  // The first k bytes of s0 have moved to the end of t0.
  ghost predicate Moved(s0: seq<byte>, s: seq<byte>, t0: seq<byte>, t: seq<byte>, k: int) {
    0 <= k <= |s0| && s == s0[k..] && t == t0 + s0[..k]
  }

  lemma MovedNone(s: seq<byte>, t: seq<byte>)
    ensures Moved(s, s, t, t, 0)
  {}

  lemma MovedOne(s0: seq<byte>, s: seq<byte>, t0: seq<byte>, t: seq<byte>, k: int)
    requires Moved(s0, s, t0, t, k) && s != []
    ensures Moved(s0, s[1..], t0, t + [s[0]], k + 1)
  {
    assert s0[..k + 1] == s0[..k] + [s0[k]];
  }

  // Memory m differs from m0 on [a, b) only, and what is there was appended to g0.
  ghost predicate Delivered(m0: seq<byte>, m: seq<byte>, a: int, b: int, g0: seq<byte>, g: seq<byte>) {
    0 <= a <= b && |m| == |m0| && (a == b || b <= |m|)
    && (if a == b then m == m0 && g == g0
        else m[..a] == m0[..a] && m[b..] == m0[b..] && g == g0 + m[a..b])
  }

  lemma DeliveredNone(m: seq<byte>, a: nat, g: seq<byte>)
    ensures Delivered(m, m, a, a, g, g)
  {}

  lemma DeliveredMore(m0: seq<byte>, m: seq<byte>, a: nat, b: nat, g0: seq<byte>, g: seq<byte>, x: seq<byte>,
          m': seq<byte>)
    requires Delivered(m0, m, a, b, g0, g) && b + |x| <= |m| && m' == m[..b] + x + m[b + |x|..]
    ensures Delivered(m0, m', a, b + |x|, g0, g + x)
  {
    if |x| == 0 {
      assert m' == m;
      assert g + x == g;
    } else {
      assert m'[a..b + |x|] == m'[a..b] + x;
      assert m'[..a] == m[..a];
      assert m'[b + |x|..] == m[b..][|x|..];
      if a < b { assert m'[a..b] == m[a..b]; }
    }
  }

  // m is m0 with x written at a.
  ghost predicate Patched(m0: seq<byte>, m: seq<byte>, a: int, x: seq<byte>) {
    if x == [] then m == m0 else 0 <= a && a + |x| <= |m0| && m == m0[..a] + x + m0[a + |x|..]
  }

  lemma StoredPatch(m0: seq<byte>, m: seq<byte>, a: nat, x: seq<byte>)
    requires |x| == 4 && a + 4 <= |m0| && m == m0[..a] + x + m0[a + 4..]
    ensures Patched(m0, m, a, x)
  {}

  lemma PatchedNone(m: seq<byte>, a: int)
    ensures Patched(m, m, a, [])
  {}

  // Re-reading four bytes at a brings a copy up to date with any patch of at most four there.
  lemma PatchedResync(m0: seq<byte>, m: seq<byte>, a: nat, x: seq<byte>)
    requires Patched(m0, m, a, x) && (|x| == 4 || x == []) && a + 4 <= |m0|
    ensures |m| == |m0| && m0[..a] + m[a..a + 4] + m0[a + 4..] == m
  {}

  lemma PatchedMore(m0: seq<byte>, m: seq<byte>, m': seq<byte>, a: int, n: int, x: seq<byte>, y: seq<byte>)
    requires Patched(m0, m, a, x) && Patched(m, m', n, y) && (y != [] ==> n == a + |x|)
    ensures Patched(m0, m', a, x + y)
  {
    if y == [] {
      assert x + y == x;
    } else if x == [] {
      assert x + y == y;
    } else {
      assert m' == m0[..a] + (x + y) + m0[a + |x + y|..];
    }
  }

  // Re-reading a range that covers the patch brings the copy up to date.
  lemma PatchedRange(m0: seq<byte>, m: seq<byte>, a: nat, b: nat, x: seq<byte>)
    requires Patched(m0, m, a, x) && a + |x| <= b <= |m0|
    ensures |m| == |m0| && m0[..a] + m[a..b] + m0[b..] == m
  {}

  lemma AlignedDistance(start: nat, limit: nat, i: nat)
    requires start % 4 == 0 && limit % DMA_BURST_SIZE == 0
    ensures TurboNext(start, limit, 4 * (i + 1)) ==
            if TurboNext(start, limit, 4 * i) < limit then TurboNext(start, limit, 4 * i) + 4
              else TurboNext(start, limit, 4 * i)
  {}

  lemma TurboFarther(start: nat, limit: nat, k: nat, n: nat)
    requires k <= n
    ensures start <= TurboNext(start, limit, k) <= TurboNext(start, limit, n)
    ensures TurboNext(start, limit, k) == start || TurboNext(start, limit, k) <= limit
  {}

  // How many of held bytes go out while the pointer moves on by room: all of them or as many as
  // there is room for; but the count of an odd residue never comes to 0, and does not stop it.
  function TurboCount(held: nat, room: nat): nat {
    if held % 4 == 0 then Min(held, room) else room
  }

  // One turn more, in which a long goes out unless the count has come to 0; read from pos on, it
  // lies inside the buffer.
  lemma TurboCountMore(held: nat, pos: nat, d: nat, room: nat)
    requires d % 4 == 0 && d + 4 <= room && TurboInside(held, pos, room)
    ensures TurboCount(held, d + 4) == TurboCount(held, d) + (if held == TurboCount(held, d) then 0 else 4)
    ensures held != TurboCount(held, d) ==> TurboCount(held, d) == d && pos + d + 4 <= DMA_BURST_SIZE
  {}

  predicate TurboInside(held: nat, pos: nat, room: nat) {
    pos + held <= DMA_BURST_SIZE && (held % 4 == 0 || pos + room <= DMA_BURST_SIZE)
  }

  lemma FourMore(a: nat, b: nat)
    requires a <= b && a % 4 == 0 && b % 4 == 0
    ensures (b - a) % 4 == 0
  {}

  // The buffer fills and empties a burst at a time: so many bytes are a number of bursts.
  ghost predicate WholeBursts(n: int) { n % DMA_BURST_SIZE == 0 }

  lemma NoBursts()
    ensures WholeBursts(0)
  {}

  lemma BurstsAdd(x: int, y: int)
    requires WholeBursts(x) && WholeBursts(y)
    ensures WholeBursts(x + y)
  {}

  lemma BurstIsLong(n: int)
    requires n % DMA_BURST_SIZE == 0
    ensures n % 4 == 0
  {
    assert n == 4 * (4 * (n / DMA_BURST_SIZE));
  }

  // The pointer after up to k bytes of a flush.
  function TurboNext(start: nat, limit: nat, k: nat): (n: nat)
    ensures start <= n
  {
    if start >= limit then start else Min(start + k, limit)
  }

  lemma TurboReaches(start: nat, limit: nat)
    ensures TurboNext(start, limit, DMA_BURST_SIZE) == limit <==> start <= limit <= start + DMA_BURST_SIZE
  {}

  // What the copy becomes once the written range is re-read.
  lemma Resynced(m0: seq<byte>, m: seq<byte>, a: nat, b: nat, g0: seq<byte>, g: seq<byte>)
    requires Delivered(m0, m, a, b, g0, g) && a < b
    ensures m0[..a] + m[a..b] + m0[b..] == m
  {}

  // A stretch of memory the channel is set up for.
  datatype Stretch = Stretch(next: nat, limit: nat) {
    predicate Ok(length: nat) { next % 4 == 0 && limit % DMA_BURST_SIZE == 0 && limit <= length }
  }

  // What a device offers during a call: the disk's count and the rest of its data phase, or a
  // floppy buffer.
  datatype Offer = FromDisk(count: nat, phase: seq<byte>) | FromFloppy(sector: seq<byte>) {
    predicate Ok() { FromFloppy? ==> |sector| <= 1024 }
    function Bytes(): seq<byte> { if FromFloppy? then sector else phase[..Min(count, |phase|)] }
  }

  // A call that brings bytes to memory.
  datatype Call = Write(to: Stretch, offer: Offer) | Flush(to: Stretch) | TurboFlush(to: Stretch) {
    predicate Ok(length: nat) { to.Ok(length) && (Write? ==> offer.Ok()) }
  }

  // What a device asks for during a call: the disk's count and how long its data phase is, or the
  // room in a floppy buffer.
  datatype Request = ToDisk(count: nat, wants: nat) | ToFloppy(limit: nat) {
    predicate Ok() { ToFloppy? ==> limit <= 1024 }
    function Size(): nat { if ToFloppy? then limit else Min(count, wants) }
  }

  // A call that takes bytes from memory to a device.
  datatype Fetch = Fetch(from: Stretch, request: Request) {
    predicate Ok(length: nat) { from.Ok(length) && request.Ok() }
  }

  // What such a call does: it reads what from tells it to, as far as the device takes it, and sends x.
  ghost predicate Sent(c: Fetch, m: seq<byte>, s: Store, x: seq<byte>) {
    && s.address == c.from.next && s.In(m) && |x| <= c.request.Size()
    && if c.from.next >= c.from.limit then x == s.bytes == []
       else |x| == c.request.Size() || c.from.next + |s.bytes| == c.from.limit
  }

  // The way a turbo flush moves the pointer.
  function TurboRoom(to: Stretch): nat { TurboNext(to.next, to.limit, DMA_BURST_SIZE) - to.next }

  // The call leaves the count of held bytes right.
  predicate Keeps(c: Call, held: int) {
    match c
    case Write(_, _) => true
    case Flush(to) => held <= 0 || held >= 4 || to.next >= to.limit
    case TurboFlush(to) => held % 4 == 0 || TurboRoom(to) <= held
  }

  // What a call does while so many bytes are held: it takes part from the device, and stores x.  A
  // write takes all that is offered unless the channel is full; a flush stores one long, a turbo
  // flush what there is room for.
  ghost predicate Did(c: Call, held: int, part: seq<byte>, x: seq<byte>) {
    match c
    case Write(to, offer) =>
      if to.next > to.limit then part == x == []
      else part <= offer.Bytes() && (part == offer.Bytes() || to.next + |x| == to.limit)
    case Flush(to) => part == [] && |x| == if held > 0 && to.next < to.limit then 4 else 0
    case TurboFlush(to) => part == [] && held >= 0 && |x| == TurboCount(held, TurboRoom(to))
  }

  // A session call by call: the bytes held before and after each, what was taken from the device,
  // and what was stored.
  ghost predicate Recorded(calls: seq<Call>, held: seq<int>, parts: seq<seq<byte>>, log: seq<Store>) {
    && |parts| == |log| <= |calls| && |held| == |log| + 1
    && forall i :: 0 <= i < |log| ==>
         && log[i].address == calls[i].to.next && Did(calls[i], held[i], parts[i], log[i].bytes)
         && held[i + 1] == held[i] + |parts[i]| - |log[i].bytes|
         && held[i] >= 0 && (held[i + 1] >= 0 <==> Keeps(calls[i], held[i]))
  }

  lemma RecordedMore(calls: seq<Call>, held: seq<int>, parts: seq<seq<byte>>, log: seq<Store>, part: seq<byte>,
          x: seq<byte>)
    requires Recorded(calls, held, parts, log) && |log| < |calls|
    requires var h, c := held[|log|], calls[|log|];
             Did(c, h, part, x) && h >= 0 && (h + |part| - |x| >= 0 <==> Keeps(c, h))
    ensures Recorded(calls, held + [held[|log|] + |part| - |x|], parts + [part], log + [Store(calls[|log|].to.next, x)])
  {
    hide Did, Keeps;
  }

  ghost function Joined(parts: seq<seq<byte>>): seq<byte> {
    if parts == [] then [] else Joined(parts[..|parts| - 1]) + parts[|parts| - 1]
  }

  lemma NothingRecorded(calls: seq<Call>, h: int)
    ensures Recorded(calls, [h], [], [])
  {}

  lemma MovedPart(s0: seq<byte>, s: seq<byte>, t0: seq<byte>, t: seq<byte>, k: int)
    requires Moved(s0, s, t0, t, k)
    ensures 0 <= k <= |s0| && t == t0 + s0[..k]
  {}

  lemma DidWrite(c: Call, held: int, part: seq<byte>, x: seq<byte>)
    requires c.Write? && part <= c.offer.Bytes()
    requires if c.to.next > c.to.limit then part == x == []
             else part == c.offer.Bytes() || c.to.next + |x| == c.to.limit
    ensures Did(c, held, part, x)
  {}

  // The bytes held are those taken and not given.
  lemma HeldLater(t: seq<byte>, g: seq<byte>, f: seq<byte>, part: seq<byte>, x: seq<byte>, t': seq<byte>, g': seq<byte>,
          f': seq<byte>)
    requires t == g + f && t' == t + part && g' == g + x && t' == g' + f'
    ensures |f'| == |f| + |part| - |x|
  {
    assert |t'| == |g'| + |f'| && |t| == |g| + |f|;
  }

  lemma JoinedMore(t: seq<byte>, parts: seq<seq<byte>>, part: seq<byte>)
    ensures t + Joined(parts) + part == t + Joined(parts + [part])
  {
    assert (parts + [part])[..|parts|] == parts;
  }

  // Bytes stored at an address, and what a run of stores leaves in memory.
  datatype Store = Store(address: nat, bytes: seq<byte>) {
    // These bytes are what memory m holds at that address.
    ghost predicate In(m: seq<byte>) {
      bytes == [] || (address + |bytes| <= |m| && bytes == m[address..address + |bytes|])
    }
  }

  ghost function Stored(log: seq<Store>): seq<byte> {
    if log == [] then [] else Stored(log[..|log| - 1]) + log[|log| - 1].bytes
  }

  ghost function Replay(m: seq<byte>, log: seq<Store>): seq<byte> {
    if log == [] then m else
    var r, s := Replay(m, log[..|log| - 1]), log[|log| - 1];
    if s.bytes != [] && s.address + |s.bytes| <= |r| then r[..s.address] + s.bytes + r[s.address + |s.bytes|..] else r
  }

  lemma StoredNone(m: seq<byte>, g: seq<byte>)
    ensures Replay(m, []) == m && g == g + Stored([]) == g + Joined([])
  {}

  lemma {:induction false} StoredMore(m0: seq<byte>, m: seq<byte>, log: seq<Store>, a: nat, x: seq<byte>, g: seq<byte>)
    requires Patched(Replay(m0, log), m, a, x)
    ensures m == Replay(m0, log + [Store(a, x)]) && g + Stored(log) + x == g + Stored(log + [Store(a, x)])
  {
    assert (log + [Store(a, x)])[..|log|] == log;
  }

  lemma {:induction false} StoredNext(log: seq<Store>, s: Store, t: seq<byte>)
    ensures t + Stored(log) + s.bytes == t + Stored(log + [s])
  {
    assert (log + [s])[..|log|] == log;
  }

  lemma DeliveredPart(m0: seq<byte>, m: seq<byte>, a: int, b: int, g0: seq<byte>, g: seq<byte>) returns (x: seq<byte>)
    requires Delivered(m0, m, a, b, g0, g)
    ensures Patched(m0, m, a, x) && g == g0 + x && |x| == b - a
  {
    if a == b {
      x := [];
    } else {
      x := m[a..b];
      assert m == m[..a] + x + m[b..];
    }
  }

  class EspDma {
    const mem: array<byte>
    const buf: array<byte>
    const flpData: array<byte>

    // channel registers
    var next: nat
    var limit: nat
    var start: nat
    var stop: nat
    var enabled: bool
    var supdate: bool
    var complete: bool
    var dev2m: bool
    var interrupt: bool

    // espdma_buf_size and espdma_buf_limit: bytes held, and the end of the bytes held
    var bufSize: int
    var bufLimit: nat

    // floppy buffer, and what is left of a SCSI data phase in either direction
    var floppySelect: bool
    var flpSize: nat
    var flpLimit: nat
    var espCounter: nat
    var diskOut: seq<byte>
    var diskIn: seq<byte>
    var diskWants: nat

    // bytes taken from the source and given to the destination since the buffer was initialised
    ghost var taken: seq<byte>
    ghost var given: seq<byte>
    // the copy of memory the JIT executes from
    ghost var shadow: seq<byte>

    ghost predicate BufferOk()
      reads this`bufSize, this`bufLimit
    {
      buf.Length == DMA_BURST_SIZE && 0 <= bufSize <= bufLimit <= DMA_BURST_SIZE
    }

    ghost predicate FloppyOk()
      reads this`flpSize, this`flpLimit
    {
      flpData.Length == 1024 && flpSize <= flpLimit <= 1024
    }

    ghost predicate Valid()
      reads this
    {
      && mem != buf && mem != flpData && buf != flpData && BufferOk() && FloppyOk() && |shadow| == mem.Length
    }

    // The bytes in the buffer, oldest first.
    ghost function Fifo(): seq<byte>
      requires BufferOk()
      reads this`bufSize, this`bufLimit, buf
    {
      buf[bufLimit - bufSize..bufLimit]
    }

    // Nothing lost, nothing duplicated, nothing reordered.
    ghost predicate Conserved()
      requires BufferOk()
      reads this`bufSize, this`bufLimit, buf, this`taken, this`given
    {
      taken == given + Fifo()
    }

    // What the selected device can still supply.
    ghost function Supply(): seq<byte>
      requires FloppyOk()
      reads this`floppySelect, this`flpSize, this`flpLimit, this`espCounter, this`diskOut, flpData
    {
      if floppySelect then flpData[flpLimit - flpSize..flpLimit] else diskOut[..Min(espCounter, |diskOut|)]
    }

    lemma SupplyLength()
      requires Valid() && floppySelect
      ensures |Supply()| == flpSize
    {}

    // The pointers dma_esp_write_memory and dma_esp_read_memory accept, inside memory.
    ghost predicate Aligned()
      reads this`next, this`limit
    {
      next % 4 == 0 && limit % DMA_BURST_SIZE == 0 && limit <= mem.Length
    }

    // Ready to serve the floppy controller in either direction.
    ghost predicate FloppyReady()
      reads this, buf
    {
      Valid() && Conserved() && Aligned() && PositionAligned() && bufLimit % 4 == 0 && floppySelect
    }

    lemma FloppyReadyMeans()
      requires FloppyReady()
      ensures Valid() && Conserved() && floppySelect
    {}

    ghost predicate Coherent()
      reads this`shadow, mem
    {
      shadow == mem[..]
    }

    // dma_initialize_buffer
    method InitializeBuffer(offset: nat)
      requires Valid() && offset < DMA_BURST_SIZE
      modifies this`bufSize, this`bufLimit, this`taken, this`given
      ensures Valid() && Conserved() && bufSize == 0 && bufLimit == offset && taken == [] && given == []
    {
      bufSize := 0;
      bufLimit := offset;
      taken, given := [], [];
    }

    // DMA_CSR_Write, by the bits written.
    method Control(reset: bool, initBuf: bool, setSupdate: bool, setEnable: bool, clrComplete: bool, toMemory: bool)
      requires Valid()
      modifies this`dev2m, this`enabled, this`supdate, this`complete, this`interrupt, this`bufSize, this`bufLimit,
               this`taken, this`given
      ensures Valid() && dev2m == toMemory && !interrupt
      ensures enabled == (setEnable || (!reset && old(enabled)))
      ensures supdate == (setSupdate || (!reset && old(supdate)))
      ensures complete == (!clrComplete && !reset && old(complete))
      ensures initBuf ==> bufSize == 0 && bufLimit == 0 && taken == [] && given == []
      ensures !initBuf ==>
                bufSize == old(bufSize) && bufLimit == old(bufLimit) && taken == old(taken) && given == old(given)
      ensures old(Conserved()) || initBuf ==> Conserved()
    {
      hide Conserved;
      SetBits(reset, setSupdate, setEnable, clrComplete);
      dev2m := toMemory;
      if initBuf { InitializeBuffer(0); }
      interrupt := false;
    }

    method SetBits(reset: bool, setSupdate: bool, setEnable: bool, clrComplete: bool)
      modifies this`enabled, this`supdate, this`complete
      ensures enabled == (setEnable || (!reset && old(enabled)))
      ensures supdate == (setSupdate || (!reset && old(supdate)))
      ensures complete == (!clrComplete && !reset && old(complete))
    {
      if reset { complete, supdate, enabled := false, false, false; }
      if setSupdate { supdate := true; }
      if setEnable { enabled := true; }
      if clrComplete { complete := false; }
    }

    // DMA_Init_Write: the pointer, and an empty buffer starting at its offset in a burst.
    method InitWrite(n: nat)
      requires Valid()
      modifies this`next, this`bufSize, this`bufLimit, this`taken, this`given
      ensures Valid() && Conserved() && next == n && bufSize == 0 && bufLimit == n % DMA_BURST_SIZE && taken == []
              && given == []
    {
      hide Conserved;
      next := n;
      InitializeBuffer(next % DMA_BURST_SIZE);
    }

    // What a driver does before a single transfer.
    method Program(n: nat, l: nat, toMemory: bool)
      requires Valid() && floppySelect && n % DMA_BURST_SIZE == 0 && l % DMA_BURST_SIZE == 0 && n <= l <= mem.Length
      modifies this`next, this`limit, this`dev2m, this`enabled, this`supdate, this`complete, this`interrupt,
               this`bufSize,
               this`bufLimit, this`taken, this`given
      ensures FloppyReady() && next == n && limit == l && enabled && !supdate && !complete && dev2m == toMemory
      ensures bufSize == 0 && bufLimit == 0 && taken == [] && given == []
    {
      hide FloppyReady, Conserved;
      Control(true, true, false, false, false, toMemory);
      InitWrite(n);
      limit := l;
      Control(false, false, false, true, true, toMemory);
      FloppyReadyNow();
    }

    lemma FloppyReadyNow()
      requires Valid() && Conserved() && floppySelect && bufSize == 0 && bufLimit == 0
      requires next % DMA_BURST_SIZE == 0 && limit % DMA_BURST_SIZE == 0 && limit <= mem.Length
      ensures FloppyReady()
    {
      hide Conserved;
      BurstIsLong(next);
    }

    // dma_interrupt
    method Interrupt()
      modifies this`next, this`limit, this`enabled, this`supdate, this`complete, this`interrupt
      ensures old(next != limit) ==> next == old(next) && limit == old(limit) && enabled == old(enabled)
                                     && supdate == old(supdate) && complete == old(complete)
      ensures interrupt == (old(interrupt) || old(next == limit))
      ensures old(next == limit) ==> complete && !supdate
      ensures old(next == limit && supdate) ==> next == start && limit == stop && enabled == old(enabled)
      ensures old(next == limit && !supdate) ==> !enabled && next == old(next) && limit == old(limit)
    {
      if next == limit {
        complete := true;
        if supdate {
          next := start;
          limit := stop;
          supdate := false;
        } else {
          enabled := false;
        }
        interrupt := true;
      }
    }

    // The floppy buffer is emptied, with room for so many bytes.
    method EmptySector(limit: nat)
      requires FloppyReady() && limit <= 1024
      modifies this`flpSize, this`flpLimit
      ensures FloppyReady() && flpSize == 0 && flpLimit == limit
    {
      flpSize, flpLimit := 0, limit;
    }

    // The floppy buffer is filled from an image; a read outside the image leaves the old data.
    method FullSector(image: seq<byte>, offset: int, n: nat)
      requires FloppyReady() && n <= 1024
      modifies this`flpSize, this`flpLimit, flpData
      ensures FloppyReady() && flpSize == flpLimit == n
      ensures flpData[..n] == if 0 <= offset && offset + n <= |image| then image[offset..offset + n]
              else old(flpData[..n])
    {
      if 0 <= offset && offset + n <= |image| {
        forall i | 0 <= i < n { flpData[i] := image[offset + i]; }
      }
      flpSize, flpLimit := n, n;
    }

    // The JIT discards and re-reads exactly the range it is told of.
    ghost method Notify(address: nat, size: nat)
      requires |shadow| == mem.Length && address + size <= mem.Length
      modifies this`shadow
      ensures shadow == old(shadow)[..address] + mem[address..address + size] + old(shadow)[address + size..]
    {
      shadow := shadow[..address] + mem[address..address + size] + shadow[address + size..];
    }

    // A byte from the device goes behind those in the burst buffer.
    method Push(b: byte)
      requires Valid() && Conserved() && bufLimit < DMA_BURST_SIZE
      modifies this`bufSize, this`bufLimit, this`taken, buf
      ensures Valid() && Conserved() && taken == old(taken) + [b]
      ensures bufLimit == old(bufLimit) + 1 && bufSize == old(bufSize) + 1
    {
      ghost var f := Fifo();
      buf[bufLimit] := b;
      bufLimit := bufLimit + 1;
      bufSize := bufSize + 1;
      taken := taken + [b];
      assert Fifo() == f + [b];
    }

    // One byte from the selected device.
    method Receive() returns (b: byte)
      requires Valid() && Supply() != []
      modifies this`flpSize, this`espCounter, this`diskOut
      ensures Valid() && b == old(Supply())[0] && Supply() == old(Supply())[1..]
      ensures floppySelect ==> flpSize == old(flpSize) - 1 && espCounter == old(espCounter) && diskOut == old(diskOut)
      ensures !floppySelect ==> flpSize == old(flpSize)
    {
      if floppySelect {
        b := flpData[flpLimit - flpSize];
        flpSize := flpSize - 1;
      } else {
        b := diskOut[0];
        diskOut := diskOut[1..];
        espCounter := espCounter - 1;
      }
    }

    predicate CanSupply()
      requires FloppyOk()
      reads this`floppySelect, this`flpSize, this`flpLimit, this`espCounter, this`diskOut
      ensures CanSupply() <==> Supply() != []
    {
      if floppySelect then flpSize > 0 else espCounter > 0 && |diskOut| > 0
    }

    // Fill the buffer from the device, as far as both go.
    method Fill()
      requires Valid() && Conserved()
      modifies this`bufSize, this`bufLimit, this`flpSize, this`espCounter, this`diskOut, this`taken, buf
      ensures Valid() && Conserved()
      ensures bufLimit == DMA_BURST_SIZE || Supply() == []
      ensures old(bufLimit) <= bufLimit && bufLimit - bufSize == old(bufLimit - bufSize)
      ensures Moved(old(Supply()), Supply(), old(taken), taken, bufLimit - old(bufLimit))
      ensures floppySelect ==> espCounter == old(espCounter) && diskOut == old(diskOut)
      ensures !floppySelect ==> flpSize == old(flpSize)
    {
      hide Conserved, Supply, CanSupply, Moved, Fifo;
      MovedNone(Supply(), taken);
      while bufLimit < DMA_BURST_SIZE && CanSupply()
        invariant Valid() && Conserved()
        invariant old(bufLimit) <= bufLimit && bufLimit - bufSize == old(bufLimit - bufSize)
        invariant Moved(old(Supply()), Supply(), old(taken), taken, bufLimit - old(bufLimit))
        invariant floppySelect ==> espCounter == old(espCounter) && diskOut == old(diskOut)
        invariant !floppySelect ==> flpSize == old(flpSize)
        decreases DMA_BURST_SIZE - bufLimit
      {
        ghost var s, t, k := Supply(), taken, bufLimit - old(bufLimit);
        MovedOne(old(Supply()), s, old(taken), t, k);
        var b := Receive();
        Push(b);
        assert Supply() == s[1..] && taken == t + [s[0]] && bufLimit - old(bufLimit) == k + 1;
      }
    }

    // NEXTMemory_WriteLong of a long fetched from the buffer.
    method WriteLong(address: nat, pos: nat)
      requires mem != buf && buf.Length == DMA_BURST_SIZE && address + 4 <= mem.Length && pos + 4 <= DMA_BURST_SIZE
      modifies mem
      ensures mem[..] == old(mem[..])[..address] + buf[pos..pos + 4] + old(mem[..])[address + 4..]
    {
      mem[address] := buf[pos];
      mem[address + 1] := buf[pos + 1];
      mem[address + 2] := buf[pos + 2];
      mem[address + 3] := buf[pos + 3];
    }

    // Write the buffer out, long by long, until it is empty or the channel is full.
    method EmptyToMemory()
      requires Valid() && Conserved() && Aligned() && bufLimit == DMA_BURST_SIZE && bufSize % 4 == 0
      modifies this`next, this`bufSize, this`given, mem
      ensures Valid() && Conserved() && Aligned() && bufSize % 4 == 0
      ensures old(next) <= next && next - old(next) == old(bufSize) - bufSize && (next == old(next) || next <= limit)
      ensures bufSize == 0 || next >= limit
      ensures Delivered(old(mem[..]), mem[..], old(next), next, old(given), given)
    {
      hide Delivered, Fifo, Aligned;
      DeliveredNone(mem[..], next, given);
      while next < limit && bufSize > 0
        invariant Valid() && Conserved() && Aligned() && bufSize % 4 == 0
        invariant old(next) <= next && next - old(next) == old(bufSize) - bufSize
                  && (next == old(next) || next <= limit)
        invariant Delivered(old(mem[..]), mem[..], old(next), next, old(given), given)
      {
        ghost var m, g := mem[..], given;
        AlignedRoom();
        ghost var x := PopLong();
        DeliveredMore(old(mem[..]), m, old(next), next - 4, old(given), g, x, mem[..]);
      }
    }

    lemma AlignedRoom()
      requires Aligned() && next < limit
      ensures next + 4 <= limit <= mem.Length && next % 4 == 0 && limit % DMA_BURST_SIZE == 0
    {}

    lemma AlignedNext(n: nat)
      requires n % 4 == 0 && limit % DMA_BURST_SIZE == 0 && limit <= mem.Length && next == n + 4
      ensures Aligned()
    {}

    // One long from the buffer to memory.
    method PopLong() returns (ghost x: seq<byte>)
      requires Valid() && Conserved() && bufSize >= 4 && next + 4 <= mem.Length
      modifies this`next, this`bufSize, this`given, mem
      ensures Valid() && Conserved() && |x| == 4 && given == old(given) + x && x == old(Fifo())[..4]
      ensures next == old(next) + 4 && bufSize == old(bufSize) - 4
      ensures old(Aligned()) ==> Aligned()
      ensures mem[..] == old(mem[..])[..old(next)] + x + old(mem[..])[old(next) + 4..]
    {
      hide Conserved, Fifo, Aligned;
      ghost var aligned := Aligned();
      if aligned { AlignedNow(); }
      ConservedMeans();
      FourFirst();
      ghost var f, g, pos := Fifo(), given, bufLimit - bufSize;
      x := buf[pos..pos + 4];
      WriteLong(next, bufLimit - bufSize);
      next := next + 4;
      bufSize := bufSize - 4;
      given := given + x;
      ConservedAgain(f, g, x);
      if aligned { AlignedNext(next - 4); }
    }

    lemma FourFirst()
      requires BufferOk() && bufSize >= 4
      ensures var pos := bufLimit - bufSize;
        Fifo() == buf[pos..pos + 4] + buf[pos + 4..bufLimit] && Fifo()[..4] == buf[pos..pos + 4]
    {
      TwoParts(buf[..], bufLimit - bufSize, bufLimit - bufSize + 4, bufLimit);
    }

    // The channel registers after an interrupt check, when the pointer has reached n.
    ghost predicate Advanced(n: nat, limit0: nat, supdate0: bool, enabled0: bool, complete0: bool)
      reads this`next, this`limit, this`start, this`stop, this`enabled, this`supdate, this`complete
    {
      if n != limit0 then next == n && limit == limit0 && enabled == enabled0 && supdate == supdate0
        && complete == complete0
      else if supdate0 then next == start && limit == stop && enabled == enabled0 && !supdate && complete
      else next == n && limit == limit0 && !enabled && !supdate && complete
    }

    lemma AdvancedOnce(n: nat, limit0: nat, complete0: bool)
      requires Advanced(n, limit0, false, true, complete0)
      ensures next == n
    {}

    // Only the selected device's side has moved.
    twostate predicate OtherDeviceKept()
      reads this`floppySelect, this`espCounter, this`diskOut, this`flpSize
    {
      if floppySelect then espCounter == old(espCounter) && diskOut == old(diskOut) else flpSize == old(flpSize)
    }

    // Why the loop of dma_esp_write_memory ends: the device or the channel has run out.
    ghost predicate WriteStopped()
      requires FloppyOk()
      reads this`bufSize, this`bufLimit, this`next, this`limit,
            this`floppySelect, this`flpSize, this`flpLimit, this`espCounter, this`diskOut, flpData
    {
      (bufLimit < DMA_BURST_SIZE && Supply() == []) || (bufLimit == DMA_BURST_SIZE && bufSize > 0 && next == limit)
    }

    // One turn of that loop.
    method WriteTurn() returns (done: bool, ghost k: nat)
      requires Valid() && Conserved() && Aligned() && PositionAligned() && next <= limit
      modifies this`next, this`bufSize, this`bufLimit, this`flpSize, this`espCounter, this`diskOut,
               this`taken, this`given, buf, mem
      ensures Valid() && Conserved() && Aligned() && PositionAligned() && old(next) <= next <= limit
      ensures Moved(old(Supply()), Supply(), old(taken), taken, k)
      ensures Delivered(old(mem[..]), mem[..], old(next), next, old(given), given)
      ensures WholeBursts(k + old(bufLimit) - bufLimit)
      ensures if done then WriteStopped()
              else bufLimit == bufSize == 0 && (old(next) < next || old(bufLimit == DMA_BURST_SIZE && bufSize == 0))
      ensures OtherDeviceKept()
    {
      hide Conserved, Supply, Moved, Delivered, Fifo;
      MovedNone(Supply(), taken);
      k := 0;
      ghost var b := bufLimit;
      if bufLimit < DMA_BURST_SIZE {
        Fill();
        k := bufLimit - b;
      }
      if bufLimit < DMA_BURST_SIZE {
        DeliveredNone(mem[..], next, given);
        return true, k;
      }
      EmptyToMemory();
      if bufSize > 0 {
        return true, k;
      }
      ResetBuffer();
      done := false;
    }

    // The loop of dma_esp_write_memory: k bytes come from the device.
    method WriteBursts() returns (ghost k: nat)
      requires Valid() && Conserved() && Aligned() && PositionAligned()
      modifies this`next, this`bufSize, this`bufLimit, this`flpSize, this`espCounter, this`diskOut,
               this`taken, this`given, buf, mem
      ensures Valid() && Conserved() && PositionAligned()
      ensures Moved(old(Supply()), Supply(), old(taken), taken, k)
      ensures Delivered(old(mem[..]), mem[..], old(next), next, old(given), given)
      ensures WholeBursts(k + old(bufLimit) - bufLimit)
      ensures if old(next) <= limit then next <= limit && WriteStopped() else k == 0 && next == old(next)
      ensures OtherDeviceKept()
    {
      hide Conserved, Supply, Moved, Delivered, Fifo, WriteStopped, WholeBursts;
      k := 0;
      NoBursts();
      MovedNone(Supply(), taken);
      DeliveredNone(mem[..], next, given);
      var done := next > limit;
      while !done
        invariant Valid() && Conserved() && Aligned() && PositionAligned()
        invariant Moved(old(Supply()), Supply(), old(taken), taken, k)
        invariant Delivered(old(mem[..]), mem[..], old(next), next, old(given), given)
        invariant WholeBursts(k + old(bufLimit) - bufLimit)
        invariant if old(next) <= limit then next <= limit && (done ==> WriteStopped())
                  else done && k == 0 && next == old(next)
        invariant OtherDeviceKept()
        decreases !done, limit - next, if bufLimit == DMA_BURST_SIZE && bufSize == 0 then 1 else 0
      {
        ghost var s, t, n, m, g, b := Supply(), taken, next, mem[..], given, bufLimit;
        ghost var j;
        done, j := WriteTurn();
        MovedTwice(old(Supply()), s, Supply(), old(taken), t, taken, k, j);
        DeliveredTwice(old(mem[..]), m, mem[..], old(next), n, next, old(given), g, given);
        BurstsAdd(k + old(bufLimit) - b, j + b - bufLimit);
        k := k + j;
      }
    }

    // An emptied buffer is filled from its beginning again.
    method ResetBuffer()
      requires Valid() && Conserved() && bufSize == 0
      modifies this`bufLimit
      ensures Valid() && Conserved() && bufLimit == 0
    {
      bufLimit := bufSize;
    }

    // dma_esp_write_memory: k bytes come from the device, and the pointer reaches n.
    method WriteMemory() returns (ghost k: nat, ghost n: nat)
      requires Valid() && Conserved() && Aligned() && PositionAligned()
      modifies this`next, this`limit, this`enabled, this`supdate, this`complete, this`interrupt, this`bufSize,
               this`bufLimit,
               this`flpSize, this`espCounter, this`diskOut, this`taken, this`given, this`shadow, buf, mem
      ensures Valid() && Conserved() && PositionAligned()
      ensures Moved(old(Supply()), Supply(), old(taken), taken, k)
      ensures Delivered(old(mem[..]), mem[..], old(next), n, old(given), given)
      ensures WholeBursts(k + old(bufLimit) - bufLimit)
      ensures old(enabled && next <= limit) ==> n <= old(limit) && StoppedAt(n, old(limit))
      ensures !old(enabled && next <= limit) ==> k == 0 && n == old(next)
      ensures if old(enabled) then Advanced(n, old(limit), old(supdate), old(enabled), old(complete))
              else next == n && limit == old(limit) && !enabled && supdate == old(supdate) && complete == old(complete)
      ensures interrupt == (old(interrupt) || (old(enabled) && n == old(limit)))
      ensures OtherDeviceKept()
      ensures old(Coherent()) ==> Coherent()
    {
      hide Conserved, Supply, Moved, Delivered, Fifo;
      MovedNone(Supply(), taken);
      DeliveredNone(mem[..], next, given);
      k, n := 0, next;
      if !enabled {
        return;
      }
      var wrStart := next;
      k := WriteBursts();
      n := next;
      Resync(old(mem[..]), wrStart, old(given));
      Interrupt();
    }

    ghost predicate StoppedAt(n: nat, limit0: nat)
      requires FloppyOk()
      reads this`bufSize, this`bufLimit,
            this`floppySelect, this`flpSize, this`flpLimit, this`espCounter, this`diskOut, flpData
    {
      (bufLimit < DMA_BURST_SIZE && Supply() == []) || (bufLimit == DMA_BURST_SIZE && bufSize > 0 && n == limit0)
    }

    // The JIT is told of the stretch that was written, if any.
    method Resync(ghost m0: seq<byte>, wrStart: nat, ghost g0: seq<byte>)
      requires Delivered(m0, mem[..], wrStart, next, g0, given) && |shadow| == mem.Length
      modifies this`shadow
      ensures |shadow| == mem.Length && (old(shadow) == m0 ==> Coherent())
    {
      if next > wrStart {
        Resynced(m0, mem[..], wrStart, next, g0, given);
        Notify(wrStart, next - wrStart);
      }
    }

    // ----- flushing -----

    // Long-aligned read position: then a long at it lies inside the buffer.
    ghost predicate PositionAligned()
      reads this`bufSize, this`bufLimit
    {
      (bufLimit - bufSize) % 4 == 0
    }

    ghost function NextLong(): (x: seq<byte>)
      requires BufferOk() && PositionAligned() && bufSize > 0
      reads this`bufSize, this`bufLimit, buf
      ensures |x| == 4
    {
      buf[bufLimit - bufSize..bufLimit - bufSize + 4]
    }

    // One long goes out if anything is held; the pointer moves on in any case.
    method FlushLong() returns (ghost x: seq<byte>)
      requires Valid() && Conserved() && Aligned() && PositionAligned() && next < limit
      modifies this`next, this`bufSize, this`given, mem
      ensures next == old(next) + 4 && Aligned()
      ensures x == (if old(bufSize) > 0 then old(NextLong()) else []) && bufSize == old(bufSize) - |x|
      ensures Patched(old(mem[..]), mem[..], old(next), x)
      ensures BufferOk() <==> old(bufSize) == 0 || old(bufSize) >= 4
      ensures if BufferOk() then Valid() && Conserved() && PositionAligned() && given == old(given) + x
              else given == old(given) && x[..old(bufSize)] == old(Fifo())
    {
      hide Aligned, Patched, Conserved, Fifo, NextLong;
      x := if bufSize > 0 then NextLong() else [];
      AlignedRoom();
      ghost var m, n := mem[..], next;
      if bufSize >= 4 {
        NextIsFirst();
        var y := PopLong();
        StoredPatch(m, mem[..], n, x);
      } else if bufSize > 0 {
        NextHasAll();
        OddLong();
        AlignedNext(n);
      } else {
        PatchedNone(m, n);
        next := next + 4;
        AlignedNext(n);
        assert given + x == given;
      }
    }

    // The long that ends in a residue of one, two or three bytes.
    method OddLong()
      requires Valid() && PositionAligned() && 0 < bufSize < 4 && next + 4 <= mem.Length
      modifies this`next, this`bufSize, mem
      ensures next == old(next) + 4 && bufSize == old(bufSize) - 4
      ensures Patched(old(mem[..]), mem[..], old(next), old(NextLong()))
    {
      hide Patched, Fifo, NextLong;
      ghost var m, x := mem[..], NextLong();
      LongInBuffer();
      WriteLong(next, bufLimit - bufSize);
      StoredPatch(m, mem[..], next, x);
      bufSize := bufSize - 4;
      next := next + 4;
    }

    lemma NextIsFirst()
      requires BufferOk() && PositionAligned() && bufSize >= 4
      ensures NextLong() == Fifo()[..4]
    {}

    lemma NextHasAll()
      requires BufferOk() && PositionAligned() && 0 < bufSize < 4
      ensures NextLong()[..bufSize] == Fifo()
    {}

    lemma LongInBuffer()
      requires BufferOk() && PositionAligned() && bufSize > 0
      ensures bufLimit - bufSize + 4 <= DMA_BURST_SIZE
      ensures NextLong() == buf[bufLimit - bufSize..bufLimit - bufSize + 4]
    {}

    // One long, and the notification.
    method FlushStep() returns (ghost x: seq<byte>)
      requires Valid() && Conserved() && Aligned() && PositionAligned() && next < limit
      modifies this`next, this`bufSize, this`given, this`shadow, mem
      ensures next == old(next) + 4 && |shadow| == mem.Length
      ensures x == (if old(bufSize) > 0 then old(NextLong()) else []) && bufSize == old(bufSize) - |x|
      ensures Patched(old(mem[..]), mem[..], old(next), x)
      ensures BufferOk() <==> old(bufSize) == 0 || old(bufSize) >= 4
      ensures if BufferOk() then Valid() && Conserved() && PositionAligned() && given == old(given) + x
              else given == old(given) && x[..old(bufSize)] == old(Fifo())
      ensures old(Coherent()) ==> Coherent()
    {
      hide Patched, PositionAligned, Conserved, NextLong, Aligned;
      AlignedRoom();
      x := FlushLong();
      PatchedResync(old(mem[..]), mem[..], next - 4, x);
      Notify(next - 4, 4);
    }

    // dma_esp_flush_buffer.  A residue of one, two or three bytes is written out as a whole long,
    // which takes the count of held bytes below zero.
    method FlushBuffer() returns (ghost x: seq<byte>)
      requires Valid() && Conserved() && Aligned() && PositionAligned()
      modifies this`next, this`limit, this`enabled, this`supdate, this`complete, this`interrupt, this`bufSize,
               this`given, this`shadow, mem
      ensures x == (if old(enabled && dev2m && next < limit && bufSize > 0) then old(NextLong()) else [])
      ensures Patched(old(mem[..]), mem[..], old(next), x) && bufSize == old(bufSize) - |x|
      ensures if old(enabled && dev2m)
              then Advanced(if old(next < limit) then old(next) + 4
                else old(next), old(limit), old(supdate), old(enabled), old(complete))
              else next == old(next) && limit == old(limit) && enabled == old(enabled)
                   && supdate == old(supdate) && complete == old(complete)
      ensures interrupt == (old(interrupt)
                            || old(enabled && dev2m && (next == limit || (next < limit && next + 4 == limit))))
      ensures BufferOk() <==> x == [] || old(bufSize) >= 4
      ensures if BufferOk() then Valid() && Conserved() && PositionAligned() && given == old(given) + x
              else given == old(given) && x[..old(bufSize)] == old(Fifo())
      ensures old(Coherent()) ==> Coherent()
    {
      hide Patched, PositionAligned, Conserved, NextLong, Aligned;
      x := [];
      PatchedNone(mem[..], next);
      if !enabled || !dev2m {
        return;
      }
      if next < limit {
        x := FlushStep();
      }
      Interrupt();
    }

    // One long goes out unless the count is exactly 0, when x has been written from wrStart on; the
    // pointer moves on in any case.
    method TurboTurn(ghost m0: seq<byte>, ghost wrStart: nat, ghost x: seq<byte>) returns (ghost x': seq<byte>)
      requires mem != buf && buf.Length == DMA_BURST_SIZE && next + 4 <= mem.Length && Patched(m0, mem[..], wrStart, x)
      requires bufSize != 0 ==> next == wrStart + |x| && 0 <= bufLimit - bufSize <= DMA_BURST_SIZE - 4
      modifies this`next, this`bufSize, mem
      ensures next == old(next) + 4 && Patched(m0, mem[..], wrStart, x')
      ensures if old(bufSize) == 0 then x' == x && bufSize == 0
              else x' == x + buf[bufLimit - old(bufSize)..bufLimit - old(bufSize) + 4] && bufSize == old(bufSize) - 4
    {
      hide Patched;
      x' := x;
      if bufSize != 0 {
        ghost var m, y := mem[..], buf[bufLimit - bufSize..bufLimit - bufSize + 4];
        WriteLong(next, bufLimit - bufSize);
        StoredPatch(m, mem[..], next, y);
        PatchedMore(m0, m, mem[..], wrStart, next, x, y);
        x' := x + y;
        bufSize := bufSize - 4;
      }
      next := next + 4;
    }

    lemma FifoLength()
      requires BufferOk()
      ensures |Fifo()| == bufSize && [] + Fifo() == Fifo()
    {}

    // The bytes a turbo flush over so much room writes: those held, and with an odd residue what
    // lies behind them in the buffer.
    ghost function Residue(room: nat): (x: seq<byte>)
      requires BufferOk() && TurboInside(bufSize, bufLimit - bufSize, room)
      reads this`bufSize, this`bufLimit, buf
      ensures |x| == TurboCount(bufSize, room) && bufLimit - bufSize + |x| <= DMA_BURST_SIZE
    {
      buf[bufLimit - bufSize..bufLimit - bufSize + TurboCount(bufSize, room)]
    }

    // The longs a turbo flush would write lie inside the buffer.
    ghost predicate LongsInside()
      reads this`next, this`limit, this`bufSize, this`bufLimit
    {
      0 <= bufSize <= bufLimit && next <= TurboNext(next, limit, DMA_BURST_SIZE)
      && TurboInside(bufSize, bufLimit - bufSize, TurboNext(next, limit, DMA_BURST_SIZE) - next)
    }

    // The four turns of a turbo flush.
    method TurboLoop() returns (ghost x: seq<byte>)
      requires Valid() && Aligned() && PositionAligned() && LongsInside()
      modifies this`next, this`bufSize, mem
      ensures next == TurboNext(old(next), limit, DMA_BURST_SIZE)
              && x == old(Residue(TurboNext(next, limit, DMA_BURST_SIZE) - next))
      ensures bufSize == old(bufSize) - |x| && Patched(old(mem[..]), mem[..], old(next), x)
    {
      hide Patched, Aligned, PositionAligned, TurboNext, TurboCount, TurboInside, Residue, InBuffer, Flushing;
      x := [];
      ghost var wrStart, held, pos := next, bufSize, bufLimit - bufSize;
      ghost var room := TurboNext(next, limit, DMA_BURST_SIZE) - next;
      ResidueInBuffer(room);
      ghost var r := Residue(room);
      FlushingStart();
      for i := 0 to 4
        invariant Flushing(old(mem[..]), wrStart, held, pos, i, x) && InBuffer(pos, r)
      {
        x := TurboStep(old(mem[..]), wrStart, held, pos, room, i, x);
      }
      FlushingEnd(old(mem[..]), wrStart, held, pos, x);
      SameInBuffer(pos, x, r);
    }

    // After i turns, x of the bytes from pos on is out, from wrStart on.
    ghost predicate Flushing(m0: seq<byte>, wrStart: nat, held: nat, pos: nat, i: nat, x: seq<byte>)
      reads this`next, this`limit, this`bufSize, this`bufLimit, mem, buf
    {
      && Aligned() && wrStart % 4 == 0 && pos + held == bufLimit && next == TurboNext(wrStart, limit, 4 * i)
      && |x| == TurboCount(held, next - wrStart) && bufSize == held - |x| && InBuffer(pos, x)
      && Patched(m0, mem[..], wrStart, x)
    }

    lemma FlushingStart()
      requires BufferOk() && Aligned()
      ensures Flushing(mem[..], next, bufSize, bufLimit - bufSize, 0, [])
    {
      hide Patched, InBuffer, TurboNext, TurboCount;
      PatchedNone(mem[..], next);
      NoneInBuffer();
      TurboStart(next, limit, bufSize);
    }

    lemma FlushingEnd(m0: seq<byte>, wrStart: nat, held: nat, pos: nat, x: seq<byte>)
      requires Flushing(m0, wrStart, held, pos, 4, x)
      ensures next == TurboNext(wrStart, limit, DMA_BURST_SIZE) && |x| == TurboCount(held, next - wrStart)
      ensures bufSize == held - |x| && InBuffer(pos, x) && Patched(m0, mem[..], wrStart, x)
    {
      hide Patched, InBuffer, TurboNext, TurboCount;
    }

    method TurboStep(ghost m0: seq<byte>, ghost wrStart: nat, ghost held: nat, ghost pos: nat, ghost room: nat,
            ghost i: nat,
                     ghost x: seq<byte>)
      returns (ghost x': seq<byte>)
      requires mem != buf && buf.Length == DMA_BURST_SIZE && i < 4 && Flushing(m0, wrStart, held, pos, i, x)
      requires room == TurboNext(wrStart, limit, DMA_BURST_SIZE) - wrStart && TurboInside(held, pos, room)
      modifies this`next, this`bufSize, mem
      ensures Flushing(m0, wrStart, held, pos, i + 1, x')
    {
      hide Patched, TurboNext, TurboCount, TurboInside, InBuffer;
      x' := x;
      AlignedDistance(wrStart, limit, i);
      TurboFarther(wrStart, limit, 4 * (i + 1), DMA_BURST_SIZE);
      if next < limit {
        AlignedRoom();
        FourMore(wrStart, next);
        TurboCountMore(held, pos, next - wrStart, room);
        if bufSize != 0 { InBufferMore(pos, x); }
        x' := TurboTurn(m0, wrStart, x);
        AlignedNext(next - 4);
      }
    }

    // x is what the buffer holds from pos on.
    ghost predicate InBuffer(pos: nat, x: seq<byte>)
      reads buf
    {
      pos + |x| <= buf.Length && x == buf[pos..pos + |x|]
    }

    lemma NoneInBuffer()
      requires BufferOk()
      ensures InBuffer(bufLimit - bufSize, [])
    {}

    lemma InBufferMore(pos: nat, x: seq<byte>)
      requires InBuffer(pos, x) && pos + |x| + 4 <= buf.Length
      ensures InBuffer(pos, x + buf[pos + |x|..pos + |x| + 4])
    {
      TwoParts(buf[..], pos, pos + |x|, pos + |x| + 4);
    }

    lemma ResidueInBuffer(room: nat)
      requires BufferOk() && TurboInside(bufSize, bufLimit - bufSize, room)
      ensures InBuffer(bufLimit - bufSize, Residue(room))
    {}

    lemma SameInBuffer(pos: nat, x: seq<byte>, y: seq<byte>)
      requires InBuffer(pos, x) && InBuffer(pos, y) && |x| == |y|
      ensures x == y
    {}

    static lemma TwoParts(b: seq<byte>, from: nat, mid: nat, end: nat)
      requires from <= mid <= end <= |b|
      ensures b[from..mid] + b[mid..end] == b[from..end] && b[from..end][..mid - from] == b[from..mid]
    {}

    static lemma TurboStart(start: nat, limit: nat, held: nat)
      ensures TurboNext(start, limit, 4 * 0) == start && TurboCount(held, 0) == 0
    {}

    lemma Residual(room: nat)
      requires BufferOk() && Aligned() && PositionAligned() && LongsInside()
      requires room == TurboNext(next, limit, DMA_BURST_SIZE) - next
      ensures TurboInside(bufSize, bufLimit - bufSize, room)
      ensures var x := Residue(room);
        && |x| <= room && (bufLimit - bufSize + |x|) % 4 == 0
        && (|x| <= bufSize <==> bufSize % 4 == 0 || room <= bufSize)
        && if |x| <= bufSize then Fifo() == x + buf[bufLimit - bufSize + |x|..bufLimit] else x[..bufSize] == Fifo()
    {
      hide TurboCount, TurboNext, TurboInside, Aligned, PositionAligned, Residue, Fifo;
      assert room % 4 == 0 by { AlignedNow(); RoomIsLongs(next, limit); }
      assert (bufLimit - bufSize) % 4 == 0 by { PositionNow(); }
      TurboFits(bufSize, bufLimit - bufSize, room);
      ResidueParts(room);
    }

    lemma ResidueParts(room: nat)
      requires BufferOk() && TurboInside(bufSize, bufLimit - bufSize, room)
      ensures var x := Residue(room);
        if |x| <= bufSize then Fifo() == x + buf[bufLimit - bufSize + |x|..bufLimit] else x[..bufSize] == Fifo()
    {
      hide TurboCount, TurboInside;
      var x, pos, b := Residue(room), bufLimit - bufSize, buf[..];
      assert x == b[pos..pos + |x|] && Fifo() == b[pos..bufLimit];
      if |x| <= bufSize { TwoParts(b, pos, pos + |x|, bufLimit); } else { TwoParts(b, pos, bufLimit, pos + |x|); }
    }

    static lemma TurboFits(held: nat, pos: nat, room: nat)
      requires pos % 4 == 0 && room % 4 == 0
      ensures var n := TurboCount(held, room);
        n <= room && (pos + n) % 4 == 0 && (n <= held <==> held % 4 == 0 || room <= held)
    {}

    lemma AlignedNow()
      requires Aligned()
      ensures next % 4 == 0 && limit % DMA_BURST_SIZE == 0 && limit <= mem.Length
    {}

    lemma PositionNow()
      requires PositionAligned()
      ensures (bufLimit - bufSize) % 4 == 0
    {}

    static lemma RoomIsLongs(start: nat, limit: nat)
      requires start % 4 == 0 && limit % DMA_BURST_SIZE == 0
      ensures (TurboNext(start, limit, DMA_BURST_SIZE) - start) % 4 == 0
    {
      BurstIsLong(limit);
      if start < limit < start + DMA_BURST_SIZE { FourMore(start, limit); }
    }

    // tdma_flush_buffer.  The residue goes out, or as many longs of it as the channel takes; but
    // one that is not whole longs is counted past 0 when the channel takes more than is held.
    method TurboFlush() returns (ghost x: seq<byte>)
      requires Valid() && Conserved() && Aligned() && PositionAligned() && (enabled && dev2m ==> LongsInside())
      modifies this`next, this`limit, this`enabled, this`supdate, this`complete, this`interrupt, this`bufSize,
               this`given, this`shadow, mem
      ensures x == (if old(enabled && dev2m) then old(Residue(TurboNext(next, limit, DMA_BURST_SIZE) - next)) else [])
      ensures bufSize == old(bufSize) - |x| && Patched(old(mem[..]), mem[..], old(next), x)
      ensures BufferOk() <==> !old(enabled && dev2m) || old(bufSize) % 4 == 0
                              || TurboNext(old(next), old(limit), DMA_BURST_SIZE) - old(next) <= old(bufSize)
      ensures if BufferOk() then Valid() && Conserved() && PositionAligned() && given == old(given) + x
              && old(Fifo()) == x + Fifo()
              else given == old(given) && x[..old(bufSize)] == old(Fifo())
      ensures if old(enabled && dev2m)
              then Advanced(TurboNext(old(next), old(limit), DMA_BURST_SIZE), old(limit), old(supdate), old(enabled),
                old(complete))
              else next == old(next) && limit == old(limit) && enabled == old(enabled)
                   && supdate == old(supdate) && complete == old(complete)
      ensures interrupt == (old(interrupt)
                            || old(enabled && dev2m && next <= limit <= next + DMA_BURST_SIZE))
      ensures old(Coherent()) ==> Coherent()
    {
      hide Patched, TurboNext, TurboCount, Aligned, PositionAligned, Conserved, Fifo, Residue, LongsInside, Coherent;
      x := [];
      PatchedNone(mem[..], next);
      FifoLength();
      assert given + x == given;
      if !enabled || !dev2m {
        return;
      }
      TurboReaches(next, limit);
      x := TurboOut();
      Interrupt();
    }

    // The loop and the notification.
    method TurboOut() returns (ghost x: seq<byte>)
      requires Valid() && Conserved() && Aligned() && PositionAligned() && LongsInside()
      modifies this`next, this`bufSize, this`given, this`shadow, mem
      ensures next == TurboNext(old(next), limit, DMA_BURST_SIZE) && |shadow| == mem.Length
      ensures x == old(Residue(TurboNext(next, limit, DMA_BURST_SIZE) - next))
      ensures bufSize == old(bufSize) - |x| && Patched(old(mem[..]), mem[..], old(next), x)
      ensures BufferOk() <==> old(bufSize) % 4 == 0 || next - old(next) <= old(bufSize)
      ensures if BufferOk() then Valid() && Conserved() && PositionAligned() && given == old(given) + x
              && old(Fifo()) == x + Fifo()
              else given == old(given) && x[..old(bufSize)] == old(Fifo())
      ensures old(Coherent()) ==> Coherent()
    {
      hide Patched, TurboNext, TurboCount, Aligned, LongsInside, Residue, Conserved, Fifo;
      var wrStart := next;
      TurboFarther(wrStart, limit, DMA_BURST_SIZE, DMA_BURST_SIZE);
      AlignedParts();
      Residual(TurboNext(next, limit, DMA_BURST_SIZE) - next);
      ghost var f, g := Fifo(), given;
      ConservedMeans();
      x := TurboLoop();
      TurboResync(old(mem[..]), wrStart, x);
      if bufSize >= 0 {
        given := given + x;
        ConservedAgain(f, g, x);
      }
    }

    lemma ConservedMeans()
      requires BufferOk() && Conserved()
      ensures taken == given + Fifo()
    {}

    lemma ConservedAgain(f: seq<byte>, g: seq<byte>, x: seq<byte>)
      requires BufferOk() && taken == g + f && given == g + x && f == x + buf[bufLimit - bufSize..bufLimit]
      ensures Conserved() && f == x + Fifo()
    {}

    // The JIT is told of the stretch that was written, if any.
    method TurboResync(ghost m0: seq<byte>, wrStart: nat, ghost x: seq<byte>)
      requires Patched(m0, mem[..], wrStart, x) && |shadow| == mem.Length && wrStart + |x| <= next
      requires next == wrStart || next <= mem.Length
      modifies this`shadow
      ensures |shadow| == mem.Length && (old(shadow) == m0 ==> Coherent())
    {
      if next > wrStart {
        PatchedRange(m0, mem[..], wrStart, next, x);
        Notify(wrStart, next - wrStart);
      } else {
        PatchedEmpty(m0, mem[..], wrStart);
      }
    }

    // ----- sessions -----

    // The device gets ready to be read.
    method Ready(o: Offer)
      requires Valid() && o.Ok()
      modifies this`floppySelect, this`flpSize, this`flpLimit, this`espCounter, this`diskOut, flpData
      ensures Valid() && Supply() == o.Bytes()
    {
      if o.FromFloppy? {
        floppySelect := true;
        forall i | 0 <= i < |o.sector| { flpData[i] := o.sector[i]; }
        flpSize, flpLimit := |o.sector|, |o.sector|;
      } else {
        floppySelect := false;
        espCounter, diskOut := o.count, o.phase;
      }
    }

    // The longs a turbo flush would write lie inside the buffer.
    predicate Inside(c: Call)
      reads this`bufSize, this`bufLimit
    {
      c.TurboFlush? ==> bufSize % 4 == 0 || bufLimit - bufSize + TurboRoom(c.to) <= DMA_BURST_SIZE
    }

    // Set the channel up, then write, flush or turbo flush.  The count of held bytes stays right
    // exactly when the call keeps it, and even when it does not, all held bytes have gone out.
    method Perform(c: Call) returns (ghost part: seq<byte>, ghost x: seq<byte>)
      requires Valid() && Conserved() && PositionAligned() && c.Ok(mem.Length) && Inside(c)
      modifies this`next, this`limit, this`enabled, this`supdate, this`complete, this`interrupt, this`dev2m,
               this`bufSize,
               this`bufLimit, this`floppySelect, this`flpSize, this`flpLimit, this`espCounter, this`diskOut, this`taken,
               this`given, this`shadow, buf, mem, flpData
      ensures Did(c, old(bufSize), part, x) && bufSize == old(bufSize) + |part| - |x|
      ensures taken == old(taken) + part && Patched(old(mem[..]), mem[..], c.to.next, x)
      ensures BufferOk() <==> Keeps(c, old(bufSize))
      ensures BufferOk() <==> bufSize >= 0
      ensures if BufferOk() then Valid() && Conserved() && PositionAligned() && given == old(given) + x
              else taken <= old(given) + x
      ensures old(Coherent()) ==> Coherent()
    {
      hide Conserved, Coherent, PositionAligned, Supply, Aligned, Patched, TurboNext, TurboCount, Fifo, Min, Did, Keeps,
           Inside;
      if c.Write? {
        Ready(c.offer);
      }
      next, limit, enabled, dev2m := c.to.next, c.to.limit, true, true;
      CallAligned(c.to);
      if c.Write? {
        part, x := WriteCall(c);
      } else {
        x := FlushCall(c);
        part := [];
        assert taken == old(taken) + part;
      }
    }

    method FlushCall(c: Call) returns (ghost x: seq<byte>)
      requires Valid() && Conserved() && PositionAligned() && Aligned() && enabled && dev2m
      requires !c.Write? && next == c.to.next && limit == c.to.limit && Inside(c)
      modifies this`next, this`limit, this`enabled, this`supdate, this`complete, this`interrupt, this`bufSize,
               this`given, this`shadow, mem
      ensures Did(c, old(bufSize), [], x) && bufSize == old(bufSize) - |x|
      ensures Patched(old(mem[..]), mem[..], c.to.next, x)
      ensures BufferOk() <==> Keeps(c, old(bufSize))
      ensures BufferOk() <==> bufSize >= 0
      ensures if BufferOk() then Valid() && Conserved() && PositionAligned() && given == old(given) + x
              else taken <= old(given) + x
      ensures old(Coherent()) ==> Coherent()
    {
      hide Conserved, Coherent, PositionAligned, Aligned, Patched, Advanced, NextLong, TurboNext, TurboCount, Residue,
           Fifo;
      ConservedMeans();
      FifoLength();
      ghost var f := Fifo();
      if c.TurboFlush? {
        x := TurboFlush();
      } else {
        x := FlushBuffer();
      }
      if bufSize < 0 { AllOut(f, x); }
    }

    lemma AllOut(f: seq<byte>, x: seq<byte>)
      requires taken == given + f && |f| <= |x| && x[..|f|] == f
      ensures taken <= given + x
    {}

    method WriteCall(c: Call) returns (ghost part: seq<byte>, ghost x: seq<byte>)
      requires Valid() && Conserved() && PositionAligned() && Aligned() && enabled
      requires c.Write? && next == c.to.next && limit == c.to.limit && Supply() == c.offer.Bytes()
      modifies this`next, this`limit, this`enabled, this`supdate, this`complete, this`interrupt, this`bufSize,
               this`bufLimit, this`flpSize, this`espCounter, this`diskOut, this`taken, this`given, this`shadow, buf, mem
      ensures Valid() && Conserved() && PositionAligned() && Did(c, old(bufSize), part, x)
      ensures taken == old(taken) + part && given == old(given) + x && Patched(old(mem[..]), mem[..], c.to.next, x)
      ensures bufSize == old(bufSize) + |part| - |x| && Keeps(c, old(bufSize))
      ensures old(Coherent()) ==> Coherent()
    {
      hide Conserved, Coherent, PositionAligned, Supply, Moved, Aligned, Patched, Delivered, Advanced, StoppedAt, Fifo,
           Did, Min;
      ghost var m, g, a, s, t, f := mem[..], given, next, Supply(), taken, Fifo();
      ConservedMeans();
      FifoLength();
      ghost var k, n;
      k, n := WriteMemory();
      x := DeliveredPart(m, mem[..], a, n, g, given);
      MovedPart(s, Supply(), t, taken, k);
      part := s[..k];
      ConservedMeans();
      FifoLength();
      HeldLater(t, g, f, part, x, taken, given, Fifo());
      if a <= c.to.limit { WroteAll(n, c.to.limit, s, t, k); }
      assert Did(c, old(bufSize), part, x) by { DidWrite(c, old(bufSize), part, x); }
    }

    // The loop ended because the device had no more or the channel was full.
    lemma WroteAll(n: nat, limit0: nat, s: seq<byte>, t: seq<byte>, k: nat)
      requires FloppyOk() && StoppedAt(n, limit0) && Moved(s, Supply(), t, taken, k)
      ensures s[..k] == s || n == limit0
    {}

    lemma CallAligned(c: Stretch)
      requires c.Ok(mem.Length) && next == c.next && limit == c.limit
      ensures Aligned()
    {}

    // Any calls that bring bytes to memory, each with the channel and the device set up anew, up to
    // and with the first that breaks the count of held bytes (or up to one that would reach behind
    // the buffer).  Until then nothing the devices gave is lost, doubled or reordered, whatever was
    // left in the buffer between the calls; and the call that breaks the count still brings
    // everything out, with other bytes behind it.
    method Session(calls: seq<Call>)
      returns (n: nat, ghost held: seq<int>, ghost parts: seq<seq<byte>>, ghost log: seq<Store>)
      requires Valid() && Conserved() && PositionAligned()
      requires forall i :: 0 <= i < |calls| ==> calls[i].Ok(mem.Length)
      modifies this`next, this`limit, this`enabled, this`supdate, this`complete, this`interrupt, this`dev2m,
               this`bufSize,
               this`bufLimit, this`floppySelect, this`flpSize, this`flpLimit, this`espCounter, this`diskOut, this`taken,
               this`given, this`shadow, buf, mem, flpData
      ensures Recorded(calls, held, parts, log) && |log| == n && held[0] == old(bufSize) && held[n] == bufSize
      ensures taken == old(taken) + Joined(parts) && mem[..] == Replay(old(mem[..]), log)
      ensures BufferOk() <==> bufSize >= 0
      ensures if bufSize >= 0
              then Valid() && Conserved() && PositionAligned() && given == old(given) + Stored(log)
                   && (n < |calls| ==> !Inside(calls[n]))
              else taken <= old(given) + Stored(log)
      ensures old(Coherent()) ==> Coherent()
    {
      hide Conserved, Coherent, PositionAligned, Supply, Patched, Stored, Joined, Replay, Did, Keeps, Inside, Recorded;
      n, held, parts, log := 0, [bufSize], [], [];
      StoredNone(mem[..], given);
      StoredNone(mem[..], taken);
      NothingRecorded(calls, bufSize);
      while n < |calls| && bufSize >= 0 && Inside(calls[n])
        invariant |held| == n + 1 && |log| == n <= |calls| && held[0] == old(bufSize) && held[n] == bufSize
        invariant Recorded(calls, held, parts, log)
        invariant taken == old(taken) + Joined(parts) && mem[..] == Replay(old(mem[..]), log)
        invariant BufferOk() <==> bufSize >= 0
        invariant if bufSize >= 0 then Valid() && Conserved() && PositionAligned() && given == old(given) + Stored(log)
                  else taken <= old(given) + Stored(log)
        invariant old(Coherent()) ==> Coherent()
        decreases |calls| - n
      {
        ghost var part, x := Perform(calls[n]);
        RecordedMore(calls, held, parts, log, part, x);
        JoinedMore(old(taken), parts, part);
        StoredMore(old(mem[..]), mem[..], log, calls[n].to.next, x, old(given));
        held, parts, log := held + [bufSize], parts + [part], log + [Store(calls[n].to.next, x)];
        n := n + 1;
      }
    }

    lemma AlignedParts()
      requires Aligned()
      ensures limit <= mem.Length
    {}

    // ----- memory to device -----

    // What the selected device has received, and how many more bytes it accepts.
    ghost function Sink(): seq<byte>
      requires FloppyOk()
      reads this`floppySelect, this`flpSize, this`flpLimit, this`diskIn, flpData
    {
      if floppySelect then flpData[..flpSize] else diskIn
    }

    ghost function Room(): nat
      requires FloppyOk()
      reads this`floppySelect, this`flpSize, this`flpLimit, this`espCounter, this`diskWants
    {
      if floppySelect then flpLimit - flpSize else Min(espCounter, diskWants)
    }

    lemma SinkLength()
      requires Valid() && floppySelect
      ensures |Sink()| == flpSize && Room() == flpLimit - flpSize
    {}

    predicate HasRoom()
      requires FloppyOk()
      reads this`floppySelect, this`flpSize, this`flpLimit, this`espCounter, this`diskWants
      ensures HasRoom() <==> Room() > 0
    {
      if floppySelect then flpSize < flpLimit else espCounter > 0 && diskWants > 0
    }

    // One byte to the selected device.
    method Send(b: byte)
      requires Valid() && HasRoom()
      modifies this`flpSize, this`espCounter, this`diskIn, this`diskWants, flpData
      ensures Valid() && Sink() == old(Sink()) + [b] && Room() == old(Room()) - 1
    {
      if floppySelect {
        flpData[flpSize] := b;
        flpSize := flpSize + 1;
        assert flpData[..flpSize] == old(flpData[..flpSize]) + [b];
      } else {
        diskIn := diskIn + [b];
        diskWants := diskWants - 1;
        espCounter := espCounter - 1;
      }
    }

    // A long of memory goes into the burst buffer.
    method ReadLong(address: nat, pos: nat)
      requires mem != buf && address + 4 <= mem.Length && pos + 4 <= buf.Length
      modifies buf
      ensures buf[..pos + 4] == old(buf[..pos]) + mem[address..address + 4]
    {
      buf[pos] := mem[address];
      buf[pos + 1] := mem[address + 1];
      buf[pos + 2] := mem[address + 2];
      buf[pos + 3] := mem[address + 3];
    }

    method PushLong()
      requires Valid() && Conserved() && next + 4 <= mem.Length && bufLimit + 4 <= DMA_BURST_SIZE
      modifies this`next, this`bufSize, this`bufLimit, this`taken, buf
      ensures Valid() && Conserved() && next == old(next) + 4
      ensures bufLimit == old(bufLimit) + 4 && bufSize == old(bufSize) + 4
      ensures taken == old(taken) + mem[old(next)..next]
    {
      ghost var f, pre, pos := Fifo(), buf[..bufLimit], bufLimit - bufSize;
      ReadLong(next, bufLimit);
      taken := taken + mem[next..next + 4];
      next := next + 4;
      bufLimit := bufLimit + 4;
      bufSize := bufSize + 4;
      assert Fifo() == buf[..bufLimit][pos..];
      assert f == pre[pos..];
    }

    // Read longs into the buffer until it or the channel is at its end.
    method FillFromMemory()
      requires Valid() && Conserved() && Aligned() && bufLimit % 4 == 0 && next <= limit
      modifies this`next, this`bufSize, this`bufLimit, this`taken, buf
      ensures Valid() && Conserved() && Aligned() && bufLimit % 4 == 0 && old(next) <= next <= limit <= mem.Length
      ensures next == limit || bufLimit == DMA_BURST_SIZE
      ensures bufLimit - old(bufLimit) == bufSize - old(bufSize) == next - old(next)
      ensures taken == old(taken) + mem[old(next)..next]
    {
      hide Conserved, Aligned;
      AlignedParts();
      assert taken + mem[next..next] == taken;
      while next < limit && bufLimit < DMA_BURST_SIZE
        invariant Valid() && Conserved() && Aligned() && bufLimit % 4 == 0 && old(next) <= next <= limit <= mem.Length
        invariant bufLimit - old(bufLimit) == bufSize - old(bufSize) == next - old(next)
        invariant taken == old(taken) + mem[old(next)..next]
      {
        ghost var n, t := next, taken;
        AlignedRoom();
        PushLong();
        AlignedNext(n);
        TakenMore(old(taken), t, old(next), n, next);
      }
    }

    lemma TakenMore(t0: seq<byte>, t: seq<byte>, a: nat, b: nat, c: nat)
      requires a <= b <= c <= mem.Length && t == t0 + mem[a..b]
      ensures t + mem[b..c] == t0 + mem[a..c]
    {
      assert mem[a..c] == mem[a..b] + mem[b..c];
    }

    // Hand the buffer to the device, as far as it goes.
    method EmptyToDevice() returns (ghost x: seq<byte>)
      requires Valid() && Conserved()
      modifies this`bufSize, this`flpSize, this`espCounter, this`diskIn, this`diskWants, this`given, flpData
      ensures Valid() && Conserved() && given == old(given) + x && Sink() == old(Sink()) + x
      ensures bufSize == old(bufSize) - |x| && Room() == old(Room()) - |x|
      ensures bufSize == 0 || Room() == 0
    {
      hide Conserved, Sink, Room, HasRoom;
      x := [];
      assert given + x == given && Sink() + x == Sink();
      while bufSize > 0 && HasRoom()
        invariant Valid() && Conserved() && given == old(given) + x && Sink() == old(Sink()) + x
        invariant bufSize == old(bufSize) - |x| && Room() == old(Room()) - |x|
        decreases bufSize
      {
        var b := PopByte();
        Send(b);
        x := x + [b];
      }
    }

    // espdma_buf[espdma_buf_limit - espdma_buf_size], and the count.
    method PopByte() returns (b: byte)
      requires Valid() && Conserved() && bufSize > 0
      modifies this`bufSize, this`given
      ensures Valid() && Conserved() && given == old(given) + [b] && bufSize == old(bufSize) - 1
    {
      b := buf[bufLimit - bufSize];
      ghost var f := Fifo();
      bufSize := bufSize - 1;
      given := given + [b];
      assert f == [b] + Fifo();
    }

    // Why the loop of dma_esp_read_memory ends: the channel or the device is at its end.
    ghost predicate ReadStoppedAt(n: nat, limit0: nat)
      requires FloppyOk()
      reads this`bufSize, this`bufLimit, this`floppySelect, this`flpSize, this`flpLimit, this`espCounter, this`diskWants
    {
      (n == limit0 && bufLimit < DMA_BURST_SIZE) || (Room() == 0 && bufLimit == DMA_BURST_SIZE && bufSize > 0)
    }

    // One turn of that loop.
    method ReadTurn() returns (done: bool, ghost x: seq<byte>)
      requires Valid() && Conserved() && Aligned() && bufLimit % 4 == 0 && next < limit
      modifies this`next, this`bufSize, this`bufLimit, this`flpSize, this`espCounter, this`diskIn, this`diskWants,
               this`taken, this`given, buf, flpData
      ensures Valid() && Conserved() && Aligned() && bufLimit % 4 == 0 && old(next) <= next <= limit <= mem.Length
      ensures taken == old(taken) + mem[old(next)..next]
      ensures given == old(given) + x && Sink() == old(Sink()) + x && Room() == old(Room()) - |x|
      ensures WholeBursts(next - old(next) + old(bufLimit) - bufLimit)
      ensures if done then ReadStoppedAt(next, limit)
              else bufLimit == bufSize == 0 && (old(next) < next || old(bufLimit == DMA_BURST_SIZE))
    {
      hide Conserved, Sink, Room, HasRoom, Aligned;
      AlignedParts();
      x := [];
      assert given + x == given && Sink() + x == Sink() && taken + mem[next..next] == taken;
      if bufLimit < DMA_BURST_SIZE {
        FillFromMemory();
      }
      if bufLimit < DMA_BURST_SIZE {
        return true, x;
      }
      x := EmptyToDevice();
      if bufSize > 0 {
        assert ReadStoppedAt(next, limit);
        return true, x;
      }
      ResetBuffer();
      done := false;
    }

    // The loop of dma_esp_read_memory.
    method ReadBursts() returns (ghost x: seq<byte>)
      requires Valid() && Conserved() && Aligned() && bufLimit % 4 == 0 && next < limit
      modifies this`next, this`bufSize, this`bufLimit, this`flpSize, this`espCounter, this`diskIn, this`diskWants,
               this`taken, this`given, buf, flpData
      ensures Valid() && Conserved() && bufLimit % 4 == 0 && old(next) <= next <= limit <= mem.Length
      ensures taken == old(taken) + mem[old(next)..next]
      ensures given == old(given) + x && Sink() == old(Sink()) + x && Room() == old(Room()) - |x|
      ensures WholeBursts(next - old(next) + old(bufLimit) - bufLimit)
      ensures ReadStoppedAt(next, limit)
    {
      hide Conserved, Sink, Room, HasRoom, Aligned, ReadStoppedAt, WholeBursts;
      AlignedParts();
      NoBursts();
      x := [];
      assert given + x == given && Sink() + x == Sink() && taken + mem[next..next] == taken;
      var done := false;
      while !done && next < limit
        invariant Valid() && Conserved() && Aligned() && bufLimit % 4 == 0 && old(next) <= next <= limit <= mem.Length
        invariant taken == old(taken) + mem[old(next)..next]
        invariant given == old(given) + x && Sink() == old(Sink()) + x && Room() == old(Room()) - |x|
        invariant WholeBursts(next - old(next) + old(bufLimit) - bufLimit)
        invariant if done then ReadStoppedAt(next, limit) else next < limit || bufLimit == 0
        decreases !done, limit - next, bufLimit
      {
        ghost var n, t, y, b;
        n, t, b := next, taken, bufLimit;
        done, y := ReadTurn();
        TakenMore(old(taken), t, old(next), n, next);
        BurstsAdd(n - old(next) + old(bufLimit) - b, next - n + b - bufLimit);
        x := x + y;
      }
      if !done { ChannelEnd(); }
    }

    lemma ChannelEnd()
      requires FloppyOk() && bufLimit == 0
      ensures ReadStoppedAt(limit, limit)
    {}

    // dma_esp_read_memory: the pointer reaches n, and x goes to the device.
    method ReadMemory() returns (ghost x: seq<byte>, ghost n: nat)
      requires Valid() && Conserved() && Aligned() && bufLimit % 4 == 0
      modifies this`next, this`limit, this`enabled, this`supdate, this`complete, this`interrupt, this`bufSize,
               this`bufLimit,
               this`flpSize, this`espCounter, this`diskIn, this`diskWants, this`taken, this`given, buf, flpData
      ensures Valid() && Conserved() && bufLimit % 4 == 0
      ensures old(next) <= n && (n == old(next) || n <= mem.Length)
      ensures n > old(next) ==> taken == old(taken) + mem[old(next)..n]
      ensures n == old(next) ==> taken == old(taken)
      ensures given == old(given) + x && Sink() == old(Sink()) + x && Room() == old(Room()) - |x|
      ensures WholeBursts(n - old(next) + old(bufLimit) - bufLimit)
      ensures old(enabled && next < limit) ==> n <= old(limit) && ReadStoppedAt(n, old(limit))
      ensures !old(enabled && next < limit)
              ==> n == old(next) && x == [] && bufSize == old(bufSize) && bufLimit == old(bufLimit)
      ensures if old(enabled) then Advanced(n, old(limit), old(supdate), old(enabled), old(complete))
              else next == n && limit == old(limit) && !enabled && supdate == old(supdate) && complete == old(complete)
      ensures interrupt == (old(interrupt) || (old(enabled) && n == old(limit)))
    {
      hide Conserved, Sink, Room, Aligned, ReadStoppedAt;
      x, n := [], next;
      assert given + x == given && Sink() + x == Sink();
      if !enabled {
        return;
      }
      if next < limit {
        AlignedParts();
        x := ReadBursts();
        n := next;
      }
      Interrupt();
    }

    // The device gets ready to receive.
    method Await(r: Request)
      requires Valid() && r.Ok()
      modifies this`floppySelect, this`flpSize, this`flpLimit, this`espCounter, this`diskIn, this`diskWants
      ensures Valid() && Sink() == [] && Room() == r.Size()
    {
      if r.ToFloppy? {
        floppySelect := true;
        flpSize, flpLimit := 0, r.limit;
      } else {
        floppySelect := false;
        espCounter, diskIn, diskWants := r.count, [], r.wants;
      }
    }

    // Any calls that take memory to a device, each from its own stretch and to a device set up anew:
    // the devices receive the bytes in the order they were read, whatever was left in the buffer
    // between the calls, and the buffer holds the rest.
    method SessionOut(calls: seq<Fetch>) returns (ghost parts: seq<seq<byte>>, ghost log: seq<Store>)
      requires Valid() && Conserved() && bufLimit % 4 == 0
      requires forall i :: 0 <= i < |calls| ==> calls[i].Ok(mem.Length)
      modifies this`next, this`limit, this`enabled, this`supdate, this`complete, this`interrupt, this`dev2m,
               this`bufSize,
               this`bufLimit, this`floppySelect, this`flpSize, this`flpLimit, this`espCounter, this`diskIn,
                 this`diskWants,
               this`taken, this`given, buf, flpData
      ensures Valid() && Conserved() && bufLimit % 4 == 0
      ensures given == old(given) + Joined(parts) && taken == old(taken) + Stored(log)
      ensures |parts| == |log| == |calls|
      ensures forall i :: 0 <= i < |log| ==> Sent(calls[i], mem[..], log[i], parts[i])
    {
      hide Conserved, Sink, Stored, Joined, Sent;
      parts, log := [], [];
      StoredNone(mem[..], taken);
      StoredNone(mem[..], given);
      for i := 0 to |calls|
        invariant Valid() && Conserved() && bufLimit % 4 == 0
        invariant given == old(given) + Joined(parts) && taken == old(taken) + Stored(log)
        invariant |parts| == |log| == i && forall j :: 0 <= j < i ==> Sent(calls[j], mem[..], log[j], parts[j])
      {
        ghost var x, s := PerformOut(calls[i]);
        StoredNext(log, s, old(taken));
        JoinedMore(old(given), parts, x);
        parts, log := parts + [x], log + [s];
      }
    }

    // Set the device and the channel up, then read: x goes to the device.
    method PerformOut(c: Fetch) returns (ghost x: seq<byte>, ghost s: Store)
      requires Valid() && Conserved() && bufLimit % 4 == 0 && c.Ok(mem.Length)
      modifies this`next, this`limit, this`enabled, this`supdate, this`complete, this`interrupt, this`dev2m,
               this`bufSize,
               this`bufLimit, this`floppySelect, this`flpSize, this`flpLimit, this`espCounter, this`diskIn,
                 this`diskWants,
               this`taken, this`given, buf, flpData
      ensures Valid() && Conserved() && bufLimit % 4 == 0 && Sink() == x
      ensures given == old(given) + x && taken == old(taken) + s.bytes && Sent(c, mem[..], s, x)
    {
      hide Conserved, Sink, Room, Aligned, Sent, Min;
      Await(c.request);
      next, limit, enabled, dev2m := c.from.next, c.from.limit, true, false;
      CallAligned(c.from);
      x, s := ReadCall(c);
    }

    method ReadCall(c: Fetch) returns (ghost x: seq<byte>, ghost s: Store)
      requires Valid() && Conserved() && bufLimit % 4 == 0 && Aligned() && enabled && next == c.from.next
               && limit == c.from.limit
      requires Sink() == [] && Room() == c.request.Size()
      modifies this`next, this`limit, this`enabled, this`supdate, this`complete, this`interrupt, this`bufSize,
               this`bufLimit,
               this`flpSize, this`espCounter, this`diskIn, this`diskWants, this`taken, this`given, buf, flpData
      ensures Valid() && Conserved() && bufLimit % 4 == 0 && Sink() == x
      ensures given == old(given) + x && taken == old(taken) + s.bytes && Sent(c, mem[..], s, x)
    {
      hide Conserved, Sink, Room, Aligned, ReadStoppedAt, Advanced, WholeBursts, Sent, Min;
      ghost var n;
      x, n := ReadMemory();
      assert [] + x == x;
      s := Store(c.from.next, if n > c.from.next then mem[c.from.next..n] else []);
      assert taken == old(taken) + s.bytes;
      SentNow(c, mem[..], s, x, n);
    }

    lemma SentNow(c: Fetch, m: seq<byte>, s: Store, x: seq<byte>, n: nat)
      requires FloppyOk() && c.request.Size() == |x| + Room() && n >= c.from.next
      requires n > c.from.next ==> n <= |m|
      requires s == Store(c.from.next, if n > c.from.next then m[c.from.next..n] else [])
      requires if c.from.next < c.from.limit then ReadStoppedAt(n, c.from.limit) else n == c.from.next && x == []
      ensures Sent(c, m, s, x)
    {}
  }

  lemma PatchedEmpty(m0: seq<byte>, m: seq<byte>, a: int)
    requires Patched(m0, m, a, [])
    ensures m == m0
  {}

  lemma MovedTwice(s0: seq<byte>, s1: seq<byte>, s2: seq<byte>, t0: seq<byte>, t1: seq<byte>, t2: seq<byte>, j: int,
          k: int)
    requires Moved(s0, s1, t0, t1, j) && Moved(s1, s2, t1, t2, k)
    ensures Moved(s0, s2, t0, t2, j + k)
  {
    assert s0[..j + k] == s0[..j] + s0[j..][..k];
  }

  lemma DeliveredTwice(m0: seq<byte>, m1: seq<byte>, m2: seq<byte>, a: int, b: int, c: int, g0: seq<byte>,
          g1: seq<byte>, g2: seq<byte>)
    requires Delivered(m0, m1, a, b, g0, g1) && Delivered(m1, m2, b, c, g1, g2)
    ensures Delivered(m0, m2, a, c, g0, g2)
  {
    if a < b && b < c {
      assert m2[a..c] == m1[a..b] + m2[b..c] by { assert m2[..b] == m1[..b]; }
      assert m2[..a] == m1[..a] by { assert m2[..b][..a] == m1[..b][..a]; }
      assert m2[c..] == m1[b..][c - b..];
      assert m1[b..][c - b..] == m1[c..];
      assert m0[b..][c - b..] == m0[c..];
      assert g2 == g0 + m2[a..c];
    }
  }
}
