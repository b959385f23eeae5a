// The floppy controller of src/floppy.c: geometry, READ and WRITE commands, and the handler
// that moves one sector at a time between the image and the SCSI channel.
module Floppy {
  import opened Bytes
  import opened Dma

  const CYLINDERS: nat := 80
  const TRACKS_PER_CYL: nat := 2
  const SECTOR: nat := 512
  const SIZE_720K: nat := 737280
  const SIZE_1440K: nat := 1474560
  const SIZE_2880K: nat := 2949120

  // Sectors per track of an inserted disk, whose block size is 512.
  function Spt(size: nat): nat { size / SECTOR / TRACKS_PER_CYL / CYLINDERS }

  predicate KnownSize(size: nat) { size == SIZE_720K || size == SIZE_1440K || size == SIZE_2880K }

  // physical_to_logical_sector, without its error flags.
  function Logical(c: nat, h: nat, s: nat, spt: nat): int { (c * TRACKS_PER_CYL + h) * spt + s - 1 }

  ghost predicate OnDisk(c: nat, h: nat, s: nat, spt: nat) {
    c < CYLINDERS && h < TRACKS_PER_CYL && 1 <= s <= spt
  }

  // The map from cylinder, head and sector is one to one ...
  lemma {:induction false} LogicalInjective(c: nat, h: nat, s: nat, c': nat, h': nat, s': nat, spt: nat)
    requires OnDisk(c, h, s, spt) && OnDisk(c', h', s', spt)
    requires Logical(c, h, s, spt) == Logical(c', h', s', spt)
    ensures c == c' && h == h' && s == s'
  {
    var t, t' := c * TRACKS_PER_CYL + h, c' * TRACKS_PER_CYL + h';
    if t < t' {
      MulSplit(t, t', spt);
    } else if t' < t {
      MulSplit(t', t, spt);
    }
  }

  lemma {:induction false} MulSplit(a: nat, b: nat, c: nat)
    requires a < b
    ensures b * c >= a * c + c
    decreases b
  {
    MulNext(b - 1, c);
    if a < b - 1 {
      MulSplit(a, b - 1, c);
    }
  }

  lemma MulNext(a: nat, c: nat)
    ensures (a + 1) * c == a * c + c
  {}

  // ... into the sectors of the disk ...
  lemma LogicalInRange(c: nat, h: nat, s: nat, spt: nat)
    requires OnDisk(c, h, s, spt)
    ensures 0 <= Logical(c, h, s, spt) < CYLINDERS * TRACKS_PER_CYL * spt
  {
    var t := c * TRACKS_PER_CYL + h;
    assert t <= 159;
    assert t * spt >= 0;
    MulSplit(t, 160, spt);
  }

  // ... and onto them.
  lemma LogicalOnto(l: nat, spt: nat) returns (c: nat, h: nat, s: nat)
    requires spt > 0 && l < CYLINDERS * TRACKS_PER_CYL * spt
    ensures OnDisk(c, h, s, spt) && Logical(c, h, s, spt) == l
  {
    var t := l / spt;
    assert l == t * spt + l % spt;
    if t >= 160 {
      MulSplit(159, t, spt);
    }
    c, h, s := t / 2, t % 2, l % spt + 1;
    assert c * TRACKS_PER_CYL + h == t;
  }

  // It goes through the sectors of a track, then the heads of a cylinder, then the cylinders.
  lemma LogicalOrder(c: nat, h: nat, s: nat, c': nat, h': nat, s': nat, spt: nat)
    requires OnDisk(c, h, s, spt) && OnDisk(c', h', s', spt)
    ensures Logical(c, h, s, spt) < Logical(c', h', s', spt) <==>
            c < c' || (c == c' && (h < h' || (h == h' && s < s')))
  {
    var t, t' := c * TRACKS_PER_CYL + h, c' * TRACKS_PER_CYL + h';
    if t < t' {
      MulSplit(t, t', spt);
    } else if t' < t {
      MulSplit(t', t, spt);
    }
  }

  // The image begins with track 0, and the tracks follow each other, head 1 after head 0.
  lemma TracksFollow(c: nat, spt: nat)
    ensures Logical(0, 0, 1, spt) == 0
    ensures Logical(c, 0, spt, spt) + 1 == Logical(c, 1, 1, spt)
    ensures Logical(c, 1, spt, spt) + 1 == Logical(c + 1, 0, 1, spt)
  {
    MulNext(2 * c, spt);
    MulNext(2 * c + 1, spt);
  }

  // The tracks in their order on the disk, each with its cylinder and head.
  lemma TrackStart(t: nat, spt: nat)
    ensures Logical(t / 2, t % 2, 1, spt) == t * spt
  {
    assert t / 2 * TRACKS_PER_CYL + t % 2 == t;
  }

  lemma KnownGeometry(size: nat)
    requires KnownSize(size)
    ensures CYLINDERS * TRACKS_PER_CYL * Spt(size) * SECTOR == size && Spt(size) > 0 && Spt(size) < 256
  {}

  datatype IoState = IoWrite | IoRead | IoInterrupt | IoDone

  // n sectors of an image from sector l on.
  ghost function Sectors(image: seq<byte>, l: nat, n: nat): seq<byte>
    requires (l + n) * SECTOR <= |image|
  {
    image[l * SECTOR..(l + n) * SECTOR]
  }

  // A whole sector offered to an empty buffer and a channel with room for it goes through
  // entirely: s is supply, t bytes taken, g bytes given, m memory, f the buffer.
  lemma WholeSector(s0: seq<byte>, s: seq<byte>, t0: seq<byte>, t: seq<byte>, g: seq<byte>, f: seq<byte>,
                    m0: seq<byte>, m: seq<byte>, a: nat, n: nat, limit: nat, k: int, end: nat)
    requires |s0| == SECTOR && a % DMA_BURST_SIZE == 0 && limit % DMA_BURST_SIZE == 0 && a + SECTOR <= limit
    requires Moved(s0, s, t0, t, k) && Delivered(m0, m, a, n, t0, g) && t == g + f
    requires |f| <= end <= DMA_BURST_SIZE && WholeBursts(k - end) && n <= limit
    requires (end < DMA_BURST_SIZE && s == []) || (end == DMA_BURST_SIZE && |f| > 0 && n == limit)
    ensures n == a + SECTOR && end == 0 && s == [] && Patched(m0, m, a, s0)
  {
    hide Patched;
    DeliveredLength(m0, m, a, n, t0, g);
    assert |t| == |t0| + k && |t| == |t0| + (n - a) + |f|;
    assert end == 0 && k == SECTOR;
    assert f == [] && g == t;
    assert s0[..k] == s0;
    DeliveredPatch(m0, m, a, n, t0, s0);
  }

  lemma DeliveredLength(m0: seq<byte>, m: seq<byte>, a: nat, n: nat, g0: seq<byte>, g: seq<byte>)
    requires Delivered(m0, m, a, n, g0, g)
    ensures |g| == |g0| + n - a && a <= n
  {}

  lemma DeliveredPatch(m0: seq<byte>, m: seq<byte>, a: nat, n: nat, g: seq<byte>, x: seq<byte>)
    requires Delivered(m0, m, a, n, g, g + x) && |x| == n - a > 0
    ensures Patched(m0, m, a, x)
  {
    assert (g + x)[|g|..] == x;
    assert (g + m[a..n])[|g|..] == m[a..n];
    assert m == m[..a] + m[a..n] + m[n..];
  }

  class Controller {
    const dma: EspDma

    // the inserted disk
    var cyl: nat
    var head: nat
    var sector: nat
    var size: nat
    var isProtected: bool
    var image: seq<byte>

    // the controller
    var eis: bool
    var dataRateOk: bool
    var abnormal: bool
    var endOfCylinder: bool
    var noData: bool
    var notWritable: bool
    var overrun: bool
    var wrongCylinder: bool
    var ioState: IoState
    var sectorCounter: int
    var interrupts: nat

    constructor (d: EspDma, bytes: seq<byte>, writeProtect: bool)
      requires KnownSize(|bytes|)
      ensures dma == d && image == bytes && size == |bytes| && isProtected == writeProtect && cyl == head == sector == 0
      ensures ioState == IoDone && interrupts == 0
    {
      dma, image, size, isProtected := d, bytes, |bytes|, writeProtect;
      cyl, head, sector, sectorCounter, interrupts := 0, 0, 0, 0, 0;
      eis, dataRateOk, abnormal, endOfCylinder, noData, notWritable, overrun, wrongCylinder :=
        false, false, false, false, false, false, false, false;
      ioState := IoDone;
    }

    ghost predicate DiskOk()
      reads this`cyl, this`sector, this`size, this`image
    {
      KnownSize(size) && |image| == size && sector < 256 && cyl < CYLINDERS
    }

    ghost predicate Ready()
      reads this, dma, dma.buf
    {
      dma.FloppyReady() && DiskOk()
    }

    // physical_to_logical_sector
    method PhysicalToLogical() returns (l: int)
      modifies this`abnormal, this`endOfCylinder
      ensures l == Logical(cyl, head, sector, Spt(size))
      ensures abnormal == (old(abnormal) || sector > Spt(size))
      ensures endOfCylinder == (old(endOfCylinder) || sector > Spt(size))
    {
      var spt := size / SECTOR / TRACKS_PER_CYL / CYLINDERS;
      if sector > spt {
        abnormal := true;
        endOfCylinder := true;
      }
      l := (cyl * TRACKS_PER_CYL + head) * spt + sector - 1;
    }

    // floppy_seek_track
    method SeekTrack(c: nat, h: nat)
      modifies this`cyl, this`head
      ensures cyl == (if c > CYLINDERS - 1 then CYLINDERS - 1 else c) && head == h
    {
      cyl := if c > CYLINDERS - 1 then CYLINDERS - 1 else c;
      head := h;
    }

    // The command is accepted exactly when the track, block size, data rate, protection and
    // first sector are right.
    ghost predicate Accepts(c: nat, h: nat, hd: nat, s: nat, bs: nat, write: bool)
      reads this
    {
      && (if eis then c < CYLINDERS && h == hd else cyl == c && head == h == hd)
      && bs == 2 && dataRateOk && !(write && isProtected) && s <= Spt(size)
    }

    // The checks of floppy_read and floppy_write: track, block size, data rate, protection, and
    // the first sector against the geometry.
    method Check(c: nat, h: nat, hd: nat, bs: nat, write: bool)
      modifies this`abnormal, this`endOfCylinder, this`noData, this`notWritable, this`wrongCylinder
      ensures wrongCylinder == (old(wrongCylinder) || !(cyl == c && head == h == hd))
      ensures noData == (old(noData) || bs != 2 || !dataRateOk)
      ensures notWritable == (old(notWritable) || (write && isProtected))
      ensures endOfCylinder == (old(endOfCylinder) || sector > Spt(size))
      ensures abnormal == (old(abnormal) || !(cyl == c && head == h == hd) || bs != 2 || !dataRateOk
                           || (write && isProtected) || sector > Spt(size))
    {
      hide Spt;
      if cyl != c || head != h || head != hd {
        abnormal, wrongCylinder := true, true;
      }
      if bs != 2 {
        abnormal, noData := true, true;
      }
      if !dataRateOk {
        abnormal, noData := true, true;
      }
      if write && isProtected {
        abnormal, notWritable := true, true;
      }
      var l := PhysicalToLogical();
    }

    // Clear the status and go to the track, if seeks are implied, and the sector.
    method Position(c: nat, h: nat, s: nat)
      modifies this`cyl, this`head, this`sector, this`abnormal, this`endOfCylinder, this`noData, this`notWritable,
               this`overrun, this`wrongCylinder
      ensures !abnormal && !endOfCylinder && !noData && !notWritable && !overrun && !wrongCylinder && sector == s
      ensures if eis then cyl == (if c > 79 then 79 else c) && head == h else cyl == old(cyl) && head == old(head)
    {
      abnormal, endOfCylinder, noData, notWritable, overrun, wrongCylinder := false, false, false, false, false, false;
      if eis {
        SeekTrack(c, h);
      }
      sector := s;
    }

    // floppy_read and floppy_write up to the transfer: hd is the head selected with the drive,
    // then cylinder, head, first sector, block size and last sector.
    method Command(c: nat, h: nat, hd: nat, s: nat, bs: nat, e: nat, write: bool)
      requires Ready() && c < 256 && h < 256 && hd < 2 && s < 256 && e < 256
      modifies this`cyl, this`head, this`sector, this`abnormal, this`endOfCylinder, this`noData, this`notWritable,
               this`overrun, this`wrongCylinder, this`ioState, this`sectorCounter, dma`flpSize, dma`flpLimit
      ensures Ready() && sector == s
      ensures if eis then cyl == (if c > 79 then 79 else c) && head == h else cyl == old(cyl) && head == old(head)
      ensures abnormal <==> !old(Accepts(c, h, hd, s, bs, write))
      ensures ioState == if abnormal then IoInterrupt else if write then IoWrite else IoRead
      ensures !abnormal ==> sectorCounter == e - s + 1 && dma.flpSize == 0 && dma.flpLimit == SECTOR
      ensures !abnormal ==> !endOfCylinder && !noData && !notWritable && !overrun && !wrongCylinder
      ensures abnormal ==>
                && sectorCounter == old(sectorCounter) && dma.flpSize == old(dma.flpSize)
                && dma.flpLimit == old(dma.flpLimit)
    {
      hide Spt, KnownSize, EspDma.FloppyReady;
      Position(c, h, s);
      Check(c, h, hd, bs, write);
      if abnormal {
        ioState := IoInterrupt;
      } else {
        dma.EmptySector(SECTOR);
        sectorCounter := e - s + 1;
        ioState := if write then IoWrite else IoRead;
      }
    }

    // The next sector of the transfer, when there is one.
    ghost predicate SectorThere()
      reads this`cyl, this`head, this`sector, this`size
    {
      OnDisk(cyl, head, sector, Spt(size))
    }

    ghost function Here(): (l: nat)
      requires DiskOk() && SectorThere()
      reads this`cyl, this`head, this`sector, this`size, this`image
      ensures (l + 1) * SECTOR <= |image|
    {
      LogicalInRange(cyl, head, sector, Spt(size));
      KnownGeometry(size);
      Logical(cyl, head, sector, Spt(size))
    }

    // floppy_interrupt, and the end of the transfer.
    method Finish()
      modifies this`interrupts, this`ioState
      ensures interrupts == old(interrupts) + 1 && ioState == IoDone
    {
      interrupts := interrupts + 1;
      ioState := IoDone;
    }

    // floppy_rw_nodata
    method NoMoreData()
      modifies this`sectorCounter, this`abnormal, this`overrun
      ensures sectorCounter == 0 && abnormal && overrun
    {
      sectorCounter := 0;
      abnormal, overrun := true, true;
    }

    // The count of a sector moved; the last one is reported as the end of the cylinder.
    method NextSector()
      requires sector < 255
      modifies this`sector, this`sectorCounter, this`abnormal, this`endOfCylinder
      ensures sector == old(sector) + 1 && sectorCounter == old(sectorCounter) - 1
      ensures abnormal == (old(abnormal) || sectorCounter == 0)
      ensures endOfCylinder == (old(endOfCylinder) || sectorCounter == 0)
    {
      sector := sector + 1;
      sectorCounter := sectorCounter - 1;
      if sectorCounter == 0 {
        abnormal, endOfCylinder := true, true;
      }
    }

    // floppy_read_sector
    method ReadSector()
      requires Ready()
      modifies this`sector, this`sectorCounter, this`abnormal, this`endOfCylinder, this`ioState,
               dma`flpSize, dma`flpLimit, dma.flpData
      ensures Ready()
      ensures old(abnormal || sector > Spt(size)) ==>
                && abnormal && sectorCounter == 0 && ioState == IoInterrupt && sector == old(sector)
                && dma.flpSize == old(dma.flpSize)
                && (old(abnormal) || endOfCylinder)
      ensures !old(abnormal || sector > Spt(size)) ==>
                && sector == old(sector) + 1 && sectorCounter == old(sectorCounter) - 1 && ioState == old(ioState)
                && abnormal == (sectorCounter == 0) && endOfCylinder == (old(endOfCylinder) || sectorCounter == 0)
                && dma.flpSize == dma.flpLimit == SECTOR
      ensures !old(abnormal) && old(SectorThere()) ==> dma.flpData[..SECTOR] == Sectors(image, old(Here()), 1)
    {
      hide KnownSize, Spt, EspDma.FloppyReady, Logical;
      var l := PhysicalToLogical();
      if abnormal {
        sectorCounter := 0;
        ioState := IoInterrupt;
      } else {
        SptBound();
        dma.FullSector(image, l * SECTOR, SECTOR);
        NextSector();
      }
    }

    lemma SptBound()
      requires DiskOk()
      ensures Spt(size) < 255
    {}

    // The channel can take the whole sector in the buffer, burst by burst.
    ghost predicate SectorFits()
      reads dma
    {
      && dma.flpSize == dma.flpLimit == SECTOR && dma.bufLimit == 0 && dma.enabled && !dma.supdate
      && dma.next % DMA_BURST_SIZE == 0 && dma.next + SECTOR <= dma.limit
    }

    // dma_esp_write_memory on behalf of the floppy.
    method Drain()
      requires Ready()
      modifies dma`next, dma`limit, dma`enabled, dma`supdate, dma`complete, dma`interrupt, dma`bufSize, dma`bufLimit,
               dma`flpSize, dma`espCounter, dma`diskOut, dma`taken, dma`given, dma`shadow, dma.buf, dma.mem
      ensures dma.Valid() && dma.Conserved() && dma.flpSize <= old(dma.flpSize)
      ensures !old(dma.enabled) ==> dma.flpSize == old(dma.flpSize)
      ensures old(dma.Coherent()) ==> dma.Coherent()
      ensures old(SectorFits()) ==> Ready() && dma.flpSize == 0 && dma.bufLimit == 0
      ensures old(SectorFits()) ==> Patched(old(dma.mem[..]), dma.mem[..], old(dma.next), old(dma.flpData[..SECTOR]))
      ensures old(SectorFits()) ==> dma.Advanced(old(dma.next) + SECTOR, old(dma.limit), false, true, old(dma.complete))
    {
      hide KnownSize, Moved, Delivered, Patched, EspDma.Conserved, EspDma.Supply, EspDma.StoppedAt, EspDma.Advanced,
           EspDma.Coherent, EspDma.OtherDeviceKept, EspDma.Aligned, EspDma.PositionAligned, DiskOk, WholeBursts,
             SectorFits;
      ghost var m0, a, t0, s0, limit0, fits := dma.mem[..], dma.next, dma.taken, dma.Supply(), dma.limit, SectorFits();
      dma.SupplyLength();
      if fits { Offered(); }
      ghost var k, n := dma.WriteMemory();
      dma.SupplyLength();
      if fits {
        Drained(m0, a, t0, s0, limit0, k, n);
        StillReady(n, limit0, old(dma.complete));
      }
      SupplyShrinks(s0, dma.Supply(), t0, dma.taken, k);
    }

    lemma Offered()
      requires Ready() && SectorFits()
      ensures dma.enabled && !dma.supdate && dma.bufLimit == 0 && dma.next % DMA_BURST_SIZE == 0
              && dma.next + SECTOR <= dma.limit
      ensures dma.Supply() == dma.flpData[..SECTOR] && dma.taken == dma.given && dma.limit % DMA_BURST_SIZE == 0
              && dma.limit <= dma.mem.Length
    {}

    lemma StillReady(n: nat, limit0: nat, complete0: bool)
      requires dma.Valid() && dma.Conserved() && dma.PositionAligned() && dma.bufLimit % 4 == 0 && dma.floppySelect
               && DiskOk()
      requires dma.Advanced(n, limit0, false, true, complete0)
      requires n % 4 == 0 && limit0 % DMA_BURST_SIZE == 0 && limit0 <= dma.mem.Length
      ensures Ready()
    {}

    lemma DrainEnds(n: nat, limit0: nat)
      requires dma.Valid() && dma.Conserved() && dma.StoppedAt(n, limit0)
      ensures dma.BufferOk() && dma.FloppyOk()
      ensures dma.taken == dma.given + dma.Fifo() && |dma.Fifo()| <= dma.bufLimit <= DMA_BURST_SIZE
      ensures (dma.bufLimit < DMA_BURST_SIZE && dma.Supply() == [])
              || (dma.bufLimit == DMA_BURST_SIZE && |dma.Fifo()| > 0 && n == limit0)
    {}

    // What dma_esp_write_memory's outcome means for a whole sector.
    lemma Drained(m0: seq<byte>, a: nat, t0: seq<byte>, s0: seq<byte>, limit0: nat, k: nat, n: nat)
      requires dma.Valid() && dma.Conserved() && n <= limit0 && dma.StoppedAt(n, limit0)
      requires |s0| == SECTOR && a % DMA_BURST_SIZE == 0 && limit0 % DMA_BURST_SIZE == 0 && a + SECTOR <= limit0
      requires Moved(s0, dma.Supply(), t0, dma.taken, k) && Delivered(m0, dma.mem[..], a, n, t0, dma.given)
      requires WholeBursts(k - dma.bufLimit)
      ensures n == a + SECTOR && n % 4 == 0 && dma.bufLimit == 0 && dma.Supply() == []
              && Patched(m0, dma.mem[..], a, s0)
    {
      hide *;
      DrainEnds(n, limit0);
      WholeSector(s0, dma.Supply(), t0, dma.taken, dma.given, dma.Fifo(), m0, dma.mem[..], a, n, limit0, k,
        dma.bufLimit);
      LongAfter(a);
    }

    // ----- WRITE -----

    // The buffer is empty or full, and what it holds was read ahead of the device.
    ghost predicate ReadAhead()
      requires dma.BufferOk()
      reads dma`bufSize, dma`bufLimit, dma`next, dma.buf, dma.mem
    {
      && dma.bufSize == dma.bufLimit && (dma.bufLimit == 0 || dma.bufLimit == DMA_BURST_SIZE)
      && dma.bufSize <= dma.next <= dma.mem.Length && dma.Fifo() == dma.mem[dma.next - dma.bufSize..dma.next]
    }

    // The memory address of the next byte the device gets.
    ghost function Source(): int
      reads dma`next, dma`bufSize
    {
      dma.next - dma.bufSize
    }

    // The device asks for a whole sector, and the channel still has one.
    ghost predicate SectorAsked()
      requires dma.Valid()
      reads dma, dma.buf, dma.mem
    {
      && dma.flpSize == 0 && dma.flpLimit == SECTOR && ReadAhead() && dma.enabled && !dma.supdate
      && dma.next % DMA_BURST_SIZE == 0 && Source() + SECTOR <= dma.limit
    }

    // dma_esp_read_memory on behalf of the floppy.
    method Fetch()
      requires Ready()
      modifies dma`next, dma`limit, dma`enabled, dma`supdate, dma`complete, dma`interrupt, dma`bufSize, dma`bufLimit,
               dma`flpSize, dma`espCounter, dma`diskIn, dma`diskWants, dma`taken, dma`given, dma.buf, dma.flpData
      ensures dma.Valid() && dma.Conserved() && dma.flpSize >= old(dma.flpSize)
      ensures !old(dma.enabled) ==> dma.flpSize == old(dma.flpSize)
      ensures old(SectorAsked()) ==> SectorFetched(old(Source()), old(dma.limit), old(dma.complete))
    {
      hide KnownSize, EspDma.Conserved, EspDma.Sink, EspDma.Room, EspDma.ReadStoppedAt, EspDma.Advanced, EspDma.Fifo,
           SectorAsked, ReadAhead, SectorFetched;
      ghost var m, a, b, limit0, asked := dma.mem[..], dma.next, dma.bufLimit, dma.limit, SectorAsked();
      ghost var t0, g0, f0 := dma.taken, dma.given, dma.Fifo();
      dma.SinkLength();
      if asked { Asked(m); }
      ghost var x, n := dma.ReadMemory();
      dma.SinkLength();
      if asked {
        FetchEnds(m, a, b, limit0, t0, g0, f0, x, n, old(dma.complete));
      }
    }

    lemma FetchEnds(m: seq<byte>, a: nat, b: nat, limit0: nat, t0: seq<byte>, g0: seq<byte>, f0: seq<byte>,
            x: seq<byte>, n: nat, complete0: bool)
      requires dma.Valid() && dma.Conserved() && dma.ReadStoppedAt(n, limit0) && dma.floppySelect && m == dma.mem[..]
      requires (b == 0 || b == DMA_BURST_SIZE) && a % DMA_BURST_SIZE == 0 && limit0 % DMA_BURST_SIZE == 0
      requires b <= a < limit0 <= |m| && a <= n <= limit0 && a - b + SECTOR <= limit0 && DiskOk()
      requires |f0| == b && f0 == m[a - b..a] && t0 == g0 + f0
      requires if n > a then dma.taken == t0 + dma.mem[a..n] else dma.taken == t0
      requires dma.given == g0 + x && dma.Sink() == [] + x && dma.Room() == SECTOR - |x| && dma.flpLimit == SECTOR
      requires WholeBursts(n - a + b - dma.bufLimit) && dma.Advanced(n, limit0, false, true, complete0)
      ensures SectorFetched(a - b, limit0, complete0)
    {
      hide DiskOk, EspDma.Conserved, EspDma.Sink, EspDma.Room, EspDma.ReadStoppedAt, EspDma.Advanced, EspDma.Fifo,
           EspDma.PositionAligned, ReadAhead;
      dma.AdvancedOnce(n, limit0, complete0);
      assert dma.taken == t0 + m[a..n] by { MemSlice(m, a, n, t0); }
      assert [] + x == x;
      Fetched(m, a, b, limit0, t0, g0, f0, x, n);
      BurstIsLong(n);
      StillReady(n, limit0, complete0);
    }

    lemma MemSlice(m: seq<byte>, a: nat, n: nat, t: seq<byte>)
      requires m == dma.mem[..] && a <= n <= |m|
      ensures dma.mem[a..n] == m[a..n] && t + m[a..a] == t
    {}

    // A whole sector has come from memory at src, and perhaps a burst of what follows it.
    ghost predicate SectorFetched(src: int, limit0: nat, complete0: bool)
      reads this, dma, dma.buf, dma.mem, dma.flpData
    {
      && Ready() && dma.flpSize == SECTOR && ReadAhead() && Source() == src + SECTOR && dma.next % DMA_BURST_SIZE == 0
      && 0 <= src && dma.flpData[..SECTOR] == dma.mem[..][src..src + SECTOR]
      && dma.Advanced(dma.next, limit0, false, true, complete0)
    }

    lemma Asked(m: seq<byte>)
      requires Ready() && SectorAsked() && m == dma.mem[..]
      ensures dma.next < dma.limit <= dma.mem.Length && dma.limit % DMA_BURST_SIZE == 0 && dma.Sink() == []
              && dma.Room() == SECTOR
      ensures dma.taken == dma.given + dma.Fifo() && |dma.Fifo()| == dma.bufLimit == dma.bufSize
      ensures dma.bufSize <= dma.next && dma.Fifo() == m[dma.next - dma.bufSize..dma.next]
      ensures (dma.bufLimit == 0 || dma.bufLimit == DMA_BURST_SIZE) && dma.enabled && !dma.supdate
      ensures dma.next % DMA_BURST_SIZE == 0 && dma.next - dma.bufSize + SECTOR <= dma.limit
    {}

    // What dma_esp_read_memory's outcome means for a whole sector.
    lemma Fetched(m: seq<byte>, a: nat, b: nat, limit0: nat, t0: seq<byte>, g0: seq<byte>, f0: seq<byte>, x: seq<byte>,
            n: nat)
      requires dma.Valid() && dma.Conserved() && dma.ReadStoppedAt(n, limit0) && dma.floppySelect && m == dma.mem[..]
      requires (b == 0 || b == DMA_BURST_SIZE) && a % DMA_BURST_SIZE == 0 && limit0 % DMA_BURST_SIZE == 0
      requires b <= a <= n <= limit0 <= |m| && a - b + SECTOR <= limit0
      requires |f0| == b && f0 == m[a - b..a] && t0 == g0 + f0
      requires dma.taken == t0 + m[a..n] && dma.given == g0 + x
      requires dma.Sink() == x && dma.Room() == SECTOR - |x| && dma.flpLimit == SECTOR
      requires WholeBursts(n - a + b - dma.bufLimit) && dma.next == n
      ensures ReadAhead() && Source() == a - b + SECTOR && dma.flpSize == SECTOR && n % DMA_BURST_SIZE == 0
      ensures dma.flpData[..SECTOR] == m[a - b..a - b + SECTOR]
      ensures dma.PositionAligned() && dma.bufLimit % 4 == 0
    {
      hide EspDma.Advanced, EspDma.Aligned, EspDma.Sink, EspDma.Room, EspDma.Fifo, ReadAhead;
      dma.SinkLength();
      dma.FifoLength();
      FetchedSector(m, a, n, limit0, f0, dma.bufLimit, dma.Fifo(), t0, dma.taken, g0, dma.given, x);
      SinkIs();
      ReadAheadOf(n);
    }

    lemma SinkIs()
      requires dma.Valid() && dma.floppySelect && dma.flpSize == SECTOR
      ensures dma.Sink() == dma.flpData[..SECTOR]
    {}

    lemma ReadAheadOf(n: nat)
      requires dma.Valid() && dma.next == n && dma.bufSize == dma.bufLimit
               && (dma.bufLimit == 0 || dma.bufLimit == DMA_BURST_SIZE)
      requires dma.bufSize <= n <= dma.mem.Length && dma.Fifo() == dma.mem[..][n - |dma.Fifo()|..n]
      ensures ReadAhead()
    {}

    // ----- the handler -----

    // Once the device has taken a whole sector, the next one is read while any is left.
    method Take()
      requires Ready()
      modifies this`sector, this`sectorCounter, this`abnormal, this`endOfCylinder, this`ioState,
               dma`flpSize, dma`flpLimit, dma.flpData
      ensures Ready()
      ensures ioState == old(ioState) || (dma.flpSize == 0 && sectorCounter == 0)
      ensures old(!abnormal && sectorCounter > 0) && sectorCounter == 0 ==> abnormal && endOfCylinder
      ensures old(!abnormal && sectorCounter > 0 && dma.flpSize == 0 && SectorThere()) ==> dma.flpSize == SECTOR
      ensures old(ReadDue()) ==>
                && SectorFits() && dma.flpSize == SECTOR && ioState == old(ioState)
                && dma.flpData[..SECTOR] == Sectors(image, old(Here()), 1)
                && sectorCounter == old(sectorCounter) - 1 && sector == old(sector) + 1
                && abnormal == (sectorCounter == 0) && (sectorCounter == 0 ==> endOfCylinder)
    {
      hide KnownSize, Spt, EspDma.FloppyReady, Here;
      if dma.flpSize == 0 && sectorCounter > 0 {
        ReadSector();
      }
    }

    // The READ branch of FLP_IO_Handler.
    method HandleRead() returns (again: bool)
      requires Ready() && ioState == IoRead
      modifies this`sector, this`sectorCounter, this`abnormal, this`endOfCylinder, this`overrun, this`ioState,
               this`interrupts,
               dma`next, dma`limit, dma`enabled, dma`supdate, dma`complete, dma`interrupt, dma`bufSize, dma`bufLimit,
               dma`flpSize, dma`flpLimit, dma`espCounter, dma`diskOut, dma`taken, dma`given, dma`shadow,
               dma.buf, dma.mem, dma.flpData
      ensures dma.Valid() && dma.Conserved() && (old(dma.Coherent()) ==> dma.Coherent())
      ensures !again && old(sectorCounter > 0 && !abnormal)
              ==> sectorCounter == 0 && abnormal && (endOfCylinder || overrun)
      ensures old(!dma.enabled && !abnormal && SectorThere() && dma.flpSize == 0 && sectorCounter > 0)
              ==> !again && overrun
      ensures if again then ioState == IoRead && interrupts == old(interrupts)
              else ioState == IoDone && interrupts == old(interrupts) + 1
      ensures old(ReadDue()) ==> Patched(old(dma.mem[..]), dma.mem[..], old(dma.next), Sectors(image, old(Here()), 1))
      ensures old(ReadDue()) ==> ReadMoved(old(dma.next), old(dma.limit), old(sector), old(sectorCounter), again)
    {
      hide KnownSize, Spt, EspDma.FloppyReady, Here, Patched, EspDma.Conserved, EspDma.Coherent, ReadDue, SectorFits,
           ReadMoved;
      ghost var due := ReadDue();
      ghost var m0, n, limit0, s, count := dma.mem[..], dma.next, dma.limit, sector, sectorCounter;
      if due { ReadDueMeans(); }
      Take();
      dma.FloppyReadyMeans();
      again := true;
      if dma.flpSize > 0 {
        var oldSize := dma.flpSize;
        Drain();
        if dma.flpSize == oldSize {
          NoMoreData();
          again := false;
        }
      }
      if again && dma.flpSize == 0 && sectorCounter == 0 {
        again := false;
      }
      if !again { Finish(); }
      if due {
        ReadMovedOn(n, limit0, s, count, again, old(dma.complete));
      }
    }

    lemma ReadDueMeans()
      requires ReadDue()
      ensures Ready() && !overrun && 0 < sectorCounter && sector + sectorCounter <= Spt(size) + 1 && SectorThere()
      ensures dma.next % DMA_BURST_SIZE == 0 && dma.next + SECTOR * sectorCounter <= dma.limit
    {}

    lemma ReadMovedOn(n: nat, limit0: nat, s: nat, count: int, again: bool, complete0: bool)
      requires Ready() && dma.flpSize == 0 && dma.bufLimit == 0
               && dma.Advanced(n + SECTOR, limit0, false, true, complete0)
      requires sectorCounter == count - 1 >= 0 && sector == s + 1 && s + count <= Spt(size) + 1 && head < TRACKS_PER_CYL
      requires abnormal == (sectorCounter == 0) && (sectorCounter == 0 ==> endOfCylinder) && !overrun
               && (again ==> ioState == IoRead)
      requires n % DMA_BURST_SIZE == 0 && n + SECTOR * count <= limit0 && again == (sectorCounter > 0)
      ensures ReadMoved(n, limit0, s, count, again)
    {
      hide KnownSize, Spt, EspDma.FloppyReady;
    }

    // A READ is under way, with this many sectors to come and a channel that can take them all.
    ghost predicate ReadDue()
      reads this, dma, dma.buf
    {
      && Ready() && ioState == IoRead && !abnormal && !overrun
      && SectorThere() && 0 < sectorCounter && sector + sectorCounter <= Spt(size) + 1
      && dma.flpSize == 0 && dma.bufLimit == 0 && dma.enabled && !dma.supdate
      && dma.next % DMA_BURST_SIZE == 0 && dma.next + SECTOR * sectorCounter <= dma.limit
    }

    // One sector later: the READ goes on, or it has ended in the way the controller reports.
    ghost predicate ReadMoved(n: nat, limit0: nat, s: nat, count: int, again: bool)
      reads this, dma, dma.buf
    {
      && sectorCounter == count - 1 && sector == s + 1 && dma.next == n + SECTOR && dma.limit == limit0
      && again == (sectorCounter > 0)
      && (if again then ReadDue()
          else
            && Ready() && dma.bufLimit == 0 && abnormal && endOfCylinder && !overrun
            && dma.enabled == (dma.next < dma.limit))
    }

    // floppy_write_sector
    method WriteSector()
      requires Ready() && dma.flpSize == dma.flpLimit == SECTOR
      modifies this`image, this`sector, this`sectorCounter, this`abnormal, this`endOfCylinder, this`ioState,
               dma`flpSize, dma`flpLimit
      ensures Ready()
      ensures old(abnormal || sector > Spt(size)) ==>
                && abnormal && sectorCounter == 0 && ioState == IoInterrupt && image == old(image)
                && (old(abnormal) || endOfCylinder)
      ensures !old(abnormal || sector > Spt(size)) ==>
                && sector == old(sector) + 1 && sectorCounter == old(sectorCounter) - 1 && ioState == old(ioState)
                && abnormal == (sectorCounter == 0) && endOfCylinder == (old(endOfCylinder) || sectorCounter == 0)
                && dma.flpSize == 0 && dma.flpLimit == SECTOR
      ensures !old(abnormal) && old(SectorThere())
              ==> Patched(old(image), image, old(Here()) * SECTOR, dma.flpData[..SECTOR])
    {
      hide KnownSize, Spt, EspDma.FloppyReady, Logical;
      dma.FloppyReadyMeans();
      var l := PhysicalToLogical();
      if abnormal {
        sectorCounter := 0;
        ioState := IoInterrupt;
      } else {
        SptBound();
        if 0 <= l && l * SECTOR + SECTOR <= |image| {
          image := image[..l * SECTOR] + dma.flpData[..SECTOR] + image[l * SECTOR + SECTOR..];
        }
        dma.EmptySector(SECTOR);
        NextSector();
      }
    }

    // A WRITE is under way, with this many sectors to come and a channel that can supply them all.
    // When one is held it is in the floppy's buffer already.
    ghost predicate WriteDue(held: bool)
      reads this, dma, dma.buf, dma.mem
    {
      && Ready() && ioState == IoWrite && !abnormal && !overrun
      && SectorThere() && 0 < sectorCounter && sector + sectorCounter <= Spt(size) + 1
      && dma.flpLimit == SECTOR && dma.flpSize == (if held then SECTOR else 0)
      && WriteLeft(dma.limit, dma.enabled, if held then sectorCounter - 1 else sectorCounter)
    }

    lemma WriteDueMeans(held: bool)
      requires WriteDue(held)
      ensures Ready() && dma.flpLimit == SECTOR && SectorThere() && 0 < sectorCounter
              && sector + sectorCounter <= Spt(size) + 1 && !abnormal && !overrun
      ensures dma.flpSize == if held then SECTOR else 0
      ensures !held ==> SectorAsked() && Source() + SECTOR * sectorCounter <= dma.limit
      ensures held ==> WriteLeft(dma.limit, dma.enabled, sectorCounter - 1) && dma.flpLimit == SECTOR
    {}

    // With left sectors to come, the channel stands where it can supply them.
    ghost predicate WriteLeft(limit: nat, enabled: bool, left: int)
      requires dma.BufferOk()
      reads dma`bufSize, dma`bufLimit, dma`next, dma`supdate, dma.buf, dma.mem
    {
      && ReadAhead() && !dma.supdate && dma.next % DMA_BURST_SIZE == 0 && Source() + SECTOR * left <= limit
      && (left > 0 ==> enabled)
    }

    lemma WrittenNow(s: nat, left: int)
      requires Ready() && dma.flpSize == 0 && dma.flpLimit == SECTOR && WriteLeft(dma.limit, dma.enabled, left)
      requires ioState == IoWrite && !abnormal && !overrun && sectorCounter == left > 0 && sector == s + 1
      requires head < TRACKS_PER_CYL && 1 <= s && s + 1 + left <= Spt(size) + 1
      ensures WriteDue(false)
    {
      hide KnownSize, Spt, EspDma.FloppyReady;
    }

    lemma HeldNow(limit0: nat, complete0: bool)
      requires Ready() && dma.flpSize == dma.flpLimit == SECTOR && ReadAhead() && ioState == IoWrite && !abnormal
               && !overrun
      requires SectorThere() && 0 < sectorCounter && sector + sectorCounter <= Spt(size) + 1
      requires Source() + SECTOR * (sectorCounter - 1) <= limit0 && dma.next % DMA_BURST_SIZE == 0
      requires dma.Advanced(dma.next, limit0, false, true, complete0)
      ensures WriteDue(true) && dma.limit == limit0
    {
      hide KnownSize, Spt, EspDma.FloppyReady;
    }

    // The WRITE branch of FLP_IO_Handler.
    method HandleWrite() returns (again: bool)
      requires Ready() && ioState == IoWrite && dma.flpLimit == SECTOR
      modifies this`image, this`sector, this`sectorCounter, this`abnormal, this`endOfCylinder, this`overrun,
               this`ioState,
               this`interrupts, dma`next, dma`limit, dma`enabled, dma`supdate, dma`complete, dma`interrupt, dma`bufSize,
               dma`bufLimit, dma`flpSize, dma`flpLimit, dma`espCounter, dma`diskIn, dma`diskWants, dma`taken, dma`given,
               dma.buf, dma.flpData
      ensures dma.Valid() && dma.Conserved()
      ensures !again && old(sectorCounter > 0 && !abnormal)
              ==> sectorCounter == 0 && abnormal && (endOfCylinder || overrun)
      ensures old(!dma.enabled && dma.flpSize < SECTOR) ==> !again && overrun
      ensures if again then ioState == IoWrite && interrupts == old(interrupts)
              else ioState == IoDone && interrupts == old(interrupts) + 1
      ensures old(WriteDue(false)) ==>
                && again && WriteDue(true) && Source() == old(Source()) + SECTOR && dma.limit == old(dma.limit)
                && sector == old(sector) && sectorCounter == old(sectorCounter) && image == old(image)
                && dma.flpData[..SECTOR] == dma.mem[..][old(Source())..Source()]
      ensures old(WriteDue(true)) ==>
                && again == (sectorCounter > 0) && Source() == old(Source()) && dma.limit == old(dma.limit) && Ready()
                && sector == old(sector) + 1 && sectorCounter == old(sectorCounter) - 1
                && dma.flpData[..] == old(dma.flpData[..])
                && Patched(old(image), image, old(Here()) * SECTOR, old(dma.flpData[..SECTOR]))
                && (if again then WriteDue(false) else abnormal && endOfCylinder && !overrun)
    {
      hide KnownSize, Spt, Here, EspDma.FloppyReady, WriteDue, WriteLeft, EspDma.Conserved, EspDma.Advanced, ReadAhead,
           SectorAsked, Patched;
      ghost var ask, held, c, s, left := WriteDue(false), WriteDue(true), dma.complete, sector, sectorCounter - 1;
      if ask { WriteDueMeans(false); }
      if held { WriteDueMeans(true); }
      dma.FloppyReadyMeans();
      again := true;
      if dma.flpSize == dma.flpLimit {
        WriteSector();
        dma.FloppyReadyMeans();
        again := sectorCounter != 0;
        if held && again { WrittenNow(s, left); }
      } else {
        var oldSize := dma.flpSize;
        Fetch();
        if dma.flpSize == oldSize {
          NoMoreData();
          again := false;
        }
        if ask { HeldNow(old(dma.limit), c); }
      }
      if !again { Finish(); }
    }

    // FLP_IO_Handler, formatting aside; it is called again as long as it re-arms its event.
    method Handler() returns (again: bool)
      requires Ready() && (ioState == IoWrite ==> dma.flpLimit == SECTOR)
      modifies this`image, this`sector, this`sectorCounter, this`abnormal, this`endOfCylinder, this`overrun,
               this`ioState,
               this`interrupts, dma`next, dma`limit, dma`enabled, dma`supdate, dma`complete, dma`interrupt, dma`bufSize,
               dma`bufLimit, dma`flpSize, dma`flpLimit, dma`espCounter, dma`diskIn, dma`diskOut, dma`diskWants,
               dma`taken,
               dma`given, dma`shadow, dma.buf, dma.mem, dma.flpData
      ensures dma.Valid() && dma.Conserved() && (old(dma.Coherent()) ==> dma.Coherent())
      ensures if again then ioState == old(ioState) else ioState == IoDone
      ensures interrupts == if again || old(ioState == IoDone) then old(interrupts) else old(interrupts) + 1
      ensures old(ioState == IoInterrupt || ioState == IoDone) ==> !again
      ensures !again && old((ioState == IoRead || ioState == IoWrite) && sectorCounter > 0 && !abnormal) ==>
                sectorCounter == 0 && abnormal && (endOfCylinder || overrun)
      ensures old(!dma.enabled && ioState == IoWrite && dma.flpSize < SECTOR) ==> !again && overrun
      ensures old(!dma.enabled && ioState == IoRead && !abnormal && SectorThere() && dma.flpSize == 0
              && sectorCounter > 0) ==>
                !again && overrun
      ensures old(ioState != IoWrite) ==> image == old(image)
      ensures old(ioState != IoRead) ==> dma.mem[..] == old(dma.mem[..])
      ensures old(ReadDue()) ==>
                && ReadMoved(old(dma.next), old(dma.limit), old(sector), old(sectorCounter), again)
                && Patched(old(dma.mem[..]), dma.mem[..], old(dma.next), Sectors(image, old(Here()), 1))
      ensures old(WriteDue(false)) ==>
                && again && WriteDue(true) && Source() == old(Source()) + SECTOR && dma.limit == old(dma.limit)
                && sector == old(sector) && sectorCounter == old(sectorCounter) && image == old(image)
                && dma.flpData[..SECTOR] == dma.mem[..][old(Source())..Source()]
      ensures old(WriteDue(true)) ==>
                && again == (sectorCounter > 0) && Source() == old(Source()) && dma.limit == old(dma.limit) && Ready()
                && sector == old(sector) + 1 && sectorCounter == old(sectorCounter) - 1
                && Patched(old(image), image, old(Here()) * SECTOR, old(dma.flpData[..SECTOR]))
                && (if again then WriteDue(false) else abnormal && endOfCylinder && !overrun)
    {
      hide KnownSize, Spt, Here, EspDma.FloppyReady, WriteDue, ReadDue, ReadMoved, EspDma.Conserved, Patched;
      StateOfDue();
      dma.FloppyReadyMeans();
      match ioState
      case IoRead =>
        again := HandleRead();
      case IoWrite =>
        again := HandleWrite();
      case IoInterrupt =>
        Finish();
        again := false;
      case IoDone =>
        again := false;
    }

    lemma StateOfDue()
      ensures ReadDue() ==> ioState == IoRead
      ensures WriteDue(false) || WriteDue(true) ==> ioState == IoWrite
    {}

    // All the sectors to come are on the disk.
    ghost predicate Rest(count: nat)
      reads this`cyl, this`head, this`sector, this`size, this`image
    {
      DiskOk() && SectorThere() && 0 < count && sector + count <= Spt(size) + 1
    }

    lemma RestInImage(count: nat)
      requires Rest(count)
      ensures (Here() + count) * SECTOR <= |image|
    {
      LogicalInRange(cyl, head, sector + count - 1, Spt(size));
      KnownGeometry(size);
    }

    lemma DueRest()
      requires ReadDue() || WriteDue(false)
      ensures sectorCounter > 0 && Rest(sectorCounter)
    {}

    lemma HereAfter(l: nat, s: nat, i: nat)
      requires DiskOk() && SectorThere() && l == Logical(cyl, head, s, Spt(size)) && sector == s + i
      ensures Here() == l + i
    {}

    // How a transfer stands when the handler has or has not re-armed its event: under way, or over
    // with one interrupt, which reports the end of the cylinder.
    ghost predicate Stands(again: bool, interrupts0: nat)
      reads this, dma, dma.buf, dma.mem
    {
      if again then (ReadDue() || WriteDue(false)) && interrupts == interrupts0
      else Ready() && ioState == IoDone && interrupts == interrupts0 + 1 && abnormal && endOfCylinder && !overrun
    }

    lemma StandsReading(interrupts0: nat)
      requires Stands(true, interrupts0) && ioState == IoRead
      ensures ReadDue() && Ready() && sectorCounter > 0 && interrupts == interrupts0 && Rest(1)
              && Here() == Logical(cyl, head, sector, Spt(size))
    {
      hide KnownSize, Spt, EspDma.FloppyReady;
    }

    lemma StandsWriting(interrupts0: nat)
      requires Stands(true, interrupts0) && ioState == IoWrite
      ensures WriteDue(false) && Ready() && sectorCounter > 0 && interrupts == interrupts0 && SectorThere()
              && Here() == Logical(cyl, head, sector, Spt(size))
      ensures 0 <= Source() && Source() + SECTOR <= dma.mem.Length
    {
      hide KnownSize, Spt;
    }

    // One call of the handler: a sector of the image goes to memory.
    method ReadOne(ghost interrupts0: nat) returns (again: bool)
      requires Stands(true, interrupts0) && ioState == IoRead
      modifies this`image, this`sector, this`sectorCounter, this`abnormal, this`endOfCylinder, this`overrun,
               this`ioState,
               this`interrupts, dma`next, dma`limit, dma`enabled, dma`supdate, dma`complete, dma`interrupt, dma`bufSize,
               dma`bufLimit, dma`flpSize, dma`flpLimit, dma`espCounter, dma`diskIn, dma`diskOut, dma`diskWants,
               dma`taken,
               dma`given, dma`shadow, dma.buf, dma.mem, dma.flpData
      ensures Stands(again, interrupts0) && again == (sectorCounter > 0) && (again ==> ioState == IoRead)
      ensures sector == old(sector) + 1 && sectorCounter == old(sectorCounter) - 1 && dma.next == old(dma.next) + SECTOR
      ensures image == old(image) && (old(dma.Coherent()) ==> dma.Coherent())
      ensures Loaded(old(dma.mem[..]), dma.mem[..], old(dma.next), image, Logical(cyl, head, old(sector), Spt(size)), 1)
    {
      hide KnownSize, Spt, Here, EspDma.FloppyReady, WriteDue, ReadDue, EspDma.Conserved, EspDma.Coherent, Patched,
           Logical;
      StandsReading(interrupts0);
      again := Handler();
    }

    // Two calls of the handler: one to fetch a sector from memory, one to write it to the image.
    method WriteOne(ghost interrupts0: nat) returns (again: bool)
      requires Stands(true, interrupts0) && ioState == IoWrite
      modifies this`image, this`sector, this`sectorCounter, this`abnormal, this`endOfCylinder, this`overrun,
               this`ioState,
               this`interrupts, dma`next, dma`limit, dma`enabled, dma`supdate, dma`complete, dma`interrupt, dma`bufSize,
               dma`bufLimit, dma`flpSize, dma`flpLimit, dma`espCounter, dma`diskIn, dma`diskOut, dma`diskWants,
               dma`taken,
               dma`given, dma`shadow, dma.buf, dma.mem, dma.flpData
      ensures Stands(again, interrupts0) && again == (sectorCounter > 0) && (again ==> ioState == IoWrite)
      ensures sector == old(sector) + 1 && sectorCounter == old(sectorCounter) - 1 && Source() == old(Source()) + SECTOR
      ensures dma.mem[..] == old(dma.mem[..]) && (old(dma.Coherent()) ==> dma.Coherent())
      ensures Written(old(image), image, Logical(cyl, head, old(sector), Spt(size)), dma.mem[..], old(Source()), 1)
    {
      hide KnownSize, Spt, Here, EspDma.FloppyReady, WriteDue, ReadDue, EspDma.Conserved, EspDma.Coherent, Patched,
           Logical, WriteLeft, EspDma.BufferOk, EspDma.FloppyOk, EspDma.Fifo, ReadAhead, SectorThere, ReadMoved,
             Sectors,
           DiskOk;
      StandsWriting(interrupts0);
      WriteDueMeans(false);
      ghost var l, s := Here(), sector;
      again := Handler();
      WriteDueMeans(true);
      StateOfDue();
      HereAfter(l, s, 0);
      again := Handler();
    }

    // A READ's transfer: the image's sectors from the current one on go to memory.
    method RunRead()
      requires ReadDue()
      modifies this`image, this`sector, this`sectorCounter, this`abnormal, this`endOfCylinder, this`overrun,
               this`ioState,
               this`interrupts, dma`next, dma`limit, dma`enabled, dma`supdate, dma`complete, dma`interrupt, dma`bufSize,
               dma`bufLimit, dma`flpSize, dma`flpLimit, dma`espCounter, dma`diskIn, dma`diskOut, dma`diskWants,
               dma`taken,
               dma`given, dma`shadow, dma.buf, dma.mem, dma.flpData
      ensures Stands(false, old(interrupts)) && image == old(image) && (old(dma.Coherent()) ==> dma.Coherent())
      ensures sector == old(sector) + old(sectorCounter) && dma.next == old(dma.next) + SECTOR * old(sectorCounter)
      ensures Loaded(old(dma.mem[..]), dma.mem[..], old(dma.next), image, Logical(cyl, head, old(sector), Spt(size)),
              old(sectorCounter))
    {
      hide Spt, Stands, Loaded, EspDma.Coherent, Logical;
      DueStands();
      ghost var m0, img, a, s, count, ints := dma.mem[..], image, dma.next, sector, sectorCounter, interrupts;
      ghost var i, l := 0, Logical(cyl, head, s, Spt(size));
      LoadedNone(m0, a, img, l, count);
      hide *;
      var again := true;
      while again
        invariant i == count - sectorCounter && 0 <= i <= count && sector == s + i && dma.next == a + SECTOR * i
                  && image == img
        invariant Loaded(m0, dma.mem[..], a, img, l, i) && Stands(again, ints)
        invariant again == (sectorCounter > 0) && (again ==> ioState == IoRead)
                  && (old(dma.Coherent()) ==> dma.Coherent())
        decreases sectorCounter
      {
        ghost var m := dma.mem[..];
        LogicalStep(cyl, head, s, i, Spt(size));
        again := ReadOne(ints);
        LoadedMany(m0, m, dma.mem[..], a, img, l, i, 1);
        i := i + 1;
      }
    }

    // A WRITE's transfer: memory from the channel's source on goes to the image.
    method RunWrite()
      requires WriteDue(false)
      modifies this`image, this`sector, this`sectorCounter, this`abnormal, this`endOfCylinder, this`overrun,
               this`ioState,
               this`interrupts, dma`next, dma`limit, dma`enabled, dma`supdate, dma`complete, dma`interrupt, dma`bufSize,
               dma`bufLimit, dma`flpSize, dma`flpLimit, dma`espCounter, dma`diskIn, dma`diskOut, dma`diskWants,
               dma`taken,
               dma`given, dma`shadow, dma.buf, dma.mem, dma.flpData
      ensures Stands(false, old(interrupts)) && dma.mem[..] == old(dma.mem[..])
              && (old(dma.Coherent()) ==> dma.Coherent())
      ensures sector == old(sector) + old(sectorCounter) && Source() == old(Source()) + SECTOR * old(sectorCounter)
      ensures Written(old(image), image, Logical(cyl, head, old(sector), Spt(size)), dma.mem[..], old(Source()),
              old(sectorCounter))
    {
      hide Spt, Stands, Written, EspDma.Coherent, Logical;
      DueStands();
      ghost var m, img, src, s, count, ints := dma.mem[..], image, Source(), sector, sectorCounter, interrupts;
      ghost var i, l := 0, Logical(cyl, head, s, Spt(size));
      WrittenNone(img, l, m, src);
      hide *;
      var again := true;
      while again
        invariant i == count - sectorCounter && 0 <= i <= count && sector == s + i && dma.mem[..] == m
        invariant Source() == src + SECTOR * i && Written(img, image, l, m, src, i) && Stands(again, ints)
        invariant again == (sectorCounter > 0) && (again ==> ioState == IoWrite)
                  && (old(dma.Coherent()) ==> dma.Coherent())
        decreases sectorCounter
      {
        ghost var img1 := image;
        LogicalStep(cyl, head, s, i, Spt(size));
        again := WriteOne(ints);
        WrittenMany(img, img1, image, l, m, src, i, 1);
        i := i + 1;
      }
    }

    lemma DueStands()
      requires ReadDue() || WriteDue(false)
      ensures Stands(true, interrupts) && sectorCounter > 0
      ensures 0 <= Logical(cyl, head, sector, Spt(size))
              && (Logical(cyl, head, sector, Spt(size)) + sectorCounter) * SECTOR <= |image|
      ensures ReadDue() ==> ioState == IoRead
      ensures WriteDue(false) ==> ioState == IoWrite && 0 <= Source() <= dma.mem.Length
    {
      hide Spt;
      DueRest();
      RestInImage(sectorCounter);
    }

    // The state a command leaves when it is accepted and the channel has been programmed for it.
    ghost predicate Started()
      reads this, dma, dma.buf
    {
      && Ready() && SectorThere() && !abnormal && !overrun && 0 < sectorCounter
      && sector + sectorCounter <= Spt(size) + 1
      && dma.flpSize == 0 && dma.flpLimit == SECTOR && dma.bufSize == 0 && dma.bufLimit == 0 && dma.enabled
      && !dma.supdate
      && dma.next % DMA_BURST_SIZE == 0 && dma.next + SECTOR * sectorCounter <= dma.limit
    }

    lemma StartedIsDue()
      requires Started()
      ensures ioState == IoRead ==> ReadDue()
      ensures ioState == IoWrite ==> WriteDue(false) && Source() == dma.next
    {
      hide Spt, KnownSize;
    }

    // Program the channel for all of sectors s to e at memory address a, and issue the command.
    method Start(c: nat, h: nat, s: nat, e: nat, a: nat, write: bool)
      requires dma.Valid() && dma.floppySelect && DiskOk() && Accepts(c, h, h, s, 2, write)
      requires OnDisk(c, h, s, Spt(size)) && s <= e <= Spt(size)
      requires a % DMA_BURST_SIZE == 0 && a + SECTOR * (e - s + 1) <= dma.mem.Length
      modifies this, dma`next, dma`limit, dma`enabled, dma`supdate, dma`complete, dma`interrupt, dma`dev2m, dma`bufSize,
               dma`bufLimit, dma`flpSize, dma`flpLimit, dma`espCounter, dma`diskIn, dma`diskOut, dma`diskWants,
               dma`taken,
               dma`given, dma`shadow, dma.buf, dma.mem, dma.flpData
      ensures Started() && cyl == c && head == h && sector == s && sectorCounter == e - s + 1 && dma.next == a
      ensures ioState == (if write then IoWrite else IoRead) && interrupts == old(interrupts)
      ensures image == old(image) && size == old(size) && dma.mem[..] == old(dma.mem[..])
              && dma.shadow == old(dma.shadow)
      ensures eis == old(eis) && dataRateOk == old(dataRateOk) && isProtected == old(isProtected)
    {
      hide KnownSize, Spt, EspDma.FloppyReady;
      SptBound();
      dma.Program(a, a + SECTOR * (e - s + 1), !write);
      Command(c, h, h, s, 2, e, write);
    }

    // A WRITE of sectors s to e of a track from memory at a.
    method WriteTrack(c: nat, h: nat, s: nat, e: nat, a: nat)
      requires Ready() && Accepts(c, h, h, s, 2, true) && OnDisk(c, h, s, Spt(size)) && s <= e <= Spt(size)
      requires a % DMA_BURST_SIZE == 0 && a + SECTOR * (e - s + 1) <= dma.mem.Length
      modifies this, dma`next, dma`limit, dma`enabled, dma`supdate, dma`complete, dma`interrupt, dma`dev2m, dma`bufSize,
               dma`bufLimit, dma`flpSize, dma`flpLimit, dma`espCounter, dma`diskIn, dma`diskOut, dma`diskWants,
               dma`taken,
               dma`given, dma`shadow, dma.buf, dma.mem, dma.flpData
      ensures Ready() && Accepts(c, h, h, s, 2, false) && size == old(size) && dma.mem[..] == old(dma.mem[..])
      ensures eis == old(eis) && dataRateOk == old(dataRateOk) && isProtected == old(isProtected)
      ensures Written(old(image), image, Logical(c, h, s, Spt(size)), dma.mem[..], a, e - s + 1)
      ensures ioState == IoDone && interrupts == old(interrupts) + 1 && (old(dma.Coherent()) ==> dma.Coherent())
    {
      hide KnownSize, Spt, Logical, Written, ReadDue, WriteDue, Started, Accepts, Here, EspDma.FloppyReady;
      dma.FloppyReadyMeans();
      AcceptsMeans(c, h, s);
      Start(c, h, s, e, a, true);
      StartedIsDue();
      StartedMeans();
      RunWrite();
      AcceptsRead(c, h, s);
    }

    // A READ of sectors s to e of a track to memory at b.
    method ReadTrack(c: nat, h: nat, s: nat, e: nat, b: nat)
      requires Ready() && Accepts(c, h, h, s, 2, false) && OnDisk(c, h, s, Spt(size)) && s <= e <= Spt(size)
      requires b % DMA_BURST_SIZE == 0 && b + SECTOR * (e - s + 1) <= dma.mem.Length
      modifies this, dma`next, dma`limit, dma`enabled, dma`supdate, dma`complete, dma`interrupt, dma`dev2m, dma`bufSize,
               dma`bufLimit, dma`flpSize, dma`flpLimit, dma`espCounter, dma`diskIn, dma`diskOut, dma`diskWants,
               dma`taken,
               dma`given, dma`shadow, dma.buf, dma.mem, dma.flpData
      ensures Ready() && image == old(image) && size == old(size)
      ensures eis == old(eis) && dataRateOk == old(dataRateOk) && isProtected == old(isProtected)
      ensures Loaded(old(dma.mem[..]), dma.mem[..], b, image, Logical(c, h, s, Spt(size)), e - s + 1)
      ensures ioState == IoDone && interrupts == old(interrupts) + 1 && (old(dma.Coherent()) ==> dma.Coherent())
    {
      hide KnownSize, Spt, Logical, Patched, ReadDue, WriteDue, Started, Accepts, Here, EspDma.FloppyReady;
      dma.FloppyReadyMeans();
      Start(c, h, s, e, b, false);
      StartedIsDue();
      StartedMeans();
      RunRead();
    }

    // The disk can be read, or written, at any track: seeks are implied.
    ghost predicate Usable(write: bool)
      reads this, dma, dma.buf
    {
      Ready() && eis && dataRateOk && !(write && isProtected)
    }

    lemma UsableTrack(t: nat, write: bool)
      requires Usable(write) && t < CYLINDERS * TRACKS_PER_CYL
      ensures Accepts(t / 2, t % 2, t % 2, 1, 2, write) && OnDisk(t / 2, t % 2, 1, Spt(size)) && Spt(size) > 0
      ensures Ready() && Logical(t / 2, t % 2, 1, Spt(size)) == t * Spt(size)
    {
      hide EspDma.FloppyReady;
      KnownGeometry(size);
      TrackStart(t, Spt(size));
    }

    // READs of n tracks one after the other, from track t on, bring one stretch of the image to one
    // stretch of memory.
    method ReadTracks(t: nat, n: nat, b: nat)
      requires Usable(false) && t + n <= CYLINDERS * TRACKS_PER_CYL
      requires b % DMA_BURST_SIZE == 0 && b + SECTOR * (n * Spt(size)) <= dma.mem.Length
      modifies this, dma`next, dma`limit, dma`enabled, dma`supdate, dma`complete, dma`interrupt, dma`dev2m, dma`bufSize,
               dma`bufLimit, dma`flpSize, dma`flpLimit, dma`espCounter, dma`diskIn, dma`diskOut, dma`diskWants,
               dma`taken,
               dma`given, dma`shadow, dma.buf, dma.mem, dma.flpData
      ensures Usable(false) && image == old(image) && size == old(size)
      ensures Loaded(old(dma.mem[..]), dma.mem[..], b, image, t * Spt(size), n * Spt(size))
      ensures interrupts == old(interrupts) + n && (old(dma.Coherent()) ==> dma.Coherent())
    {
      hide KnownSize, Spt, Logical, Loaded, Ready, Accepts, EspDma.Coherent;
      ghost var m0, img, spt := dma.mem[..], image, Spt(size);
      ProductSteps(t, n, 0, spt);
      ImageHolds(t, n);
      LoadedNone(m0, b, img, t * spt, 0);
      for i := 0 to n
        invariant Usable(false) && image == img && Spt(size) == spt && size == old(size)
        invariant 0 <= i * spt && Loaded(m0, dma.mem[..], b, img, t * spt, i * spt)
        invariant interrupts == old(interrupts) + i && (old(dma.Coherent()) ==> dma.Coherent())
      {
        ghost var m := dma.mem[..];
        ProductSteps(t, n, i, spt);
        UsableTrack(t + i, false);
        Destination(b, i * spt);
        var per := size / SECTOR / TRACKS_PER_CYL / CYLINDERS;
        SptIs();
        ReadTrack((t + i) / 2, (t + i) % 2, 1, per, b + SECTOR * (i * per));
        LoadedMany(m0, m, dma.mem[..], b, img, t * spt, i * spt, spt);
      }
    }

    // WRITEs of n tracks one after the other, from track t on, bring one stretch of memory to one
    // stretch of the image.
    method WriteTracks(t: nat, n: nat, a: nat)
      requires Usable(true) && t + n <= CYLINDERS * TRACKS_PER_CYL
      requires a % DMA_BURST_SIZE == 0 && a + SECTOR * (n * Spt(size)) <= dma.mem.Length
      modifies this, dma`next, dma`limit, dma`enabled, dma`supdate, dma`complete, dma`interrupt, dma`dev2m, dma`bufSize,
               dma`bufLimit, dma`flpSize, dma`flpLimit, dma`espCounter, dma`diskIn, dma`diskOut, dma`diskWants,
               dma`taken,
               dma`given, dma`shadow, dma.buf, dma.mem, dma.flpData
      ensures Usable(true) && size == old(size) && dma.mem[..] == old(dma.mem[..])
      ensures Written(old(image), image, t * Spt(size), dma.mem[..], a, n * Spt(size))
      ensures interrupts == old(interrupts) + n && (old(dma.Coherent()) ==> dma.Coherent())
    {
      hide KnownSize, Spt, Logical, Written, Ready, Accepts, EspDma.Coherent;
      ghost var m, img, spt := dma.mem[..], image, Spt(size);
      ProductSteps(t, n, 0, spt);
      WrittenNone(img, t * spt, m, a);
      for i := 0 to n
        invariant Usable(true) && dma.mem[..] == m && Spt(size) == spt && size == old(size)
        invariant 0 <= i * spt && Written(img, image, t * spt, m, a, i * spt)
        invariant interrupts == old(interrupts) + i && (old(dma.Coherent()) ==> dma.Coherent())
      {
        ghost var img1 := image;
        ProductSteps(t, n, i, spt);
        UsableTrack(t + i, true);
        Destination(a, i * spt);
        var per := size / SECTOR / TRACKS_PER_CYL / CYLINDERS;
        SptIs();
        WriteTrack((t + i) / 2, (t + i) % 2, 1, per, a + SECTOR * (i * per));
        WrittenMany(img, img1, image, t * spt, m, a, i * spt, spt);
      }
    }

    lemma SptIs()
      ensures Spt(size) == size / SECTOR / TRACKS_PER_CYL / CYLINDERS
    {}

    lemma ImageHolds(t: nat, n: nat)
      requires Ready() && t + n <= CYLINDERS * TRACKS_PER_CYL
      ensures 0 <= t * Spt(size) && t * Spt(size) * SECTOR <= |image|
    {
      hide EspDma.FloppyReady;
      KnownGeometry(size);
      ProductUpTo(t, CYLINDERS * TRACKS_PER_CYL, Spt(size));
    }

    // Writing sectors s to e of a track from memory at a and reading them back to memory at b
    // copies the memory, and changes nothing else in memory or on the disk.
    method WriteThenRead(c: nat, h: nat, s: nat, e: nat, a: nat, b: nat)
      requires Ready() && Accepts(c, h, h, s, 2, true) && OnDisk(c, h, s, Spt(size)) && s <= e <= Spt(size)
      requires a % DMA_BURST_SIZE == 0 && a + SECTOR * (e - s + 1) <= dma.mem.Length
      requires b % DMA_BURST_SIZE == 0 && b + SECTOR * (e - s + 1) <= dma.mem.Length
      modifies this, dma`next, dma`limit, dma`enabled, dma`supdate, dma`complete, dma`interrupt, dma`dev2m, dma`bufSize,
               dma`bufLimit, dma`flpSize, dma`flpLimit, dma`espCounter, dma`diskIn, dma`diskOut, dma`diskWants,
               dma`taken,
               dma`given, dma`shadow, dma.buf, dma.mem, dma.flpData
      ensures Written(old(image), image, Logical(c, h, s, old(Spt(size))), old(dma.mem[..]), a, e - s + 1)
      ensures Patched(old(dma.mem[..]), dma.mem[..], b, old(dma.mem[a..a + SECTOR * (e - s + 1)]))
      ensures ioState == IoDone && interrupts == old(interrupts) + 2 && (old(dma.Coherent()) ==> dma.Coherent())
    {
      hide KnownSize, Spt, Logical, Written, Loaded, Patched, Accepts, Ready;
      ghost var m, img, l := dma.mem[..], image, Logical(c, h, s, Spt(size));
      WriteTrack(c, h, s, e, a);
      ReadTrack(c, h, s, e, b);
      WrittenLoaded(img, image, l, m, dma.mem[..], a, b, e - s + 1);
    }

    lemma StartedMeans()
      requires Started()
      ensures DiskOk() && SectorThere() && Here() == Logical(cyl, head, sector, Spt(size))
    {}

    lemma AcceptsMeans(c: nat, h: nat, s: nat)
      requires Accepts(c, h, h, s, 2, true)
      ensures dataRateOk && !isProtected && s <= Spt(size) && (eis || (cyl == c && head == h))
    {}

    lemma AcceptsRead(c: nat, h: nat, s: nat)
      requires cyl == c && head == h && c < CYLINDERS && dataRateOk && s <= Spt(size)
      ensures Accepts(c, h, h, s, 2, false)
    {}
  }

  lemma LogicalStep(c: nat, h: nat, s: nat, i: nat, spt: nat)
    ensures Logical(c, h, s + i, spt) == Logical(c, h, s, spt) + i
  {}

  lemma ProductSteps(t: nat, n: nat, i: nat, c: nat)
    requires i <= n
    ensures 0 <= i * c <= n * c && 0 <= t * c && (t + i) * c == t * c + i * c && 0 * c == 0
    ensures i < n ==> (i + 1) * c == i * c + c <= n * c
  {
    assert (n - i) * c >= 0;
    assert n * c == i * c + (n - i) * c;
    if i < n {
      MulNext(i, c);
      MulSplit(i, n, c);
    }
  }

  lemma ProductUpTo(t: nat, n: nat, c: nat)
    requires t <= n
    ensures 0 <= t * c <= n * c
  {
    ProductSteps(0, n, t, c);
  }

  lemma Destination(b: nat, x: nat)
    requires b % DMA_BURST_SIZE == 0
    ensures (b + SECTOR * x) % DMA_BURST_SIZE == 0
  {
    assert b + SECTOR * x == DMA_BURST_SIZE * (b / DMA_BURST_SIZE + 32 * x);
  }

  // Image img is img0 with n sectors from l on replaced by memory from a on.
  ghost predicate Written(img0: seq<byte>, img: seq<byte>, l: int, m: seq<byte>, a: int, n: int) {
    0 <= a && 0 <= n && a + SECTOR * n <= |m| && Patched(img0, img, l * SECTOR, m[a..a + SECTOR * n])
  }

  lemma WrittenNone(img: seq<byte>, l: int, m: seq<byte>, a: int)
    requires 0 <= a <= |m|
    ensures Written(img, img, l, m, a, 0)
  {}

  // Memory m is m0 with n sectors of the image, from l on, at b.
  ghost predicate Loaded(m0: seq<byte>, m: seq<byte>, b: int, image: seq<byte>, l: int, n: int) {
    0 <= l && 0 <= n && (l + n) * SECTOR <= |image| && Patched(m0, m, b, Sectors(image, l, n))
  }

  lemma LoadedNone(m: seq<byte>, b: int, image: seq<byte>, l: int, n: nat)
    requires 0 <= l && (l + n) * SECTOR <= |image|
    ensures Loaded(m, m, b, image, l, 0)
  {}

  lemma WrittenMany(img0: seq<byte>, img: seq<byte>, img': seq<byte>, l: int, m: seq<byte>, a: int, n: nat, k: nat)
    requires Written(img0, img, l, m, a, n) && Written(img, img', l + n, m, a + SECTOR * n, k)
    ensures Written(img0, img', l, m, a, n + k)
  {
    hide Patched;
    var x, y := m[a..a + SECTOR * n], m[a + SECTOR * n..a + SECTOR * (n + k)];
    PatchedMore(img0, img, img', l * SECTOR, (l + n) * SECTOR, x, y);
    SliceJoin(m, a, a + SECTOR * n, a + SECTOR * (n + k));
  }

  lemma SectorsJoin(image: seq<byte>, l: nat, n: nat, k: nat)
    requires (l + n + k) * SECTOR <= |image|
    ensures Sectors(image, l, n + k) == Sectors(image, l, n) + Sectors(image, l + n, k)
    ensures |Sectors(image, l, n)| == SECTOR * n && |Sectors(image, l + n, k)| == SECTOR * k
  {
    SliceJoin(image, l * SECTOR, (l + n) * SECTOR, (l + n + k) * SECTOR);
  }

  lemma SliceJoin(s: seq<byte>, a: nat, b: nat, c: nat)
    requires a <= b <= c <= |s|
    ensures s[a..c] == s[a..b] + s[b..c]
  {}

  lemma LoadedMany(m0: seq<byte>, m: seq<byte>, m': seq<byte>, b: int, image: seq<byte>, l: int, n: nat, k: nat)
    requires Loaded(m0, m, b, image, l, n) && Loaded(m, m', b + SECTOR * n, image, l + n, k)
    ensures Loaded(m0, m', b, image, l, n + k)
  {
    hide Patched, Sectors;
    SectorsJoin(image, l, n, k);
    PatchedMore(m0, m, m', b, b + SECTOR * n, Sectors(image, l, n), Sectors(image, l + n, k));
  }

  lemma WrittenLoaded(img0: seq<byte>, img: seq<byte>, l: int, m: seq<byte>, m': seq<byte>, a: int, b: int, n: nat)
    requires Written(img0, img, l, m, a, n) && n > 0 && Loaded(m, m', b, img, l, n)
    ensures Patched(m, m', b, m[a..a + SECTOR * n])
  {
    assert Sectors(img, l, n) == m[a..a + SECTOR * n];
  }

  // A device asking for a sector gets the next one in memory, part of it from the buffer: f0
  // and f are what the buffer holds before and after, x what the device gets.
  lemma FetchedSector(m: seq<byte>, a: nat, n: nat, limit: nat, f0: seq<byte>, end: nat, f: seq<byte>,
                      t0: seq<byte>, t: seq<byte>, g0: seq<byte>, g: seq<byte>, x: seq<byte>)
    requires (|f0| == 0 || |f0| == DMA_BURST_SIZE) && a % DMA_BURST_SIZE == 0 && limit % DMA_BURST_SIZE == 0
    requires |f0| <= a <= n <= limit <= |m| && a - |f0| + SECTOR <= limit && f0 == m[a - |f0|..a]
    requires t0 == g0 + f0 && t == t0 + m[a..n] && t == g + f && g == g0 + x && |x| <= SECTOR
    requires |f| <= end <= DMA_BURST_SIZE && WholeBursts(n - a + |f0| - end)
    requires (n == limit && end < DMA_BURST_SIZE) || (|x| == SECTOR && end == DMA_BURST_SIZE && |f| > 0)
    ensures |x| == SECTOR && |f| == end && (end == 0 || end == DMA_BURST_SIZE) && n % DMA_BURST_SIZE == 0
    ensures n - |f| == a - |f0| + SECTOR && x == m[a - |f0|..a - |f0| + SECTOR] && f == m[n - |f|..n]
  {
    assert |m[a..n]| == n - a;
    FetchedCounts(a, n, limit, |f0|, end, |f|, |x|);
    SplitStream(m, a - |f0|, a, n, g0, f0, x, f);
  }

  lemma FetchedCounts(a: int, n: int, limit: int, b: int, end: int, held: int, moved: int)
    requires (b == 0 || b == DMA_BURST_SIZE) && a % DMA_BURST_SIZE == 0 && limit % DMA_BURST_SIZE == 0
    requires a <= n <= limit && a - b + SECTOR <= limit && 0 <= moved <= SECTOR
    requires 0 <= held <= end <= DMA_BURST_SIZE && WholeBursts(n - a + b - end) && b + (n - a) == moved + held
    requires (n == limit && end < DMA_BURST_SIZE) || (moved == SECTOR && end == DMA_BURST_SIZE && held > 0)
    ensures moved == SECTOR && held == end && (end == 0 || end == DMA_BURST_SIZE) && n % DMA_BURST_SIZE == 0
  {}

  // x and then f are the stretch of m from p, when f0 was its beginning.
  lemma SplitStream(m: seq<byte>, p: nat, a: nat, n: nat, g: seq<byte>, f0: seq<byte>, x: seq<byte>, f: seq<byte>)
    requires p <= a <= n <= |m| && f0 == m[p..a] && (g + f0) + m[a..n] == (g + x) + f
    ensures n - |f| == p + |x| && x == m[p..p + |x|] && f == m[p + |x|..n]
  {
    var t := (g + x) + f;
    assert m[p..n] == m[p..a] + m[a..n];
    assert t[|g|..] == x + f;
    assert ((g + f0) + m[a..n])[|g|..] == m[p..n];
    assert x == (x + f)[..|x|] && f == (x + f)[|x|..];
  }

  lemma LongAfter(a: nat)
    requires a % DMA_BURST_SIZE == 0
    ensures (a + SECTOR) % 4 == 0
  {
    BurstIsLong(a);
    assert a + SECTOR == 4 * (a / 4 + 128);
  }

  lemma SupplyShrinks(s0: seq<byte>, s: seq<byte>, t0: seq<byte>, t: seq<byte>, k: int)
    requires Moved(s0, s, t0, t, k)
    ensures |s| == |s0| - k && k >= 0
  {}
}
