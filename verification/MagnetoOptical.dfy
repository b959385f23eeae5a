// The magneto-optical formatter of src/mo.c: it compares the address it wants with the one under
// the head, and acts on a sector when they agree, while the head spirals on by itself.
module MagnetoOptical {
  import opened Bytes

  const MO_SEC_PER_TRACK: nat := 16
  const MO_TRACK_OFFSET: nat := 4096
  const MO_TRACK_LIMIT: nat := 19819 - 4096
  const MO_SECTORSIZE_DISK: nat := 1296
  const SECTOR_TIMEOUT_COUNT: nat := 100

  datatype Mode = Read | Write | Erase | Verify | ReadId | Idle
  datatype Head = NoHead | ReadHead | WriteHead | EraseHead | VerifyHead | RfHead

  // A place on the spiral, counted in sectors from track 0.
  function Place(track: nat, sector: nat): nat { track * MO_SEC_PER_TRACK + sector }

  // Places that the disk image has, and the sector of the image.
  predicate OnDisk(p: nat) {
    MO_TRACK_OFFSET * MO_SEC_PER_TRACK <= p < (MO_TRACK_OFFSET + MO_TRACK_LIMIT) * MO_SEC_PER_TRACK
  }

  function Logical(p: nat): (l: nat)
    requires OnDisk(p)
    ensures l < MO_TRACK_LIMIT * MO_SEC_PER_TRACK
  {
    p - MO_TRACK_OFFSET * MO_SEC_PER_TRACK
  }

  function Blank(): seq<byte> { seq(MO_SECTORSIZE_DISK, _ => 0xFF) }

  class Drive {
    var headPos: nat
    var secOffset: nat
    var head: Head
    var spiraling: bool
    var seeking: bool
    // one entry per sector
    var disk: seq<seq<byte>>

    ghost predicate Ok()
      reads this
    {
      secOffset < MO_SEC_PER_TRACK && |disk| == MO_TRACK_LIMIT * MO_SEC_PER_TRACK
    }

    ghost function At(): nat
      reads this`headPos, this`secOffset
    {
      Place(headPos, secOffset)
    }

    // The head moves on to the next sector, and from the last one of a track to the next track.
    method Advance()
      requires Ok()
      modifies this`headPos, this`secOffset
      ensures Ok() && At() == old(At()) + 1
    {
      secOffset := secOffset + 1;
      headPos := headPos + secOffset / MO_SEC_PER_TRACK;
      secOffset := secOffset % MO_SEC_PER_TRACK;
    }
  }

  class Formatter {
    const drive0: Drive
    const drive1: Drive

    var trackH: byte
    var trackL: byte
    var sectorNum: nat
    var sectorIncrement: nat
    var sectorCounter: int
    var mode: Mode
    var matchId: bool
    var trackOnly: bool
    var timerOn: bool
    var sectorTimer: nat
    var writeTiming: bool
    var selected: nat
    var halted: bool

    // what the ECC unit has encoded for the disk, and what it has got to decode
    var encoded: seq<byte>
    var fetched: seq<seq<byte>>

    // interrupts raised
    var completions: nat
    var timeouts: nat

    // places of the sectors read, written, erased or verified
    ghost var acted: seq<nat>

    constructor (d0: Drive, d1: Drive)
      ensures drive0 == d0 && drive1 == d1 && mode == Idle && !halted && acted == []
    {
      drive0, drive1 := d0, d1;
      trackH, trackL, sectorNum, sectorIncrement, sectorCounter, sectorTimer, selected := 0, 0, 0, 0, 0, 0, 0;
      mode, matchId, trackOnly, timerOn, writeTiming, halted := Idle, true, false, false, false, false;
      encoded, fetched, completions, timeouts := [], [], 0, 0;
      acted := [];
    }

    ghost predicate Valid()
      reads this, drive0, drive1
    {
      drive0 != drive1 && drive0.Ok() && drive1.Ok() && sectorNum < MO_SEC_PER_TRACK && selected < 2
    }

    // MO_SectorCnt_Write: a count of 0 stands for 256.
    method SetCount(v: byte)
      modifies this`sectorCounter
      ensures 1 <= sectorCounter <= 0x100 && sectorCounter % 0x100 == v
    {
      sectorCounter := v;
      if sectorCounter == 0 {
        sectorCounter := 0x100;
      }
    }

    ghost function Wanted(): nat
      reads this`trackH, this`trackL, this`sectorNum
    {
      Place(trackH * 256 + trackL, sectorNum)
    }

    // fmt_sector_done
    method SectorDone()
      requires sectorNum < MO_SEC_PER_TRACK
      modifies this`trackH, this`trackL, this`sectorNum, this`sectorCounter, this`mode, this`completions
      ensures sectorNum < MO_SEC_PER_TRACK && Wanted() == (old(Wanted()) + sectorIncrement) % 0x100000
      ensures sectorCounter == old(sectorCounter) - 1
      ensures mode == (if sectorCounter == 0 then Idle else old(mode))
      ensures completions == old(completions) + (if sectorCounter == 0 then 1 else 0)
    {
      hide Place;
      NextPlace();
      sectorCounter := sectorCounter - 1;
      if sectorCounter == 0 {
        mode := Idle;
        completions := completions + 1;
      }
    }

    // Track and sector registers: sixteen sectors to a track, and 16 bits of track.
    method NextPlace()
      requires sectorNum < MO_SEC_PER_TRACK
      modifies this`trackH, this`trackL, this`sectorNum
      ensures sectorNum < MO_SEC_PER_TRACK && Wanted() == (old(Wanted()) + sectorIncrement) % 0x100000
    {
      var track: nat := trackH * 256 + trackL;
      var num := sectorNum + sectorIncrement;
      PlaceSum(track, sectorNum, sectorIncrement);
      track := (track + num / MO_SEC_PER_TRACK) % 0x10000;
      sectorNum := num % MO_SEC_PER_TRACK;
      SplitTrack(track);
      trackH := track / 256;
      trackL := track % 256;
    }

    // fmt_match_id, for a head over this track and sector.
    method MatchId(track: nat, sector: nat) returns (same: bool)
      requires sectorNum < MO_SEC_PER_TRACK && sector < MO_SEC_PER_TRACK
      modifies this`sectorTimer, this`mode, this`timeouts, this`halted
      ensures !matchId ==> halted && mode == old(mode) && timeouts == old(timeouts) && sectorTimer == old(sectorTimer)
      ensures matchId ==> halted == old(halted)
      ensures matchId && !trackOnly ==> same == (Wanted() == Place(track, sector))
      ensures matchId && trackOnly ==> same == (trackH * 256 + trackL == track % 0x10000)
      ensures matchId && same ==> sectorTimer == 0 && mode == old(mode) && timeouts == old(timeouts)
      ensures matchId && !same ==>
                if !timerOn then sectorTimer == old(sectorTimer) && mode == old(mode) && timeouts == old(timeouts)
                else if old(sectorTimer) < SECTOR_TIMEOUT_COUNT
                then sectorTimer == old(sectorTimer) + 1 && mode == old(mode) && timeouts == old(timeouts)
                else sectorTimer == 0 && mode == Idle && timeouts == old(timeouts) + 1
    {
      if !matchId {
        halted := true;
        return true;
      }
      var wanted: nat := trackH * 256 + trackL;
      same := if trackOnly then wanted == track % 0x10000 else wanted == track && sectorNum == sector;
      SamePlace(wanted, sectorNum, track, sector);
      if same {
        sectorTimer := 0;
      } else if timerOn {
        sectorTimer := sectorTimer + 1;
        if sectorTimer > SECTOR_TIMEOUT_COUNT {
          sectorTimer := 0;
          mode := Idle;
          timeouts := timeouts + 1;
        }
      }
    }

    // The head each mode needs.
    static function HeadFor(m: Mode): Head {
      match m
      case Read => ReadHead
      case Write => WriteHead
      case Erase => EraseHead
      case Verify => VerifyHead
      case ReadId => NoHead
      case Idle => NoHead
    }

    // mo_read_sector, mo_verify_sector, mo_erase_sector and mo_write_sector; sectors the image
    // does not have stop the emulator, and so does a write without a full buffer.
    method Act(d: Drive)
      requires d.Ok() && (mode == Read || mode == Verify || mode == Erase || mode == Write)
      modifies this`fetched, this`encoded, this`halted, this`acted, d`disk
      ensures d.Ok() && halted == (old(halted) || !OnDisk(d.At())
              || (mode == Write && |old(encoded)| != MO_SECTORSIZE_DISK))
      ensures halted && !old(halted) ==> acted == old(acted)
      ensures !halted ==> acted == old(acted) + [d.At()]
      ensures !halted && (mode == Read || mode == Verify) ==>
                fetched == old(fetched) + [d.disk[Logical(d.At())]] && d.disk == old(d.disk) && encoded == old(encoded)
      ensures !halted && mode == Erase ==>
                d.disk == old(d.disk)[Logical(d.At()) := Blank()] && fetched == old(fetched) && encoded == old(encoded)
      ensures !halted && mode == Write ==>
                d.disk == old(d.disk)[Logical(d.At()) := old(encoded)] && fetched == old(fetched) && encoded == []
    {
      var p := Place(d.headPos, d.secOffset);
      if !OnDisk(p) {
        halted := true;
        return;
      }
      if mode == Read || mode == Verify {
        fetched := fetched + [d.disk[Logical(p)]];
      } else if mode == Erase {
        d.disk := d.disk[Logical(p) := Blank()];
      } else if |encoded| == MO_SECTORSIZE_DISK {
        d.disk := d.disk[Logical(p) := encoded];
        encoded := [];
      } else {
        halted := true;
        return;
      }
      acted := acted + [p];
    }

    // An operation on drive d is under way: full addresses are compared, sectors are taken one
    // after the other, and the head is the right one.
    ghost predicate Set(d: Drive)
      reads this, drive0, drive1, d
    {
      && Valid() && d.Ok() && !halted && matchId && !trackOnly && sectorIncrement == 1
      && mode != Idle && mode != ReadId && d.head == HeadFor(mode)
    }

    // The state of the operation, apart from the timer.
    ghost function Progress(): (p: State)
      reads this
    {
      State(Wanted(), sectorCounter, completions, acted, fetched, encoded, halted)
    }

    // The sector timer after a sector that was not the one wanted.
    ghost predicate Ticked(timer0: nat, mode0: Mode, timeouts0: nat)
      reads this
    {
      if !timerOn then sectorTimer == timer0 && mode == mode0 && timeouts == timeouts0
      else if timer0 < SECTOR_TIMEOUT_COUNT then sectorTimer == timer0 + 1 && mode == mode0 && timeouts == timeouts0
      else sectorTimer == 0 && mode == Idle && timeouts == timeouts0 + 1
    }

    ghost predicate Unchanged(d: Drive, s: State, disk: seq<seq<byte>>, m: Mode, timer: nat, timeouts0: nat)
      reads this, d`disk
    {
      Progress() == s && d.disk == disk && mode == m && sectorTimer == timer && timeouts == timeouts0
    }

    // A sector that was not the one wanted has gone by.
    ghost predicate Missed(d: Drive, s: State, disk: seq<seq<byte>>, timer0: nat, m: Mode, timeouts0: nat)
      reads this, d`disk
    {
      Progress() == s && d.disk == disk && Ticked(timer0, m, timeouts0) && (m == Write ==> writeTiming)
    }

    // The sector under the head is the one wanted.
    method Hit(d: Drive)
      requires Valid() && d.Ok() && !halted && (d == drive0 || d == drive1) && mode != Idle && mode != ReadId
      modifies this`trackH, this`trackL, this`sectorNum, this`sectorCounter, this`mode, this`completions,
               this`halted, this`fetched, this`encoded, this`acted, d`disk
      ensures Valid() && d.Ok()
      ensures old(Due(d)) && old(Doable(d)) ==> Done(d, old(Progress()), old(mode), old(d.disk))
    {
      hide Place, Logical, Blank, OnDisk, HeadFor, Drive.At;
      Act(d);
      if !halted { SectorDone(); }
    }

    // One sector of the operation has been done.
    ghost predicate Done(d: Drive, s: State, m: Mode, disk: seq<seq<byte>>)
      reads this, d`disk
    {
      && OnDisk(s.wanted) && |disk| == MO_TRACK_LIMIT * MO_SEC_PER_TRACK && Progress() == Next(s, m, disk)
      && d.disk == NextDisk(s, m, disk) && mode == (if sectorCounter == 0 then Idle else m)
    }

    ghost predicate Due(d: Drive)
      reads this, drive0, drive1, d
    {
      Set(d) && Wanted() == d.At()
    }

    // The image has the sector under the head, and for a write there is a sector to write.
    ghost predicate Doable(d: Drive)
      reads this`mode, this`encoded, d`headPos, d`secOffset
    {
      OnDisk(d.At()) && (mode == Write ==> |encoded| == MO_SECTORSIZE_DISK)
    }

    // The part of fmt_io that the modes have in common.
    method Attempt(d: Drive)
      requires Valid() && d.Ok() && !halted && (d == drive0 || d == drive1) && mode != Idle && mode != ReadId
      requires d.head == HeadFor(mode)
      modifies this`trackH, this`trackL, this`sectorNum, this`sectorCounter, this`mode, this`completions, this`timeouts,
               this`sectorTimer, this`writeTiming, this`halted, this`fetched, this`encoded, this`acted, d`disk
      ensures Valid() && d.Ok()
      ensures old(Set(d) && Wanted() != d.At()) ==>
                Missed(d, old(Progress()), old(d.disk), old(sectorTimer), old(mode), old(timeouts))
      ensures old(Due(d)) && old(mode) == Write && !old(writeTiming) ==>
                Unchanged(d, old(Progress()), old(d.disk), Write, 0, old(timeouts)) && writeTiming
      ensures old(Due(d)) && old(Doable(d)) && (old(mode) == Write ==> old(writeTiming)) ==>
                && Done(d, old(Progress()), old(mode), old(d.disk))
                && sectorTimer == 0 && timeouts == old(timeouts) && writeTiming == old(writeTiming)
    {
      hide Place, Logical, Blank, Done, Doable;
      var writing := mode == Write;
      var same := MatchId(d.headPos, d.secOffset);
      if halted {
        return;
      }
      if same && (!writing || writeTiming) {
        Hit(d);
      } else if writing {
        writeTiming := true;
      }
    }

    // fmt_io, for the selected drive.
    method Io(d: Drive)
      requires Valid() && d.Ok() && !halted && (d == drive0 || d == drive1)
      modifies this`trackH, this`trackL, this`sectorNum, this`sectorCounter, this`mode, this`completions, this`timeouts,
               this`sectorTimer, this`writeTiming, this`halted, this`fetched, this`encoded, this`acted, d`disk
      ensures Valid() && d.Ok()
      ensures old(mode) == Idle ==> Unchanged(d, old(Progress()), old(d.disk), old(mode), old(sectorTimer),
              old(timeouts))
      ensures old(mode) == ReadId
              ==> Wanted() == d.At() % 0x100000 && completions == old(completions) + 1 && mode == ReadId
      ensures old(mode) == Read && d.head != ReadHead ==> halted
      ensures old(mode) == Write && d.head != WriteHead ==> halted
      ensures old(mode) == Erase && d.head != EraseHead ==> halted
      ensures old(mode) == Verify && d.head != VerifyHead ==> halted
      ensures old(Set(d)) && old(Wanted()) != old(d.At())
              ==> Missed(d, old(Progress()), old(d.disk), old(sectorTimer), old(mode), old(timeouts))
      ensures old(Due(d)) && old(mode) == Write && !old(writeTiming) ==>
                Unchanged(d, old(Progress()), old(d.disk), Write, 0, old(timeouts)) && writeTiming
      ensures old(Due(d)) && old(Doable(d)) && (old(mode) == Write ==> old(writeTiming)) ==>
                && Done(d, old(Progress()), old(mode), old(d.disk))
                && sectorTimer == 0 && timeouts == old(timeouts) && writeTiming == old(writeTiming)
    {
      hide Place, Logical, Blank, Done, Doable;
      if mode == Idle {
        return;
      }
      if mode == ReadId {
        ReadAddress(d);
        return;
      }
      if d.head != HeadFor(mode) {
        halted := true;
        return;
      }
      Attempt(d);
    }

    // The address under the head.
    method ReadAddress(d: Drive)
      requires d.Ok()
      modifies this`trackH, this`trackL, this`sectorNum, this`completions
      ensures sectorNum < MO_SEC_PER_TRACK && Wanted() == d.At() % 0x100000 && completions == old(completions) + 1
    {
      SplitTrack(d.headPos % 0x10000);
      PlaceSum(d.headPos, d.secOffset, 0);
      trackH := d.headPos % 0x10000 / 256;
      trackL := d.headPos % 0x10000 % 256;
      sectorNum := d.secOffset;
      completions := completions + 1;
    }

    function Sel(): Drive
      reads this`selected
    {
      if selected == 0 then drive0 else drive1
    }

    ghost predicate Turning()
      requires Valid()
      reads this, drive0, drive1
    {
      Sel().spiraling && !Sel().seeking
    }

    // A drive's part of it: a spiraling drive that is not seeking moves on, and the selected one is
    // connected to the formatter.
    method Side(d: Drive)
      requires Valid() && (d == drive0 || d == drive1) && (d == Sel() ==> !halted)
      modifies this`trackH, this`trackL, this`sectorNum, this`sectorCounter, this`mode, this`completions, this`timeouts,
               this`sectorTimer, this`writeTiming, this`halted, this`fetched, this`encoded, this`acted,
               d`disk, d`headPos, d`secOffset
      ensures Valid() && d.At() == old(d.At()) + (if d.spiraling && !d.seeking then 1 else 0)
      ensures d != Sel() ==> unchanged(this) && d.disk == old(d.disk)
      ensures d == Sel() ==>
                && (old(Turning()) && old(mode) == Idle ==>
                      Unchanged(d, old(Progress()), old(d.disk), Idle, old(sectorTimer), old(timeouts)))
                && (old(Turning() && Set(d)) && old(Wanted()) != old(d.At()) ==>
                      Missed(d, old(Progress()), old(d.disk), old(sectorTimer), old(mode), old(timeouts)))
                && (old(Turning() && Due(d)) && old(mode) == Write && !old(writeTiming) ==>
                      Unchanged(d, old(Progress()), old(d.disk), Write, 0, old(timeouts)) && writeTiming)
                && (old(Turning() && Due(d)) && old(Doable(d)) && (old(mode) == Write ==> old(writeTiming)) ==>
                      && Done(d, old(Progress()), old(mode), old(d.disk))
                      && sectorTimer == 0 && timeouts == old(timeouts) && writeTiming == old(writeTiming))
    {
      hide Place, Logical, Blank, Done, Doable, Missed, Unchanged;
      if d.spiraling && !d.seeking {
        if d == Sel() { Io(d); }
        d.Advance();
      }
    }

    // mo_spiraling_operation: is it armed again?  Every spiraling drive moves on, and the selected
    // one is connected to the formatter.
    method Spiral() returns (again: bool)
      requires Valid() && !halted
      modifies this`trackH, this`trackL, this`sectorNum, this`sectorCounter, this`mode, this`completions, this`timeouts,
               this`sectorTimer, this`writeTiming, this`halted, this`fetched, this`encoded, this`acted,
               drive0`disk, drive0`headPos, drive0`secOffset, drive1`disk, drive1`headPos, drive1`secOffset
      ensures Valid() && again == (drive0.spiraling || drive1.spiraling)
      ensures drive0.At() == old(drive0.At()) + (if drive0.spiraling && !drive0.seeking then 1 else 0)
      ensures drive1.At() == old(drive1.At()) + (if drive1.spiraling && !drive1.seeking then 1 else 0)
      ensures if selected == 0 then drive1.disk == old(drive1.disk) else drive0.disk == old(drive0.disk)
      ensures old(Turning()) ==> Sel().At() == old(Sel().At()) + 1
      ensures old(Turning()) && old(mode) == Idle
              ==> Unchanged(Sel(), old(Progress()), old(Sel().disk), Idle, old(sectorTimer), old(timeouts))
      ensures old(Turning() && Set(Sel())) && old(Wanted()) != old(Sel().At()) ==>
                Missed(Sel(), old(Progress()), old(Sel().disk), old(sectorTimer), old(mode), old(timeouts))
      ensures old(Turning() && Due(Sel())) && old(mode) == Write && !old(writeTiming) ==>
                Unchanged(Sel(), old(Progress()), old(Sel().disk), Write, 0, old(timeouts)) && writeTiming
      ensures old(Turning() && Due(Sel())) && old(Doable(Sel())) && (old(mode) == Write ==> old(writeTiming)) ==>
                && Done(Sel(), old(Progress()), old(mode), old(Sel().disk))
                && sectorTimer == 0 && timeouts == old(timeouts) && writeTiming == old(writeTiming)
    {
      hide Place, Logical, Blank, Done, Doable, Missed, Unchanged;
      if !drive0.spiraling && !drive1.spiraling {
        return false;
      }
      Side(drive0);
      Side(drive1);
      again := true;
    }

    // Looking for the sector wanted, with the timer at t.
    ghost predicate Looking(s: State, disk: seq<seq<byte>>, m: Mode, at: nat, timeouts0: nat)
      requires Valid()
      reads this, drive0, drive1
    {
      && Turning() && Set(Sel()) && Progress() == s && Sel().disk == disk && mode == m && Sel().At() == at
      && timeouts == timeouts0
    }

    // One sector that is not the one wanted.
    method LookOn(ghost s: State, ghost disk: seq<seq<byte>>, ghost m: Mode, ghost at: nat, ghost timeouts0: nat)
      requires Valid() && Looking(s, disk, m, at, timeouts0) && s.wanted != at
      modifies this`trackH, this`trackL, this`sectorNum, this`sectorCounter, this`mode, this`completions, this`timeouts,
               this`sectorTimer, this`writeTiming, this`halted, this`fetched, this`encoded, this`acted,
               drive0`disk, drive0`headPos, drive0`secOffset, drive1`disk, drive1`headPos, drive1`secOffset
      ensures Valid() && (m == Write ==> writeTiming)
      ensures if timerOn && old(sectorTimer) >= SECTOR_TIMEOUT_COUNT
              then mode == Idle && timeouts == timeouts0 + 1 && Progress() == s && Sel().disk == disk
              else
                && Looking(s, disk, m, at + 1, timeouts0)
                && sectorTimer == old(sectorTimer) + (if timerOn then 1 else 0)
    {
      hide Place;
      var again := Spiral();
    }

    // The head comes up to the sector wanted, which is g sectors ahead, before the timer runs out.
    method Search(g: nat)
      requires Valid() && Turning() && Set(Sel()) && Wanted() == Sel().At() + g
      requires timerOn ==> sectorTimer + g <= SECTOR_TIMEOUT_COUNT
      modifies this`trackH, this`trackL, this`sectorNum, this`sectorCounter, this`mode, this`completions, this`timeouts,
               this`sectorTimer, this`writeTiming, this`halted, this`fetched, this`encoded, this`acted,
               drive0`disk, drive0`headPos, drive0`secOffset, drive1`disk, drive1`headPos, drive1`secOffset
      ensures Valid() && Turning() && Due(Sel()) && Progress() == old(Progress()) && Sel().disk == old(Sel().disk)
      ensures mode == old(mode) && timeouts == old(timeouts) && Sel().At() == old(Sel().At()) + g
      ensures mode == Write && g > 0 ==> writeTiming
    {
      hide Place;
      ghost var s, disk, m, a, t, w := Progress(), Sel().disk, mode, Sel().At(), sectorTimer, timeouts;
      hide *;
      assert Looking(s, disk, m, a, w) by { LookingNow(); }
      for i := 0 to g
        invariant Valid() && Looking(s, disk, m, a + i, w) && (timerOn ==> sectorTimer <= t + i)
                  && (m == Write && i > 0 ==> writeTiming)
      {
        LookOn(s, disk, m, a + i, w);
      }
      LookingMeans(s, disk, m, a + g, w);
    }

    lemma LookingNow()
      requires Valid() && Turning() && Set(Sel())
      ensures Looking(Progress(), Sel().disk, mode, Sel().At(), timeouts)
    {}

    lemma LookingMeans(s: State, disk: seq<seq<byte>>, m: Mode, at: nat, timeouts0: nat)
      requires Valid() && Looking(s, disk, m, at, timeouts0)
      ensures Turning() && Set(Sel()) && Progress() == s && Sel().disk == disk && mode == m && timeouts == timeouts0
      ensures Sel().At() == at && (s.wanted == at ==> Due(Sel()))
    {
      hide Place;
    }

    // With the timer on, a sector further ahead than the timer allows, or behind the head, is not
    // found: the operation ends in one timeout, with nothing done.
    method SearchInVain()
      requires Valid() && Turning() && Set(Sel()) && timerOn && sectorTimer <= SECTOR_TIMEOUT_COUNT
      requires Wanted() < Sel().At() || Sel().At() + (SECTOR_TIMEOUT_COUNT - sectorTimer) < Wanted()
      modifies this`trackH, this`trackL, this`sectorNum, this`sectorCounter, this`mode, this`completions, this`timeouts,
               this`sectorTimer, this`writeTiming, this`halted, this`fetched, this`encoded, this`acted,
               drive0`disk, drive0`headPos, drive0`secOffset, drive1`disk, drive1`headPos, drive1`secOffset
      ensures Valid() && mode == Idle && timeouts == old(timeouts) + 1
      ensures Progress() == old(Progress()) && Sel().disk == old(Sel().disk)
    {
      ghost var s, disk, m, a, w := Progress(), Sel().disk, mode, Sel().At(), timeouts;
      var t := SECTOR_TIMEOUT_COUNT - sectorTimer;
      LookingNow();
      hide *;
      for i := 0 to t
        invariant Valid() && Looking(s, disk, m, a + i, w) && sectorTimer == SECTOR_TIMEOUT_COUNT - t + i
      {
        LookOn(s, disk, m, a + i, w);
      }
      LookOn(s, disk, m, a + t, w);
    }

    // With the timer off, a sector behind the head is never found: the operation stays as it is,
    // however often the head moves on.
    method SearchForever(turns: nat)
      requires Valid() && Turning() && Set(Sel()) && !timerOn && Wanted() < Sel().At()
      modifies this`trackH, this`trackL, this`sectorNum, this`sectorCounter, this`mode, this`completions, this`timeouts,
               this`sectorTimer, this`writeTiming, this`halted, this`fetched, this`encoded, this`acted,
               drive0`disk, drive0`headPos, drive0`secOffset, drive1`disk, drive1`headPos, drive1`secOffset
      ensures Valid() && Turning() && Set(Sel()) && Wanted() < Sel().At() && mode == old(mode)
      ensures Progress() == old(Progress()) && Sel().disk == old(Sel().disk) && timeouts == old(timeouts)
    {
      ghost var s, disk, m, a, w := Progress(), Sel().disk, mode, Sel().At(), timeouts;
      LookingNow();
      hide *;
      for i := 0 to turns
        invariant Valid() && Looking(s, disk, m, a + i, w)
      {
        LookOn(s, disk, m, a + i, w);
      }
      LookingMeans(s, disk, m, a + turns, w);
    }

    // From the sector wanted on, the address wanted and the head advance together: the n sectors
    // left are read, verified or erased in their order on the disk, and one interrupt ends it.
    method Transfer(n: nat)
      requires Valid() && Turning() && Due(Sel()) && mode != Write && sectorCounter == n && n > 0
      requires OnDisk(Sel().At()) && OnDisk(Sel().At() + n - 1)
      modifies this`trackH, this`trackL, this`sectorNum, this`sectorCounter, this`mode, this`completions, this`timeouts,
               this`sectorTimer, this`writeTiming, this`halted, this`fetched, this`encoded, this`acted,
               drive0`disk, drive0`headPos, drive0`secOffset, drive1`disk, drive1`headPos, drive1`secOffset
      ensures Valid() && Turning() && mode == Idle && timeouts == old(timeouts) && Sel().At() == old(Sel().At()) + n
      ensures Progress() == Ran(old(Progress()), old(mode), old(Sel().disk), n)
      ensures Sel().disk == RanDisk(old(Progress()).wanted, old(mode), old(Sel().disk), n)
    {
      ghost var s, disk, m := Progress(), Sel().disk, mode;
      RanNone(s, m, disk);
      hide *;
      assert Midway(s, m, disk, 0, timeouts) by { MidwayStart(s, m, disk); }
      for i := 0 to n
        invariant Valid() && Midway(s, m, disk, i, old(timeouts))
      {
        TransferOne(s, m, disk, i, old(timeouts));
      }
      MidwayEnd(s, m, disk, old(timeouts));
    }

    // i sectors of a transfer are done.
    ghost predicate Midway(s: State, m: Mode, disk: seq<seq<byte>>, i: nat, timeouts0: nat)
      requires Valid()
      reads this, drive0, drive1
    {
      && m != Idle && m != Write && m != ReadId && 0 < s.count && i <= s.count
      && |disk| == MO_TRACK_LIMIT * MO_SEC_PER_TRACK
      && OnDisk(s.wanted) && OnDisk(s.wanted + s.count - 1) && Turning() && Sel().At() == s.wanted + i
      && timeouts == timeouts0 && Progress() == Ran(s, m, disk, i) && Sel().disk == RanDisk(s.wanted, m, disk, i)
      && (if i < s.count then Due(Sel()) && mode == m else mode == Idle)
    }

    lemma MidwayStart(s: State, m: Mode, disk: seq<seq<byte>>)
      requires Valid() && Turning() && Due(Sel()) && mode == m != Write && s == Progress() && disk == Sel().disk
      requires s.count > 0 && OnDisk(s.wanted) && OnDisk(s.wanted + s.count - 1)
      ensures Midway(s, m, disk, 0, timeouts)
    {
      hide Place, Ran, RanDisk;
      RanNone(s, m, disk);
    }

    lemma MidwayEnd(s: State, m: Mode, disk: seq<seq<byte>>, timeouts0: nat)
      requires Valid() && s.count > 0 && Midway(s, m, disk, s.count, timeouts0)
      ensures Turning() && mode == Idle && timeouts == timeouts0 && Sel().At() == s.wanted + s.count
      ensures OnDisk(s.wanted) && OnDisk(s.wanted + s.count - 1) && |disk| == MO_TRACK_LIMIT * MO_SEC_PER_TRACK
      ensures Progress() == Ran(s, m, disk, s.count) && Sel().disk == RanDisk(s.wanted, m, disk, s.count)
    {
      hide Place, Ran, RanDisk;
    }

    method TransferOne(ghost s: State, ghost m: Mode, ghost disk: seq<seq<byte>>, ghost i: nat, ghost timeouts0: nat)
      requires Valid() && i < s.count && Midway(s, m, disk, i, timeouts0)
      modifies this`trackH, this`trackL, this`sectorNum, this`sectorCounter, this`mode, this`completions, this`timeouts,
               this`sectorTimer, this`writeTiming, this`halted, this`fetched, this`encoded, this`acted,
               drive0`disk, drive0`headPos, drive0`secOffset, drive1`disk, drive1`headPos, drive1`secOffset
      ensures Valid() && Midway(s, m, disk, i + 1, timeouts0)
    {
      hide Place, Ran, RanDisk, Next, NextDisk, Set;
      RanMore(s, m, disk, i);
      RanShape(s, m, disk, i);
      RanShape(s, m, disk, i + 1);
      DoOne(Progress(), Sel().disk, m);
    }

    // The ECC unit has encoded another sector for the disk.
    method Encode(b: seq<byte>)
      requires Valid() && |b| == MO_SECTORSIZE_DISK
      modifies this`encoded
      ensures Valid() && encoded == b && (old(Due(Sel())) ==> Due(Sel()))
    {
      encoded := b;
    }

    // i sectors of a write are on the disk.
    ghost predicate Writing(s: State, disk: seq<seq<byte>>, data: seq<seq<byte>>, i: nat, timeouts0: nat)
      requires Valid()
      reads this, drive0, drive1
    {
      && i <= |data| == s.count && 0 < |data| && |disk| == MO_TRACK_LIMIT * MO_SEC_PER_TRACK
      && OnDisk(s.wanted) && OnDisk(s.wanted + |data| - 1) && Turning() && Sel().At() == s.wanted + i
      && timeouts == timeouts0 && Progress() == Ran(s, Write, disk, i).(encoded := encoded)
      && Sel().disk == WrittenDisk(s.wanted, disk, data, i)
      && (if i < |data| then Due(Sel()) && mode == Write && writeTiming else mode == Idle)
    }

    // The sector wanted, when there is one to do.
    method DoOne(ghost s: State, ghost disk: seq<seq<byte>>, ghost m: Mode)
      requires Valid() && Turning() && Due(Sel()) && OnDisk(Sel().At()) && mode == m
               && (m == Write ==> writeTiming && |encoded| == MO_SECTORSIZE_DISK)
      requires s == Progress() && disk == Sel().disk
      modifies this`trackH, this`trackL, this`sectorNum, this`sectorCounter, this`mode, this`completions, this`timeouts,
               this`sectorTimer, this`writeTiming, this`halted, this`fetched, this`encoded, this`acted,
               drive0`disk, drive0`headPos, drive0`secOffset, drive1`disk, drive1`headPos, drive1`secOffset
      ensures Valid() && Turning() && Sel().At() == s.wanted + 1 && timeouts == old(timeouts)
              && writeTiming == old(writeTiming)
      ensures Done(Sel(), s, m, disk)
      ensures s.count > 1 ==> Due(Sel()) && mode == m
      ensures s.count == 1 ==> mode == Idle
    {
      hide Place, Logical, Blank, NextDisk;
      NextOnDisk(s.wanted);
      DoableWrite();
      var again := Spiral();
    }

    method WriteOne(ghost s: State, ghost disk: seq<seq<byte>>, ghost data: seq<seq<byte>>, ghost i: nat, b: seq<byte>,
            ghost timeouts0: nat)
      requires Valid() && Writing(s, disk, data, i, timeouts0) && i < |data| && |b| == MO_SECTORSIZE_DISK
               && b == data[i]
      modifies this`trackH, this`trackL, this`sectorNum, this`sectorCounter, this`mode, this`completions, this`timeouts,
               this`sectorTimer, this`writeTiming, this`halted, this`fetched, this`encoded, this`acted,
               drive0`disk, drive0`headPos, drive0`secOffset, drive1`disk, drive1`headPos, drive1`secOffset
      ensures Valid() && Writing(s, disk, data, i + 1, timeouts0)
    {
      hide Place, Ran, WrittenDisk, Next, NextDisk, Set;
      Encode(b);
      WrittenMore(s, disk, data, i, b);
      RanShape(s, Write, disk, i);
      RanShape(s, Write, disk, i + 1);
      DoOne(Progress(), Sel().disk, Write);
    }

    lemma DoableWrite()
      requires OnDisk(Sel().At()) && (mode == Write ==> |encoded| == MO_SECTORSIZE_DISK)
      ensures Doable(Sel())
    {}

    // A write of all of data, from the sector wanted on, when the formatter has let one sector go
    // by for the ECC unit to fill its buffer.
    method WriteAll(data: seq<seq<byte>>)
      requires Valid() && Turning() && Due(Sel()) && mode == Write && writeTiming && sectorCounter == |data|
               && |data| > 0
      requires OnDisk(Sel().At()) && OnDisk(Sel().At() + |data| - 1)
      requires forall i :: 0 <= i < |data| ==> |data[i]| == MO_SECTORSIZE_DISK
      modifies this`trackH, this`trackL, this`sectorNum, this`sectorCounter, this`mode, this`completions, this`timeouts,
               this`sectorTimer, this`writeTiming, this`halted, this`fetched, this`encoded, this`acted,
               drive0`disk, drive0`headPos, drive0`secOffset, drive1`disk, drive1`headPos, drive1`secOffset
      ensures Valid() && Turning() && mode == Idle && timeouts == old(timeouts)
              && Sel().At() == old(Sel().At()) + |data|
      ensures Progress() == Ran(old(Progress()), Write, old(Sel().disk), |data|).(encoded := encoded)
      ensures Sel().disk == WrittenDisk(old(Progress()).wanted, old(Sel().disk), data, |data|)
    {
      ghost var s, disk := Progress(), Sel().disk;
      WritingNow(s, disk, data);
      hide *;
      for i := 0 to |data|
        invariant Valid() && Writing(s, disk, data, i, old(timeouts))
      {
        WriteOne(s, disk, data, i, data[i], old(timeouts));
      }
      WritingMeans(s, disk, data, old(timeouts));
    }

    lemma WritingNow(s: State, disk: seq<seq<byte>>, data: seq<seq<byte>>)
      requires Valid() && Turning() && Due(Sel()) && mode == Write && writeTiming && s == Progress()
               && disk == Sel().disk
      requires s.count == |data| && |data| > 0 && OnDisk(s.wanted) && OnDisk(s.wanted + |data| - 1)
      ensures Writing(s, disk, data, 0, timeouts)
    {
      hide Place, Ran;
      RanNone(s, Write, disk);
    }

    lemma WritingMeans(s: State, disk: seq<seq<byte>>, data: seq<seq<byte>>, timeouts0: nat)
      requires Valid() && Writing(s, disk, data, |data|, timeouts0)
      ensures Turning() && mode == Idle && timeouts == timeouts0 && Sel().At() == s.wanted + |data|
      ensures OnDisk(s.wanted) && |data| > 0 && OnDisk(s.wanted + |data| - 1)
              && |disk| == MO_TRACK_LIMIT * MO_SEC_PER_TRACK
      ensures Progress() == Ran(s, Write, disk, |data|).(encoded := encoded)
              && Sel().disk == WrittenDisk(s.wanted, disk, data, |data|)
    {
      hide Place, Ran, WrittenDisk;
    }

    // A write whose first sector is under the head already: the sector is let go by, and is then
    // behind the head.
    method WriteTooSoon()
      requires Valid() && Turning() && Due(Sel()) && mode == Write && !writeTiming
      modifies this`trackH, this`trackL, this`sectorNum, this`sectorCounter, this`mode, this`completions, this`timeouts,
               this`sectorTimer, this`writeTiming, this`halted, this`fetched, this`encoded, this`acted,
               drive0`disk, drive0`headPos, drive0`secOffset, drive1`disk, drive1`headPos, drive1`secOffset
      ensures Valid() && Turning() && Set(Sel()) && mode == Write && Wanted() < Sel().At() && sectorTimer == 0
      ensures Progress() == old(Progress()) && Sel().disk == old(Sel().disk) && timeouts == old(timeouts)
    {
      hide Place;
      var again := Spiral();
    }

    // An idle formatter lets every sector go by.
    method Rest(turns: nat)
      requires Valid() && Turning() && mode == Idle && !halted
      modifies this`trackH, this`trackL, this`sectorNum, this`sectorCounter, this`mode, this`completions, this`timeouts,
               this`sectorTimer, this`writeTiming, this`halted, this`fetched, this`encoded, this`acted,
               drive0`disk, drive0`headPos, drive0`secOffset, drive1`disk, drive1`headPos, drive1`secOffset
      ensures Valid() && Turning() && mode == Idle && Sel().At() == old(Sel().At()) + turns
      ensures Progress() == old(Progress()) && Sel().disk == old(Sel().disk) && timeouts == old(timeouts)
    {
      hide Place;
      for i := 0 to turns
        invariant Valid() && Turning() && mode == Idle && Sel().At() == old(Sel().At()) + i
        invariant Progress() == old(Progress()) && Sel().disk == old(Sel().disk) && timeouts == old(timeouts)
      {
        var again := Spiral();
      }
    }

    // A whole READ, VERIFY or ERASE of n sectors: the head comes up from g sectors before the first
    // one, and goes on past the last.
    method Operate(g: nat, n: nat, turns: nat)
      requires Valid() && Turning() && Set(Sel()) && mode != Write && Wanted() == Sel().At() + g && sectorCounter == n
               && n > 0
      requires timerOn ==> sectorTimer + g <= SECTOR_TIMEOUT_COUNT
      requires OnDisk(Wanted()) && OnDisk(Wanted() + n - 1)
      modifies this`trackH, this`trackL, this`sectorNum, this`sectorCounter, this`mode, this`completions, this`timeouts,
               this`sectorTimer, this`writeTiming, this`halted, this`fetched, this`encoded, this`acted,
               drive0`disk, drive0`headPos, drive0`secOffset, drive1`disk, drive1`headPos, drive1`secOffset
      ensures Valid() && mode == Idle && timeouts == old(timeouts) && Sel().At() == old(Sel().At()) + g + n + turns
      ensures Progress() == Ran(old(Progress()), old(mode), old(Sel().disk), n)
      ensures Sel().disk == RanDisk(old(Progress()).wanted, old(mode), old(Sel().disk), n)
    {
      hide Place, Ran, RanDisk;
      Search(g);
      RanShape(Progress(), mode, Sel().disk, n);
      Transfer(n);
      Rest(turns);
    }

    // A WRITE as its command leaves it takes place exactly when the timer allows for the search
    // and a sector goes by before the first one, or has done so already.
    ghost predicate WriteReaches(g: nat)
      reads this`timerOn, this`sectorTimer, this`writeTiming
    {
      (timerOn ==> sectorTimer + g <= SECTOR_TIMEOUT_COUNT) && (g > 0 || writeTiming)
    }

    // A whole WRITE of data: the head comes up from g sectors before the first one and goes on for
    // some turns.  When the write does not take place the timer, if it is on, ends it; otherwise it
    // stays as it is.
    method OperateWrite(g: nat, data: seq<seq<byte>>, turns: nat)
      requires Valid() && Turning() && Set(Sel()) && mode == Write && Wanted() == Sel().At() + g
      requires timerOn ==> sectorTimer <= SECTOR_TIMEOUT_COUNT
      requires sectorCounter == |data| && |data| > 0 && OnDisk(Wanted()) && OnDisk(Wanted() + |data| - 1)
      requires forall i :: 0 <= i < |data| ==> |data[i]| == MO_SECTORSIZE_DISK
      modifies this`trackH, this`trackL, this`sectorNum, this`sectorCounter, this`mode, this`completions, this`timeouts,
               this`sectorTimer, this`writeTiming, this`halted, this`fetched, this`encoded, this`acted,
               drive0`disk, drive0`headPos, drive0`secOffset, drive1`disk, drive1`headPos, drive1`secOffset
      ensures Valid()
      ensures if old(WriteReaches(g)) then
                && mode == Idle && timeouts == old(timeouts) && Sel().At() == old(Sel().At()) + g + |data| + turns
                && Progress() == Ran(old(Progress()), Write, old(Sel().disk), |data|).(encoded := encoded)
                && Sel().disk == WrittenDisk(old(Progress()).wanted, old(Sel().disk), data, |data|)
              else
                && Progress() == old(Progress()) && Sel().disk == old(Sel().disk)
                && (if timerOn then mode == Idle && timeouts == old(timeouts) + 1
                   else mode == Write && timeouts == old(timeouts))
    {
      hide Place, Ran, WrittenDisk;
      if timerOn && sectorTimer + g > SECTOR_TIMEOUT_COUNT {
        SearchInVain();
      } else if g > 0 || writeTiming {
        if g > 0 { Search(g); }
        RanShape(Progress(), Write, Sel().disk, |data|);
        WriteAll(data);
        Rest(turns);
      } else {
        WriteTooSoon();
        if timerOn {
          SearchInVain();
        } else {
          SearchForever(turns);
        }
      }
    }
  }

  // What an operation has done so far.
  datatype State = State(wanted: nat, count: int, completions: nat, acted: seq<nat>, fetched: seq<seq<byte>>,
    encoded: seq<byte>, halted: bool)

  // One sector done.
  ghost function Next(s: State, m: Mode, disk: seq<seq<byte>>): State
    requires OnDisk(s.wanted) && |disk| == MO_TRACK_LIMIT * MO_SEC_PER_TRACK
  {
    s.(wanted := (s.wanted + 1) % 0x100000, count := s.count - 1,
       completions := if s.count == 1 then s.completions + 1 else s.completions,
       acted := s.acted + [s.wanted],
       fetched := if m == Read || m == Verify then s.fetched + [disk[Logical(s.wanted)]] else s.fetched,
       encoded := if m == Write then [] else s.encoded)
  }

  ghost function NextDisk(s: State, m: Mode, disk: seq<seq<byte>>): seq<seq<byte>>
    requires OnDisk(s.wanted) && |disk| == MO_TRACK_LIMIT * MO_SEC_PER_TRACK
  {
    if m == Erase then disk[Logical(s.wanted) := Blank()]
    else if m == Write then disk[Logical(s.wanted) := s.encoded]
    else disk
  }

  // n sectors done, one after the other.
  ghost function Ran(s: State, m: Mode, disk: seq<seq<byte>>, n: nat): State
    requires OnDisk(s.wanted) && (n > 0 ==> OnDisk(s.wanted + n - 1)) && |disk| == MO_TRACK_LIMIT * MO_SEC_PER_TRACK
  {
    s.(wanted := s.wanted + n, count := s.count - n,
       completions := if n > 0 && s.count == n then s.completions + 1 else s.completions,
       acted := s.acted + Places(s.wanted, n),
       fetched := if m == Read || m == Verify then s.fetched + disk[Logical(s.wanted)..Logical(s.wanted) + n]
         else s.fetched)
  }

  ghost function RanDisk(p: nat, m: Mode, disk: seq<seq<byte>>, n: nat): seq<seq<byte>>
    requires OnDisk(p) && (n > 0 ==> OnDisk(p + n - 1)) && |disk| == MO_TRACK_LIMIT * MO_SEC_PER_TRACK
  {
    if m == Erase then disk[..Logical(p)] + Blanks(n) + disk[Logical(p) + n..] else disk
  }

  lemma RanNone(s: State, m: Mode, disk: seq<seq<byte>>)
    requires OnDisk(s.wanted) && |disk| == MO_TRACK_LIMIT * MO_SEC_PER_TRACK
    ensures Ran(s, m, disk, 0) == s && RanDisk(s.wanted, m, disk, 0) == disk
  {
    assert s.acted + Places(s.wanted, 0) == s.acted;
    assert disk[..Logical(s.wanted)] + Blanks(0) + disk[Logical(s.wanted)..] == disk;
    assert s.fetched + [] == s.fetched;
  }

  ghost function WrittenDisk(p: nat, disk: seq<seq<byte>>, data: seq<seq<byte>>, n: nat): seq<seq<byte>>
    requires OnDisk(p) && (n > 0 ==> OnDisk(p + n - 1)) && |disk| == MO_TRACK_LIMIT * MO_SEC_PER_TRACK && n <= |data|
  {
    disk[..Logical(p)] + data[..n] + disk[Logical(p) + n..]
  }

  lemma WrittenMore(s: State, disk: seq<seq<byte>>, data: seq<seq<byte>>, n: nat, e: seq<byte>)
    requires OnDisk(s.wanted) && OnDisk(s.wanted + n) && |disk| == MO_TRACK_LIMIT * MO_SEC_PER_TRACK
    requires n < |data| == s.count && e == data[n]
    ensures |WrittenDisk(s.wanted, disk, data, n)| == |disk|
    ensures var r := Ran(s, Write, disk, n).(encoded := e);
            && Next(r, Write, WrittenDisk(s.wanted, disk, data, n)) == Ran(s, Write, disk, n + 1).(encoded := [])
            && NextDisk(r, Write, WrittenDisk(s.wanted, disk, data, n)) == WrittenDisk(s.wanted, disk, data, n + 1)
  {
    hide Places;
    PlacesMore(s.acted, s.wanted, n);
    assert data[..n + 1] == data[..n] + [data[n]];
  }

  lemma RanShape(s: State, m: Mode, disk: seq<seq<byte>>, n: nat)
    requires OnDisk(s.wanted) && (n > 0 ==> OnDisk(s.wanted + n - 1)) && |disk| == MO_TRACK_LIMIT * MO_SEC_PER_TRACK
    ensures var r := Ran(s, m, disk, n); r.wanted == s.wanted + n && r.count == s.count - n && r.halted == s.halted
  {}

  lemma RanMore(s: State, m: Mode, disk: seq<seq<byte>>, n: nat)
    requires OnDisk(s.wanted) && OnDisk(s.wanted + n) && |disk| == MO_TRACK_LIMIT * MO_SEC_PER_TRACK && m != Write
    requires n < s.count
    ensures |RanDisk(s.wanted, m, disk, n)| == |disk|
    ensures Next(Ran(s, m, disk, n), m, RanDisk(s.wanted, m, disk, n)) == Ran(s, m, disk, n + 1)
    ensures NextDisk(Ran(s, m, disk, n), m, RanDisk(s.wanted, m, disk, n)) == RanDisk(s.wanted, m, disk, n + 1)
  {
    RanDiskMore(s.wanted, m, disk, n);
    if m == Read || m == Verify {
      FetchedMore(s, m, disk, n);
    } else {
      NotFetched(s, m, disk, RanDisk(s.wanted, m, disk, n), n);
    }
    RanShape(s, m, disk, n);
    hide Ran, RanDisk, Logical, Blank;
  }

  lemma FetchedMore(s: State, m: Mode, disk: seq<seq<byte>>, n: nat)
    requires OnDisk(s.wanted) && OnDisk(s.wanted + n) && |disk| == MO_TRACK_LIMIT * MO_SEC_PER_TRACK && n < s.count
    requires m == Read || m == Verify
    ensures Next(Ran(s, m, disk, n), m, disk) == Ran(s, m, disk, n + 1)
  {
    hide Places;
    NextOnDisk(s.wanted + n);
    PlacesMore(s.acted, s.wanted, n);
    SlicesMore(s.fetched, disk, Logical(s.wanted), n);
  }

  lemma NotFetched(s: State, m: Mode, disk: seq<seq<byte>>, disk': seq<seq<byte>>, n: nat)
    requires OnDisk(s.wanted) && OnDisk(s.wanted + n) && |disk| == MO_TRACK_LIMIT * MO_SEC_PER_TRACK == |disk'|
             && n < s.count
    requires m != Read && m != Verify && m != Write
    ensures Next(Ran(s, m, disk, n), m, disk') == Ran(s, m, disk, n + 1)
  {
    hide Places;
    NextOnDisk(s.wanted + n);
    PlacesMore(s.acted, s.wanted, n);
  }

  lemma NextOnDisk(p: nat)
    requires OnDisk(p)
    ensures (p + 1) % 0x100000 == p + 1
  {}

  lemma RanDiskMore(p: nat, m: Mode, disk: seq<seq<byte>>, n: nat)
    requires OnDisk(p) && OnDisk(p + n) && |disk| == MO_TRACK_LIMIT * MO_SEC_PER_TRACK
    ensures |RanDisk(p, m, disk, n)| == |disk| && (m == Read || m == Verify ==> RanDisk(p, m, disk, n) == disk)
    ensures RanDisk(p, m, disk, n + 1) == if m == Erase then RanDisk(p, m, disk, n)[Logical(p + n) := Blank()] else disk
    ensures m != Erase ==> RanDisk(p, m, disk, n) == disk
  {
    hide Blank, Blanks;
    if m == Erase { BlanksMore(disk, Logical(p), n); }
  }

  // n places from p on.
  ghost function Places(p: nat, n: nat): (r: seq<nat>)
    ensures |r| == n
  {
    seq(n, i => p + i)
  }

  lemma PlacesMore(a: seq<nat>, p: nat, n: nat)
    ensures a + Places(p, n) + [p + n] == a + Places(p, n + 1)
  {}

  ghost function Blanks(n: nat): (r: seq<seq<byte>>)
    ensures |r| == n
  {
    seq(n, _ => Blank())
  }

  lemma SlicesMore(f: seq<seq<byte>>, disk: seq<seq<byte>>, l: nat, n: nat)
    requires l + n < |disk|
    ensures f + disk[l..l + n] + [disk[l + n]] == f + disk[l..l + n + 1]
  {}

  lemma BlanksMore(disk: seq<seq<byte>>, l: nat, n: nat)
    requires l + n < |disk|
    ensures |disk[..l] + Blanks(n) + disk[l + n..]| == |disk|
    ensures (disk[..l] + Blanks(n) + disk[l + n..])[l + n := Blank()] == disk[..l] + Blanks(n + 1) + disk[l + n + 1..]
  {
    assert Blanks(n + 1) == Blanks(n) + [Blank()];
  }

  lemma SamePlace(t: nat, s: nat, t': nat, s': nat)
    requires s < MO_SEC_PER_TRACK && s' < MO_SEC_PER_TRACK
    ensures Place(t, s) == Place(t', s') <==> t == t' && s == s'
  {}

  lemma PlaceSum(t: nat, s: nat, n: nat)
    ensures Place((t + (s + n) / MO_SEC_PER_TRACK) % 0x10000,
            (s + n) % MO_SEC_PER_TRACK) == (Place(t, s) + n) % 0x100000
  {
    var u := t + (s + n) / MO_SEC_PER_TRACK;
    assert Place(t, s) + n == u * 16 + (s + n) % 16;
    assert u == (u / 0x10000) * 0x10000 + u % 0x10000;
    ModLarge(u / 0x10000, (u % 0x10000) * 16 + (s + n) % 16);
  }

  lemma ModLarge(q: nat, r: nat)
    requires r < 0x100000
    ensures (q * 0x100000 + r) % 0x100000 == r
  {}

  lemma SplitTrack(t: nat)
    requires t < 0x10000
    ensures t / 256 < 256 && t == (t / 256) * 256 + t % 256
  {}
}
