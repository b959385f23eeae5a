// Memory-to-memory DMA of src/dma.c: one channel reads bursts into a 16-byte buffer, another
// writes them, and the last burst is written again when the destination is longer.
module MemToMem {
  import opened Bytes

  const DMA_BURST_SIZE: nat := 16

  // Which source byte lands at offset i of the destination, for a source of len bytes.
  function Pick(len: nat, i: nat): (k: nat)
    requires len >= DMA_BURST_SIZE
    ensures k < len
  {
    if i < len then i else len - DMA_BURST_SIZE + i % DMA_BURST_SIZE
  }

  // The first n destination bytes are in place, and nothing else has changed.
  ghost predicate Copied(m0: seq<byte>, m: seq<byte>, s: nat, len: nat, d: nat, n: nat) {
    && |m| == |m0| && len >= DMA_BURST_SIZE && s + len <= |m0| && d + n <= |m0|
    && (forall i :: 0 <= i < n ==> m[d + i] == m0[s + Pick(len, i)])
    && (forall a :: 0 <= a < |m0| && !(d <= a < d + n) ==> m[a] == m0[a])
  }

  // m with x written at a.
  ghost function Overwritten(m: seq<byte>, a: nat, x: seq<byte>): seq<byte>
    requires a + |x| <= |m|
  {
    m[..a] + x + m[a + |x|..]
  }

  lemma OverwrittenMore(m: seq<byte>, a: nat, x: seq<byte>, v: byte)
    requires a + |x| < |m|
    ensures Overwritten(m, a, x)[a + |x| := v] == Overwritten(m, a, x + [v])
  {}

  lemma OverwrittenNone(m: seq<byte>, a: nat)
    requires a <= |m|
    ensures Overwritten(m, a, []) == m
  {}

  // The burst to write when n bytes are in place.
  ghost function Burst(m0: seq<byte>, s: nat, len: nat, n: nat): seq<byte>
    requires DMA_BURST_SIZE <= len && s + len <= |m0|
  {
    if n + DMA_BURST_SIZE <= len then m0[s + n..s + n + DMA_BURST_SIZE] else m0[s + len - DMA_BURST_SIZE..s + len]
  }

  lemma BurstRead(m0: seq<byte>, s: nat, len: nat, n: nat)
    requires DMA_BURST_SIZE <= len && s + len <= |m0|
    ensures s + Done(len, n + DMA_BURST_SIZE) <= |m0|
    ensures var e := s + Done(len, n + DMA_BURST_SIZE);
      Burst(m0, s, len, n) == m0[e - DMA_BURST_SIZE..e]
  {}

  lemma CopiedNone(m: seq<byte>, s: nat, len: nat, d: nat)
    requires len >= DMA_BURST_SIZE && s + len <= |m| && d <= |m|
    ensures Copied(m, m, s, len, d, 0)
  {}

  // One more burst b: the next one of the source while it lasts, and then its last one.
  lemma CopiedMore(m0: seq<byte>, m: seq<byte>, m': seq<byte>, s: nat, len: nat, d: nat, n: nat, b: seq<byte>)
    requires Copied(m0, m, s, len, d, n) && n % DMA_BURST_SIZE == 0 && len % DMA_BURST_SIZE == 0
    requires |b| == DMA_BURST_SIZE && d + n + DMA_BURST_SIZE <= |m0|
    requires b == Burst(m0, s, len, n)
    requires m' == Overwritten(m, d + n, b)
    ensures Copied(m0, m', s, len, d, n + DMA_BURST_SIZE)
  {
    forall i | 0 <= i < n + DMA_BURST_SIZE
      ensures m'[d + i] == m0[s + Pick(len, i)]
    {
      if i < n {
        assert m'[d + i] == m[d + i];
      } else {
        assert m'[d + i] == b[i - n];
        PickInBurst(len, n, i);
      }
    }
  }

  lemma PickInBurst(len: nat, n: nat, i: nat)
    requires len % DMA_BURST_SIZE == 0 && n % DMA_BURST_SIZE == 0 && len >= DMA_BURST_SIZE
             && n <= i < n + DMA_BURST_SIZE
    ensures Pick(len, i) == (if n < len then n else len - DMA_BURST_SIZE) + (i - n)
  {
    assert n == 16 * (n / 16);
    ModOffset(n / 16, i - n);
    if n < len && len < n + DMA_BURST_SIZE {
      ModOffset(n / 16, len - n);
    }
  }

  lemma ModOffset(q: int, j: nat)
    requires j < 16
    ensures (16 * q + j) % 16 == j
  {}

  class Channel {
    var next: nat
    var limit: nat
    var start: nat
    var stop: nat
    var enabled: bool
    var supdate: bool
    var complete: bool

    // dma_interrupt
    method Interrupt()
      modifies this
      ensures old(next != limit) ==> unchanged(this)
      ensures old(next == limit) ==> complete && !supdate && start == old(start) && stop == old(stop)
      ensures old(next == limit && supdate) ==> next == start && limit == stop && enabled == old(enabled)
      ensures old(next == limit && !supdate) ==> next == old(next) && limit == old(limit) && !enabled
    {
      if next == limit {
        complete := true;
        if supdate {
          next, limit, supdate := start, stop, false;
        } else {
          enabled := false;
        }
      }
    }
  }

  class Mover {
    const mem: array<byte>
    const buffer: array<byte>
    const source: Channel
    const dest: Channel
    var size: nat
    var armed: bool

    constructor (m: array<byte>, s: Channel, d: Channel)
      ensures mem == m && source == s && dest == d && fresh(buffer) && buffer.Length == DMA_BURST_SIZE && !armed
    {
      mem, source, dest, size, armed := m, s, d, 0, false;
      buffer := new byte[DMA_BURST_SIZE](_ => 0);
    }

    ghost predicate Valid()
      reads this
    {
      mem != buffer && buffer.Length == DMA_BURST_SIZE && source != dest && size <= DMA_BURST_SIZE
    }

    // Read a burst from the source.
    method Fill()
      requires Valid() && source.next + DMA_BURST_SIZE <= mem.Length
      modifies this`size, source`next, buffer
      ensures Valid() && size == DMA_BURST_SIZE && source.next == old(source.next) + DMA_BURST_SIZE
      ensures buffer[..] == mem[old(source.next)..source.next]
    {
      size := 0;
      while size < DMA_BURST_SIZE
        invariant Valid() && source.next == old(source.next) + size
        invariant buffer[..size] == mem[old(source.next)..source.next]
      {
        buffer[size] := mem[source.next];
        size := size + 1;
        source.next := source.next + 1;
      }
    }

    // Write the buffer to the destination.
    method Empty()
      requires Valid() && size == DMA_BURST_SIZE && dest.next + DMA_BURST_SIZE <= mem.Length
      modifies this`size, dest`next, mem
      ensures Valid() && size == 0 && dest.next == old(dest.next) + DMA_BURST_SIZE
      ensures mem[..] == Overwritten(old(mem[..]), old(dest.next), buffer[..])
    {
      hide Overwritten;
      ghost var m0, a := mem[..], dest.next;
      OverwrittenNone(m0, a);
      assert buffer[..0] == [];
      while size > 0
        invariant size <= DMA_BURST_SIZE && dest.next == a + (DMA_BURST_SIZE - size)
        invariant mem[..] == Overwritten(m0, a, buffer[..DMA_BURST_SIZE - size])
      {
        ghost var m, k := mem[..], DMA_BURST_SIZE - size;
        PutByte();
        OverwrittenMore(m0, a, buffer[..k], buffer[k]);
        assert buffer[..k + 1] == buffer[..k] + [buffer[k]];
      }
      assert buffer[..DMA_BURST_SIZE] == buffer[..];
    }

    method PutByte()
      requires Valid() && size > 0 && dest.next < mem.Length
      modifies this`size, dest`next, mem
      ensures size == old(size) - 1 && dest.next == old(dest.next) + 1
      ensures mem[..] == old(mem[..])[old(dest.next) := buffer[DMA_BURST_SIZE - old(size)]]
    {
      mem[dest.next] := buffer[DMA_BURST_SIZE - size];
      size := size - 1;
      dest.next := dest.next + 1;
    }

    // Set off on a copy of len bytes at a to dlen bytes at b, and n of them done.
    ghost predicate Running(m0: seq<byte>, a: nat, len: nat, b: nat, dlen: nat, n: nat)
      reads this, source, dest, buffer, mem
    {
      && Valid() && |m0| == mem.Length && Copied(m0, mem[..], a, len, b, n) && n <= dlen && b + dlen <= mem.Length
      && (a + len <= b || b + dlen <= a)
      && n % DMA_BURST_SIZE == 0 && len % DMA_BURST_SIZE == 0 && dlen % DMA_BURST_SIZE == 0
      && dest.next == b + n && dest.limit == b + dlen && !dest.supdate && dest.enabled == (n < dlen)
      && (n == dlen ==> dest.complete)
      && source.next == a + Done(len, n) && source.limit == a + len && !source.supdate
      && source.enabled == (n < len) && (n >= len ==> source.complete)
      && (n > 0 ==> buffer[..] == m0[source.next - DMA_BURST_SIZE..source.next])
    }

    // (Re)fill the buffer while there is data to read, then use it again.
    method Refill(ghost m0: seq<byte>, ghost a: nat, ghost len: nat, ghost b: nat, ghost dlen: nat, ghost n: nat)
      requires Valid()
      requires source.next < source.limit ==> source.next + DMA_BURST_SIZE <= mem.Length
      modifies this`size, source, buffer
      ensures Valid() && size == DMA_BURST_SIZE
      ensures old(Running(m0, a, len, b, dlen, n)) && n < dlen ==>
                && len >= DMA_BURST_SIZE && a + len <= |m0| && buffer[..] == Burst(m0, a, len, n)
                && source.next == a + Done(len, n + DMA_BURST_SIZE) && source.limit == a + len && !source.supdate
                && source.enabled == (n + DMA_BURST_SIZE < len) && (n + DMA_BURST_SIZE >= len ==> source.complete)
    {
      hide Copied;
      if Running(m0, a, len, b, dlen, n) && n < dlen {
        Bursts(n, len, dlen);
        SourceUntouched(m0, mem[..], a, len, b, dlen, n);
      }
      if source.next < source.limit {
        Fill();
        source.Interrupt();
      } else {
        size := DMA_BURST_SIZE;
      }
    }

    // dma_m2m_write_memory
    method WriteMemory(ghost m0: seq<byte>, ghost a: nat, ghost len: nat, ghost b: nat, ghost dlen: nat, ghost n: nat)
      requires Valid()
      requires source.next < source.limit ==> source.next + DMA_BURST_SIZE <= mem.Length
      requires dest.next < dest.limit ==> dest.next + DMA_BURST_SIZE <= mem.Length
      modifies this`size, source, dest, buffer, mem
      ensures Valid()
      ensures old(Running(m0, a, len, b, dlen, n)) && n < dlen ==> Running(m0, a, len, b, dlen, n + DMA_BURST_SIZE)
    {
      hide Copied, Done, Burst;
      ghost var run, m := Running(m0, a, len, b, dlen, n) && n < dlen, mem[..];
      if run { Bursts(n, len, dlen); }
      if dest.next < dest.limit {
        Refill(m0, a, len, b, dlen, n);
        Empty();
      }
      dest.Interrupt();
      if run {
        CopiedMore(m0, m, mem[..], a, len, b, n, buffer[..]);
        BurstRead(m0, a, len, n);
      }
    }

    // M2MDMA_IO_Handler; n bytes have been moved before it.
    method Handler(ghost m0: seq<byte>, ghost a: nat, ghost len: nat, ghost b: nat, ghost dlen: nat, ghost n: nat)
      requires Valid()
      requires source.next < source.limit ==> source.next + DMA_BURST_SIZE <= mem.Length
      requires dest.next < dest.limit ==> dest.next + DMA_BURST_SIZE <= mem.Length
      modifies this`size, this`armed, source, dest, buffer, mem
      ensures Valid() && armed == old(dest.enabled)
      ensures old(Running(m0, a, len, b, dlen, n))
              ==> Running(m0, a, len, b, dlen, if n < dlen then n + DMA_BURST_SIZE else n)
    {
      hide Copied, Done;
      armed := false;
      if dest.enabled {
        WriteMemory(m0, a, len, b, dlen, n);
        armed := true;
      }
    }

    // dma_m2m: the first arming, when both channels are enabled and burst-sized.
    method Start()
      modifies this`armed
      ensures armed == (old(armed) || (source.enabled && dest.enabled && (dest.limit - dest.next) % DMA_BURST_SIZE == 0
                                       && (source.limit - source.next) % DMA_BURST_SIZE == 0))
    {
      if source.enabled && dest.enabled {
        if (dest.limit - dest.next) % DMA_BURST_SIZE != 0 || (source.limit - source.next) % DMA_BURST_SIZE != 0 {
          return;
        }
        armed := true;
      }
    }

    // The whole transfer, the handler running as long as it re-arms itself.
    method Run() returns (ghost calls: nat)
      requires Valid() && source.enabled && dest.enabled && !source.supdate && !dest.supdate
      requires source.next < source.limit <= mem.Length && dest.next < dest.limit <= mem.Length
      requires (source.limit - source.next) % DMA_BURST_SIZE == 0 && (dest.limit - dest.next) % DMA_BURST_SIZE == 0
      requires source.limit <= dest.next || dest.limit <= source.next
      modifies this`size, this`armed, source, dest, buffer, mem
      ensures Copied(old(mem[..]), mem[..], old(source.next), old(source.limit) - old(source.next), old(dest.next),
                     old(dest.limit) - old(dest.next))
      ensures dest.complete && !dest.enabled && dest.next == dest.limit == old(dest.limit) && !armed
      ensures source.limit == old(source.limit)
      ensures source.next == old(source.next) + Done(source.limit - old(source.next), old(dest.limit) - old(dest.next))
      ensures source.enabled == (source.next < source.limit) && (!source.enabled ==> source.complete)
      ensures calls == (old(dest.limit) - old(dest.next)) / DMA_BURST_SIZE + 1
    {
      ghost var m0, a, len := mem[..], source.next, source.limit - source.next;
      ghost var b, dlen := dest.next, dest.limit - dest.next;
      ghost var n := 0;
      calls := 0;
      CopiedNone(m0, a, len, b);
      Start();
      while armed
        invariant Running(m0, a, len, b, dlen, n) && (n < dlen ==> armed)
        invariant calls == n / DMA_BURST_SIZE + (if armed then 0 else 1) && (!armed ==> n == dlen)
        decreases dlen - n, armed
      {
        Bursts(n, len, dlen);
        Handler(m0, a, len, b, dlen, n);
        calls := calls + 1;
        n := if n < dlen then n + DMA_BURST_SIZE else n;
      }
    }
  }

  // How far the source has been read when n bytes have been written.
  function Done(len: nat, n: nat): nat { if n < len then n else len }

  lemma Bursts(n: nat, len: nat, dlen: nat)
    requires n % DMA_BURST_SIZE == 0 && len % DMA_BURST_SIZE == 0 && dlen % DMA_BURST_SIZE == 0
    ensures n < len ==> n + DMA_BURST_SIZE <= len
    ensures n < dlen ==> n + DMA_BURST_SIZE <= dlen
    ensures (n + DMA_BURST_SIZE) % DMA_BURST_SIZE == 0
  {}

  lemma SourceUntouched(m0: seq<byte>, m: seq<byte>, a: nat, len: nat, b: nat, dlen: nat, n: nat)
    requires Copied(m0, m, a, len, b, n) && n <= dlen && b + dlen <= |m0| && (a + len <= b || b + dlen <= a)
    ensures |m| == |m0| && len >= DMA_BURST_SIZE && a + len <= |m|
    ensures n + DMA_BURST_SIZE <= len ==> m[a + n..a + n + DMA_BURST_SIZE] == m0[a + n..a + n + DMA_BURST_SIZE]
  {}
}
