/** The scull pipe: a ring buffer under a semaphore, with any number of readers and writers. */
module ScullPipe {
  import opened Arithmetic
  import opened FatDefs

  // ----- the ring buffer -----

  /** The buffer with its read and write positions, counted from its start. */
  datatype Pipe = Pipe(buffer: seq<byte>, rp: nat, wp: nat)

  predicate InRange(p: Pipe) {
    p.rp < |p.buffer| && p.wp < |p.buffer|
  }

  /** The bytes waiting to be read. */
  function Contents(p: Pipe): seq<byte>
    requires InRange(p)
  {
    if p.rp <= p.wp then p.buffer[p.rp..p.wp] else p.buffer[p.rp..] + p.buffer[..p.wp]
  }

  function SpaceFree(p: Pipe): int
    requires InRange(p)
  {
    if p.rp == p.wp then |p.buffer| - 1 else (p.rp + |p.buffer| - p.wp) % |p.buffer| - 1
  }

  lemma SpaceCases(p: Pipe)
    requires InRange(p)
    ensures SpaceFree(p) == if p.rp == p.wp then |p.buffer| - 1
                            else if p.rp > p.wp then p.rp - p.wp - 1 else p.rp + |p.buffer| - p.wp - 1
  {
    var n := |p.buffer|;
    if p.rp > p.wp {
      QuotientUnique(n, 1, p.rp - p.wp, p.rp + n - p.wp);
    } else if p.rp < p.wp {
      QuotientUnique(n, 0, p.rp + n - p.wp, p.rp + n - p.wp);
    }
  }

  /** Used and free bytes make up the buffer but for one byte. */
  lemma SpaceAccounted(p: Pipe)
    requires InRange(p)
    ensures SpaceFree(p) >= 0 && |Contents(p)| + SpaceFree(p) == |p.buffer| - 1
    ensures Contents(p) == [] <==> p.rp == p.wp
  {
    hide SpaceFree;
    SpaceCases(p);
  }

  /** Bytes that one read takes: no further than the write position, or the end of the buffer. */
  function ReadCount(p: Pipe, count: nat): nat
    requires InRange(p) && p.rp != p.wp
  {
    if p.wp > p.rp then Min(count, p.wp - p.rp) else Min(count, |p.buffer| - p.rp)
  }

  function Wrapped(p: Pipe, pos: nat): nat {
    if pos == |p.buffer| then 0 else pos
  }

  /** The pipe after a read of k bytes. */
  function AfterRead(p: Pipe, k: nat): Pipe {
    p.(rp := Wrapped(p, p.rp + k))
  }

  /** A read takes bytes from the front; one that asks for a byte gets one. */
  lemma ReadTakesFront(p: Pipe, count: nat)
    requires InRange(p) && p.rp != p.wp
    ensures var k := ReadCount(p, count);
            && p.rp + k <= |p.buffer| && InRange(AfterRead(p, k))
            && Contents(p) == p.buffer[p.rp..p.rp + k] + Contents(AfterRead(p, k))
            && k <= count && (count > 0 ==> k > 0)
            && (k == count || k == |Contents(p)| || p.rp + k == |p.buffer|)
  {
    var k := ReadCount(p, count);
    var q := AfterRead(p, k);
    if p.rp < p.wp {
      assert p.buffer[p.rp..p.wp] == p.buffer[p.rp..p.rp + k] + p.buffer[p.rp + k..p.wp];
    } else if q.rp == 0 {
      assert p.buffer[p.rp..] == p.buffer[p.rp..p.rp + k];
    } else {
      assert p.buffer[p.rp..] == p.buffer[p.rp..p.rp + k] + p.buffer[p.rp + k..];
    }
  }

  /** Bytes that one write accepts: what is free, no further than the end of the buffer or one byte before rp. */
  function WriteCount(p: Pipe, count: nat): nat
    requires InRange(p) && SpaceFree(p) > 0
  {
    var c := Min(count, SpaceFree(p));
    if p.wp >= p.rp then Min(c, |p.buffer| - p.wp) else Min(c, p.rp - p.wp - 1)
  }

  /** A buffer with data in it from position at on. */
  function Overlaid(buffer: seq<byte>, at: nat, data: seq<byte>): (r: seq<byte>)
    requires at + |data| <= |buffer|
    ensures |r| == |buffer|
    ensures forall i :: 0 <= i < |r| ==> r[i] == if at <= i < at + |data| then data[i - at] else buffer[i]
  {
    buffer[..at] + data + buffer[at + |data|..]
  }

  /** The pipe after data is written at the write position. */
  function AfterWrite(p: Pipe, data: seq<byte>): Pipe
    requires p.wp + |data| <= |p.buffer|
  {
    Pipe(Overlaid(p.buffer, p.wp, data), p.rp, Wrapped(p, p.wp + |data|))
  }

  /** A write appends what it accepts, and never makes a pipe with bytes in it look empty. */
  lemma WriteAppends(p: Pipe, data: seq<byte>)
    requires InRange(p) && SpaceFree(p) > 0
    ensures var k := WriteCount(p, |data|);
            && k <= |data| && p.wp + k <= |p.buffer| && (data != [] ==> k > 0)
            && (k == |data| || k == SpaceFree(p) || p.wp + k == |p.buffer|)
            && InRange(AfterWrite(p, data[..k]))
            && Contents(AfterWrite(p, data[..k])) == Contents(p) + data[..k]
            && (Contents(p) != [] || k > 0 ==> AfterWrite(p, data[..k]).rp != AfterWrite(p, data[..k]).wp)
  {
    hide SpaceFree, Contents;
    SpaceCases(p);
    var k := WriteCount(p, |data|);
    WriteContents(p, data[..k]);
    SpaceAccounted(p);
    SpaceAccounted(AfterWrite(p, data[..k]));
  }

  /** Bytes put behind the write position come after those that were waiting. */
  lemma WriteContents(p: Pipe, data: seq<byte>)
    requires InRange(p) && p.wp + |data| <= |p.buffer|
    requires if p.wp >= p.rp then p.rp > 0 || p.wp + |data| < |p.buffer| else p.wp + |data| < p.rp
    ensures InRange(AfterWrite(p, data)) && Contents(AfterWrite(p, data)) == Contents(p) + data
  {
    hide Overlaid;
    var q := AfterWrite(p, data);
    if p.rp > p.wp {
      assert q.buffer[p.rp..] == p.buffer[p.rp..];
      assert q.buffer[..q.wp] == p.buffer[..p.wp] + data;
    } else if p.wp + |data| == |p.buffer| {
      assert q.buffer[p.rp..] == p.buffer[p.rp..p.wp] + data;
    } else {
      assert q.buffer[p.rp..q.wp] == p.buffer[p.rp..p.wp] + data;
    }
  }

  /** Bytes left in the free part of the buffer by a copy that failed midway do not show. */
  lemma FailedCopyHidden(p: Pipe, data: seq<byte>, copied: nat)
    requires InRange(p) && SpaceFree(p) > 0 && copied <= WriteCount(p, |data|)
    ensures p.wp + copied <= |p.buffer| && copied <= |data|
    ensures var q := AfterWrite(p, data[..copied]).(wp := p.wp);
            InRange(q) && Contents(q) == Contents(p)
  {
    hide SpaceFree, Overlaid;
    SpaceCases(p);
    var q := AfterWrite(p, data[..copied]).(wp := p.wp);
    if p.rp > p.wp {
      assert q.buffer[p.rp..] == p.buffer[p.rp..];
    }
  }

  // ----- the device -----

  class Device {
    var buffer: array<byte>
    var rp: nat
    var wp: nat

    ghost predicate Valid()
      reads this, buffer
    {
      InRange(State())
    }

    ghost function State(): Pipe
      reads this, buffer
    {
      Pipe(buffer[..], rp, wp)
    }

    /** The part of scull_p_open under the semaphore: an empty pipe, whatever the buffer held. */
    method Open()
      requires buffer.Length > 0
      modifies this`rp, this`wp
      ensures Valid() && Contents(State()) == []
    {
      rp, wp := 0, 0;
    }

    method Space() returns (n: nat)
      requires Valid()
      ensures n == SpaceFree(State())
    {
      SpaceAccounted(State());
      if rp == wp {
        return buffer.Length - 1;
      }
      return (rp + buffer.Length - wp) % buffer.Length - 1;
    }

    /** scull_p_read once there is something to read. */
    method Take(count: nat) returns (st: bool, bytes: seq<byte>)
      requires Valid() && rp != wp
      modifies this`rp
      ensures Valid()
      ensures st ==> State() == AfterRead(old(State()), |bytes|) && |bytes| == ReadCount(old(State()), count)
      ensures st ==> Contents(old(State())) == bytes + Contents(State())
      ensures !st ==> State() == old(State())
    {
      hide Contents;
      ReadTakesFront(State(), count);
      var n := if wp > rp then Min(count, wp - rp) else Min(count, buffer.Length - rp);
      bytes := buffer[rp..rp + n];
      if * {
        // copy_to_user failed
        return false, [];
      }
      rp := rp + n;
      if rp == buffer.Length {
        rp := 0;
      }
      st := true;
    }

    /** copy_from_user, which may stop anywhere. */
    method CopyIn(data: seq<byte>, n: nat) returns (st: bool, ghost copied: nat)
      requires Valid() && n <= |data| && wp + n <= buffer.Length
      modifies buffer
      ensures copied <= n && (st ==> copied == n)
      ensures buffer[..] == Overlaid(old(buffer[..]), wp, data[..copied])
    {
      ghost var was := buffer[..];
      var i := 0;
      while i < n
        invariant 0 <= i <= n && buffer[..] == Overlaid(was, wp, data[..i])
      {
        if * {
          return false, i;
        }
        buffer[wp + i] := data[i];
        i := i + 1;
      }
      return true, n;
    }

    /** scull_p_write once there is space. */
    method Put(data: seq<byte>) returns (st: bool, n: nat)
      requires Valid() && SpaceFree(State()) > 0
      modifies this`wp, buffer
      ensures Valid()
      ensures st ==> n == WriteCount(old(State()), |data|) && State() == AfterWrite(old(State()), data[..n])
      ensures st ==> Contents(State()) == Contents(old(State())) + data[..n]
      ensures st && (Contents(old(State())) != [] || n > 0) ==> rp != wp
      ensures !st ==> Contents(State()) == Contents(old(State())) && n == 0
    {
      hide Contents, SpaceFree;
      ghost var p := State();
      SpaceCases(p);
      WriteAppends(p, data);
      var space := Space();
      n := Min(|data|, space);
      n := if wp >= rp then Min(n, buffer.Length - wp) else Min(n, rp - wp - 1);
      ghost var copied;
      st, copied := CopyIn(data, n);
      FailedCopyHidden(p, data, copied);
      if !st {
        return false, 0;
      }
      wp := wp + n;
      if wp == buffer.Length {
        wp := 0;
      }
      assert State() == AfterWrite(p, data[..n]);
    }
  }
}
