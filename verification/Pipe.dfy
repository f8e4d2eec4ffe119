/** Pipes (pipe.c): a ring of 512 bytes with 32-bit counters that wrap. A method is one stretch during which the pipe's
    lock is held, from acquire or waking up to release or going to sleep. */
module Pipe {
  import opened Blocks

  const PIPESIZE := 512
  const WRAP := 0x1_0000_0000

  datatype Outcome = Done(n: nat) | Failed | Asleep

  /** Adding to a wrapped counter wraps the sum. */
  lemma WrapAdd(x: nat, d: nat)
    requires d <= PIPESIZE
    ensures (x % WRAP + d) % WRAP == (x + d) % WRAP
    ensures (x + d) % WRAP == if x % WRAP + d < WRAP then x % WRAP + d else x % WRAP + d - WRAP
  {
    var a, r := x / WRAP, x % WRAP;
    assert x + d == a * WRAP + (r + d);
    if r + d < WRAP {
      Quotient(x + d, a, r + d);
    } else {
      Quotient(x + d, a + 1, r + d - WRAP);
    }
  }

  lemma Quotient(x: nat, a: nat, r: nat)
    requires x == a * WRAP + r && r < WRAP
    ensures x % WRAP == r
  {
  }

  /** Slots go by the wrapped counter because 512 divides 2^32. */
  lemma SlotOfWrapped(x: nat)
    ensures x % WRAP % PIPESIZE == x % PIPESIZE
  {
    var a, r := x / WRAP, x % WRAP;
    assert x == (a * 0x80_0000) * PIPESIZE + r;
    ModShift(r, a * 0x80_0000);
  }

  lemma ModShift(x: nat, m: nat)
    ensures (m * PIPESIZE + x) % PIPESIZE == x % PIPESIZE
  {
  }

  /** Modular counters that stay within the ring's size of each other decide full and empty exactly. */
  lemma CountersExact(taken: nat, stored: nat)
    requires taken <= stored <= taken + PIPESIZE
    ensures stored % WRAP == taken % WRAP <==> stored == taken
    ensures stored % WRAP == (taken % WRAP + PIPESIZE) % WRAP <==> stored == taken + PIPESIZE
    ensures stored % WRAP % PIPESIZE == stored % PIPESIZE && (stored % WRAP + 1) % WRAP == (stored + 1) % WRAP
    ensures taken % WRAP % PIPESIZE == taken % PIPESIZE && (taken % WRAP + 1) % WRAP == (taken + 1) % WRAP
  {
    WrapAdd(taken, stored - taken);
    WrapAdd(taken, PIPESIZE);
    WrapAdd(stored, 1);
    WrapAdd(taken, 1);
    SlotOfWrapped(stored);
    SlotOfWrapped(taken);
  }

  /** Two bytes in flight never share a slot. */
  lemma SlotsApart(taken: nat, i: nat, j: nat)
    requires taken <= i < j < taken + PIPESIZE
    ensures i % PIPESIZE != j % PIPESIZE
  {
  }

  class Ring {
    const data: array<byte>
    var nread: uint32
    var nwrite: uint32
    var readopen: bool
    var writeopen: bool
    /** All bytes ever stored, how many of them have been read, and the processes asleep on each counter. */
    ghost var stored: seq<byte>
    ghost var taken: nat
    ghost var readers: set<int>
    ghost var writers: set<int>
    /** A killed writer gave up with the ring full and did not wake the readers. */
    ghost var unannounced: bool

    ghost predicate InFlight(i: nat)
      reads this`stored, data
      requires data.Length == PIPESIZE && i < |stored|
    {
      data[i % PIPESIZE] == stored[i]
    }

    /** How many bytes the ring has room for. */
    ghost function Room(): int
      reads this`stored, this`taken
    {
      PIPESIZE - (|stored| - taken)
    }

    ghost predicate Contents()
      reads this`stored, this`taken, this`nread, this`nwrite, data
    {
      && data.Length == PIPESIZE && taken <= |stored| <= taken + PIPESIZE
      && nread == taken % WRAP && nwrite == |stored| % WRAP
      && forall i :: taken <= i < |stored| ==> InFlight(i)
    }

    /** Nobody sleeps who has something to do, but for readers a killed writer did not wake. */
    ghost predicate Valid()
      reads this, data
    {
      && Contents()
      && (readers != {} ==> unannounced || (taken == |stored| && writeopen))
      && (writers != {} ==> |stored| == taken + PIPESIZE && readopen)
    }

    constructor ()
      ensures Valid() && fresh(data) && stored == [] && taken == 0 && readopen && writeopen && readers == {} && writers == {}
    {
      data := new byte[PIPESIZE](i => 0);
      nread, nwrite, readopen, writeopen := 0, 0, true, true;
      stored, taken, readers, writers, unannounced := [], 0, {}, {}, false;
    }

    /** Store one byte in a ring that is not full. */
    method Put(c: byte)
      requires Contents() && |stored| < taken + PIPESIZE
      modifies this`nwrite, this`stored, data
      ensures Contents() && stored == old(stored) + [c]
    {
      CountersExact(taken, |stored|);
      ghost var n := |stored|;
      data[nwrite % PIPESIZE] := c;
      nwrite := (nwrite + 1) % WRAP;
      stored := stored + [c];
      forall i: nat | taken <= i < |stored| ensures InFlight(i) {
        if i < n {
          SlotsApart(taken, i, n);
          assert old(InFlight(i));
        }
      }
    }

    method Get() returns (c: byte)
      requires Contents() && taken < |stored|
      modifies this`nread, this`taken
      ensures Contents() && taken == old(taken) + 1 && c == stored[old(taken)]
    {
      CountersExact(taken, |stored|);
      assert InFlight(taken);
      c := data[nread % PIPESIZE];
      nread := (nread + 1) % WRAP;
      taken := taken + 1;
      assert forall i :: taken <= i < |stored| ==> old(InFlight(i));
    }

    /** pipewrite's loop, up to the end of buf or a full ring. */
    method Fill(buf: seq<byte>, i0: nat) returns (i: nat)
      requires Contents() && i0 <= |buf|
      modifies this`nwrite, this`stored, data
      ensures Contents() && i0 <= i <= |buf| && stored == old(stored) + buf[i0..i]
      ensures i == if |buf| - i0 <= old(Room()) then |buf| else i0 + old(Room())
    {
      i := i0;
      while i < |buf|
        invariant i0 <= i <= |buf| && Contents() && stored == old(stored) + buf[i0..i]
      {
        CountersExact(taken, |stored|);
        if nwrite == (nread + PIPESIZE) % WRAP {
          return;
        }
        Put(buf[i]);
        i := i + 1;
      }
    }

    /** pipewrite of buf by process me, from byte i on: it ends, fails, or sleeps on a full ring. The last clause is the
        lost wakeup: readers that slept go on sleeping beside bytes they could read exactly when a killed writer, or one
        without a read end, has more to write than a whole ring. */
    method Write(buf: seq<byte>, i0: nat, me: int, killed: bool) returns (r: Outcome, i: nat)
      requires Valid() && i0 <= |buf| && me !in writers
      modifies this, data
      ensures Valid() && i0 <= i <= |buf| && stored == old(stored) + buf[i0..i] && taken == old(taken)
      ensures readopen == old(readopen) && writeopen == old(writeopen)
      ensures i == if |buf| - i0 <= old(Room()) then |buf| else i0 + old(Room())
      ensures r == Done(|buf|) <==> |buf| - i0 <= old(Room())
      ensures r.Failed? <==> |buf| - i0 > old(Room()) && (killed || !readopen)
      ensures r.Asleep? <==> |buf| - i0 > old(Room()) && !killed && readopen
      ensures writers == if r.Asleep? then old(writers) + {me} else old(writers)
      ensures readers == if r.Failed? then old(readers) else {}
      ensures unannounced <==> (killed || !readopen) && |buf| - i0 > old(Room()) && (old(Room()) > 0 || old(unannounced))
      ensures old(readers) != {} && !old(unannounced) ==>
                (readers != {} && taken < |stored| <==> (killed || !readopen) && |buf| - i0 > PIPESIZE)
    {
      i := Fill(buf, i0);
      if i < |buf| {
        if !readopen || killed {
          unannounced := unannounced || i > i0;
          return Failed, i;
        }
        readers, unannounced := {}, false;
        writers := writers + {me};
        return Asleep, i;
      }
      readers, unannounced := {}, false;
      r := Done(|buf|);
    }

    /** piperead of at most n bytes: what is there, in order; nothing at the end of the stream; or it sleeps. */
    method Read(n: nat, me: int, killed: bool) returns (r: Outcome, out: seq<byte>)
      requires Valid() && me !in readers
      modifies this
      ensures Valid() && stored == old(stored) && old(taken) <= taken && out == stored[old(taken)..taken]
      ensures readopen == old(readopen) && writeopen == old(writeopen) && unannounced == old(unannounced)
      ensures r.Done? <==> old(taken) < |stored| || !writeopen
      ensures r.Done? ==> r.n == |out| && taken == (if old(taken) + n < |stored| then old(taken) + n else |stored|)
      ensures !r.Done? ==> out == [] && (r.Failed? <==> killed)
      ensures readers == if r.Asleep? then old(readers) + {me} else old(readers)
      ensures writers == if r.Done? then {} else old(writers)
    {
      CountersExact(taken, |stored|);
      if nread == nwrite && writeopen {
        if killed {
          return Failed, [];
        }
        readers := readers + {me};
        return Asleep, [];
      }
      out := [];
      var i := 0;
      while i < n
        invariant 0 <= i <= n && Contents() && taken == old(taken) + i && out == stored[old(taken)..taken]
        invariant stored == old(stored) && readopen == old(readopen) && writeopen == old(writeopen)
        invariant readers == old(readers) && writers == old(writers) && unannounced == old(unannounced)
      {
        CountersExact(taken, |stored|);
        if nread == nwrite {
          break;
        }
        var c := Get();
        out := out + [c];
        i := i + 1;
      }
      writers := {};
      r := Done(i);
    }

    /** pipeclose; true if the pipe's page is freed. */
    method Close(writable: bool) returns (freed: bool)
      requires Valid()
      modifies this
      ensures Valid() && stored == old(stored) && taken == old(taken)
      ensures writeopen == (old(writeopen) && !writable) && readopen == (old(readopen) && writable)
      ensures freed <==> !readopen && !writeopen
      ensures if writable then readers == {} && writers == old(writers) else writers == {} && readers == old(readers)
    {
      if writable {
        writeopen := false;
        readers, unannounced := {}, false;
      } else {
        readopen := false;
        writers := {};
      }
      freed := !readopen && !writeopen;
    }
  }

  /** The lost wakeup: a reader sleeps on an empty pipe, a killed process writes 513 bytes, and gives up with 512 of
      them in the ring and the reader still asleep. */
  method KilledWriterForgetsReader(reader: int, writer: int) returns (p: Ring)
    ensures p.Valid() && fresh(p) && reader in p.readers && p.taken == 0 && |p.stored| == PIPESIZE && p.writeopen
  {
    p := new Ring();
    var r, _ := p.Read(1, reader, false);
    var w, i := p.Write(seq(513, i => 7), 0, writer, true);
  }
}
