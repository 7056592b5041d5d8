// A pipe: a ring of 4096 slots, one of which stays free, and the queue that it stands for.
module Pipes {
  import opened Machine

  const SLOTS := 0x1000

  function Next(p: nat): nat { if p + 1 == SLOTS then 0 else p + 1 }

  predicate IsRing(buf: seq<Byte>, output: nat, input: nat) { |buf| == SLOTS && output < SLOTS && input < SLOTS }

  // The bytes from the output pointer up to the input pointer.
  function Ring(buf: seq<Byte>, output: nat, input: nat): (q: seq<Byte>)
    requires IsRing(buf, output, input)
    ensures |q| == if output <= input then input - output else SLOTS - output + input
  {
    if output <= input then buf[output..input] else buf[output..] + buf[..input]
  }

  // The test of the code for a full ring.
  predicate IsFull(output: nat, input: nat) { input == output - 1 || (input == SLOTS - 1 && output == 0) }

  lemma FullIff(buf: seq<Byte>, output: nat, input: nat)
    requires IsRing(buf, output, input)
    ensures IsFull(output, input) <==> |Ring(buf, output, input)| == SLOTS - 1
    ensures output == input <==> |Ring(buf, output, input)| == 0
  {}

  lemma Push(buf: seq<Byte>, output: nat, input: nat, b: Byte)
    requires IsRing(buf, output, input) && !IsFull(output, input)
    ensures Ring(buf[input := b], output, Next(input)) == Ring(buf, output, input) + [b]
  {
    var after := buf[input := b];
    if output <= input {
      assert after[output..input + 1] == buf[output..input] + [b];
      assert Next(input) == 0 ==> after[output..] + after[..0] == after[output..input + 1];
    } else {
      assert after[..input + 1] == buf[..input] + [b];
      assert after[output..] == buf[output..];
    }
  }

  // The slot of the input pointer is not part of the queue.
  lemma FreeSlot(buf: seq<Byte>, output: nat, input: nat, b: Byte)
    requires IsRing(buf, output, input)
    ensures Ring(buf[input := b], output, input) == Ring(buf, output, input)
  {
    if output > input {
      assert buf[input := b][output..] == buf[output..];
    }
  }

  lemma Pop(buf: seq<Byte>, output: nat, input: nat, b: Byte)
    requires IsRing(buf, output, input) && output != input
    ensures var q := Ring(buf, output, input);
      && q != [] && q[0] == buf[output]
      && Ring(buf[output := b], Next(output), input) == q[1..]
  {
    var after := buf[output := b];
    if output < input {
      assert after[output + 1..input] == buf[output..input][1..];
    } else {
      assert after[output + 1..] == buf[output..][1..];
      assert after[..input] == buf[..input];
      assert (buf[output..] + buf[..input])[1..] == buf[output..][1..] + buf[..input];
    }
  }

  // The oldest byte of what is left of q leaves the ring.
  lemma PopNext(buf: seq<Byte>, output: nat, input: nat, q: seq<Byte>, i: nat)
    requires IsRing(buf, output, input) && output != input && i <= |q| && Ring(buf, output, input) == q[i..]
    ensures i < |q| && q[i] == buf[output] && Ring(buf[output := 0], Next(output), input) == q[i + 1..]
  {
    Pop(buf, output, input, 0);
    assert q[i..][0] == q[i] && q[i..][1..] == q[i + 1..];
  }

  // What a write takes from its data, and what it returns.
  function Taken(q: seq<Byte>, count: nat): nat
    requires |q| < SLOTS
  {
    Min(count, SLOTS - 1 - |q|)
  }

  // The reader's buffer after r bytes of the queue, when count were asked for.
  ghost function Given(was: seq<Byte>, q: seq<Byte>, r: nat, count: nat, slot: Byte): seq<Byte>
    requires r <= |q| && r <= count <= |was|
  {
    var given := q[..r] + was[r..];
    if 0 < r < count then given[r := slot] else given
  }

  // The reader's buffer after one byte more.
  lemma NextGiven(q: seq<Byte>, was: seq<Byte>, i: nat)
    requires i < |q| && i < |was|
    ensures (q[..i] + was[i..])[i := q[i]] == q[..i + 1] + was[i + 1..]
  {}

  class Pipe {
    var inputPointer: nat
    var outputPointer: nat
    const buffer: array<Byte>

    ghost predicate Valid()
      reads this, buffer
    {
      IsRing(buffer[..], outputPointer, inputPointer)
    }

    ghost function Contents(): (q: seq<Byte>)
      requires Valid()
      reads this, buffer
      ensures |q| < SLOTS
    {
      Ring(buffer[..], outputPointer, inputPointer)
    }

    constructor ()
      ensures Valid() && Contents() == [] && fresh(buffer)
    {
      inputPointer, outputPointer := 0, 0;
      buffer := new Byte[SLOTS];
    }

    // One round of the loop: the byte goes to the free slot, and the pointer moves on unless the ring
    // is full.
    method PutByte(b: Byte) returns (full: bool)
      requires Valid()
      modifies this`inputPointer, buffer
      ensures Valid() && (full <==> |old(Contents())| == SLOTS - 1)
      ensures Contents() == if full then old(Contents()) else old(Contents()) + [b]
    {
      full := IsFull(outputPointer, inputPointer);
      FullIff(buffer[..], outputPointer, inputPointer);
      ghost var was := buffer[..];
      buffer[inputPointer] := b;
      assert buffer[..] == was[inputPointer := b];
      if full {
        FreeSlot(was, outputPointer, inputPointer, b);
      } else {
        Push(was, outputPointer, inputPointer, b);
        inputPointer := inputPointer + 1;
        if inputPointer == SLOTS {
          inputPointer := 0;
        }
      }
    }

    // writeOnPipe. The queue takes as much as there is room for. If the room runs out in the middle,
    // the byte that found none is counted too.
    method Write(data: seq<Byte>) returns (r: nat)
      requires Valid()
      modifies this`inputPointer, buffer
      ensures Valid()
      ensures Contents() == old(Contents()) + data[..Taken(old(Contents()), |data|)]
      ensures var n := |Contents()| - |old(Contents())|;
        && 0 <= n <= |data| && Contents() == old(Contents()) + data[..n]
        && (n == |data| || |Contents()| == 4095) && r == if 0 < n < |data| then n + 1 else n
    {
      ghost var q, free := Contents(), SLOTS - 1 - |Contents()|;
      FullIff(buffer[..], outputPointer, inputPointer);
      assert q + data[..0] == q;
      if IsFull(outputPointer, inputPointer) {
        return 0;
      }
      var i := 0;
      while i < |data|
        invariant Valid() && i <= |data| && i <= free && Contents() == q + data[..i]
      {
        var full := PutByte(data[i]);
        if full {
          i := i + 1;
          return i;
        }
        assert q + data[..i] + [data[i]] == q + data[..i + 1];
        i := i + 1;
      }
      return i;
    }

    // readOnPipe. The oldest bytes go to the reader, in order, and leave the queue. A reader that asks
    // for more gets one byte more into its buffer, uncounted: what is in the free slot.
    method Read(data: array<Byte>, count: nat) returns (r: nat)
      requires Valid() && count <= data.Length && data != buffer
      modifies this`outputPointer, buffer, data
      ensures Valid()
      ensures r == Min(count, |old(Contents())|)
      ensures Contents() == old(Contents())[r..]
      ensures data[..] == Given(old(data[..]), old(Contents()), r, count, old(buffer[inputPointer]))
      ensures forall k :: 0 <= k < r ==> data[k] == old(Contents())[k]
      ensures 0 < r < count ==> data[r] == old(buffer[inputPointer])
      ensures forall k :: r <= k < data.Length && !(0 < k == r < count) ==> data[k] == old(data[k])
    {
      ghost var q, was := Contents(), data[..];
      FullIff(buffer[..], outputPointer, inputPointer);
      assert q[..0] + was[0..] == was;
      if outputPointer == inputPointer {
        return 0;
      }
      r := ReadOn(data, count, q, was, buffer[inputPointer]);
    }

    // The loop.
    method ReadOn(data: array<Byte>, count: nat, ghost q: seq<Byte>, ghost was: seq<Byte>,
                  ghost slot: Byte) returns (i: nat)
      requires Valid() && count <= data.Length && data != buffer
      requires Contents() == q && data[..] == was == q[..0] + was[0..] && buffer[inputPointer] == slot && q != []
      modifies this`outputPointer, buffer, data
      ensures Valid() && i == Min(count, |q|) && Contents() == q[i..]
      ensures data[..] == Given(was, q, i, count, slot)
    {
      i := 0;
      while i < count
        invariant Valid() && i <= count && i <= |q| && Contents() == q[i..]
        invariant data[..] == q[..i] + was[i..] && buffer[inputPointer] == slot
      {
        var empty := TakeByte(data, i, q);
        if empty {
          return;
        }
        NextGiven(q, was, i);
        i := i + 1;
      }
    }

    // One round of the loop: the slot goes to the reader and is cleared; the pointer moves on unless
    // it has come to the input pointer.
    method TakeByte(data: array<Byte>, i: nat, ghost q: seq<Byte>) returns (empty: bool)
      requires Valid() && i < data.Length && data != buffer && i <= |q| && Contents() == q[i..]
      modifies this`outputPointer, buffer, data
      ensures Valid() && (empty <==> i == |q|)
      ensures Contents() == if empty then [] else q[i + 1..]
      ensures data[..] == old(data[..])[i := if empty then old(buffer[inputPointer]) else q[i]]
      ensures !empty ==> buffer[inputPointer] == old(buffer[inputPointer])
    {
      FullIff(buffer[..], outputPointer, inputPointer);
      ghost var was := buffer[..];
      data[i] := buffer[outputPointer];
      buffer[outputPointer] := 0;
      assert buffer[..] == was[outputPointer := 0];
      empty := outputPointer == inputPointer;
      if empty {
        FreeSlot(was, outputPointer, inputPointer, 0);
      } else {
        PopNext(was, outputPointer, inputPointer, q, i);
        outputPointer := outputPointer + 1;
        if outputPointer == SLOTS {
          outputPointer := 0;
        }
      }
    }
  }

  // --- Runs ---------------------------------------------------------------------------------

  datatype Operation = Writing(data: seq<Byte>) | Reading(count: nat)

  // The queue after a run, all bytes that went into it, and all bytes that were read.
  datatype History = History(queue: seq<Byte>, enqueued: seq<Byte>, read: seq<Byte>)

  function After(q: seq<Byte>, ops: seq<Operation>): (h: History)
    requires |q| < SLOTS
    ensures |h.queue| < SLOTS
  {
    if ops == [] then History(q, [], []) else Then(After(q, ops[..|ops| - 1]), ops[|ops| - 1])
  }

  function Then(h: History, op: Operation): (h': History)
    requires |h.queue| < SLOTS
    ensures |h'.queue| < SLOTS
  {
    match op
    case Writing(data) =>
      var t := data[..Taken(h.queue, |data|)];
      History(h.queue + t, h.enqueued + t, h.read)
    case Reading(count) =>
      var r := Min(count, |h.queue|);
      History(h.queue[r..], h.enqueued, h.read + h.queue[..r])
  }

  // First in, first out: over any interleaving, what was there at first and what went in since is
  // what was read, in the same order, and then what is still there.
  lemma {:induction false} Fifo(q: seq<Byte>, ops: seq<Operation>)
    requires |q| < SLOTS
    ensures var h := After(q, ops); h.read + h.queue == q + h.enqueued
  {
    if ops == [] {
    } else {
      var h, n := After(q, ops[..|ops| - 1]), |ops| - 1;
      Fifo(q, ops[..n]);
      match ops[n]
      case Writing(data) =>
        var t := data[..Taken(h.queue, |data|)];
        assert h.read + (h.queue + t) == (h.read + h.queue) + t;
        assert q + (h.enqueued + t) == (q + h.enqueued) + t;
      case Reading(count) =>
        var r := Min(count, |h.queue|);
        assert (h.read + h.queue[..r]) + h.queue[r..] == h.read + h.queue;
    }
  }

  // What one operation does. A write takes all of its data or fills the pipe; a read takes as much as
  // it asks for or empties it.
  lemma ThenIs(h: History, op: Operation)
    requires |h.queue| < SLOTS
    ensures var h' := Then(h, op);
      match op
      case Writing(data) =>
        var n := |h'.queue| - |h.queue|;
        && 0 <= n <= |data| && (n == |data| || |h'.queue| == 4095) && h'.read == h.read
        && h'.queue == h.queue + data[..n] && h'.enqueued == h.enqueued + data[..n]
      case Reading(count) =>
        var n := |h.queue| - |h'.queue|;
        && 0 <= n <= count && (n == count || h'.queue == []) && h'.enqueued == h.enqueued
        && h'.queue == h.queue[n..] && h'.read == h.read + h.queue[..n]
  {}

  // All that is written, and how much at most is in the pipe on the way.
  function AllData(ops: seq<Operation>): seq<Byte> {
    if ops == [] then []
    else AllData(ops[..|ops| - 1]) + match ops[|ops| - 1] case Writing(data) => data case Reading(_) => []
  }

  // Every write of the run finds room for all of its data.
  ghost predicate AllFit(q: seq<Byte>, ops: seq<Operation>)
    requires |q| < SLOTS
  {
    ops != [] ==>
      var n := |ops| - 1;
      && AllFit(q, ops[..n])
      && (ops[n].Writing? ==> |After(q, ops[..n]).queue| + |ops[n].data| <= 4095)
  }

  // Then nothing is lost: what goes into the pipe is all that is written.
  lemma {:induction false} NothingLost(q: seq<Byte>, ops: seq<Operation>)
    requires |q| < SLOTS && AllFit(q, ops)
    ensures After(q, ops).enqueued == AllData(ops)
  {
    if ops != [] {
      var n := |ops| - 1;
      NothingLost(q, ops[..n]);
      ThenIs(After(q, ops[..n]), ops[n]);
    }
  }

  // A run that writes no more than the pipe has room for from the start is one.
  lemma {:induction false} FewFit(q: seq<Byte>, ops: seq<Operation>)
    requires |q| + |AllData(ops)| <= 4095
    ensures AllFit(q, ops) && |After(q, ops).queue| <= |q| + |AllData(ops)|
  {
    if ops != [] {
      var n := |ops| - 1;
      FewFit(q, ops[..n]);
      ThenIs(After(q, ops[..n]), ops[n]);
    }
  }

  lemma AfterNext(q: seq<Byte>, ops: seq<Operation>, n: nat)
    requires |q| < SLOTS && n < |ops|
    ensures ops[..n + 1][..n] == ops[..n] && ops[..n + 1][n] == ops[n]
    ensures After(q, ops[..n + 1]) == Then(After(q, ops[..n]), ops[n])
  {
    assert ops[..n + 1][..n] == ops[..n];
  }

  // A run on the pipe itself: it ends with the queue that the run stands for, and delivers the bytes
  // in order. What is not in the queue any more has been read.
  method PerformAll(p: Pipe, ops: seq<Operation>) returns (read: seq<Byte>)
    requires p.Valid()
    modifies p, p.buffer
    ensures p.Valid()
    ensures var h := After(old(p.Contents()), ops); p.Contents() == h.queue && read == h.read
    ensures read + p.Contents() == old(p.Contents()) + After(old(p.Contents()), ops).enqueued
    ensures AllFit(old(p.Contents()), ops) ==> read + p.Contents() == old(p.Contents()) + AllData(ops)
  {
    ghost var q := p.Contents();
    var n := 0;
    read := [];
    while n < |ops|
      invariant n <= |ops| && p.Valid()
      invariant var h := After(q, ops[..n]); p.Contents() == h.queue && read == h.read
    {
      AfterNext(q, ops, n);
      match ops[n] {
        case Writing(data) =>
          var r := p.Write(data);
        case Reading(count) =>
          var bytes := ReadBytes(p, count);
          read := read + bytes;
      }
      n := n + 1;
    }
    assert ops[..n] == ops;
    Fifo(q, ops);
    if AllFit(q, ops) { NothingLost(q, ops); }
  }

  // A read into a buffer of its own.
  method ReadBytes(p: Pipe, count: nat) returns (bytes: seq<Byte>)
    requires p.Valid()
    modifies p, p.buffer
    ensures p.Valid()
    ensures var r := Min(count, |old(p.Contents())|);
      bytes == old(p.Contents())[..r] && p.Contents() == old(p.Contents())[r..]
  {
    var buffer := new Byte[count];
    var r := p.Read(buffer, count);
    bytes := buffer[..r];
  }
}
