/** The stand-alone sketch: its global state (connection flag, a 128-byte
    receive buffer with index `bufferI`, the time of the last periodic
    send), the connect and disconnect handlers, the receive loop without a
    bound check, and the one-second periodic send in `loop`. */
module MainSketch {
  import opened Framing

  /** `char buffer[128]`. */
  const BufferCapacity: nat := 128

  /** Minimum number of milliseconds between two periodic sends. */
  const SendInterval: nat := 1000

  /** The value written by the periodic send. */
  const TestMessage: seq<char> := "Test\n"

  /** The receive loop, started with `index` bytes in a buffer of
      `capacity` slots, writes only inside the buffer: every appended byte
      lands at an index below `capacity`, and so does the terminator after a
      newline.  The sketch itself never checks this. */
  predicate InBounds(index: nat, s: seq<char>, capacity: nat)
    decreases |s|
  {
    s == [] ||
    (index < capacity &&
     (s[0] == Newline ==> index + 1 < capacity) &&
     InBounds(if s[0] == Newline then 0 else index + 1, s[1..], capacity))
  }

  /** Bytes without a newline fit exactly when the buffer can hold all of
      them (no terminator is written for them). */
  lemma {:induction false} PartialInBounds(index: nat, s: seq<char>, capacity: nat)
    requires Newline !in s
    ensures InBounds(index, s, capacity) <==> s == [] || index + |s| <= capacity
    decreases |s|
  {
    if s != [] {
      assert Newline !in s[1..];
      PartialInBounds(index + 1, s[1..], capacity);
    }
  }

  /** A newline-terminated line fits exactly when the bytes already
      buffered, the line and its newline number at most `capacity - 1`,
      leaving the last slot for the terminator; after it the index is 0. */
  lemma {:induction false} LineInBounds(index: nat, line: seq<char>, rest: seq<char>, capacity: nat)
    requires Newline !in line
    ensures InBounds(index, line + [Newline] + rest, capacity)
            <==> index + |line| + 1 < capacity && InBounds(0, rest, capacity)
    decreases |line|
  {
    var s := line + [Newline] + rest;
    if line == [] {
      assert s[0] == Newline && s[1..] == rest;
    } else {
      assert s[0] == line[0] && s[1..] == line[1..] + [Newline] + rest;
      assert Newline !in line[1..];
      LineInBounds(index + 1, line[1..], rest, capacity);
    }
  }

  /** The bound the sketch does not check is a real limit: a line of 127
      bytes and its newline, 128 bytes in all, would put the terminator one
      past the end of the buffer, while one byte less fits. */
  lemma LongestLine(a: char)
    requires a != Newline
    ensures !InBounds(0, seq(127, _ => a) + [Newline], BufferCapacity)
    ensures InBounds(0, seq(126, _ => a) + [Newline], BufferCapacity)
  {
    var long, short := seq(127, _ => a), seq(126, _ => a);
    assert Newline !in long && Newline !in short;
    assert long + [Newline] == long + [Newline] + [];
    assert short + [Newline] == short + [Newline] + [];
    LineInBounds(0, long, [], BufferCapacity);
    LineInBounds(0, short, [], BufferCapacity);
  }

  class Sketch {
    var deviceConnected: bool
    var buffer: array<char>
    var bufferI: int
    var lastMillis: nat

    /** The value last written to the characteristic. */
    var characteristicValue: seq<char>

    ghost var received: seq<char>
    ghost var emitted: seq<seq<char>>
    /** Each value written to the characteristic, in order. */
    ghost var written: seq<seq<char>>
    /** The time of each periodic send. */
    ghost var sentAt: seq<nat>

    /** Index within the buffer (it may reach 128, a full buffer with no
        room for the next byte), emitted messages and partial given by `Run`
        over all bytes received, and periodic sends more than a second apart
        and never later than `lastMillis`. */
    ghost predicate Valid()
      reads this, buffer
    {
      buffer.Length == BufferCapacity &&
      0 <= bufferI <= buffer.Length &&
      Run(Start, received, NoBoundCheck) == Reassembly(emitted, buffer[..bufferI]) &&
      |written| == |sentAt| &&
      (forall k :: 0 <= k < |written| ==> written[k] == TestMessage) &&
      (forall k :: 0 < k < |sentAt| ==> sentAt[k - 1] + SendInterval < sentAt[k]) &&
      (forall k :: 0 <= k < |sentAt| ==> sentAt[k] <= lastMillis)
    }

    /** The globals' initial values. */
    constructor ()
      ensures Valid() && fresh(buffer)
      ensures !deviceConnected && bufferI == 0 && lastMillis == 0
      ensures received == [] && emitted == [] && written == [] && sentAt == []
    {
      deviceConnected := false;
      buffer := new char[BufferCapacity];
      bufferI := 0;
      lastMillis := 0;
      characteristicValue := [];
      received := [];
      emitted := [];
      written := [];
      sentAt := [];
    }

    method OnConnect()
      requires Valid()
      modifies this`deviceConnected
      ensures Valid()
      ensures deviceConnected
    {
      deviceConnected := true;
    }

    method OnDisconnect()
      requires Valid()
      modifies this`deviceConnected
      ensures Valid()
      ensures !deviceConnected
    {
      deviceConnected := false;
    }

    /** The receive loop: append each byte in place at `bufferI`; on a
        newline terminate, print and reset the index.  There is no bound
        check, so the caller must keep the writes inside the buffer. */
    method OnWrite(chunk: seq<char>)
      requires Valid()
      requires InBounds(bufferI, chunk, BufferCapacity)
      modifies this`bufferI, this`received, this`emitted, buffer
      ensures Valid()
      ensures received == old(received) + chunk
      ensures Reassembly(emitted, buffer[..bufferI])
              == Run(Reassembly(old(emitted), old(buffer[..bufferI])), chunk, NoBoundCheck)
      ensures old(emitted) <= emitted
      ensures Concat(emitted) + buffer[..bufferI] == received
      ensures forall k :: 0 <= k < |emitted| ==> Framed(emitted[k], NoBoundCheck)
    {
      ghost var r0 := Reassembly(emitted, buffer[..bufferI]);
      ghost var received0 := received;
      for i := 0 to |chunk|
        invariant buffer.Length == BufferCapacity
        invariant 0 <= bufferI <= buffer.Length
        invariant InBounds(bufferI, chunk[i..], BufferCapacity)
        invariant received == received0 + chunk[..i]
        invariant Reassembly(emitted, buffer[..bufferI]) == Run(r0, chunk[..i], NoBoundCheck)
      {
        var c := chunk[i];
        assert chunk[i..][0] == c && chunk[i..][1..] == chunk[i + 1..];
        ghost var before := Reassembly(emitted, buffer[..bufferI]);
        buffer[bufferI] := c;
        bufferI := bufferI + 1;
        assert buffer[..bufferI] == before.pending + [c];
        if c == Newline {
          buffer[bufferI] := Nul;
          assert buffer[..bufferI] == before.pending + [c];
          emitted := emitted + [buffer[..bufferI]];
          bufferI := 0;
        }
        received := received + [c];
        assert chunk[..i + 1] == chunk[..i] + [c];
        RunSnoc(r0, chunk[..i], c, NoBoundCheck);
      }
      assert chunk[..|chunk|] == chunk;
      RunAppend(Start, received0, chunk, NoBoundCheck);
      Conservation(Start, received, NoBoundCheck);
      Conservation(r0, chunk, NoBoundCheck);
      StartSound(NoBoundCheck);
      RunSound(Start, received, NoBoundCheck);
    }

    /** One pass of `loop` at time `currentMillis`: once more than a second
        has passed since `lastMillis`, the time is recorded whether or not a
        device is connected, and "Test\n" is written only while connected. */
    method Loop(currentMillis: nat)
      requires Valid()
      modifies this`lastMillis, this`characteristicValue, this`written, this`sentAt
      ensures Valid()
      ensures lastMillis == if currentMillis > old(lastMillis) + SendInterval
                            then currentMillis else old(lastMillis)
      ensures written == if currentMillis > old(lastMillis) + SendInterval && deviceConnected
                         then old(written) + [TestMessage] else old(written)
      ensures characteristicValue == if currentMillis > old(lastMillis) + SendInterval && deviceConnected
                                     then TestMessage else old(characteristicValue)
      ensures sentAt == if currentMillis > old(lastMillis) + SendInterval && deviceConnected
                        then old(sentAt) + [currentMillis] else old(sentAt)
    {
      if currentMillis > lastMillis + SendInterval {
        lastMillis := currentMillis;
        if deviceConnected {
          characteristicValue := TestMessage;
          written := written + [TestMessage];
          sentAt := sentAt + [currentMillis];
        }
      }
    }
  }
}
