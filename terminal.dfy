/** The library class: connection flag, `send`, and the bounded receive
    loop of `BluetoothTerminal::onWrite`, with the member state and the
    defaults the class declaration gives. */
module Terminal {
  import opened Framing

  /** Capacity of the receive buffer, `char receiveBuffer[128]`. */
  const ReceiveBufferSize: nat := 128

  /** Value size of the single characteristic, both as the member field and
      as the size passed when the characteristic is declared. */
  const CharacteristicValueSize: nat := 20
  const DeclaredCharacteristicSize: nat := 20

  class BluetoothTerminal {
    const characteristicValueSize: nat
    const characteristicMaxSize: nat
    const receiveSeparator: char
    const sendSeparator: char
    const bufferSize: nat

    var deviceConnected: bool
    var buffer: array<char>
    var bufferIndex: int

    /** The value last handed to the characteristic by `send`. */
    var characteristicValue: seq<char>

    /** Every byte received so far, over all chunks. */
    ghost var received: seq<char>
    /** Each completed message, in the order it was printed. */
    ghost var emitted: seq<seq<char>>
    /** Each value written to the characteristic, in order. */
    ghost var sent: seq<seq<char>>

    /** The reassembly policy of this class: cut at a newline or once
        `bufferSize - 1` bytes are buffered. */
    function ReceivePolicy(): Policy
    {
      FlushWhenFull(bufferSize)
    }

    /** Between bytes the index lies in `[0, bufferSize - 2]`, the buffer
        holds the partial message in `buffer[0..bufferIndex)`, and the
        emitted messages with that partial are what `Run` gives for all
        bytes received so far. */
    ghost predicate Valid()
      reads this, buffer
    {
      buffer.Length == bufferSize && bufferSize >= 2 &&
      0 <= bufferIndex <= bufferSize - 2 &&
      Run(Start, received, ReceivePolicy()) == Reassembly(emitted, buffer[..bufferIndex])
    }

    constructor ()
      ensures Valid() && fresh(buffer)
      ensures !deviceConnected
      ensures bufferIndex == 0
      ensures bufferSize == ReceiveBufferSize && buffer.Length == bufferSize
      ensures receiveSeparator == Newline && sendSeparator == Newline
      ensures characteristicValueSize == CharacteristicValueSize
      ensures characteristicMaxSize == DeclaredCharacteristicSize
      ensures characteristicValueSize == characteristicMaxSize
      ensures received == [] && emitted == [] && sent == []
    {
      characteristicValueSize := CharacteristicValueSize;
      characteristicMaxSize := DeclaredCharacteristicSize;
      receiveSeparator := Newline;
      sendSeparator := Newline;
      bufferSize := ReceiveBufferSize;
      deviceConnected := false;
      buffer := new char[ReceiveBufferSize];
      bufferIndex := 0;
      characteristicValue := [];
      received := [];
      emitted := [];
      sent := [];
    }

    /** Connect event: the flag becomes true. */
    method OnConnect()
      requires Valid()
      modifies this`deviceConnected
      ensures Valid()
      ensures deviceConnected
    {
      deviceConnected := true;
    }

    /** Disconnect event: the flag becomes false; a partial message stays
        in the buffer. */
    method OnDisconnect()
      requires Valid()
      modifies this`deviceConnected
      ensures Valid()
      ensures !deviceConnected
    {
      deviceConnected := false;
    }

    /** The connection flag; reads it and changes nothing. */
    function IsDeviceConnected(): (connected: bool)
      reads this
      ensures connected <==> deviceConnected
    {
      deviceConnected
    }

    /** Writes the message to the characteristic exactly once and unchanged,
        whether or not a device is connected: the failed check only logs.
        No separator is appended and the message is not split. */
    method Send(message: seq<char>)
      requires Valid()
      modifies this`characteristicValue, this`sent
      ensures Valid()
      ensures characteristicValue == message
      ensures sent == old(sent) + [message]
    {
      // A failed IsDeviceConnected() check is only logged; the write follows
      // in either case.
      characteristicValue := message;
      sent := sent + [message];
    }

    /** Write event: each byte of the chunk is appended in place at
        `bufferIndex`; a newline, or a buffer one byte short of full, ends
        the message, which is terminated, printed and the index reset. */
    method OnWrite(chunk: seq<char>)
      requires Valid()
      modifies this`bufferIndex, this`received, this`emitted, buffer
      ensures Valid()
      ensures received == old(received) + chunk
      ensures Reassembly(emitted, buffer[..bufferIndex])
              == Run(Reassembly(old(emitted), old(buffer[..bufferIndex])), chunk, ReceivePolicy())
      ensures old(emitted) <= emitted
      ensures Concat(emitted) + buffer[..bufferIndex] == received
      ensures forall k :: 0 <= k < |emitted| ==> Framed(emitted[k], ReceivePolicy())
    {
      ghost var r0 := Reassembly(emitted, buffer[..bufferIndex]);
      ghost var received0 := received;
      for i := 0 to |chunk|
        invariant buffer.Length == bufferSize
        invariant 0 <= bufferIndex <= bufferSize - 2
        invariant received == received0 + chunk[..i]
        invariant Reassembly(emitted, buffer[..bufferIndex]) == Run(r0, chunk[..i], ReceivePolicy())
      {
        var c := chunk[i];
        ghost var before := Reassembly(emitted, buffer[..bufferIndex]);
        buffer[bufferIndex] := c;
        bufferIndex := bufferIndex + 1;
        assert buffer[..bufferIndex] == before.pending + [c];
        if c == Newline || bufferIndex == bufferSize - 1 {
          buffer[bufferIndex] := Nul;
          assert buffer[..bufferIndex] == before.pending + [c];
          emitted := emitted + [buffer[..bufferIndex]];
          bufferIndex := 0;
        }
        received := received + [c];
        assert chunk[..i + 1] == chunk[..i] + [c];
        RunSnoc(r0, chunk[..i], c, ReceivePolicy());
      }
      assert chunk[..|chunk|] == chunk;
      RunAppend(Start, received0, chunk, ReceivePolicy());
      Conservation(Start, received, ReceivePolicy());
      Conservation(r0, chunk, ReceivePolicy());
      StartSound(ReceivePolicy());
      RunSound(Start, received, ReceivePolicy());
    }
  }

  /** The two reassembly steps of `ReconnectKeepsPartial` on values: `"ab"`
      stays pending, and `"x\n"` after it completes the message `"abx\n"`. */
  lemma ReconnectRuns()
    ensures Run(Start, "ab", FlushWhenFull(ReceiveBufferSize)) == Reassembly([], "ab")
    ensures Run(Reassembly([], "ab"), "x\n", FlushWhenFull(ReceiveBufferSize))
            == Reassembly(["abx\n"], [])
  {
    var p := FlushWhenFull(ReceiveBufferSize);
    PartialAccumulates(Start, "ab", p);
    assert Start.pending + "ab" == "ab";
    LineEmits(Reassembly([], "ab"), "x", p);
    assert "x" + [Newline] == "x\n";
    assert "ab" + "x" + [Newline] == "abx\n";
    assert Reassembly([], "ab").messages + ["abx\n"] == ["abx\n"];
  }

  /** A client of the contracts above: a disconnect clears neither the
      buffer nor the index, so bytes one central leaves unterminated become
      the start of the next central's first message. */
  method ReconnectKeepsPartial()
  {
    ReconnectRuns();
    var t := new BluetoothTerminal();
    assert t.buffer[..t.bufferIndex] == [];
    t.OnWrite("ab");
    t.OnDisconnect();
    t.OnConnect();
    t.OnWrite("x\n");
    assert t.emitted == ["abx\n"] && t.bufferIndex == 0;
  }
}
