/** The serial link of the main module: `SerialManager` over a UART.
    The UART driver is a library whose code is not part of this model; it is
    represented by its unread input bytes, the bytes written so far and the
    value `read()` yields when no byte is waiting. */
module Serial {
  import opened Bytes
  import opened Packets
  import opened Commands

  /** The UART as `SerialManager` sees it. */
  class SerialPort {
    /** Received bytes not yet read, oldest first. */
    var input: seq<Byte>
    /** Every byte written so far. */
    var output: seq<Byte>
    /** What `read()` yields when `input` is empty; fixed by the driver. */
    const emptyRead: Byte

    constructor (emptyRead: Byte)
      ensures input == [] && output == [] && this.emptyRead == emptyRead
    {
      input, output := [], [];
      this.emptyRead := emptyRead;
    }

    method Available() returns (n: nat)
      ensures n == |input|
    {
      n := |input|;
    }

    method Read() returns (b: Byte)
      modifies this
      ensures old(input) == [] ==> b == emptyRead && input == []
      ensures old(input) != [] ==> b == old(input)[0] && input == old(input)[1..]
      ensures output == old(output)
    {
      if input == [] {
        b := emptyRead;
      } else {
        b := input[0];
        input := input[1..];
      }
    }

    method Write(bytes: seq<Byte>)
      modifies this
      ensures output == old(output) + bytes
      ensures input == old(input)
    {
      output := output + bytes;
    }

    /** The peer's bytes arrive on the line. This is the hardware's step,
        not the program's: it lets callers of the model supply input. */
    method Receive(bytes: seq<Byte>)
      modifies this
      ensures input == old(input) + bytes
      ensures output == old(output)
    {
      input := input + bytes;
    }
  }

  function Filler(b: Byte, n: nat): (r: seq<Byte>)
    ensures |r| == n
    ensures forall k :: 0 <= k < n ==> r[k] == b
  {
    seq(n, _ => b)
  }

  /** The 32 bytes one pass of the inner read loop yields from `input`:
      its first 32 bytes, or all of it followed by `fill` when it is shorter. */
  function NextFrame(input: seq<Byte>, fill: Byte): (f: Frame)
    ensures forall k :: 0 <= k < FrameSize ==> f[k] == if k < |input| then input[k] else fill
  {
    if |input| >= FrameSize then input[..FrameSize]
    else input + Filler(fill, FrameSize - |input|)
  }

  /** What is left of `input` after one pass of the inner read loop. */
  function AfterFrame(input: seq<Byte>): (rest: seq<Byte>)
    ensures |input| >= FrameSize ==> input == input[..FrameSize] + rest
    ensures |input| < FrameSize ==> rest == []
  {
    if |input| >= FrameSize then input[FrameSize..] else []
  }

  /** The frames `getCommand` decodes, as written, from `input`: 32-byte
      groups while any byte is left, the last one completed with `fill`. */
  function SerialFrames(input: seq<Byte>, fill: Byte): seq<Frame>
    decreases |input|
  {
    if input == [] then [] else [NextFrame(input, fill)] + SerialFrames(AfterFrame(input), fill)
  }

  /** The complete 32-byte groups at the front of `input`. */
  function WholeFrames(input: seq<Byte>): seq<Frame>
    decreases |input|
  {
    if |input| < FrameSize then [] else [input[..FrameSize]] + WholeFrames(input[FrameSize..])
  }

  /** The length of the complete groups at the front of `input`. */
  function WholeLength(input: seq<Byte>): (n: nat)
    ensures n <= |input| && |input| - n < FrameSize
    decreases |input|
  {
    if |input| < FrameSize then 0 else FrameSize + WholeLength(input[FrameSize..])
  }

  /** When the input is a whole number of frames, the as-written drain and
      the whole-frame drain read the same frames. */
  lemma {:induction false} SerialFramesOfWholeInput(input: seq<Byte>, fill: Byte)
    requires |input| % FrameSize == 0
    ensures SerialFrames(input, fill) == WholeFrames(input)
    decreases |input|
  {
    if input != [] {
      SerialFramesOfWholeInput(input[FrameSize..], fill);
    }
  }

  lemma {:induction false} WholeLengthOfWholeInput(input: seq<Byte>)
    requires |input| % FrameSize == 0
    ensures WholeLength(input) == |input|
    decreases |input|
  {
    if input != [] {
      WholeLengthOfWholeInput(input[FrameSize..]);
    }
  }

  /** The last complete group is the last of `WholeFrames`. */
  lemma {:induction false} WholeFramesLast(input: seq<Byte>)
    requires |input| >= FrameSize
    ensures var frames := WholeFrames(input); var n := WholeLength(input);
      frames != [] && frames[|frames| - 1] == input[n - FrameSize..n]
    decreases |input|
  {
    var rest := input[FrameSize..];
    if |rest| >= FrameSize {
      WholeFramesLast(rest);
      var m := WholeLength(rest);
      assert WholeLength(input) == FrameSize + m;
      assert rest[m - FrameSize..m] == input[FrameSize + m - FrameSize..FrameSize + m];
    }
  }

  /** The whole-frame drain answers "null" when no complete frame is
      waiting and otherwise the decode of the last complete frame. */
  lemma WholeFramesDrainResult(input: seq<Byte>)
    ensures var n := WholeLength(input);
      Replay(Null, WholeFrames(input)) ==
        if n == 0 then Null else ParseCommandPacket(input[n - FrameSize..n])
  {
    ReplayIsLastWriter(Null, WholeFrames(input));
    if |input| >= FrameSize {
      WholeFramesLast(input);
    }
  }

  /** As written, on an input of k whole frames (k >= 0) the drain answers
      "null" for k = 0 and otherwise the decode of the last 32 bytes. */
  lemma SerialDrainOfWholeFrames(input: seq<Byte>, fill: Byte)
    requires |input| % FrameSize == 0
    ensures Replay(Null, SerialFrames(input, fill)) ==
      if input == [] then Null else ParseCommandPacket(input[|input| - FrameSize..])
  {
    var n := WholeLength(input);
    assert n == |input| by {
      WholeLengthOfWholeInput(input);
    }
    assert Replay(Null, SerialFrames(input, fill)) == Replay(Null, WholeFrames(input)) by {
      SerialFramesOfWholeInput(input, fill);
    }
    WholeFramesDrainResult(input);
    if input != [] {
      assert input[n - FrameSize..n] == input[|input| - FrameSize..];
    }
  }

  /** Of two whole frames received back to back, the second is decoded last. */
  lemma SerialDrainOfTwoFrames(first: Frame, second: Frame, fill: Byte)
    ensures Replay(Null, SerialFrames(first + second, fill)) == ParseCommandPacket(second)
  {
    var input := first + second;
    assert |input| == 2 * FrameSize;
    SerialDrainOfWholeFrames(input, fill);
    assert input[|input| - FrameSize..] == second;
  }

  /** As written, the first 31 bytes of any frame are decoded as the whole
      frame would be, whatever the UART yields for the missing 32nd byte:
      a partial frame is not held back until it is complete. */
  lemma ShortFrameIsDecoded(frame: Frame, fill: Byte)
    ensures Replay(Null, SerialFrames(frame[..FrameSize - 1], fill)) == ParseCommandPacket(frame)
  {
    var input := frame[..FrameSize - 1];
    var f := NextFrame(input, fill);
    assert SerialFrames(input, fill) == [f];
    assert f[1..5] == frame[1..5];
    ParseReadsOnlyCommandBytes(f, frame);
  }

  /** With the whole-frame guard, fewer than 32 waiting bytes give "null". */
  lemma PartialFrameIsHeldBack(input: seq<Byte>)
    requires |input| < FrameSize
    ensures Replay(Null, WholeFrames(input)) == Null
  {
  }

  /** `SerialManager`: sends status frames and drains inbound command frames. */
  class SerialManager {
    var latestCommand: Command
    const port: SerialPort

    /** The latch starts as the empty string; UART configuration is left out. */
    constructor (port: SerialPort)
      ensures this.port == port && latestCommand == Empty
    {
      this.port := port;
      latestCommand := Empty;
    }

    /** `sendData`: encode the status record and write its 32 bytes. Bytes
        17..31 on the wire are `overread`, the memory that follows the 5-byte
        padding array. */
    method SendData(packet: MainModuleDataPacket, overread: seq<Byte>)
      requires |overread| == 15
      modifies port
      ensures port.output == old(port.output) + StatusFrameAsWritten(packet, overread)
      ensures port.input == old(port.input)
    {
      var buffer := new Byte[FrameSize];
      DumpMainModulePacket(packet, buffer, overread);
      port.Write(buffer[..]);
    }

    /** `sendData` over the corrected encoder: the zero-padded status frame. */
    method SendDataPadded(packet: MainModuleDataPacket)
      modifies port
      ensures port.output == old(port.output) + StatusFrame(packet)
      ensures port.input == old(port.input)
    {
      var buffer := new Byte[FrameSize];
      DumpMainModulePacketPadded(packet, buffer);
      port.Write(buffer[..]);
    }

    /** The inner loop of `getCommand`: 32 calls of `read()` into `buffer`. */
    method ReadPacket(buffer: array<Byte>) returns (i: nat)
      requires buffer.Length == FrameSize
      modifies port, buffer
      ensures i == FrameSize
      ensures buffer[..] == NextFrame(old(port.input), port.emptyRead)
      ensures port.input == AfterFrame(old(port.input))
      ensures port.output == old(port.output)
    {
      ghost var before := port.input;
      ghost var expected := NextFrame(before, port.emptyRead);
      i := 0;
      while i < FrameSize
        invariant 0 <= i <= FrameSize
        invariant forall k :: 0 <= k < i ==> buffer[k] == expected[k]
        invariant port.input == if i <= |before| then before[i..] else []
        invariant port.output == old(port.output)
      {
        buffer[i] := port.Read();
        i := i + 1;
      }
      assert buffer[..] == expected;
    }

    /** `getCommand` as written: while any byte is waiting, read 32 bytes
        and decode them; answer the last decode, or "null" when nothing was
        waiting, and record it in `latestCommand`. */
    method GetCommand() returns (command: Command)
      modifies this, port
      ensures port.input == [] && port.output == old(port.output)
      ensures command == Replay(Null, SerialFrames(old(port.input), port.emptyRead))
      ensures latestCommand == command
    {
      var buffer := new Byte[FrameSize];
      command := Null;
      var available := port.Available();
      while available != 0
        invariant available == |port.input|
        invariant Replay(command, SerialFrames(port.input, port.emptyRead))
          == Replay(Null, SerialFrames(old(port.input), port.emptyRead))
        invariant port.output == old(port.output)
        decreases |port.input|
      {
        var i := ReadPacket(buffer);
        // i always equals the packet size here: the test never fails
        if i == FrameSize {
          command := ParseCommandPacket(buffer[..]);
        }
        available := port.Available();
      }
      latestCommand := command;
    }

    /** `getCommand` with the guard it evidently intends: a frame is read
        only when 32 bytes are waiting, so a partial frame is never decoded
        and stays in the input for the next call. */
    method GetCommandWholeFrames() returns (command: Command)
      modifies this, port
      ensures port.input == old(port.input)[WholeLength(old(port.input))..]
      ensures port.output == old(port.output)
      ensures command == Replay(Null, WholeFrames(old(port.input)))
      ensures latestCommand == command
    {
      var buffer := new Byte[FrameSize];
      command := Null;
      ghost var original := port.input;
      ghost var consumed: nat := 0;
      var available := port.Available();
      while available >= FrameSize
        invariant available == |port.input|
        invariant consumed <= |original| && port.input == original[consumed..]
        invariant WholeLength(original) == consumed + WholeLength(port.input)
        invariant Replay(command, WholeFrames(port.input)) == Replay(Null, WholeFrames(original))
        invariant port.output == old(port.output)
        decreases |port.input|
      {
        var i := ReadPacket(buffer);
        command := ParseCommandPacket(buffer[..]);
        assert original[consumed..][FrameSize..] == original[consumed + FrameSize..];
        consumed := consumed + FrameSize;
        available := port.Available();
      }
      latestCommand := command;
    }
  }

  /** Two whole frames decoding to "standby" then "keep": the drain
      answers "keep". */
  method LastSerialFrameWins(emptyRead: Byte, standby: Frame, keep: Frame)
    requires ParseCommandPacket(standby) == Standby && ParseCommandPacket(keep) == Keep
  {
    var port := new SerialPort(emptyRead);
    var manager := new SerialManager(port);
    port.Receive(standby + keep);
    assert port.input == standby + keep;
    var command := manager.GetCommand();
    SerialDrainOfTwoFrames(standby, keep, emptyRead);
    assert command == Keep;
  }

  /** With nothing waiting the drain answers "null". */
  method NothingWaitingIsNull(emptyRead: Byte)
  {
    var port := new SerialPort(emptyRead);
    var manager := new SerialManager(port);
    var command := manager.GetCommand();
    assert command == Null;
  }

  /** 31 bytes of a frame decoding to "fire": as written the drain answers
      "fire" at once; with the whole-frame guard it answers "null" and keeps
      the 31 bytes until the 32nd arrives. */
  method ShortFrameScenario(emptyRead: Byte, fire: Frame)
    requires ParseCommandPacket(fire) == Fire
  {
    var partial := fire[..FrameSize - 1];
    var port := new SerialPort(emptyRead);
    var manager := new SerialManager(port);
    port.Receive(partial);
    var asWritten := manager.GetCommand();
    ShortFrameIsDecoded(fire, emptyRead);
    assert asWritten == Fire;

    port.Receive(partial);
    var corrected := manager.GetCommandWholeFrames();
    PartialFrameIsHeldBack(partial);
    assert corrected == Null;
    assert port.input == partial;
    port.Receive([fire[FrameSize - 1]]);
    assert port.input == fire;
    corrected := manager.GetCommandWholeFrames();
    SerialDrainOfWholeFrames(fire, emptyRead);
    SerialFramesOfWholeInput(fire, emptyRead);
    WholeLengthOfWholeInput(fire);
    assert corrected == Fire;
  }
}
