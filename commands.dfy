/** The command table and the command decoder: an inbound frame carries a
    command in bytes 1..4, whatever its kind tag says. */
module Commands {
  import opened Bytes
  import opened Packets

  /** The strings `parseCommandPacket` returns, and the default-constructed
      empty `String` that each manager's `latestCommand` holds before its
      first assignment (which is not `"null"`). */
  datatype Command = Fire | Fill | Purge | Abort | Standby | Keep | Calibrate | Null | Empty
  {
    /** One of the seven commands of the table. */
    predicate IsCommand() {
      !Null? && !Empty?
    }
  }

  const FireCommandPacket: seq<Byte> := [142, 185, 73, 37]
  const FillCommandPacket: seq<Byte> := [29, 19, 36, 76]
  const PurgeCommandPacket: seq<Byte> := [172, 13, 135, 56]
  const AbortCommandPacket: seq<Byte> := [6, 254, 163, 13]
  const StandbyCommandPacket: seq<Byte> := [171, 179, 216, 159]
  const KeepCommandPacket: seq<Byte> := [55, 183, 135, 14]
  const CalibrateCommandPacket: seq<Byte> := [191, 90, 204, 107]

  /** The 4-byte code of each command. */
  function CommandCode(c: Command): (code: seq<Byte>)
    requires c.IsCommand()
    ensures |code| == 4
  {
    match c
    case Fire => FireCommandPacket
    case Fill => FillCommandPacket
    case Purge => PurgeCommandPacket
    case Abort => AbortCommandPacket
    case Standby => StandbyCommandPacket
    case Keep => KeepCommandPacket
    case Calibrate => CalibrateCommandPacket
  }

  /** No two commands share a code, so the order in which the decoder tries
      them does not matter. */
  lemma CommandCodesDistinct(c: Command, d: Command)
    requires c.IsCommand() && d.IsCommand() && c != d
    ensures CommandCode(c) != CommandCode(d)
  {
    assert CommandCode(c)[..3] != CommandCode(d)[..3] || CommandCode(c)[3] != CommandCode(d)[3];
  }

  /** The comparison loop of `doPacketsMatch` from index i on: it returns
      false at the first differing byte and true once index 4 is reached. */
  function MatchFrom(pack1: seq<Byte>, pack2: seq<Byte>, i: nat): (r: bool)
    requires |pack1| >= 4 && |pack2| >= 4 && i <= 4
    ensures r <==> forall k :: i <= k < 4 ==> pack1[k] == pack2[k]
    decreases 4 - i
  {
    if i == 4 then true
    else if pack1[i] != pack2[i] then false
    else MatchFrom(pack1, pack2, i + 1)
  }

  /** `doPacketsMatch`: true exactly when the first four bytes agree; bytes
      past index 3 are never read. */
  function DoPacketsMatch(pack1: seq<Byte>, pack2: seq<Byte>): (r: bool)
    requires |pack1| >= 4 && |pack2| >= 4
    ensures r <==> pack1[..4] == pack2[..4]
  {
    var r := MatchFrom(pack1, pack2, 0);
    assert r ==> pack1[..4] == pack2[..4];
    r
  }

  /** `parseCommandPacket`: copy bytes 1..4 and try the seven codes in turn. */
  function ParseCommandPacket(packet: seq<Byte>): (r: Command)
    requires |packet| >= 5
    ensures r != Empty
    ensures r.IsCommand() ==> packet[1..5] == CommandCode(r)
  {
    var commandBytes := packet[1..5];
    if DoPacketsMatch(commandBytes, FireCommandPacket) then Fire
    else if DoPacketsMatch(commandBytes, FillCommandPacket) then Fill
    else if DoPacketsMatch(commandBytes, PurgeCommandPacket) then Purge
    else if DoPacketsMatch(commandBytes, AbortCommandPacket) then Abort
    else if DoPacketsMatch(commandBytes, StandbyCommandPacket) then Standby
    else if DoPacketsMatch(commandBytes, KeepCommandPacket) then Keep
    else if DoPacketsMatch(commandBytes, CalibrateCommandPacket) then Calibrate
    else Null
  }

  /** Any packet whose bytes 1..4 hold a command's code decodes to that
      command, whatever byte 0 and the bytes after 4 hold. */
  lemma ParseRecognizes(packet: seq<Byte>, c: Command)
    requires |packet| >= 5 && c.IsCommand()
    requires packet[1..5] == CommandCode(c)
    ensures ParseCommandPacket(packet) == c
  {
    var r := ParseCommandPacket(packet);
    if r != c {
      assert r.IsCommand();
      CommandCodesDistinct(r, c);
    }
  }

  /** The decoder answers "null" exactly when bytes 1..4 are none of the
      seven codes. */
  lemma ParseNullIff(packet: seq<Byte>)
    requires |packet| >= 5
    ensures ParseCommandPacket(packet) == Null <==>
      forall c: Command :: c.IsCommand() ==> packet[1..5] != CommandCode(c)
  {
    if ParseCommandPacket(packet) != Null {
      var c := ParseCommandPacket(packet);
      assert c.IsCommand() && packet[1..5] == CommandCode(c);
    } else {
      forall c: Command | c.IsCommand()
        ensures packet[1..5] != CommandCode(c)
      {
        if packet[1..5] == CommandCode(c) {
          ParseRecognizes(packet, c);
        }
      }
    }
  }

  /** Only bytes 1..4 of a packet decide its decoding. */
  lemma ParseReadsOnlyCommandBytes(packet1: seq<Byte>, packet2: seq<Byte>)
    requires |packet1| >= 5 && |packet2| >= 5
    requires packet1[1..5] == packet2[1..5]
    ensures ParseCommandPacket(packet1) == ParseCommandPacket(packet2)
  {
    var c := ParseCommandPacket(packet1);
    if c.IsCommand() {
      ParseRecognizes(packet2, c);
    } else {
      ParseNullIff(packet1);
      ParseNullIff(packet2);
    }
  }

  /** A frame of zeros carries no command. */
  lemma AllZeroFrameIsNull()
    ensures ParseCommandPacket(Zeros(FrameSize)) == Null
  {
    var f := Zeros(FrameSize);
    assert f[1..5] == [0, 0, 0, 0];
  }

  /** A command frame as the peer builds it: tag 55, the code, zeros. */
  function CommandFrame(c: Command): (f: Frame)
    requires c.IsCommand()
  {
    [CommandPacketIdentifier] + CommandCode(c) + Zeros(27)
  }

  /** Every command frame decodes to its command. */
  lemma CommandFrameRoundTrip(c: Command)
    requires c.IsCommand()
    ensures ParseCommandPacket(CommandFrame(c)) == c
  {
    assert CommandFrame(c)[1..5] == CommandCode(c);
    ParseRecognizes(CommandFrame(c), c);
  }

  /** The four low-order bytes of the `time` 0x2549B98E are the fire code. */
  lemma FireTimeBytes(time: Int64)
    requires time == 0x2549_B98E
    ensures Int64Bytes(time)[..4] == FireCommandPacket
  {
    WidthBounds();
    var r := UnsignedLE(time, 8);
    assert Int64Bytes(time) == r;
    var t1 := time / 256;
    var t2 := t1 / 256;
    var t3 := t2 / 256;
    assert r == [(time % 256) as Byte] + UnsignedLE(t1, 7);
    assert UnsignedLE(t1, 7) == [(t1 % 256) as Byte] + UnsignedLE(t2, 6);
    assert UnsignedLE(t2, 6) == [(t2 % 256) as Byte] + UnsignedLE(t3, 5);
    assert UnsignedLE(t3, 5) == [(t3 % 256) as Byte] + UnsignedLE(t3 / 256, 4);
    assert time % 256 == 142 && t1 % 256 == 185 && t2 % 256 == 73 && t3 % 256 == 37;
  }

  /** The kind tag is not checked: a telemetry frame whose `time` has the
      fire code as its four low-order bytes decodes as "fire". */
  lemma TelemetryFrameCanDecodeAsFire()
    ensures exists p: ScientificDataPacket :: ParseCommandPacket(ScientificFrame(p)) == Fire
  {
    // 0x2549B98E: little-endian bytes 142, 185, 73, 37, then four zeros
    var p := ScientificDataPacket(0x2549_B98E, 0, 0, 0, 0, 0, 0);
    var f := ScientificFrame(p);
    ScientificLayout(p);
    FireTimeBytes(p.time);
    assert f[1..5] == f[1..9][..4];
    ParseRecognizes(f, Fire);
  }

  // ---------------------------------------------------------------------
  // The command latch

  /** The latch after decoding `frames` in arrival order, each decode
      overwriting the previous value: the loop both managers run. */
  function Replay(latch: Command, frames: seq<Frame>): Command
    decreases |frames|
  {
    if frames == [] then latch else Replay(ParseCommandPacket(frames[0]), frames[1..])
  }

  /** Last writer wins: the latch ends as the decode of the last frame, and
      is unchanged when there is none. */
  lemma {:induction false} ReplayIsLastWriter(latch: Command, frames: seq<Frame>)
    ensures Replay(latch, frames) ==
      if frames == [] then latch else ParseCommandPacket(frames[|frames| - 1])
    decreases |frames|
  {
    if frames != [] {
      ReplayIsLastWriter(ParseCommandPacket(frames[0]), frames[1..]);
      if |frames| > 1 {
        assert frames[1..][|frames[1..]| - 1] == frames[|frames| - 1];
      }
    }
  }

  /** Decoding one more frame overwrites whatever the latch held. */
  lemma ReplayAppend(latch: Command, frames: seq<Frame>, f: Frame)
    ensures Replay(latch, frames + [f]) == ParseCommandPacket(f)
  {
    ReplayIsLastWriter(latch, frames + [f]);
  }

  /** A pending command is lost when a frame that carries no command
      arrives after it and before the latch is read. */
  lemma PendingCommandOverwritten(latch: Command, frames: seq<Frame>, f: Frame)
    requires Replay(latch, frames).IsCommand()
    requires ParseCommandPacket(f) == Null
    ensures Replay(latch, frames + [f]) == Null
  {
    ReplayAppend(latch, frames, f);
  }
}
