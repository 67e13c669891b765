/** The two outbound records and their 32-byte frames: the scientific
    (telemetry) packet sent by the scientific module over SPI and the
    main-module (status) packet sent by the main module over the serial link. */
module Packets {
  import opened Bytes

  /** Every frame on either link has this many bytes (`SPI_PACKET_SIZE`). */
  const FrameSize: nat := 32

  /** Kind tags carried in byte 0. */
  const ScientificPacketIdentifier: Byte := 202
  const MainModulePacketIdentifier: Byte := 101
  const CommandPacketIdentifier: Byte := 55

  /** The five-byte array `finalPacketPadding`. */
  const FinalPacketPadding: seq<Byte> := [0, 0, 0, 0, 0]

  type Frame = s: seq<Byte> | |s| == FrameSize witness Zeros(FrameSize)

  datatype ScientificDataPacket = ScientificDataPacket(
    time: Int64,
    oxTankPressure: Int32,
    ccPressure: Int32,
    oxidizerTankTransducerValue: Int32,
    combustionChamberTransducerValue: Int32,
    timeSinceLastCalibration: Byte,
    timeSinceLastStartup: Byte)

  datatype MainModuleDataPacket = MainModuleDataPacket(
    time: Int64,
    stateByte: Byte,
    actuatorStatusByte: Byte,
    timeSinceLastStartup: Byte)

  function Zeros(n: nat): (r: seq<Byte>)
    ensures |r| == n
    ensures forall i :: 0 <= i < n ==> r[i] == 0
  {
    seq(n, _ => 0)
  }

  /** The memory image of an `int64_t` on a little-endian target. */
  function Int64Bytes(v: Int64): (r: seq<Byte>)
    ensures |r| == 8
  {
    WidthBounds();
    SignedLE(v, 8)
  }

  /** The memory image of an `int32_t` on a little-endian target. */
  function Int32Bytes(v: Int32): (r: seq<Byte>)
    ensures |r| == 4
  {
    WidthBounds();
    SignedLE(v, 4)
  }

  function Int64Of(s: seq<Byte>): Int64
    requires |s| == 8
  {
    WidthBounds();
    SignedValue(s)
  }

  function Int32Of(s: seq<Byte>): Int32
    requires |s| == 4
  {
    WidthBounds();
    SignedValue(s)
  }

  lemma Int64RoundTrip(v: Int64)
    ensures Int64Of(Int64Bytes(v)) == v
  {
    WidthBounds();
    SignedRoundTrip(v, 8);
  }

  lemma Int32RoundTrip(v: Int32)
    ensures Int32Of(Int32Bytes(v)) == v
  {
    WidthBounds();
    SignedRoundTrip(v, 4);
  }

  // ---------------------------------------------------------------------
  // Scientific (telemetry) frame

  /** The frame `ScientificDataPacket::dumpPacket` leaves in bytes 0..31. */
  function ScientificFrame(p: ScientificDataPacket): (f: Frame)
  {
    [ScientificPacketIdentifier]
    + Int64Bytes(p.time)
    + Int32Bytes(p.oxTankPressure)
    + Int32Bytes(p.ccPressure)
    + Int32Bytes(p.oxidizerTankTransducerValue)
    + Int32Bytes(p.combustionChamberTransducerValue)
    + [p.timeSinceLastCalibration, p.timeSinceLastStartup]
    + FinalPacketPadding
  }

  /** How the receiving module reads a telemetry frame back. */
  function DecodeScientific(f: Frame): ScientificDataPacket
  {
    ScientificDataPacket(
      Int64Of(f[1..9]),
      Int32Of(f[9..13]),
      Int32Of(f[13..17]),
      Int32Of(f[17..21]),
      Int32Of(f[21..25]),
      f[25],
      f[26])
  }

  /** The telemetry layout: tag 202 at byte 0, `time` at 1..8, the four
      32-bit fields at 9..12, 13..16, 17..20, 21..24 in declaration order,
      the two counters at 25 and 26 and five zero bytes at 27..31. */
  lemma ScientificLayout(p: ScientificDataPacket)
    ensures var f := ScientificFrame(p);
      f[0] == ScientificPacketIdentifier &&
      f[1..9] == Int64Bytes(p.time) &&
      f[9..13] == Int32Bytes(p.oxTankPressure) &&
      f[13..17] == Int32Bytes(p.ccPressure) &&
      f[17..21] == Int32Bytes(p.oxidizerTankTransducerValue) &&
      f[21..25] == Int32Bytes(p.combustionChamberTransducerValue) &&
      f[25] == p.timeSinceLastCalibration &&
      f[26] == p.timeSinceLastStartup &&
      f[27..] == Zeros(5)
  {
    var f := ScientificFrame(p);
    var t := Int64Bytes(p.time);
    var a, b, c, d := Int32Bytes(p.oxTankPressure), Int32Bytes(p.ccPressure),
      Int32Bytes(p.oxidizerTankTransducerValue), Int32Bytes(p.combustionChamberTransducerValue);
    assert f == [ScientificPacketIdentifier] + t + a + b + c + d
      + [p.timeSinceLastCalibration, p.timeSinceLastStartup] + FinalPacketPadding;
    assert f[1..9] == t;
    assert f[9..13] == a;
    assert f[13..17] == b;
    assert f[17..21] == c;
    assert f[21..25] == d;
    assert f[27..] == FinalPacketPadding;
  }

  /** Every telemetry record is recovered from its frame. */
  lemma ScientificRoundTrip(p: ScientificDataPacket)
    ensures DecodeScientific(ScientificFrame(p)) == p
  {
    ScientificLayout(p);
    Int64RoundTrip(p.time);
    Int32RoundTrip(p.oxTankPressure);
    Int32RoundTrip(p.ccPressure);
    Int32RoundTrip(p.oxidizerTankTransducerValue);
    Int32RoundTrip(p.combustionChamberTransducerValue);
  }

  /** Distinct telemetry records give distinct frames. */
  lemma ScientificFrameInjective(p: ScientificDataPacket, q: ScientificDataPacket)
    requires ScientificFrame(p) == ScientificFrame(q)
    ensures p == q
  {
    ScientificRoundTrip(p);
    ScientificRoundTrip(q);
  }

  /** A non-negative `int32_t` below 256 * 256 is sent as its two low
      bytes followed by two zero bytes. */
  lemma Int32BytesOfSmall(v: Int32)
    requires 0 <= v < 256 * 256
    ensures Int32Bytes(v) == [(v % 256) as Byte, (v / 256) as Byte, 0, 0]
  {
    WidthBounds();
    UnsignedLEOfSmall(v, 4);
  }

  /** The same for a 64-bit `time`: two low bytes, then six zero bytes. */
  lemma Int64BytesOfSmall(v: Int64)
    requires 0 <= v < 256 * 256
    ensures Int64Bytes(v) == [(v % 256) as Byte, (v / 256) as Byte, 0, 0, 0, 0, 0, 0]
  {
    WidthBounds();
    UnsignedLEOfSmall(v, 8);
  }

  /** A record whose integer fields all lie in 0 .. 256 * 256 - 1 is sent
      with two significant bytes per field and zero bytes elsewhere. */
  lemma ScientificFrameOfSmall(p: ScientificDataPacket)
    requires 0 <= p.time < 256 * 256
    requires 0 <= p.oxTankPressure < 256 * 256 && 0 <= p.ccPressure < 256 * 256
    requires 0 <= p.oxidizerTankTransducerValue < 256 * 256
    requires 0 <= p.combustionChamberTransducerValue < 256 * 256
    ensures ScientificFrame(p) ==
      [ScientificPacketIdentifier,
       (p.time % 256) as Byte, (p.time / 256) as Byte, 0, 0, 0, 0, 0, 0,
       (p.oxTankPressure % 256) as Byte, (p.oxTankPressure / 256) as Byte, 0, 0,
       (p.ccPressure % 256) as Byte, (p.ccPressure / 256) as Byte, 0, 0,
       (p.oxidizerTankTransducerValue % 256) as Byte, (p.oxidizerTankTransducerValue / 256) as Byte, 0, 0,
       (p.combustionChamberTransducerValue % 256) as Byte, (p.combustionChamberTransducerValue / 256) as Byte, 0, 0,
       p.timeSinceLastCalibration, p.timeSinceLastStartup, 0, 0, 0, 0, 0]
  {
    Int64BytesOfSmall(p.time);
    Int32BytesOfSmall(p.oxTankPressure);
    Int32BytesOfSmall(p.ccPressure);
    Int32BytesOfSmall(p.oxidizerTankTransducerValue);
    Int32BytesOfSmall(p.combustionChamberTransducerValue);
  }

  /** A sample record and its exact frame: `time` 1000, pressures 500 and
      300, raw values 12 and 34, counters 5 and 9. */
  lemma ScientificExample(p: ScientificDataPacket)
    requires p == ScientificDataPacket(1000, 500, 300, 12, 34, 5, 9)
    ensures ScientificFrame(p) ==
      [202, 232, 3, 0, 0, 0, 0, 0, 0, 244, 1, 0, 0, 44, 1, 0, 0, 12, 0, 0, 0, 34, 0, 0, 0, 5, 9, 0, 0, 0, 0, 0]
  {
    ScientificFrameOfSmall(p);
  }

  // ---------------------------------------------------------------------
  // Main-module (status) frame

  /** The 20 bytes of memory that start at `finalPacketPadding`: its own
      five zeros followed by `overread`, the 15 bytes that happen to lie
      after the array. Their values are not fixed by the program. */
  function PaddingMemory(overread: seq<Byte>): (m: seq<Byte>)
    requires |overread| == 15
    ensures |m| == 20
  {
    FinalPacketPadding + overread
  }

  /** The frame `MainModuleDataPacket::dumpPacket` leaves in bytes 0..31,
      as written: bytes 12..31 are copied from `PaddingMemory`. */
  function StatusFrameAsWritten(p: MainModuleDataPacket, overread: seq<Byte>): (f: Frame)
    requires |overread| == 15
  {
    [MainModulePacketIdentifier, p.stateByte, p.actuatorStatusByte, p.timeSinceLastStartup]
    + Int64Bytes(p.time)
    + PaddingMemory(overread)
  }

  /** The status frame as evidently intended: bytes 12..31 are zero. */
  function StatusFrame(p: MainModuleDataPacket): (f: Frame)
  {
    [MainModulePacketIdentifier, p.stateByte, p.actuatorStatusByte, p.timeSinceLastStartup]
    + Int64Bytes(p.time)
    + Zeros(20)
  }

  function DecodeStatus(f: Frame): MainModuleDataPacket
  {
    MainModuleDataPacket(Int64Of(f[4..12]), f[1], f[2], f[3])
  }

  /** The status layout: tag 101 at byte 0, the three status bytes at 1, 2
      and 3, `time` at 4..11 and twenty zero bytes at 12..31; and every
      status record is recovered from its frame. */
  lemma StatusLayout(p: MainModuleDataPacket)
    ensures var f := StatusFrame(p);
      f[0] == MainModulePacketIdentifier &&
      f[1] == p.stateByte && f[2] == p.actuatorStatusByte && f[3] == p.timeSinceLastStartup &&
      f[4..12] == Int64Bytes(p.time) &&
      f[12..] == Zeros(20) &&
      DecodeStatus(f) == p
  {
    var f := StatusFrame(p);
    assert f[4..12] == Int64Bytes(p.time);
    assert f[12..] == Zeros(20);
    Int64RoundTrip(p.time);
  }

  /** As written, bytes 0..16 of the status frame do not depend on the
      memory past `finalPacketPadding` and agree with the intended frame;
      the whole frame is the intended one exactly when that memory is zero. */
  lemma StatusFrameAsWrittenAgrees(p: MainModuleDataPacket, overread: seq<Byte>)
    requires |overread| == 15
    ensures StatusFrameAsWritten(p, overread)[..17] == StatusFrame(p)[..17]
    ensures StatusFrameAsWritten(p, overread)[17..] == overread
    ensures StatusFrameAsWritten(p, overread) == StatusFrame(p) <==> overread == Zeros(15)
  {
    var head := [MainModulePacketIdentifier, p.stateByte, p.actuatorStatusByte, p.timeSinceLastStartup]
      + Int64Bytes(p.time) + FinalPacketPadding;
    assert StatusFrameAsWritten(p, overread) == head + overread;
    assert Zeros(20) == FinalPacketPadding + Zeros(15);
    assert StatusFrame(p) == head + Zeros(15);
    if StatusFrameAsWritten(p, overread) == StatusFrame(p) {
      assert overread == (head + overread)[17..] == (head + Zeros(15))[17..] == Zeros(15);
    }
  }

  /** The as-written status frame can carry a non-zero byte at offset 17:
      nothing in the program makes the bytes it reads past the five-byte
      padding array zero. */
  lemma StatusPaddingCanBeNonzero(p: MainModuleDataPacket)
    ensures exists overread: seq<Byte> :: |overread| == 15 && StatusFrameAsWritten(p, overread)[17] != 0
  {
    var overread: seq<Byte> := [1] + Zeros(14);
    StatusFrameAsWrittenAgrees(p, overread);
    assert StatusFrameAsWritten(p, overread)[17] == 1;
  }

  // ---------------------------------------------------------------------
  // In-place encoders

  /** `memcpy(buffer + offset, src, |src|)`. */
  method MemCopy(buffer: array<Byte>, offset: nat, src: seq<Byte>)
    requires offset + |src| <= buffer.Length
    modifies buffer
    ensures forall k :: 0 <= k < buffer.Length ==>
      buffer[k] == if offset <= k < offset + |src| then src[k - offset] else old(buffer[k])
  {
    forall k | 0 <= k < |src| {
      buffer[offset + k] := src[k];
    }
  }

  /** `ScientificDataPacket::dumpPacket`, with the copies in the source's
      order. The first 32 bytes of the buffer become the telemetry frame,
      whatever they held before; the rest of the buffer is untouched. */
  method DumpScientificPacket(p: ScientificDataPacket, buffer: array<Byte>)
    requires buffer.Length >= FrameSize
    modifies buffer
    ensures buffer[..FrameSize] == ScientificFrame(p)
    ensures buffer[FrameSize..] == old(buffer[FrameSize..])
  {
    buffer[0] := ScientificPacketIdentifier;
    MemCopy(buffer, 9, Int32Bytes(p.oxTankPressure));
    MemCopy(buffer, 13, Int32Bytes(p.ccPressure));
    MemCopy(buffer, 17, Int32Bytes(p.oxidizerTankTransducerValue));
    MemCopy(buffer, 21, Int32Bytes(p.combustionChamberTransducerValue));
    MemCopy(buffer, 25, [p.timeSinceLastCalibration]);
    MemCopy(buffer, 26, [p.timeSinceLastStartup]);
    MemCopy(buffer, 1, Int64Bytes(p.time));
    MemCopy(buffer, 27, FinalPacketPadding);
    ScientificLayout(p);
    var f := ScientificFrame(p);
    forall k | 0 <= k < FrameSize
      ensures buffer[k] == f[k]
    {
      if 1 <= k < 9 {
        assert f[k] == f[1..9][k - 1];
      } else if 9 <= k < 13 {
        assert f[k] == f[9..13][k - 9];
      } else if 13 <= k < 17 {
        assert f[k] == f[13..17][k - 13];
      } else if 17 <= k < 21 {
        assert f[k] == f[17..21][k - 17];
      } else if 21 <= k < 25 {
        assert f[k] == f[21..25][k - 21];
      } else if 27 <= k {
        assert f[k] == f[27..][k - 27];
      }
    }
    assert buffer[..FrameSize] == f;
  }

  /** `MainModuleDataPacket::dumpPacket` as written: the last copy takes 20
      bytes from the memory starting at the five-byte padding array. */
  method DumpMainModulePacket(p: MainModuleDataPacket, buffer: array<Byte>, overread: seq<Byte>)
    requires buffer.Length >= FrameSize
    requires |overread| == 15
    modifies buffer
    ensures buffer[..FrameSize] == StatusFrameAsWritten(p, overread)
    ensures buffer[FrameSize..] == old(buffer[FrameSize..])
  {
    buffer[0] := MainModulePacketIdentifier;
    MemCopy(buffer, 1, [p.stateByte]);
    MemCopy(buffer, 2, [p.actuatorStatusByte]);
    MemCopy(buffer, 3, [p.timeSinceLastStartup]);
    MemCopy(buffer, 4, Int64Bytes(p.time));
    MemCopy(buffer, 12, PaddingMemory(overread));
    assert buffer[..FrameSize] == StatusFrameAsWritten(p, overread);
  }

  /** The status encoder with the padding it evidently intends: twenty
      zero bytes at 12..31. */
  method DumpMainModulePacketPadded(p: MainModuleDataPacket, buffer: array<Byte>)
    requires buffer.Length >= FrameSize
    modifies buffer
    ensures buffer[..FrameSize] == StatusFrame(p)
    ensures buffer[FrameSize..] == old(buffer[FrameSize..])
  {
    buffer[0] := MainModulePacketIdentifier;
    MemCopy(buffer, 1, [p.stateByte]);
    MemCopy(buffer, 2, [p.actuatorStatusByte]);
    MemCopy(buffer, 3, [p.timeSinceLastStartup]);
    MemCopy(buffer, 4, Int64Bytes(p.time));
    MemCopy(buffer, 12, Zeros(20));
    assert buffer[..FrameSize] == StatusFrame(p);
  }
}
