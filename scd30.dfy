/** The SCD30 CO2 sensor driver: request frames written to the two-wire bus and the
    CRC-protected replies read back.

    A bus read is a parameter holding the bytes the sensor returned. A bus write is the frame
    a method returns: the opcode for the read operations, which write it before they read.
    Python's mixed return values and exceptions become the `Reply` datatype. */
module Scd30 {
  import opened Common
  import Crc8

  /** Two-byte opcodes. The lists for starting a measurement and for setting the interval
      are only initial values: the driver extends them in place (see `CommandLists`). */
  const CmdFirmwareVersion: seq<int> := [0xD1, 0x00]
  const CmdReadDataReadyFlag: seq<int> := [0x02, 0x02]
  const CmdStartMeasurement: seq<int> := [0x00, 0x10]
  const CmdReadMeasurementInterval: seq<int> := [0x46, 0x00]
  const CmdSetMeasurementInterval: seq<int> := [0x46, 0x00]
  const CmdReadMeasurement: seq<int> := [0x03, 0x00]

  /** Reply sizes in bytes. */
  const NBytesReadDataReadyFlag: nat := 3
  const NBytesFirmwareVersion: nat := 3
  const NBytesReadMeasurementInterval: nat := 3
  const NBytesReadMeasurement: nat := 18

  /** Every two data bytes on the bus are followed by their CRC byte. */
  const PacketSize: nat := 3

  /** Interval bounds, in seconds, that `set_measurement_interval` accepts. */
  const MinInterval: int := 2
  const MaxInterval: int := 1800

  /** The outcome of a driver operation. */
  datatype Reply<T> =
    | Value(value: T)   // the operation's result
    | CrcMismatched     // the string "CRC mismatched"
    | NoneReturned      // Python's None
    | IndexError        // the reply was too short: indexing it raised IndexError

  // ---------------------------------------------------------------------------------------
  // Frames

  /** The 3-byte frame that starts at byte `i` carries the CRC of its two data bytes. */
  predicate FrameValid(data: seq<Byte>, i: nat)
    requires i + PacketSize <= |data|
  {
    Crc8.Checksum(data[i], data[i + 1]) == data[i + 2]
  }

  /** Frame number `k` (counting from 0) is valid. */
  predicate FrameAt(data: seq<Byte>, k: nat)
    requires PacketSize * (k + 1) <= |data|
  {
    FrameValid(data, PacketSize * k)
  }

  /** The first `n` frames are valid, checked in order as the driver's loop does. */
  predicate FramesValid(data: seq<Byte>, n: nat)
    requires PacketSize * n <= |data|
  {
    n == 0 || (FramesValid(data, n - 1) && FrameAt(data, n - 1))
  }

  /** The data bytes of the first `n` frames: the first two bytes of each, in order. */
  function DataBytes(data: seq<Byte>, n: nat): seq<Byte>
    requires PacketSize * n <= |data|
  {
    if n == 0 then [] else DataBytes(data, n - 1) + data[PacketSize * (n - 1) .. PacketSize * (n - 1) + 2]
  }

  lemma {:induction false} FramesValidIff(data: seq<Byte>, n: nat)
    requires PacketSize * n <= |data|
    ensures FramesValid(data, n) <==> forall k :: 0 <= k < n ==> FrameAt(data, k)
  {
    if n > 0 {
      FramesValidIff(data, n - 1);
    }
  }

  lemma {:induction false} DataBytesAt(data: seq<Byte>, n: nat)
    requires PacketSize * n <= |data|
    ensures |DataBytes(data, n)| == 2 * n
    ensures forall i :: 0 <= i < 2 * n ==> DataBytes(data, n)[i] == data[PacketSize * (i / 2) + i % 2]
  {
    if n > 0 {
      DataBytesAt(data, n - 1);
    }
  }

  /** A single changed byte inside a valid frame makes it invalid. */
  lemma CorruptedFrameInvalid(data: seq<Byte>, i: nat, p: nat, b: Byte)
    requires i + PacketSize <= |data| && FrameValid(data, i)
    requires i <= p < i + PacketSize && b != data[p]
    ensures !FrameValid(data[p := b], i)
  {
    var d := data[p := b];
    if p < i + 2 {
      Crc8.ChecksumDetectsByteChange(data[i], data[i + 1], d[i], d[i + 1]);
    }
  }

  // ---------------------------------------------------------------------------------------
  // Big-endian words

  /** `b0 << 24 | b1 << 16 | b2 << 8 | b3`: for bytes the shifted values occupy disjoint bits,
      so the OR is their sum. The result is the 32-bit pattern of an IEEE-754 float. */
  function BigEndianWord(b0: Byte, b1: Byte, b2: Byte, b3: Byte): nat
  {
    ((b0 * 0x100 + b1) * 0x100 + b2) * 0x100 + b3
  }

  /** The four bytes of a 32-bit word, most significant first. */
  function WordBytes(w: nat): seq<int>
  {
    [w / 0x100 / 0x100 / 0x100, w / 0x100 / 0x100 % 0x100, w / 0x100 % 0x100, w % 0x100]
  }

  lemma ShiftInByte(q: nat, r: Byte)
    ensures (q * 0x100 + r) / 0x100 == q && (q * 0x100 + r) % 0x100 == r
  {
  }

  /** The word keeps its four bytes apart: they are read back unchanged, and the word fits
      in 32 bits. */
  lemma BigEndianWordBytes(b0: Byte, b1: Byte, b2: Byte, b3: Byte)
    ensures BigEndianWord(b0, b1, b2, b3) < 0x1_0000_0000
    ensures WordBytes(BigEndianWord(b0, b1, b2, b3)) == [b0, b1, b2, b3]
  {
    var h := b0 * 0x100 + b1;
    ShiftInByte(b0, b1);
    ShiftInByte(h, b2);
    ShiftInByte(h * 0x100 + b2, b3);
  }

  /** The three raw words of a measurement, in the order the sensor sends them. */
  datatype Measurement = Measurement(co2Ppm: nat, tempCelsius: nat, rhPercent: nat)

  /** Word `k` of the 12 data bytes. */
  function WordOf(status: seq<Byte>, k: nat): nat
    requires 4 * k + 4 <= |status|
  {
    BigEndianWord(status[4 * k], status[4 * k + 1], status[4 * k + 2], status[4 * k + 3])
  }

  /** What `read_measurement` returns for the bytes the bus read produced. */
  function MeasurementOf(data: Option<seq<Byte>>): Reply<Measurement>
  {
    if data.None? || |data.value| != NBytesReadMeasurement then NoneReturned
    else if !FramesValid(data.value, 6) then CrcMismatched
    else
      var status := DataBytes(data.value, 6);
      DataBytesAt(data.value, 6);
      Value(Measurement(WordOf(status, 0), WordOf(status, 1), WordOf(status, 2)))
  }

  // ---------------------------------------------------------------------------------------
  // Read operations

  /** The first loop of `read_measurement`: check the first `n` frames in order and collect
      their data bytes, giving up at the first frame whose CRC does not match. */
  method CheckedDataBytes(d: seq<Byte>, n: nat) returns (status: Option<seq<Byte>>)
    requires PacketSize * n <= |d|
    ensures status == if FramesValid(d, n) then Some(DataBytes(d, n)) else None
  {
    var bytes: seq<Byte> := [];
    var i, frames := 0, 0;
    while frames < n
      invariant 0 <= frames <= n && i == PacketSize * frames
      invariant FramesValid(d, frames)
      invariant bytes == DataBytes(d, frames)
    {
      var crc := Crc8.CrcCalc(d[i..i + 2]);
      if crc != d[i + 2] {
        assert !FrameAt(d, frames);
        FramesValidIff(d, n);
        return None;
      }
      bytes := bytes + d[i..i + 2];
      i, frames := i + PacketSize, frames + 1;
    }
    status := Some(bytes);
  }

  /** The second loop of `read_measurement`: the 12 data bytes as three big-endian words. */
  method Words(status: seq<Byte>) returns (values: seq<nat>)
    requires |status| == 12
    ensures |values| == 3 && forall k :: 0 <= k < 3 ==> values[k] == WordOf(status, k)
  {
    values := [];
    var i := 0;
    while i < 12
      invariant 0 <= |values| <= 3 && i == 4 * |values|
      invariant forall k :: 0 <= k < |values| ==> values[k] == WordOf(status, k)
    {
      var value := status[i..i + 4];
      values := values + [BigEndianWord(value[0], value[1], value[2], value[3])];
      i := i + 4;
    }
  }

  /** `read_measurement`: check all six frames, collect their data bytes, then assemble three
      big-endian words. Nothing is returned from a reply that has a bad frame. */
  method ReadMeasurement(data: Option<seq<Byte>>) returns (written: seq<int>, r: Reply<Measurement>)
    ensures written == CmdReadMeasurement
    ensures r == MeasurementOf(data)
  {
    written := CmdReadMeasurement;
    if data.None? || |data.value| != NBytesReadMeasurement {
      r := NoneReturned;
      return;
    }
    var status := CheckedDataBytes(data.value, NBytesReadMeasurement / PacketSize);
    if status.None? {
      r := CrcMismatched;
      return;
    }
    assert |status.value| == 12 by {
      DataBytesAt(data.value, 6);
    }
    var values := Words(status.value);
    r := Value(Measurement(values[0], values[1], values[2]));
  }

  /** The text `".".join(map(str, data[:2]))`. */
  function VersionText(major: Byte, minor: Byte): string
  {
    DecimalString(major) + "." + DecimalString(minor)
  }

  /** `firmware_version`. */
  method FirmwareVersion(data: seq<Byte>) returns (written: seq<int>, r: Reply<string>)
    ensures written == CmdFirmwareVersion
    ensures |data| < NBytesFirmwareVersion ==> r == IndexError
    ensures |data| >= NBytesFirmwareVersion && !FrameValid(data, 0) ==> r == CrcMismatched
    ensures |data| >= NBytesFirmwareVersion && FrameValid(data, 0) ==> r == Value(VersionText(data[0], data[1]))
  {
    written := CmdFirmwareVersion;
    if |data| < NBytesFirmwareVersion {
      r := IndexError;
      return;
    }
    var crc := Crc8.CrcCalc(data[..2]);
    if crc != data[2] {
      r := CrcMismatched;
      return;
    }
    r := Value(VersionText(data[0], data[1]));
  }

  /** `read_data_ready_flag`: a reply with a bad CRC reads as "not ready". */
  method ReadDataReadyFlag(data: seq<Byte>) returns (written: seq<int>, r: Reply<bool>)
    ensures written == CmdReadDataReadyFlag
    ensures |data| < NBytesReadDataReadyFlag ==> r == IndexError
    ensures |data| >= NBytesReadDataReadyFlag ==> r == Value(FrameValid(data, 0) && data[1] == 1)
  {
    written := CmdReadDataReadyFlag;
    if |data| < NBytesReadDataReadyFlag {
      r := IndexError;
      return;
    }
    var crc := Crc8.CrcCalc(data[..2]);
    if crc != data[2] {
      r := Value(false);
      return;
    }
    r := Value(data[1] == 1);
  }

  /** `get_measurement_interval`: validates the one frame of the reply and returns the reply
      itself, all of it, rather than the interval it encodes. */
  method GetMeasurementInterval(data: seq<Byte>) returns (written: seq<int>, r: Reply<seq<Byte>>)
    ensures written == CmdReadMeasurementInterval
    ensures |data| < NBytesReadMeasurementInterval ==> r == IndexError
    ensures |data| >= NBytesReadMeasurementInterval ==> r == if FrameValid(data, 0) then Value(data) else CrcMismatched
  {
    written := CmdReadMeasurementInterval;
    if |data| < NBytesReadMeasurementInterval {
      r := IndexError;
      return;
    }
    var i := 0;
    while i < NBytesReadMeasurementInterval
      invariant i == 0 || (i == PacketSize && FrameValid(data, 0))
    {
      var crc := Crc8.CrcCalc(data[i..i + 2]);
      if crc != data[i + 2] {
        r := CrcMismatched;
        return;
      }
      i := i + PacketSize;
    }
    r := Value(data);
  }

  // ---------------------------------------------------------------------------------------
  // Properties of the read operations

  /** One bad frame, wherever it is, rejects the whole 18-byte reply. */
  lemma MeasurementRejectsBadFrame(data: seq<Byte>, k: nat)
    requires |data| == NBytesReadMeasurement && k < 6 && !FrameAt(data, k)
    ensures MeasurementOf(Some(data)) == CrcMismatched
  {
    FramesValidIff(data, 6);
  }

  /** A reply whose frames are all valid is accepted, and its three words are read from
      bytes 0, 1, 3, 4, then 6, 7, 9, 10, then 12, 13, 15, 16 of the reply: the CRC bytes
      are skipped. */
  lemma MeasurementWords(data: seq<Byte>)
    requires |data| == NBytesReadMeasurement
    requires forall k :: 0 <= k < 6 ==> FrameAt(data, k)
    ensures MeasurementOf(Some(data)) == Value(Measurement(
      BigEndianWord(data[0], data[1], data[3], data[4]),
      BigEndianWord(data[6], data[7], data[9], data[10]),
      BigEndianWord(data[12], data[13], data[15], data[16])))
  {
    FramesValidIff(data, 6);
    DataBytesAt(data, 6);
    var s := DataBytes(data, 6);
    assert s[0] == data[0] && s[1] == data[1] && s[2] == data[3] && s[3] == data[4];
    assert s[4] == data[6] && s[5] == data[7] && s[6] == data[9] && s[7] == data[10];
    assert s[8] == data[12] && s[9] == data[13] && s[10] == data[15] && s[11] == data[16];
  }

  /** Changing any one byte of an accepted reply makes the whole reply rejected. */
  lemma MeasurementDetectsCorruption(data: seq<Byte>, p: nat, b: Byte)
    requires |data| == NBytesReadMeasurement && MeasurementOf(Some(data)).Value?
    requires p < NBytesReadMeasurement && b != data[p]
    ensures MeasurementOf(Some(data[p := b])) == CrcMismatched
  {
    var k := p / PacketSize;
    FramesValidIff(data, 6);
    assert FrameAt(data, k);
    CorruptedFrameInvalid(data, PacketSize * k, p, b);
    MeasurementRejectsBadFrame(data[p := b], k);
  }

  /** "Ready" is reported only for an intact frame: a single changed byte in a reply that
      said "ready" makes it read as "not ready". */
  lemma DataReadyDetectsCorruption(data: seq<Byte>, p: nat, b: Byte)
    requires |data| >= NBytesReadDataReadyFlag && FrameValid(data, 0)
    requires p < NBytesReadDataReadyFlag && b != data[p]
    ensures !FrameValid(data[p := b], 0)
  {
    CorruptedFrameInvalid(data, 0, p, b);
  }

  /** The firmware version text holds one dot, with the major number in decimal before it
      and the minor number after it. */
  lemma VersionTextReadsBack(major: Byte, minor: Byte)
    ensures var t := VersionText(major, minor);
            var p := |DecimalString(major)|;
            && p < |t| && t[p] == '.' && Occurrences(t, '.') == 1
            && (forall i :: 0 <= i < p ==> IsDigit(t[i])) && DecimalValue(t[..p]) == major
            && (forall i :: p < i < |t| ==> IsDigit(t[i])) && DecimalValue(t[p + 1..]) == minor
  {
    var a, b := DecimalString(major), DecimalString(minor);
    var t := VersionText(major, minor);
    assert t[..|a|] == a;
    assert t[|a| + 1..] == b;
    DecimalRoundTrip(major);
    DecimalRoundTrip(minor);
    NoOccurrences(a, '.');
    NoOccurrences(b, '.');
    OccurrencesAppend(a, ".", '.');
    OccurrencesAppend(a + ".", b, '.');
  }

  // ---------------------------------------------------------------------------------------
  // Command frames written in place

  /** `bytearray(frame)`, which the bus write performs. MicroPython does not range-check
      the elements: it keeps the low 8 bits of each. A frame of bytes goes out unchanged. */
  function AsBytes(frame: seq<int>): (r: seq<Byte>)
    ensures |r| == |frame|
    ensures (forall i :: 0 <= i < |frame| ==> 0 <= frame[i] < 256) ==> r == frame
  {
    seq(|frame|, i requires 0 <= i < |frame| => frame[i] % 256)
  }

  /** The module-level start-measurement list after `n` calls of `start_measurement`: each
      call appends `0x00, 0x00` and the CRC of list elements 2 and 3. */
  function StartListAfter(n: nat): (s: seq<int>)
    ensures |s| == 2 + PacketSize * n
    ensures forall i :: 0 <= i < |s| ==> 0 <= s[i] < 256
    ensures s[..2] == CmdStartMeasurement
    ensures n > 0 ==> s[2] == 0x00 && s[3] == 0x00
  {
    if n == 0 then CmdStartMeasurement
    else StartListAfter(n - 1) + [0x00, 0x00, Crc8.Checksum(0x00, 0x00)]
  }

  predicate AcceptedIntervals(intervals: seq<int>)
  {
    forall k :: 0 <= k < |intervals| ==> MinInterval <= intervals[k] <= MaxInterval
  }

  /** The module-level set-interval list after accepting `intervals`, in order: each call
      appends `0x00`, the interval, and the CRC of list elements 2 and 3, which always hold
      `0x00` and the FIRST interval ever set. */
  function IntervalListAfter(intervals: seq<int>): (s: seq<int>)
    requires AcceptedIntervals(intervals)
    ensures |s| == 2 + PacketSize * |intervals|
    ensures s[..2] == CmdSetMeasurementInterval
    ensures |intervals| > 0 ==> s[2] == 0x00 && s[3] == intervals[0]
  {
    if intervals == [] then CmdSetMeasurementInterval
    else
      var last := intervals[|intervals| - 1];
      IntervalListAfter(intervals[..|intervals| - 1]) + [0x00, last, Crc8.Checksum(0x00, intervals[0])]
  }

  /** One more start call appends a zero word and its CRC; the word the CRC is taken over
      is always elements 2 and 3 of the list. */
  lemma StartListStep(n: nat)
    ensures StartListAfter(n + 1) == StartListAfter(n) + [0x00, 0x00, Crc8.Checksum(0x00, 0x00)]
    ensures (StartListAfter(n) + [0x00, 0x00])[2..4] == [0x00, 0x00]
  {
  }

  /** One more accepted interval appends `0x00`, the interval, and the CRC of elements 2 and
      3, which hold `0x00` and the first interval accepted. */
  lemma IntervalListStep(intervals: seq<int>, interval: int)
    requires AcceptedIntervals(intervals) && MinInterval <= interval <= MaxInterval
    ensures AcceptedIntervals(intervals + [interval])
    ensures var first := (intervals + [interval])[0];
            && (IntervalListAfter(intervals) + [0x00, interval])[2..4] == [0x00, first]
            && IntervalListAfter(intervals + [interval])
               == IntervalListAfter(intervals) + [0x00, interval, Crc8.Checksum(0x00, first)]
  {
    assert (intervals + [interval])[..|intervals|] == intervals;
  }

  /** What `set_measurement_interval` does. */
  datatype IntervalWrite =
    | OutOfRange          // ValueError raised before anything is touched
    | Sent(frame: seq<Byte>)

  /** The two lists the driver mutates: `CMD_START_MEASUREMENT` and
      `CMD_SET_MEASUREMENT_INTERVAL`. `data = CMD_...` binds the list itself, so every
      `extend` and `append` lands in it and persists across calls. */
  class CommandLists {
    var startMeasurement: seq<int>
    var setMeasurementInterval: seq<int>
    ghost var starts: nat              // calls of start_measurement so far
    ghost var intervals: seq<int>      // intervals accepted so far, in order

    ghost predicate Valid()
      reads this
    {
      && startMeasurement == StartListAfter(starts)
      && AcceptedIntervals(intervals)
      && setMeasurementInterval == IntervalListAfter(intervals)
    }

    /** The lists as the module defines them when it is imported. */
    constructor ()
      ensures Valid() && starts == 0 && intervals == []
      ensures startMeasurement == CmdStartMeasurement
      ensures setMeasurementInterval == CmdSetMeasurementInterval
    {
      startMeasurement := CmdStartMeasurement;
      setMeasurementInterval := CmdSetMeasurementInterval;
      starts := 0;
      intervals := [];
    }

    /** `start_measurement`: extends the list in place and writes all of it. */
    method StartMeasurement() returns (written: seq<Byte>)
      requires Valid()
      modifies this
      ensures Valid() && starts == old(starts) + 1 && intervals == old(intervals)
      ensures startMeasurement == old(startMeasurement) + [0x00, 0x00, Crc8.Checksum(0x00, 0x00)]
      ensures setMeasurementInterval == old(setMeasurementInterval)
      ensures written == AsBytes(startMeasurement)
    {
      var data := startMeasurement;
      data := data + [0x00, 0x00];
      StartListStep(starts);
      var crc := Crc8.CrcCalc(data[2..4]);
      data := data + [crc];
      startMeasurement := data;
      starts := starts + 1;
      written := AsBytes(data);
    }

    /** `set_measurement_interval`: checks the range, extends the list in place and writes
      all of it, each element cut to its low byte. */
    method SetMeasurementInterval(interval: int) returns (r: IntervalWrite)
      requires Valid()
      modifies this
      ensures Valid() && starts == old(starts)
      ensures startMeasurement == old(startMeasurement)
      ensures !(MinInterval <= interval <= MaxInterval) ==>
                r == OutOfRange && unchanged(this)
      ensures MinInterval <= interval <= MaxInterval ==>
                && intervals == old(intervals) + [interval]
                && setMeasurementInterval == old(setMeasurementInterval) + [0x00, interval, Crc8.Checksum(0x00, intervals[0])]
                && r == Sent(AsBytes(setMeasurementInterval))
    {
      if !(MinInterval <= interval <= MaxInterval) {
        return OutOfRange;
      }
      var data := setMeasurementInterval;
      data := data + [0x00, interval];
      IntervalListStep(intervals, interval);
      var crc := Crc8.CrcCalc(data[2..4]);
      data := data + [crc];
      setMeasurementInterval := data;
      intervals := intervals + [interval];
      r := Sent(AsBytes(data));
    }
  }

  // ---------------------------------------------------------------------------------------
  // What the frames were evidently meant to be

  /** The start-measurement frame the sensor expects: opcode 0x0010, argument 0x0000 (no
      pressure compensation) and the argument's CRC. */
  function StartMeasurementFrame(): (frame: seq<Byte>)
    ensures |frame| == 5 && frame[..2] == CmdStartMeasurement
    ensures frame[2] == 0 && frame[3] == 0 && FrameValid(frame, 2)
  {
    CmdStartMeasurement + [0x00, 0x00, Crc8.Checksum(0x00, 0x00)]
  }

  /** The first call writes the intended frame; every later call writes a frame three bytes
      longer than the one before. */
  lemma {:induction false} StartFrameGrows(n: nat)
    ensures StartListAfter(1) == StartMeasurementFrame() == [0x00, 0x10, 0x00, 0x00, 0x81]
    ensures StartListAfter(2) == [0x00, 0x10, 0x00, 0x00, 0x81, 0x00, 0x00, 0x81]
    ensures |StartListAfter(n + 1)| == |StartMeasurementFrame()| + PacketSize * n
    ensures n > 0 ==> StartListAfter(n + 1) != StartMeasurementFrame()
  {
    Crc8.ZeroWordCheckValue();
  }

  /** The set-interval frame the sensor expects: the interval as a big-endian 16-bit
      argument, then its CRC. */
  function IntervalFrame(interval: int): (frame: seq<Byte>)
    requires MinInterval <= interval <= MaxInterval
    ensures |frame| == 5 && frame[..2] == CmdSetMeasurementInterval
    ensures frame[2] as int * 256 + frame[3] == interval && FrameValid(frame, 2)
  {
    CmdSetMeasurementInterval + [interval / 256, interval % 256, Crc8.Checksum(interval / 256, interval % 256)]
  }

  /** The interval in seconds that a get-interval reply encodes, as the docstring promises. */
  function IntervalSeconds(data: seq<Byte>): (r: Reply<int>)
    ensures |data| < NBytesReadMeasurementInterval <==> r == IndexError
    ensures |data| >= NBytesReadMeasurementInterval && !FrameValid(data, 0) <==> r == CrcMismatched
  {
    if |data| < NBytesReadMeasurementInterval then IndexError
    else if !FrameValid(data, 0) then CrcMismatched
    else Value(data[0] as int * 256 + data[1])
  }

  /** Reading back the argument that IntervalFrame sends yields the interval. */
  lemma IntervalRoundTrip(interval: int)
    requires MinInterval <= interval <= MaxInterval
    ensures IntervalSeconds(IntervalFrame(interval)[2..]) == Value(interval)
  {
    var frame := IntervalFrame(interval);
    assert frame[2..][0] == frame[2] && frame[2..][1] == frame[3] && frame[2..][2] == frame[4];
  }

  /** An interval of 256 seconds or more passes the range check but is stored as one list
      element, and the write keeps only its low byte. The CRC was taken over the whole
      element, which has the same low byte, so the sensor receives a valid frame: one that
      sets the interval to `interval % 256` seconds, not `interval`. */
  lemma WideIntervalTruncated(interval: int)
    requires 256 <= interval <= MaxInterval
    ensures var f := AsBytes(IntervalListAfter([interval]));
            && |f| == 5 && f[..2] == CmdSetMeasurementInterval && f[2] == 0x00
            && f[3] == interval % 256 && FrameValid(f, 2)
            && IntervalSeconds(f[2..]) == Value(interval % 256) != Value(interval)
  {
    var crc := Crc8.Checksum(0x00, interval);
    var f := AsBytes(IntervalListAfter([interval]));
    assert f == CmdSetMeasurementInterval + [0x00, interval % 256, crc] by {
      assert IntervalListAfter([interval]) == CmdSetMeasurementInterval + [0x00, interval, crc];
      TruncatedGroup(interval, crc);
    }
    assert crc == Crc8.Checksum(0x00, interval % 256) by {
      Crc8.ChecksumOfLowBytes(0x00, interval);
    }
    assert f[2..] == [0x00, interval % 256, crc];
  }

  /** The write of an interval group keeps the low byte of the interval and the CRC byte. */
  lemma TruncatedGroup(x: int, crc: int)
    requires 0 <= crc < 256
    ensures AsBytes(CmdSetMeasurementInterval + [0x00, x, crc])
         == CmdSetMeasurementInterval + [0x00, x % 256, crc]
  {
  }

  /** After a second interval is set, the CRC appended for it still protects the first one.
      When the two intervals differ in their low byte, that CRC is not the CRC of the second
      interval. */
  lemma SecondIntervalCrcIsStale(first: int, second: int)
    requires MinInterval <= first <= MaxInterval && MinInterval <= second <= MaxInterval
    requires first % 256 != second % 256
    ensures var s := IntervalListAfter([first, second]);
            |s| == 8 && s[5] == 0x00 && s[6] == second
            && s[7] == Crc8.Checksum(0x00, first) != Crc8.Checksum(0x00, second)
  {
    assert [first, second][..1] == [first];
    assert Crc8.Checksum(0x00, first) != Crc8.Checksum(0x00, second) by {
      Crc8.ChecksumOfLowBytes(0x00, first);
      Crc8.ChecksumOfLowBytes(0x00, second);
      Crc8.ChecksumDetectsByteChange(0x00, first % 256, 0x00, second % 256);
    }
  }
}
