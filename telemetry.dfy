/**
 * The data-stream characteristic: every notification starts with a record
 * type byte, followed by little-endian fields at fixed offsets.
 */
module Telemetry {
  import opened Bytes
  import opened Wrappers

  datatype ImuSample = ImuSample(accX: I16, accY: I16, accZ: I16, gyrX: I16, gyrY: I16, gyrZ: I16)

  datatype Record =
    | Extended(counter: U32, chest: U16, chestNormalized: U16, imu: seq<ImuSample>,
               playerLoad: seq<U16>, pressure: U32, temperature: I16)
    | Breathing(timestamp: U32, rawBR: U16, procBR: U16, rawTV: U16, procTV: U16, rawMV: U16, procMV: U16)
    | ImuProcessed(counter: U32, cadence: U16, stepTime: U32, load: U16)
    | Stretch(counter: U32, value: U16)
    | PressureTemp(counter: U32, pressure: U32, temperature: I16)
    | HeartRate(timestamp: U32, heartRate: U16)
    | Unknown(dataType: byte)

  /** What one notification amounts to: dropped silently, or one record. */
  datatype Outcome = Dropped | Decoded(record: Record)

  /** The minimum length of each known record type, type byte included. */
  function MinLength(t: byte): Option<nat>
  {
    if t == 0 then Some(85)
    else if t == 1 then Some(17)
    else if t == 2 then Some(13)
    else if t == 3 then Some(7)
    else if t == 4 then Some(11)
    else if t == 5 then Some(7)
    else None
  }

  // Layout of the extended record (type 0).
  const ImuOffset: nat := 9
  const ImuSampleSize: nat := 12
  const SamplesPerRecord: nat := 5
  const LoadOffset: nat := 69
  const PressureOffset: nat := 79

  /** Six signed 16-bit values: acceleration X, Y, Z, then gyroscope X, Y, Z. */
  function ImuSampleAt(raw: seq<byte>, off: nat): ImuSample
    requires off + ImuSampleSize <= |raw|
  {
    ImuSample(I16At(raw, off), I16At(raw, off + 2), I16At(raw, off + 4),
              I16At(raw, off + 6), I16At(raw, off + 8), I16At(raw, off + 10))
  }

  function ImuSamples(raw: seq<byte>): (s: seq<ImuSample>)
    requires |raw| >= LoadOffset
    ensures |s| == SamplesPerRecord
  {
    seq(SamplesPerRecord, i requires 0 <= i < SamplesPerRecord => ImuSampleAt(raw, ImuOffset + ImuSampleSize * i))
  }

  function PlayerLoads(raw: seq<byte>): (s: seq<U16>)
    requires |raw| >= PressureOffset
    ensures |s| == SamplesPerRecord
  {
    seq(SamplesPerRecord, i requires 0 <= i < SamplesPerRecord => U16At(raw, LoadOffset + 2 * i))
  }

  /** The extended record: counter, chest raw, chest normalised, 5 IMU samples, 5 loads, pressure, temperature. */
  function ExtendedOf(raw: seq<byte>): Record
    requires |raw| >= 85
  {
    Extended(U32At(raw, 1), U16At(raw, 5), U16At(raw, 7), ImuSamples(raw), PlayerLoads(raw),
             U32At(raw, PressureOffset), I16At(raw, PressureOffset + 4))
  }

  /**
   * The `switch` of `DataStreamCharacteristic_ValueChanged`: an empty
   * notification and one shorter than its type's minimum are dropped; an
   * unknown type is kept as `Unknown`.
   */
  function Decode(raw: seq<byte>): (o: Outcome)
    ensures o.Dropped? <==> |raw| == 0 || (MinLength(raw[0]).Some? && |raw| < MinLength(raw[0]).value)
    ensures o.Decoded? && o.record.Unknown? <==> |raw| > 0 && MinLength(raw[0]).None?
  {
    if |raw| < 1 then Dropped
    else
      var t := raw[0];
      if t == 0 then
        if |raw| < 85 then Dropped else Decoded(ExtendedOf(raw))
      else if t == 1 then
        if |raw| < 17 then Dropped
        else Decoded(Breathing(U32At(raw, 1), U16At(raw, 5), U16At(raw, 7), U16At(raw, 9),
                               U16At(raw, 11), U16At(raw, 13), U16At(raw, 15)))
      else if t == 2 then
        if |raw| < 13 then Dropped
        else Decoded(ImuProcessed(U32At(raw, 1), U16At(raw, 5), U32At(raw, 7), U16At(raw, 11)))
      else if t == 3 then
        if |raw| < 7 then Dropped else Decoded(Stretch(U32At(raw, 1), U16At(raw, 5)))
      else if t == 4 then
        if |raw| < 11 then Dropped
        else Decoded(PressureTemp(U32At(raw, 1), U32At(raw, 5), I16At(raw, 9)))
      else if t == 5 then
        if |raw| < 7 then Dropped else Decoded(HeartRate(U32At(raw, 1), U16At(raw, 5)))
      else Decoded(Unknown(t))
  }

  /** Bytes past a record's fixed layout are ignored. */
  lemma DecodeIgnoresTrailing(raw: seq<byte>, extra: seq<byte>)
    requires Decode(raw).Decoded?
    ensures Decode(raw + extra) == Decode(raw)
  {
    var r := raw + extra;
    assert r[..|raw|] == raw;
    if raw[0] == 0 {
      assert ImuSamples(r) == ImuSamples(raw);
      assert PlayerLoads(r) == PlayerLoads(raw);
    }
  }

  /** The records a firmware can send: an extended record has five samples and five loads. */
  predicate WellFormed(r: Record)
  {
    !r.Unknown? && (r.Extended? ==> |r.imu| == SamplesPerRecord && |r.playerLoad| == SamplesPerRecord)
  }

  function EncodeSample(s: ImuSample): (b: seq<byte>)
    ensures |b| == ImuSampleSize
  {
    LEI16(s.accX) + LEI16(s.accY) + LEI16(s.accZ) + LEI16(s.gyrX) + LEI16(s.gyrY) + LEI16(s.gyrZ)
  }

  function EncodeSamples(s: seq<ImuSample>): (b: seq<byte>)
    ensures |b| == ImuSampleSize * |s|
  {
    if |s| == 0 then [] else EncodeSample(s[0]) + EncodeSamples(s[1..])
  }

  function EncodeLoads(s: seq<U16>): (b: seq<byte>)
    ensures |b| == 2 * |s|
  {
    if |s| == 0 then [] else LE16(s[0]) + EncodeLoads(s[1..])
  }

  /** What the firmware sends for a record: the minimum length of its type exactly. */
  function Encode(r: Record): (b: seq<byte>)
    requires WellFormed(r)
    ensures |b| > 0 && MinLength(b[0]) == Some(|b|)
  {
    match r
    case Extended(c, ch, cn, imu, loads, p, t) =>
      [0] + LE32(c) + LE16(ch) + LE16(cn) + EncodeSamples(imu) + EncodeLoads(loads) + LE32(p) + LEI16(t)
    case Breathing(ts, a, b, c, d, e, f) =>
      [1] + LE32(ts) + LE16(a) + LE16(b) + LE16(c) + LE16(d) + LE16(e) + LE16(f)
    case ImuProcessed(c, cad, st, l) => [2] + LE32(c) + LE16(cad) + LE32(st) + LE16(l)
    case Stretch(c, v) => [3] + LE32(c) + LE16(v)
    case PressureTemp(c, p, t) => [4] + LE32(c) + LE32(p) + LEI16(t)
    case HeartRate(ts, hr) => [5] + LE32(ts) + LE16(hr)
  }

  lemma DecodeSampleAt(raw: seq<byte>, off: nat, s: ImuSample)
    requires off + ImuSampleSize <= |raw| && raw[off..off + ImuSampleSize] == EncodeSample(s)
    ensures ImuSampleAt(raw, off) == s
  {
    var w := raw[off..off + ImuSampleSize];
    assert w[0] == LEI16(s.accX)[0] && w[1] == LEI16(s.accX)[1];
    assert raw[off..off + 2] == LEI16(s.accX);
    assert w[2] == LEI16(s.accY)[0] && w[3] == LEI16(s.accY)[1];
    assert raw[off + 2..off + 4] == LEI16(s.accY);
    assert w[4] == LEI16(s.accZ)[0] && w[5] == LEI16(s.accZ)[1];
    assert raw[off + 4..off + 6] == LEI16(s.accZ);
    assert w[6] == LEI16(s.gyrX)[0] && w[7] == LEI16(s.gyrX)[1];
    assert raw[off + 6..off + 8] == LEI16(s.gyrX);
    assert w[8] == LEI16(s.gyrY)[0] && w[9] == LEI16(s.gyrY)[1];
    assert raw[off + 8..off + 10] == LEI16(s.gyrY);
    assert w[10] == LEI16(s.gyrZ)[0] && w[11] == LEI16(s.gyrZ)[1];
    assert raw[off + 10..off + 12] == LEI16(s.gyrZ);
    I16AtLEI16(raw, off, s.accX);
    I16AtLEI16(raw, off + 2, s.accY);
    I16AtLEI16(raw, off + 4, s.accZ);
    I16AtLEI16(raw, off + 6, s.gyrX);
    I16AtLEI16(raw, off + 8, s.gyrY);
    I16AtLEI16(raw, off + 10, s.gyrZ);
  }

  lemma {:induction false} DecodeSamplesAt(raw: seq<byte>, off: nat, s: seq<ImuSample>, i: nat)
    requires off + ImuSampleSize * |s| <= |raw| && raw[off..off + ImuSampleSize * |s|] == EncodeSamples(s)
    requires i < |s|
    ensures ImuSampleAt(raw, off + ImuSampleSize * i) == s[i]
    decreases i
  {
    var hd, tl := EncodeSample(s[0]), EncodeSamples(s[1..]);
    assert ImuSampleSize * |s| == |hd| + |tl|;
    ConcatSlices(raw, off, hd, tl);
    if i == 0 {
      DecodeSampleAt(raw, off, s[0]);
    } else {
      assert off + ImuSampleSize + ImuSampleSize * (i - 1) == off + ImuSampleSize * i;
      DecodeSamplesAt(raw, off + ImuSampleSize, s[1..], i - 1);
    }
  }

  lemma {:induction false} DecodeLoadsAt(raw: seq<byte>, off: nat, s: seq<U16>, i: nat)
    requires off + 2 * |s| <= |raw| && raw[off..off + 2 * |s|] == EncodeLoads(s)
    requires i < |s|
    ensures U16At(raw, off + 2 * i) == s[i]
    decreases i
  {
    var hd, tl := LE16(s[0]), EncodeLoads(s[1..]);
    assert 2 * |s| == |hd| + |tl|;
    ConcatSlices(raw, off, hd, tl);
    if i == 0 {
      U16AtLE16(raw, off, s[0]);
    } else {
      DecodeLoadsAt(raw, off + 2, s[1..], i - 1);
    }
  }

  /** A slice holding a concatenation holds each part at its own offset. */
  lemma ConcatSlices(raw: seq<byte>, off: nat, x: seq<byte>, y: seq<byte>)
    requires off + |x| + |y| <= |raw| && raw[off..off + |x| + |y|] == x + y
    ensures raw[off..off + |x|] == x && raw[off + |x|..off + |x| + |y|] == y
  {
    var w := raw[off..off + |x| + |y|];
    assert raw[off..off + |x|] == w[..|x|];
    assert raw[off + |x|..off + |x| + |y|] == w[|x|..];
  }

  /** Every field lands at the offset the decoder reads it from. */
  lemma DecodeEncode(r: Record)
    requires WellFormed(r)
    ensures Decode(Encode(r)) == Decoded(r)
  {
    match r
    case Extended(_, _, _, _, _, _, _) => DecodeEncodeExtended(r);
    case Breathing(_, _, _, _, _, _, _) => DecodeEncodeBreathing(r);
    case ImuProcessed(_, _, _, _) => DecodeEncodeImu(r);
    case Stretch(_, _) => DecodeEncodeStretch(r);
    case PressureTemp(_, _, _) => DecodeEncodePressure(r);
    case HeartRate(_, _) => DecodeEncodeHeartRate(r);
  }

  lemma DecodeEncodeImu(r: Record)
    requires r.ImuProcessed?
    ensures Decode(Encode(r)) == Decoded(r)
  {
    var b := Encode(r);
    assert b[1..5] == LE32(r.counter) && b[5..7] == LE16(r.cadence) && b[7..11] == LE32(r.stepTime) && b[11..13] == LE16(r.load);
    U32AtLE32(b, 1, r.counter);
    U16AtLE16(b, 5, r.cadence);
    U32AtLE32(b, 7, r.stepTime);
    U16AtLE16(b, 11, r.load);
  }

  lemma DecodeEncodeStretch(r: Record)
    requires r.Stretch?
    ensures Decode(Encode(r)) == Decoded(r)
  {
    var b := Encode(r);
    assert b[1..5] == LE32(r.counter) && b[5..7] == LE16(r.value);
    U32AtLE32(b, 1, r.counter);
    U16AtLE16(b, 5, r.value);
  }

  lemma DecodeEncodePressure(r: Record)
    requires r.PressureTemp?
    ensures Decode(Encode(r)) == Decoded(r)
  {
    var b := Encode(r);
    assert b[1..5] == LE32(r.counter) && b[5..9] == LE32(r.pressure) && b[9..11] == LEI16(r.temperature);
    U32AtLE32(b, 1, r.counter);
    U32AtLE32(b, 5, r.pressure);
    I16AtLEI16(b, 9, r.temperature);
  }

  lemma DecodeEncodeHeartRate(r: Record)
    requires r.HeartRate?
    ensures Decode(Encode(r)) == Decoded(r)
  {
    var b := Encode(r);
    assert b[1..5] == LE32(r.timestamp) && b[5..7] == LE16(r.heartRate);
    U32AtLE32(b, 1, r.timestamp);
    U16AtLE16(b, 5, r.heartRate);
  }

  lemma DecodeEncodeBreathing(r: Record)
    requires r.Breathing?
    ensures Decode(Encode(r)) == Decoded(r)
  {
    var b := Encode(r);
    var head := [1 as byte] + LE32(r.timestamp) + LE16(r.rawBR) + LE16(r.procBR);
    assert b == head + (LE16(r.rawTV) + LE16(r.procTV) + LE16(r.rawMV) + LE16(r.procMV));
    assert b[1..5] == LE32(r.timestamp) && b[5..7] == LE16(r.rawBR) && b[7..9] == LE16(r.procBR);
    assert b[9..11] == LE16(r.rawTV) && b[11..13] == LE16(r.procTV);
    assert b[13..15] == LE16(r.rawMV) && b[15..17] == LE16(r.procMV);
    U32AtLE32(b, 1, r.timestamp);
    U16AtLE16(b, 5, r.rawBR);
    U16AtLE16(b, 7, r.procBR);
    U16AtLE16(b, 9, r.rawTV);
    U16AtLE16(b, 11, r.procTV);
    U16AtLE16(b, 13, r.rawMV);
    U16AtLE16(b, 15, r.procMV);
  }

  lemma DecodeEncodeExtended(r: Record)
    requires r.Extended? && WellFormed(r)
    ensures Decode(Encode(r)) == Decoded(r)
  {
    var b := Encode(r);
    ExtendedLayout(r);
    U32AtLE32(b, 1, r.counter);
    U16AtLE16(b, 5, r.chest);
    U16AtLE16(b, 7, r.chestNormalized);
    U32AtLE32(b, 79, r.pressure);
    I16AtLEI16(b, 83, r.temperature);
    ExtendedSamples(b, r.imu);
    ExtendedLoads(b, r.playerLoad);
  }

  /** Where each part of an extended record sits in its encoding. */
  lemma ExtendedLayout(r: Record)
    requires r.Extended? && WellFormed(r)
    ensures var b := Encode(r);
      |b| == 85 && b[1..5] == LE32(r.counter) && b[5..7] == LE16(r.chest) && b[7..9] == LE16(r.chestNormalized)
      && b[ImuOffset..LoadOffset] == EncodeSamples(r.imu) && b[LoadOffset..PressureOffset] == EncodeLoads(r.playerLoad)
      && b[79..83] == LE32(r.pressure) && b[83..85] == LEI16(r.temperature)
  {
    var b := Encode(r);
    var head := [0 as byte] + LE32(r.counter) + LE16(r.chest) + LE16(r.chestNormalized);
    var body := EncodeSamples(r.imu) + EncodeLoads(r.playerLoad);
    var tail := LE32(r.pressure) + LEI16(r.temperature);
    assert b == head + body + tail;
    ThreeParts(head, body, tail);
    assert b[1..5] == head[1..5] && b[5..7] == head[5..7] && b[7..9] == head[7..9];
    assert b[ImuOffset..LoadOffset] == body[..60] && b[LoadOffset..PressureOffset] == body[60..];
    assert b[79..83] == tail[..4] && b[83..85] == tail[4..];
  }

  /** The three parts of a concatenation can be sliced back out of it. */
  lemma ThreeParts(x: seq<byte>, y: seq<byte>, z: seq<byte>)
    ensures var s := x + y + z;
      s[..|x|] == x && s[|x|..|x| + |y|] == y && s[|x| + |y|..] == z
  {
  }

  lemma ExtendedSamples(b: seq<byte>, imu: seq<ImuSample>)
    requires |b| >= LoadOffset && |imu| == SamplesPerRecord && b[ImuOffset..LoadOffset] == EncodeSamples(imu)
    ensures ImuSamples(b) == imu
  {
    forall i | 0 <= i < SamplesPerRecord ensures ImuSamples(b)[i] == imu[i] {
      DecodeSamplesAt(b, ImuOffset, imu, i);
    }
  }

  lemma ExtendedLoads(b: seq<byte>, loads: seq<U16>)
    requires |b| >= PressureOffset && |loads| == SamplesPerRecord && b[LoadOffset..PressureOffset] == EncodeLoads(loads)
    ensures PlayerLoads(b) == loads
  {
    forall i | 0 <= i < SamplesPerRecord ensures PlayerLoads(b)[i] == loads[i] {
      DecodeLoadsAt(b, LoadOffset, loads, i);
    }
  }

  /**
   * The two `for` loops of the extended case: five IMU samples from offset
   * 9, twelve bytes apart, then five loads two bytes apart.
   */
  method DecodeExtended(raw: seq<byte>) returns (r: Record)
    requires |raw| >= 85
    ensures r == ExtendedOf(raw)
  {
    var counter := U32At(raw, 1);
    var chestRaw := U16At(raw, 5);
    var chestNorm := U16At(raw, 7);
    var imuList: seq<ImuSample> := [];
    var offset := ImuOffset;
    for i := 0 to SamplesPerRecord
      invariant offset == ImuOffset + ImuSampleSize * i
      invariant imuList == ImuSamples(raw)[..i]
    {
      imuList := imuList + [ImuSampleAt(raw, offset)];
      offset := offset + ImuSampleSize;
    }
    var loadList: seq<U16> := [];
    for i := 0 to SamplesPerRecord
      invariant offset == LoadOffset + 2 * i
      invariant loadList == PlayerLoads(raw)[..i]
    {
      loadList := loadList + [U16At(raw, offset)];
      offset := offset + 2;
    }
    var pressure := U32At(raw, offset);
    var temperature := I16At(raw, offset + 4);
    r := Extended(counter, chestRaw, chestNorm, imuList, loadList, pressure, temperature);
  }
}
