/**
 * The `GET_INFO` answer: a sequential struct of ten fields packed without
 * padding (22 bytes), and its multi-line rendering.
 */
module HardwareInfos {
  import opened Bytes
  import opened Text

  /** Bytes of the packed struct. */
  const InfoSize: nat := 22

  datatype HardwareInfo = HardwareInfo(
    swVersion: U16,
    hwVersion: U8,
    imuPeriod: U16,
    dataPointPeriod: U16,
    hwStatus: U8,
    baseCalibration: U16,
    userVtCalibration: U16,
    currentRTC: U32,
    activityStartTimestamp: U32,
    activityThreshold: U16)

  /** `Parse(data)`: the struct laid over the first 22 bytes, fields in declaration order. */
  function Parse(data: seq<byte>): (info: HardwareInfo)
    requires |data| >= InfoSize
  {
    HardwareInfo(
      U16At(data, 0), data[2] as int, U16At(data, 3), U16At(data, 5), data[7] as int,
      U16At(data, 8), U16At(data, 10), U32At(data, 12), U32At(data, 16), U16At(data, 20))
  }

  /** The memory image of the struct. */
  function Encode(h: HardwareInfo): (s: seq<byte>)
    ensures |s| == InfoSize
  {
    LE16(h.swVersion) + [h.hwVersion as byte] + LE16(h.imuPeriod) + LE16(h.dataPointPeriod)
    + [h.hwStatus as byte] + LE16(h.baseCalibration) + LE16(h.userVtCalibration)
    + LE32(h.currentRTC) + LE32(h.activityStartTimestamp) + LE16(h.activityThreshold)
  }

  /** Every field sits at its own offset: parsing the image gives the struct back. */
  lemma ParseEncode(h: HardwareInfo)
    ensures Parse(Encode(h)) == h
  {
    var s := Encode(h);
    assert s[0..2] == LE16(h.swVersion);
    assert s[2] == h.hwVersion as byte;
    assert s[3..5] == LE16(h.imuPeriod);
    assert s[5..7] == LE16(h.dataPointPeriod);
    assert s[7] == h.hwStatus as byte;
    assert s[8..10] == LE16(h.baseCalibration);
    assert s[10..12] == LE16(h.userVtCalibration);
    assert s[12..16] == LE32(h.currentRTC);
    assert s[16..20] == LE32(h.activityStartTimestamp);
    assert s[20..22] == LE16(h.activityThreshold);
    U16AtLE16(s, 0, h.swVersion);
    U16AtLE16(s, 3, h.imuPeriod);
    U16AtLE16(s, 5, h.dataPointPeriod);
    U16AtLE16(s, 8, h.baseCalibration);
    U16AtLE16(s, 10, h.userVtCalibration);
    U32AtLE32(s, 12, h.currentRTC);
    U32AtLE32(s, 16, h.activityStartTimestamp);
    U16AtLE16(s, 20, h.activityThreshold);
  }

  /** Only the first 22 bytes matter, and all of them matter. */
  lemma EncodeParse(data: seq<byte>)
    requires |data| >= InfoSize
    ensures Encode(Parse(data)) == data[..InfoSize]
  {
    LE16U16At(data, 0);
    LE16U16At(data, 3);
    LE16U16At(data, 5);
    LE16U16At(data, 8);
    LE16U16At(data, 10);
    LE32U32At(data, 12);
    LE32U32At(data, 16);
    LE16U16At(data, 20);
    assert data[..InfoSize] == data[0..2] + [data[2]] + data[3..5] + data[5..7] + [data[7]]
      + data[8..10] + data[10..12] + data[12..16] + data[16..20] + data[20..22];
  }

  /** `(hwStatus & (1 << k)) != 0`. */
  predicate Bit(status: U8, k: nat)
  {
    (status / Pow2(k)) % 2 == 1
  }

  function Pow2(k: nat): (p: nat)
    ensures p >= 1
  {
    if k == 0 then 1 else 2 * Pow2(k - 1)
  }

  /** The `"0.{swVersion & 0xFF:X2}"` version text. */
  function VersionText(sw: U16): (v: string)
  {
    "0." + PadLeft(HexString(sw % 0x100), 2, '0')
  }

  /** The version text is four characters and names exactly the low byte of `swVersion`. */
  lemma VersionTextLowByte(sw: U16)
    ensures |VersionText(sw)| == 4 && VersionText(sw)[..2] == "0."
    ensures 16 * HexDigitValue(VersionText(sw)[2]) + HexDigitValue(VersionText(sw)[3]) == sw % 0x100
  {
    var lo := sw % 0x100;
    PadLeftHex(lo, 2);
    HexDigitsRLength(lo, 2);
    assert HexDigitsR(lo, 2) == HexDigitsR(lo / 16, 1) + [HexDigitChar(lo % 16)];
    assert HexDigitsR(lo / 16, 1) == [HexDigitChar(lo / 16)];
    HexDigitRoundTrip(lo / 16);
    HexDigitRoundTrip(lo % 16);
  }

  /** The six `Hardware Status` lines, in the order the source lists them. */
  function StatusLines(status: U8): (lines: seq<string>)
    ensures |lines| == 6
  {
    [ "Mode:\t\t" + (if Bit(status, 0) then "Extended" else "Normal"),
      "Activities:\t" + (if Bit(status, 6) then "Available" else "None"),
      "Stretch Sensor:\t" + (if Bit(status, 1) then "✅" else "❌"),
      "Calibration:\t" + (if Bit(status, 2) then "✅" else "❌"),
      "IMU Sensors:\t" + (if Bit(status, 4) then "✅" else "❌"),
      "Altitude Sensor:\t" + (if Bit(status, 5) then "✅" else "❌") ]
  }

  /** The flag bits the rendering shows: 0, 1, 2, 4, 5 and 6. */
  predicate SameShownBits(a: U8, b: U8)
  {
    Bit(a, 0) == Bit(b, 0) && Bit(a, 1) == Bit(b, 1) && Bit(a, 2) == Bit(b, 2)
    && Bit(a, 4) == Bit(b, 4) && Bit(a, 5) == Bit(b, 5) && Bit(a, 6) == Bit(b, 6)
  }

  /**
   * Two status bytes render the same lines exactly when they agree on bits
   * 0, 1, 2, 4, 5 and 6; bits 3 and 7 are never shown.
   */
  lemma StatusLinesShowBits(a: U8, b: U8)
    ensures StatusLines(a) == StatusLines(b) <==> SameShownBits(a, b)
  {
    if StatusLines(a) == StatusLines(b) {
      var la, lb := StatusLines(a), StatusLines(b);
      assert la[0] == lb[0] && la[1] == lb[1] && la[2] == lb[2];
      assert la[3] == lb[3] && la[4] == lb[4] && la[5] == lb[5];
      ChoiceShown("Mode:\t\t", "Extended", "Normal", Bit(a, 0), Bit(b, 0));
      ChoiceShown("Activities:\t", "Available", "None", Bit(a, 6), Bit(b, 6));
      ChoiceShown("Stretch Sensor:\t", "✅", "❌", Bit(a, 1), Bit(b, 1));
      ChoiceShown("Calibration:\t", "✅", "❌", Bit(a, 2), Bit(b, 2));
      ChoiceShown("IMU Sensors:\t", "✅", "❌", Bit(a, 4), Bit(b, 4));
      ChoiceShown("Altitude Sensor:\t", "✅", "❌", Bit(a, 5), Bit(b, 5));
    }
  }

  /** A prefix followed by one of two different words shows which word was chosen. */
  lemma ChoiceShown(prefix: string, yes: string, no: string, x: bool, y: bool)
    requires yes != no
    requires prefix + (if x then yes else no) == prefix + (if y then yes else no)
    ensures x == y
  {
    var u, v := if x then yes else no, if y then yes else no;
    assert u == (prefix + u)[|prefix|..];
    assert v == (prefix + v)[|prefix|..];
  }

  /** The mode line says `Extended` exactly when bit 0 is set, and the activities line `Available` exactly when bit 6 is. */
  lemma ModeAndActivities(status: U8)
    ensures StatusLines(status)[0] == "Mode:\t\tExtended" <==> status % 2 == 1
    ensures StatusLines(status)[1] == "Activities:\tAvailable" <==> (status / 64) % 2 == 1
  {
    assert Pow2(0) == 1;
    assert Pow2(6) == 64 by {
      assert Pow2(1) == 2 && Pow2(2) == 4 && Pow2(3) == 8 && Pow2(4) == 16 && Pow2(5) == 32;
    }
    assert "Mode:\t\tExtended" != "Mode:\t\tNormal";
    assert "Activities:\tAvailable" != "Activities:\tNone";
  }

  /**
   * `ToString()`. The two timestamps are printed as local date-times in the
   * `"G"` format; that text depends on the machine's time zone and culture and
   * is passed in.
   */
  function ToString(h: HardwareInfo, rtcText: string, activityStartText: string): (t: string)
  {
    "SW Version: " + VersionText(h.swVersion) + "\n"
    + "HW Version: " + NatToString(h.hwVersion) + "\n"
    + "IMU Period: " + NatToString(h.imuPeriod) + " ms\n"
    + "DataPoint Period: " + NatToString(h.dataPointPeriod) + " ms\n"
    + "Hardware Status:\n  - " + Join("\n  - ", StatusLines(h.hwStatus)) + "\n"
    + "Base Calibration: " + NatToString(h.baseCalibration) + "\n"
    + "Hardware RTC: " + rtcText + "\n"
    + "Last Activity Timestamp: " + activityStartText + "\n"
    + "Activity Threshold: " + NatToString(h.activityThreshold)
  }

  /**
   * The rendering depends on `hwStatus` only through the shown bits, and does
   * not depend on `userVtCalibration` at all.
   */
  lemma ToStringShownFields(h: HardwareInfo, status: U8, vt: U16, rtc: string, act: string)
    requires SameShownBits(h.hwStatus, status)
    ensures ToString(h.(hwStatus := status, userVtCalibration := vt), rtc, act) == ToString(h, rtc, act)
  {
    StatusLinesShowBits(h.hwStatus, status);
  }
}
