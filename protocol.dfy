/**
 * The control-characteristic protocol of the TYME device: the command
 * envelope, the 16-bit tag counter, the opcode and response-code names,
 * and the elapsed-time text of a battery-status push.
 */
module Protocol {
  import opened Bytes
  import opened Text
  import opened Wrappers

  /** The response code of an unsolicited battery-status push. */
  const BatteryStatusCode: U16 := 0x4002

  // Opcodes the application sends.
  const GetInfo: U16 := 0x0001
  const StartActivity: U16 := 0x0020
  const StopActivity: U16 := 0x0021
  const EraseFiles: U16 := 0x002B
  const SyncRtc: U16 := 0x002C
  const StartStretch: U16 := 0x002D
  const StopStretch: U16 := 0x002E
  const DataDump: U16 := 0x0108
  const ListFiles: U16 := 0x0109
  const FactoryCalibration: U16 := 0x010A

  datatype Command = Command(opcode: U16, tag: U16, param: Option<U32>)

  /**
   * The bytes `SendControlCommandAsync` writes: opcode and tag as
   * little-endian `ushort`s, then the parameter as a little-endian `uint`
   * when there is one.
   */
  function Envelope(c: Command): (cmd: seq<byte>)
    ensures |cmd| == if c.param.Some? then 8 else 4
  {
    LE16(c.opcode) + LE16(c.tag) + (if c.param.Some? then LE32(c.param.value) else [])
  }

  /** How the receiving side reads an envelope: four or eight bytes, nothing else. */
  function ParseEnvelope(cmd: seq<byte>): (c: Option<Command>)
    ensures c.Some? <==> |cmd| == 4 || |cmd| == 8
  {
    if |cmd| != 4 && |cmd| != 8 then None
    else Some(Command(U16At(cmd, 0), U16At(cmd, 2), if |cmd| == 8 then Some(U32At(cmd, 4)) else None))
  }

  lemma ParseEnvelopeOfEnvelope(c: Command)
    ensures ParseEnvelope(Envelope(c)) == Some(c)
  {
    var e := Envelope(c);
    assert e[0..2] == LE16(c.opcode);
    assert e[2..4] == LE16(c.tag);
    U16AtLE16(e, 0, c.opcode);
    U16AtLE16(e, 2, c.tag);
    if c.param.Some? {
      assert e[4..8] == LE32(c.param.value);
      U32AtLE32(e, 4, c.param.value);
    }
  }

  lemma EnvelopeOfParseEnvelope(cmd: seq<byte>)
    requires ParseEnvelope(cmd).Some?
    ensures Envelope(ParseEnvelope(cmd).value) == cmd
  {
    LE16U16At(cmd, 0);
    LE16U16At(cmd, 2);
    if |cmd| == 8 {
      LE32U32At(cmd, 4);
      assert cmd == cmd[0..2] + cmd[2..4] + cmd[4..8];
    } else {
      assert cmd == cmd[0..2] + cmd[2..4];
    }
  }

  /** `nextTagId++` on a `ushort`: the counter wraps from 65535 to 0. */
  function NextTag(t: U16): (n: U16)
    ensures t < 0xFFFF ==> n == t + 1
    ensures t == 0xFFFF ==> n == 0
  {
    (t + 1) % 0x1_0000
  }

  /** The tag counter after `k` sends. */
  function TagAfter(t: U16, k: nat): U16
  {
    if k == 0 then t else NextTag(TagAfter(t, k - 1))
  }

  lemma {:induction false} TagAfterValue(t: U16, k: nat)
    ensures TagAfter(t, k) == (t + k) % 0x1_0000
  {
    if k > 0 {
      TagAfterValue(t, k - 1);
      TagStep(TagAfter(t, k - 1), t + k - 1);
    } else {
      DivUnique(t, 0x1_0000, 0, t);
    }
  }

  /** One send moves the counter from `x` to `x + 1`, both modulo 65536. */
  lemma TagStep(p: U16, x: nat)
    requires p == x % 0x1_0000
    ensures NextTag(p) == (x + 1) % 0x1_0000
  {
    var q := x / 0x1_0000;
    if p < 0xFFFF {
      DivUnique(x + 1, 0x1_0000, q, p + 1);
    } else {
      DivUnique(x + 1, 0x1_0000, q + 1, 0);
    }
  }

  /**
   * Any 65536 consecutive sends use pairwise different tags, and the next
   * one reuses the tag of the first.
   */
  lemma TagsProgress(t: U16, i: nat, j: nat)
    requires i < j
    ensures TagAfter(t, i) == TagAfter(t, j) <==> (j - i) % 0x1_0000 == 0
  {
    TagAfterValue(t, i);
    TagAfterValue(t, j);
    var a, b := t + i, t + j;
    assert a % 0x1_0000 == b % 0x1_0000 <==> (b - a) % 0x1_0000 == 0 by {
      ModDifference(a, b);
    }
  }

  lemma ModDifference(a: nat, b: nat)
    requires a <= b
    ensures a % 0x1_0000 == b % 0x1_0000 <==> (b - a) % 0x1_0000 == 0
  {
    var qa, qb := a / 0x1_0000, b / 0x1_0000;
    var ra, rb := a % 0x1_0000, b % 0x1_0000;
    assert b - a == 0x1_0000 * (qb - qa) + (rb - ra);
    if ra == rb {
      assert (b - a) == 0x1_0000 * (qb - qa);
    } else if rb > ra {
      assert (b - a) % 0x1_0000 == rb - ra;
    } else {
      assert b - a == 0x1_0000 * (qb - qa - 1) + (0x1_0000 + rb - ra);
      assert (b - a) % 0x1_0000 == 0x1_0000 + rb - ra;
    }
  }

  /** The `opcodeNames` table. */
  function OpcodeName(op: U16): Option<string>
  {
    if op == GetInfo then Some("GET_INFO")
    else if op == StartActivity then Some("START_ACTIVITY")
    else if op == StopActivity then Some("STOP_ACTIVITY")
    else if op == EraseFiles then Some("ERASE_FILES")
    else if op == SyncRtc then Some("SYNC_RTC")
    else if op == StartStretch then Some("START_STRETCH")
    else if op == StopStretch then Some("STOP_STRETCH")
    else if op == DataDump then Some("DATA_DUMP")
    else if op == ListFiles then Some("LIST_FILES")
    else if op == FactoryCalibration then Some("FACTORY_CALIBRATION")
    else None
  }

  /** The `responseCodes` table. */
  function ResponseName(code: U16): Option<string>
  {
    if code == 0x8000 then Some("SUCCESS")
    else if code == 0x8100 then Some("INVALID_REQ")
    else if code == 0x8200 then Some("INVALID_PARAM")
    else if code == 0x8300 then Some("NOT_FOUND")
    else if code == 0x8400 then Some("ERROR")
    else if code == 0x8500 then Some("BUSY")
    else if code == 0x8600 then Some("LOCKED")
    else if code == 0x8700 then Some("FORBIDDEN")
    else if code == 0x8800 then Some("NO_MEM")
    else if code == 0x4000 then Some("STAT_NO_MEM")
    else if code == 0x4001 then Some("STAT_FITTING")
    else None
  }

  /** The name of the opcode a response answers: the table entry, or `0x` and four hex digits. */
  function CommandName(op: U16): string
  {
    match OpcodeName(op)
    case Some(n) => n
    case None => "0x" + PadLeft(HexString(op), 4, '0')
  }

  /** The name of a response code, `UNKNOWN` outside the table. */
  function CodeName(code: U16): string
  {
    match ResponseName(code)
    case Some(n) => n
    case None => "UNKNOWN"
  }

  /** `UNKNOWN` is printed exactly for the codes the table lacks; no table entry spells it. */
  lemma CodeNameUnknown(code: U16)
    ensures CodeName(code) == "UNKNOWN" <==> ResponseName(code).None?
  {
  }

  /** Different opcodes never print under the same name. */
  lemma CommandNameInjective(a: U16, b: U16)
    ensures CommandName(a) == CommandName(b) <==> a == b
  {
    if CommandName(a) == CommandName(b) {
      if OpcodeName(a).None? && OpcodeName(b).None? {
        PadLeftHex(a, 4);
        PadLeftHex(b, 4);
        assert CommandName(a)[2..] == PadLeft(HexString(a), 4, '0');
        assert CommandName(b)[2..] == PadLeft(HexString(b), 4, '0');
        HexDigitsRInjective(a, b, 4);
      } else if OpcodeName(a).None? {
        TableNamesAreNotHex(b);
      } else if OpcodeName(b).None? {
        TableNamesAreNotHex(a);
      } else {
        OpcodeNameInjective(a, b);
      }
    }
  }

  lemma TableNamesAreNotHex(op: U16)
    requires OpcodeName(op).Some?
    ensures |OpcodeName(op).value| > 1 && OpcodeName(op).value[1] != 'x'
  {
  }

  lemma OpcodeNameInjective(a: U16, b: U16)
    requires OpcodeName(a).Some? && OpcodeName(a) == OpcodeName(b)
    ensures a == b
  {
    var n := OpcodeName(a).value;
    assert n[0] == OpcodeName(b).value[0] && |n| == |OpcodeName(b).value|;
  }

  /** The log line of a regular response: with the command's name when the tag is known. */
  function ResponseLogLine(code: U16, sentOpcode: Option<U16>): string
  {
    match sentOpcode
    case Some(op) => "Response to " + CommandName(op) + ": " + CodeName(code)
    case None => "Response: " + CodeName(code)
  }

  /** `TimeSpan` ticks in one minute. */
  const TicksPerMinute: nat := 600_000_000

  /**
   * `(int)Math.Round(elapsed.TotalMinutes, MidpointRounding.AwayFromZero)`:
   * the nearest whole number of minutes, halves rounded away from zero.
   */
  function RoundMinutes(ticks: int): (m: int)
    ensures ticks >= 0 ==> m >= 0 && m * TicksPerMinute - 300_000_000 <= ticks < m * TicksPerMinute + 300_000_000
    ensures ticks < 0 ==> m <= 0 && m * TicksPerMinute - 300_000_000 < ticks <= m * TicksPerMinute + 300_000_000
  {
    if ticks >= 0 then (ticks + 300_000_000) / TicksPerMinute
    else -((300_000_000 - ticks) / TicksPerMinute)
  }

  /** C#'s integer `/`, which truncates toward zero. */
  function TruncDiv(a: int, b: nat): (q: int)
    requires b > 0
  {
    if a >= 0 then a / b else -((-a) / b)
  }

  /** C#'s integer `%`, whose sign follows the dividend. */
  function TruncMod(a: int, b: nat): (r: int)
    requires b > 0
    ensures a == b * TruncDiv(a, b) + r
    ensures a >= 0 ==> 0 <= r < b
    ensures a < 0 ==> -(b as int) < r <= 0
  {
    a - b * TruncDiv(a, b)
  }

  /** `$"{totalMinutes / 60:00}:{totalMinutes % 60:00}"`. */
  function ElapsedText(totalMinutes: int): string
  {
    Format00(TruncDiv(totalMinutes, 60)) + ":" + Format00(TruncMod(totalMinutes, 60))
  }

  /**
   * For a non-negative number of minutes the text is hours, a colon and
   * exactly two digits of minutes, and reading it back gives the minutes.
   */
  lemma ElapsedTextReadBack(m: nat)
    ensures var t := ElapsedText(m);
      |t| >= 5 && t[|t| - 3] == ':'
      && (forall i :: 0 <= i < |t| - 3 ==> IsDigit(t[i]))
      && (forall i :: |t| - 2 <= i < |t| ==> IsDigit(t[i]))
      && DigitsValue(t[|t| - 2..]) < 60
      && 60 * DigitsValue(t[..|t| - 3]) + DigitsValue(t[|t| - 2..]) == m
  {
    var h, mm := Pad2(m / 60), Pad2(m % 60);
    Pad2Value(m / 60);
    Pad2Value(m % 60);
    var t := ElapsedText(m);
    assert t == h + ":" + mm;
    assert t[..|t| - 3] == h;
    assert t[|t| - 2..] == mm;
  }

  /** A clock set back produces a negative elapsed time, printed with a sign in the minutes. */
  lemma ElapsedTextNegative()
    ensures ElapsedText(-5) == "00:-05"
  {
    assert NatToString(0) == "0";
    assert NatToString(5) == "5";
  }
}
