/**
 * The file-download stream. Notifications are appended to a byte buffer;
 * the buffer is drained one complete record at a time (type 1 breathing:
 * 16 payload bytes, type 2 IMU: 12, type 5 heart rate: 6) into the lines
 * of the decoded text file, and each section header is written before the
 * first record of its kind.
 */
module Download {
  import opened Bytes
  import opened Text
  import opened Wrappers

  /** Payload length of each record type; other type bytes have none. */
  function RecordLength(t: byte): (len: Option<nat>)
    ensures len.Some? <==> t == 1 || t == 2 || t == 5
  {
    if t == 1 then Some(16) else if t == 2 then Some(12) else if t == 5 then Some(6) else None
  }

  /** The three `_wrote…Header` flags. */
  datatype Headers = Headers(breathing: bool, imu: bool, hr: bool)

  const NoHeaders := Headers(false, false, false)

  /** Whether the header of record type `t` has been written. */
  predicate Wrote(h: Headers, t: byte)
  {
    if t == 1 then h.breathing else if t == 2 then h.imu else if t == 5 then h.hr else false
  }

  /** The flags after a record of type `t` has been written. */
  function Mark(h: Headers, t: byte): (h': Headers)
  {
    Headers(h.breathing || t == 1, h.imu || t == 2, h.hr || t == 5)
  }

  /** One record cut out of the stream: its type byte and its payload. */
  datatype Record = Record(kind: byte, payload: seq<byte>)

  /** A record of a known type with the payload length of that type. */
  predicate WellFormed(r: Record)
  {
    RecordLength(r.kind) == Some(|r.payload|)
  }

  /**
   * The result of framing a buffer from some index: the complete records
   * found, the index `stop` the loop ended at (everything before it is
   * removed from the buffer), and whether an unknown type byte made the
   * loop clear the whole buffer (then `stop` is the buffer's length).
   */
  datatype Framed = Framed(records: seq<Record>, stop: nat, desync: bool)

  /**
   * The `while (idx < _streamingBuffer.Count)` loop of
   * `DownloadCharacteristic_ValueChanged` from index `i` on, as far as it
   * cuts records: one complete record after the other, until the buffer is
   * used up, the next record is incomplete, or the next byte is not a
   * record type, in which case the whole buffer is dropped.
   */
  function FrameFrom(buf: seq<byte>, i: nat): (f: Framed)
    requires i <= |buf|
    ensures i <= f.stop <= |buf|
    ensures f.desync ==> f.stop == |buf|
    decreases |buf| - i
  {
    if i == |buf| then Framed([], i, false)
    else
      var t := buf[i];
      if RecordLength(t).None? then Framed([], |buf|, true)
      else if i + 1 + RecordLength(t).value > |buf| then Framed([], i, false)
      else
        var len := RecordLength(t).value;
        var f := FrameFrom(buf, i + 1 + len);
        Framed([Record(t, buf[i + 1..i + 1 + len])] + f.records, f.stop, f.desync)
  }

  /** True when a complete record starts at index `i`. */
  predicate CompleteAt(buf: seq<byte>, i: nat)
  {
    i < |buf| && RecordLength(buf[i]).Some? && i + 1 + RecordLength(buf[i]).value <= |buf|
  }

  /** One complete record at `i`: it comes first, then framing goes on after it. */
  lemma FrameStep(buf: seq<byte>, i: nat)
    requires CompleteAt(buf, i)
    ensures var len := RecordLength(buf[i]).value;
      var f := FrameFrom(buf, i + 1 + len);
      FrameFrom(buf, i) == Framed([Record(buf[i], buf[i + 1..i + 1 + len])] + f.records, f.stop, f.desync)
  {
  }

  /** Every record framing cuts has a known type and the payload length of that type. */
  lemma {:induction false} FramedWellFormed(buf: seq<byte>, i: nat)
    requires i <= |buf|
    ensures forall k :: 0 <= k < |FrameFrom(buf, i).records| ==> WellFormed(FrameFrom(buf, i).records[k])
    decreases |buf| - i
  {
    if CompleteAt(buf, i) {
      FrameStep(buf, i);
      FramedWellFormed(buf, i + 1 + RecordLength(buf[i]).value);
    }
  }

  /** What may stay in the buffer between notifications: nothing, or the start of one incomplete record. */
  predicate Residue(rest: seq<byte>)
  {
    |rest| == 0 || (RecordLength(rest[0]).Some? && |rest| < 1 + RecordLength(rest[0]).value)
  }

  /** Framing leaves at most the start of one incomplete record. */
  lemma {:induction false} FrameResidue(buf: seq<byte>, i: nat)
    requires i <= |buf|
    ensures Residue(buf[FrameFrom(buf, i).stop..])
    decreases |buf| - i
  {
    if CompleteAt(buf, i) {
      FrameStep(buf, i);
      FrameResidue(buf, i + 1 + RecordLength(buf[i]).value);
    }
  }

  /** Appending bytes does not change how the bytes already there are framed, up to where framing stopped. */
  lemma {:induction false} FrameFromAppend(a: seq<byte>, b: seq<byte>, i: nat)
    requires i <= |a| && !FrameFrom(a, i).desync
    ensures AppendFramed(a, b, i)
    decreases |a| - i
  {
    if CompleteAt(a, i) {
      FrameFromAppend(a, b, i + 1 + RecordLength(a[i]).value);
      AppendStep(a, b, i);
    } else if i < |a| {
      assert (a + b)[i] == a[i];
    }
  }

  /** The statement of [FrameFromAppend]. */
  predicate AppendFramed(a: seq<byte>, b: seq<byte>, i: nat)
    requires i <= |a|
  {
    var f1 := FrameFrom(a, i);
    var f2 := FrameFrom(a + b, f1.stop);
    FrameFrom(a + b, i) == Framed(f1.records + f2.records, f2.stop, f2.desync)
  }

  /** The inductive step of [FrameFromAppend], over one complete record at `i`. */
  lemma AppendStep(a: seq<byte>, b: seq<byte>, i: nat)
    requires CompleteAt(a, i)
    requires AppendFramed(a, b, i + 1 + RecordLength(a[i]).value)
    ensures AppendFramed(a, b, i)
  {
    var len := RecordLength(a[i]).value;
    var g := FrameFrom(a, i + 1 + len);
    FrameStep(a, i);
    StepAppended(a, b, i);
    Glue(FrameFrom(a + b, i), FrameFrom(a, i), g, FrameFrom(a + b, i + 1 + len), FrameFrom(a + b, g.stop),
      Record(a[i], a[i + 1..i + 1 + len]));
  }

  /** Records found before and after a point concatenate. */
  lemma Glue(x: Framed, y: Framed, g: Framed, e: Framed, f2: Framed, r: Record)
    requires y == Framed([r] + g.records, g.stop, g.desync)
    requires x == Framed([r] + e.records, e.stop, e.desync)
    requires e == Framed(g.records + f2.records, f2.stop, f2.desync)
    ensures x == Framed(y.records + f2.records, f2.stop, f2.desync)
  {
    assert [r] + (g.records + f2.records) == ([r] + g.records) + f2.records;
  }

  /** A complete record at `i` of `a` is the same complete record at `i` of `a ++ b`. */
  lemma StepAppended(a: seq<byte>, b: seq<byte>, i: nat)
    requires CompleteAt(a, i)
    ensures var len := RecordLength(a[i]).value;
      var e := FrameFrom(a + b, i + 1 + len);
      FrameFrom(a + b, i) == Framed([Record(a[i], a[i + 1..i + 1 + len])] + e.records, e.stop, e.desync)
  {
    var ab, len := a + b, RecordLength(a[i]).value;
    assert ab[i] == a[i] && ab[i + 1..i + 1 + len] == a[i + 1..i + 1 + len];
    FrameStep(ab, i);
  }

  /** Framing from index `|p| + j` of `p ++ q` is framing `q` from `j`. */
  lemma {:induction false} FrameFromShift(p: seq<byte>, q: seq<byte>, j: nat)
    requires j <= |q|
    ensures var f, g := FrameFrom(p + q, |p| + j), FrameFrom(q, j);
      f == g.(stop := |p| + g.stop)
    decreases |q| - j
  {
    var pq := p + q;
    if CompleteAt(q, j) {
      var len := RecordLength(q[j]).value;
      assert pq[|p| + j] == q[j] && pq[|p| + j + 1..|p| + j + 1 + len] == q[j + 1..j + 1 + len];
      assert CompleteAt(pq, |p| + j);
      FrameStep(pq, |p| + j);
      FrameStep(q, j);
      FrameFromShift(p, q, j + 1 + len);
    } else if j < |q| {
      assert pq[|p| + j] == q[j];
    }
  }

  /** Framing `b1 ++ y` from `k` is framing what is left of `b1` after `k`, followed by `y`. */
  lemma FrameRest(b1: seq<byte>, y: seq<byte>, k: nat)
    requires k <= |b1|
    ensures var g := FrameFrom(b1[k..] + y, 0);
      FrameFrom(b1 + y, k) == g.(stop := k + g.stop)
      && (b1 + y)[k + g.stop..] == (b1[k..] + y)[g.stop..]
  {
    var p, q := b1[..k], b1[k..] + y;
    assert b1 + y == p + q;
    FrameFromShift(p, q, 0);
    var g := FrameFrom(q, 0);
    assert (p + q)[|p| + g.stop..] == q[g.stop..];
  }

  /**
   * Two notifications frame like one: framing `b1`, keeping what is left,
   * appending `y` and framing again finds the same records and leaves the
   * same bytes as framing `b1 ++ y` at once.
   */
  lemma FrameTwice(b1: seq<byte>, y: seq<byte>)
    requires !FrameFrom(b1, 0).desync
    ensures var f1 := FrameFrom(b1, 0);
      var b2 := b1[f1.stop..] + y;
      var f2 := FrameFrom(b2, 0);
      var f := FrameFrom(b1 + y, 0);
      f.records == f1.records + f2.records && f.desync == f2.desync
      && (b1 + y)[f.stop..] == b2[f2.stop..]
  {
    var f1 := FrameFrom(b1, 0);
    FrameFromAppend(b1, y, 0);
    FrameRest(b1, y, f1.stop);
  }

  /** One line of the decoded file: a section header, or the data line of one record. */
  datatype Line = Header(kind: byte) | Data(record: Record)

  /** The lines one record produces: its header the first time, then its data line. */
  function RecordLines(r: Record, h: Headers): (lines: seq<Line>)
  {
    (if Wrote(h, r.kind) then [] else [Header(r.kind)]) + [Data(r)]
  }

  /** The lines a sequence of records produces, with the header flags `h` at the start. */
  function Lines(rs: seq<Record>, h: Headers): (lines: seq<Line>)
    decreases |rs|
  {
    if |rs| == 0 then [] else RecordLines(rs[0], h) + Lines(rs[1..], Mark(h, rs[0].kind))
  }

  /** The header flags after a sequence of records. */
  function After(rs: seq<Record>, h: Headers): (h': Headers)
    decreases |rs|
  {
    if |rs| == 0 then h else After(rs[1..], Mark(h, rs[0].kind))
  }

  /** Writing two runs of records one after the other is writing their concatenation. */
  lemma {:induction false} LinesAppend(r1: seq<Record>, r2: seq<Record>, h: Headers)
    ensures Lines(r1 + r2, h) == Lines(r1, h) + Lines(r2, After(r1, h))
    ensures After(r1 + r2, h) == After(r2, After(r1, h))
    decreases |r1|
  {
    if |r1| == 0 {
      assert r1 + r2 == r2;
    } else {
      assert (r1 + r2)[0] == r1[0] && (r1 + r2)[1..] == r1[1..] + r2;
      LinesAppend(r1[1..], r2, Mark(h, r1[0].kind));
    }
  }

  /** The lines still to write after `written`, once one more record is written in front of them. */
  lemma LinesCons(written: seq<Line>, r: Record, rest: seq<Record>, h: Headers)
    ensures written + Lines([r] + rest, h) == (written + RecordLines(r, h)) + Lines(rest, Mark(h, r.kind))
    ensures After([r] + rest, h) == After(rest, Mark(h, r.kind))
  {
    assert ([r] + rest)[0] == r && ([r] + rest)[1..] == rest;
  }

  /** No records left: nothing more is written and the flags stay. */
  lemma LinesNone(written: seq<Line>, h: Headers)
    ensures written + Lines([], h) == written && After([], h) == h
  {
  }

  /** How often `x` occurs among `lines`. */
  function Count(lines: seq<Line>, x: Line): nat
  {
    multiset(lines)[x]
  }

  /** The flag of a kind ends up set exactly when it was set or a record of that kind came. */
  lemma {:induction false} AfterWrote(rs: seq<Record>, h: Headers, u: byte)
    requires u == 1 || u == 2 || u == 5
    ensures Wrote(After(rs, h), u) <==> Wrote(h, u) || exists k :: 0 <= k < |rs| && rs[k].kind == u
    decreases |rs|
  {
    if |rs| > 0 {
      var h' := Mark(h, rs[0].kind);
      AfterWrote(rs[1..], h', u);
      assert Wrote(h', u) == (Wrote(h, u) || rs[0].kind == u);
      if exists k :: 0 <= k < |rs[1..]| && rs[1..][k].kind == u {
        var k :| 0 <= k < |rs[1..]| && rs[1..][k].kind == u;
        assert rs[k + 1].kind == u;
      }
      if exists k :: 0 <= k < |rs| && rs[k].kind == u {
        var k :| 0 <= k < |rs| && rs[k].kind == u;
        if k > 0 {
          assert rs[1..][k - 1].kind == u;
        }
      }
    }
  }

  /**
   * A run of records writes the header of a kind once, when the first
   * record of that kind comes while its flag is clear, and never otherwise.
   */
  lemma {:induction false} LinesHeaders(rs: seq<Record>, h: Headers, u: byte)
    requires u == 1 || u == 2 || u == 5
    ensures Count(Lines(rs, h), Header(u)) == if Wrote(After(rs, h), u) && !Wrote(h, u) then 1 else 0
    decreases |rs|
  {
    if |rs| > 0 {
      var r, h' := rs[0], Mark(h, rs[0].kind);
      var tail := Lines(rs[1..], h');
      LinesHeaders(rs[1..], h', u);
      AfterMonotone(rs[1..], h', u);
      HeaderCount(r, h, tail, u);
      CountGlue(Count(Lines(rs, h), Header(u)), Count(tail, Header(u)),
        Wrote(h, u), Wrote(h', u), Wrote(After(rs, h), u), r.kind == u);
    }
  }

  /** A flag once set stays set. */
  lemma {:induction false} AfterMonotone(rs: seq<Record>, h: Headers, u: byte)
    ensures Wrote(h, u) ==> Wrote(After(rs, h), u)
    decreases |rs|
  {
    if |rs| > 0 {
      AfterMonotone(rs[1..], Mark(h, rs[0].kind), u);
    }
  }

  /** The arithmetic of [LinesHeaders]'s step. */
  lemma CountGlue(c: nat, tail: nat, w0: bool, w1: bool, wEnd: bool, hit: bool)
    requires w1 == (w0 || hit) && (w1 ==> wEnd)
    requires tail == (if wEnd && !w1 then 1 else 0)
    requires c == tail + (if !w0 && hit then 1 else 0)
    ensures c == if wEnd && !w0 then 1 else 0
  {
  }

  /** The headers among one record's lines followed by more lines. */
  lemma HeaderCount(r: Record, h: Headers, rest: seq<Line>, u: byte)
    ensures Count(RecordLines(r, h) + rest, Header(u)) == Count(rest, Header(u)) + (if !Wrote(h, r.kind) && r.kind == u then 1 else 0)
  {
    assert multiset(RecordLines(r, h) + rest) == multiset(RecordLines(r, h)) + multiset(rest);
  }

  /** The decimal fields of one record, in the order its data line prints them. */
  function Fields(r: Record): (f: seq<nat>)
    requires WellFormed(r)
    ensures |f| == if r.kind == 1 then 7 else if r.kind == 2 then 4 else 2
  {
    var pl := r.payload;
    if r.kind == 1 then
      [U32At(pl, 0), U16At(pl, 4), U16At(pl, 6), U16At(pl, 8), U16At(pl, 10), U16At(pl, 12), U16At(pl, 14)]
    else if r.kind == 2 then
      [U32At(pl, 0), U16At(pl, 4), U32At(pl, 6), U16At(pl, 10)]
    else
      [U32At(pl, 0), U16At(pl, 4)]
  }

  /** Every payload byte shows in the fields: different records of one type print differently. */
  lemma FieldsInjective(r: Record, s: Record)
    requires WellFormed(r) && WellFormed(s) && r.kind == s.kind
    ensures Fields(r) == Fields(s) <==> r == s
  {
    if Fields(r) == Fields(s) {
      var p, q, f, g := r.payload, s.payload, Fields(r), Fields(s);
      if r.kind == 1 {
        BreathingPayload(p);
        BreathingPayload(q);
        assert f[0] == g[0] && f[1] == g[1] && f[2] == g[2] && f[3] == g[3];
        assert f[4] == g[4] && f[5] == g[5] && f[6] == g[6];
      } else if r.kind == 2 {
        ImuPayload(p);
        ImuPayload(q);
        assert f[0] == g[0] && f[1] == g[1] && f[2] == g[2] && f[3] == g[3];
      } else {
        HeartRatePayload(p);
        HeartRatePayload(q);
        assert f[0] == g[0] && f[1] == g[1];
      }
    }
  }

  /** A breathing payload is its seven fields written back little-endian. */
  lemma BreathingPayload(p: seq<byte>)
    requires |p| == 16
    ensures p == LE32(U32At(p, 0)) + LE16(U16At(p, 4)) + LE16(U16At(p, 6)) + LE16(U16At(p, 8))
      + LE16(U16At(p, 10)) + LE16(U16At(p, 12)) + LE16(U16At(p, 14))
  {
    LE32U32At(p, 0);
    LE16U16At(p, 4);
    LE16U16At(p, 6);
    LE16U16At(p, 8);
    LE16U16At(p, 10);
    LE16U16At(p, 12);
    LE16U16At(p, 14);
    assert p == p[0..4] + p[4..6] + p[6..8] + p[8..10] + p[10..12] + p[12..14] + p[14..16];
  }

  /** An IMU payload is its four fields written back little-endian. */
  lemma ImuPayload(p: seq<byte>)
    requires |p| == 12
    ensures p == LE32(U32At(p, 0)) + LE16(U16At(p, 4)) + LE32(U32At(p, 6)) + LE16(U16At(p, 10))
  {
    LE32U32At(p, 0);
    LE16U16At(p, 4);
    LE32U32At(p, 6);
    LE16U16At(p, 10);
    assert p == p[0..4] + p[4..6] + p[6..10] + p[10..12];
  }

  /** A heart-rate payload is its two fields written back little-endian. */
  lemma HeartRatePayload(p: seq<byte>)
    requires |p| == 6
    ensures p == LE32(U32At(p, 0)) + LE16(U16At(p, 4))
  {
    LE32U32At(p, 0);
    LE16U16At(p, 4);
    assert p == p[0..4] + p[4..6];
  }

  /** The section header texts. */
  function HeaderText(t: byte): string
  {
    if t == 1 then "[Breathing]" else if t == 2 then "[IMU]" else if t == 5 then "[HR]" else ""
  }

  /** The decimal texts of some numbers. */
  function Decimals(xs: seq<nat>): (ds: seq<string>)
    ensures |ds| == |xs|
  {
    if |xs| == 0 then [] else [NatToString(xs[0])] + Decimals(xs[1..])
  }

  /** The text `WriteLine` writes for a line: a header, or the fields joined by commas. */
  function LineText(l: Line): string
  {
    match l
    case Header(t) => HeaderText(t)
    case Data(r) => if WellFormed(r) then Join(",", Decimals(Fields(r))) else ""
  }

  /** A data line starts with a digit and so is never a header, which starts with a bracket. */
  lemma DataTextIsNotHeader(r: Record, u: byte)
    requires WellFormed(r)
    requires u == 1 || u == 2 || u == 5
    ensures |LineText(Data(r))| > 0 && IsDigit(LineText(Data(r))[0])
    ensures LineText(Data(r)) != LineText(Header(u))
  {
    var ds := Decimals(Fields(r));
    assert ds[0] == NatToString(Fields(r)[0]);
    assert LineText(Data(r)) == ds[0] + "," + Join(",", ds[1..]);
    assert HeaderText(u)[0] == '[';
  }

  /** The three header texts are different. */
  lemma HeaderTextsDiffer(t: byte, u: byte)
    requires t == 1 || t == 2 || t == 5
    requires u == 1 || u == 2 || u == 5
    ensures HeaderText(t) == HeaderText(u) <==> t == u
  {
    if t != u {
      assert HeaderText(t)[1] != HeaderText(u)[1] || |HeaderText(t)| != |HeaderText(u)|;
    }
  }

  /** The outcome of one notification's worth of draining. */
  datatype Drained = Drained(lines: seq<Line>, stop: nat, headers: Headers, desync: bool)

  /** Draining a whole buffer: the lines of its complete records, where it stopped, and the new flags. */
  function Drain(buf: seq<byte>, h: Headers): (d: Drained)
    ensures d.stop <= |buf|
    ensures d.desync ==> d.stop == |buf|
  {
    var f := FrameFrom(buf, 0);
    Drained(Lines(f.records, h), f.stop, After(f.records, h), f.desync)
  }

  /**
   * The header invariant of a download's output: each section header has
   * been written exactly once when its flag is set, and not at all while
   * the flag is clear.
   */
  predicate HeadersCounted(lines: seq<Line>, h: Headers)
  {
    HeaderCounted(lines, h, 1) && HeaderCounted(lines, h, 2) && HeaderCounted(lines, h, 5)
  }

  /** The header invariant for one record type `u`. */
  predicate HeaderCounted(lines: seq<Line>, h: Headers, u: byte)
  {
    Count(lines, Header(u)) == if Wrote(h, u) then 1 else 0
  }

  /** Writing any run of records after output that keeps the header invariant keeps it. */
  lemma LinesKeepCounted(lines: seq<Line>, rs: seq<Record>, h: Headers)
    requires HeadersCounted(lines, h)
    ensures HeadersCounted(lines + Lines(rs, h), After(rs, h))
  {
    LinesKeepCountedFor(lines, rs, h, 1);
    LinesKeepCountedFor(lines, rs, h, 2);
    LinesKeepCountedFor(lines, rs, h, 5);
  }

  lemma LinesKeepCountedFor(lines: seq<Line>, rs: seq<Record>, h: Headers, u: byte)
    requires u == 1 || u == 2 || u == 5
    requires HeaderCounted(lines, h, u)
    ensures HeaderCounted(lines + Lines(rs, h), After(rs, h), u)
  {
    LinesHeaders(rs, h, u);
    AfterMonotone(rs, h, u);
    assert multiset(lines + Lines(rs, h)) == multiset(lines) + multiset(Lines(rs, h));
  }

  /** Writing one record's lines keeps the header invariant. */
  lemma RecordKeepsCounted(lines: seq<Line>, r: Record, h: Headers)
    requires HeadersCounted(lines, h)
    ensures HeadersCounted(lines + RecordLines(r, h), Mark(h, r.kind))
  {
    LinesKeepCounted(lines, [r], h);
    assert [r][1..] == [];
  }

  /** Draining a buffer after output that keeps the header invariant keeps it. */
  lemma DrainKeepsCounted(lines: seq<Line>, buf: seq<byte>, h: Headers)
    requires HeadersCounted(lines, h)
    ensures HeadersCounted(lines + Drain(buf, h).lines, Drain(buf, h).headers)
  {
    LinesKeepCounted(lines, FrameFrom(buf, 0).records, h);
  }

  /**
   * Two notifications drain like one: draining `buf ++ x`, keeping what is
   * left, appending `y` and draining again writes the same lines, sets the
   * same flags and leaves the same bytes as draining `buf ++ x ++ y` at once.
   */
  lemma TwoNotifications(buf: seq<byte>, x: seq<byte>, y: seq<byte>, h: Headers)
    requires !Drain(buf + x, h).desync
    ensures var b1 := buf + x;
      var d1 := Drain(b1, h);
      var b2 := b1[d1.stop..] + y;
      var d2 := Drain(b2, d1.headers);
      var d := Drain(buf + x + y, h);
      d.lines == d1.lines + d2.lines && d.headers == d2.headers && d.desync == d2.desync
      && (buf + x + y)[d.stop..] == b2[d2.stop..]
  {
    var b1 := buf + x;
    FrameTwice(b1, y);
    var f1 := FrameFrom(b1, 0);
    var f2 := FrameFrom(b1[f1.stop..] + y, 0);
    LinesAppend(f1.records, f2.records, h);
  }

  /** A record whose bytes arrive in two parts yields nothing for the first part and its lines once the rest arrives. */
  lemma SplitRecord(rec: seq<byte>, k: nat, h: Headers)
    requires |rec| > 0 && RecordLength(rec[0]) == Some(|rec| - 1)
    requires 0 < k < |rec|
    ensures Drain(rec[..k], h) == Drained([], 0, h, false)
    ensures Drain(rec[..k] + rec[k..], h) == Drained(RecordLines(Record(rec[0], rec[1..]), h), |rec|, Mark(h, rec[0]), false)
  {
    assert rec[..k][0] == rec[0];
    assert rec[..k] + rec[k..] == rec;
    FrameStep(rec, 0);
    assert rec[1..1 + (|rec| - 1)] == rec[1..];
    var r := Record(rec[0], rec[1..]);
    assert FrameFrom(rec, 0).records == [r];
    assert [r][1..] == [];
    assert Lines([r], h) == RecordLines(r, h) + Lines([], Mark(h, rec[0]));
    assert After([r], h) == After([], Mark(h, rec[0]));
  }

  /** Downloads are saved under `Downloads`, with the `.bin` name of the entry turned into `.txt`. */
  function Candidate(ts: U32, c: nat): (path: string)
  {
    if c == 0 then "Downloads\\file_" + NatToString(ts) + ".txt"
    else "Downloads\\file_" + NatToString(ts) + "_" + NatToString(c) + ".txt"
  }

  /** The candidate names of one entry are pairwise different. */
  lemma CandidateInjective(ts: U32, c: nat, c': nat)
    ensures Candidate(ts, c) == Candidate(ts, c') <==> c == c'
  {
    if Candidate(ts, c) == Candidate(ts, c') && c != c' {
      var p := "Downloads\\file_" + NatToString(ts);
      var x, y := Candidate(ts, c), Candidate(ts, c');
      assert x[..|p|] == p && y[..|p|] == p;
      if c != 0 && c' != 0 {
        var a, b := NatToString(c), NatToString(c');
        assert x == (p + "_") + a + ".txt" && y == (p + "_") + b + ".txt";
        assert a == x[|p| + 1..|x| - 4] && b == y[|p| + 1..|y| - 4];
        NatToStringInjective(c, c');
      }
    }
  }

  /**
   * The file-name loop of `DownloadFileAsync`: the first candidate the file
   * system does not hold. The loop ends because the candidates are distinct
   * and the file system holds finitely many names.
   */
  method ChoosePath(ts: U32, existing: set<string>) returns (path: string, c: nat)
    ensures path == Candidate(ts, c) && path !in existing
    ensures forall i :: 0 <= i < c ==> Candidate(ts, i) in existing
  {
    c := 0;
    path := Candidate(ts, 0);
    ghost var tried: set<string> := {};
    while path in existing
      invariant path == Candidate(ts, c)
      invariant tried == set i | 0 <= i < c :: Candidate(ts, i)
      invariant tried <= existing && |tried| == c
      invariant forall i :: 0 <= i < c ==> Candidate(ts, i) in existing
      decreases |existing| - |tried|
    {
      assert path !in tried by {
        forall i | 0 <= i < c ensures Candidate(ts, i) != path {
          CandidateInjective(ts, i, c);
        }
      }
      tried := tried + {path};
      assert tried == set i | 0 <= i < c + 1 :: Candidate(ts, i);
      SubsetCardinality(tried, existing);
      c := c + 1;
      path := Candidate(ts, c);
    }
  }

  lemma SubsetCardinality(a: set<string>, b: set<string>)
    requires a <= b
    ensures |a| <= |b|
  {
    assert b == a + (b - a);
  }
}
