/**
 * One entry of the device's file table, as `LIST_FILES` returns it: a
 * sequential struct of three `uint`s packed without padding.
 */
module FileEntries {
  import opened Bytes
  import opened Text
  import opened Wrappers

  /** Bytes of one packed entry on the wire. */
  const EntrySize: nat := 12

  datatype FileEntry = FileEntry(timestamp: U32, startAddr: U32, endAddr: U32)

  /** Reinterpreting twelve bytes as the struct: timestamp, startAddr, endAddr, little-endian. */
  function Decode(s: seq<byte>): (e: FileEntry)
    requires |s| >= EntrySize
  {
    FileEntry(U32At(s, 0), U32At(s, 4), U32At(s, 8))
  }

  /** The memory image of the struct. */
  function Encode(e: FileEntry): (s: seq<byte>)
    ensures |s| == EntrySize
  {
    LE32(e.timestamp) + LE32(e.startAddr) + LE32(e.endAddr)
  }

  lemma DecodeEncode(e: FileEntry)
    ensures Decode(Encode(e)) == e
  {
    var s := Encode(e);
    assert s[0..4] == LE32(e.timestamp);
    assert s[4..8] == LE32(e.startAddr);
    assert s[8..12] == LE32(e.endAddr);
    U32AtLE32(s, 0, e.timestamp);
    U32AtLE32(s, 4, e.startAddr);
    U32AtLE32(s, 8, e.endAddr);
  }

  lemma EncodeDecode(s: seq<byte>)
    requires |s| >= EntrySize
    ensures Encode(Decode(s)) == s[..EntrySize]
  {
    LE32U32At(s, 0);
    LE32U32At(s, 4);
    LE32U32At(s, 8);
    assert s[..EntrySize] == s[0..4] + s[4..8] + s[8..12];
  }

  /** The file table of a `LIST_FILES` answer: one entry per complete 12-byte chunk. */
  function Entries(data: seq<byte>): (es: seq<FileEntry>)
    ensures |es| == |data| / EntrySize
    decreases |data|
  {
    if |data| < EntrySize then [] else [Decode(data[..EntrySize])] + Entries(data[EntrySize..])
  }

  /** A complete chunk at offset `j` is the next entry. */
  lemma EntriesAt(data: seq<byte>, j: nat)
    requires j + EntrySize <= |data|
    ensures Entries(data[j..]) == [Decode(data[j..j + EntrySize])] + Entries(data[j + EntrySize..])
  {
    assert data[j..][..EntrySize] == data[j..j + EntrySize];
    assert data[j..][EntrySize..] == data[j + EntrySize..];
  }

  /** The bytes of a file table. */
  function EncodeTable(es: seq<FileEntry>): (data: seq<byte>)
    ensures |data| == EntrySize * |es|
  {
    if |es| == 0 then [] else Encode(es[0]) + EncodeTable(es[1..])
  }

  lemma {:induction false} EntriesOfEncodeTable(es: seq<FileEntry>)
    ensures Entries(EncodeTable(es)) == es
  {
    if |es| > 0 {
      var d := EncodeTable(es);
      assert d[..EntrySize] == Encode(es[0]) && d[EntrySize..] == EncodeTable(es[1..]);
      DecodeEncode(es[0]);
      EntriesOfEncodeTable(es[1..]);
    }
  }

  /** Re-encoding the table gives back every complete chunk; only a trailing partial chunk is lost. */
  lemma {:induction false} EncodeTableOfEntries(data: seq<byte>)
    ensures EncodeTable(Entries(data)) == data[..EntrySize * (|data| / EntrySize)]
    decreases |data|
  {
    if |data| >= EntrySize {
      EncodeTableOfEntries(data[EntrySize..]);
      EncodeTableStep(data);
    } else {
      DivUnique(|data|, EntrySize, 0, |data|);
    }
  }

  /** The step of [EncodeTableOfEntries]: one complete chunk in front. */
  lemma EncodeTableStep(data: seq<byte>)
    requires |data| >= EntrySize
    requires var rest := data[EntrySize..];
      EncodeTable(Entries(rest)) == rest[..EntrySize * (|rest| / EntrySize)]
    ensures EncodeTable(Entries(data)) == data[..EntrySize * (|data| / EntrySize)]
  {
    var head, rest := data[..EntrySize], data[EntrySize..];
    var q := |rest| / EntrySize;
    assert Entries(data) == [Decode(head)] + Entries(rest);
    EncodeDecode(head);
    assert EncodeTable(Entries(data)) == head + rest[..EntrySize * q] by {
      assert ([Decode(head)] + Entries(rest))[1..] == Entries(rest);
    }
    DivUnique(|data|, EntrySize, q + 1, |rest| % EntrySize);
    assert data[..EntrySize * (q + 1)] == head + rest[..EntrySize * q];
  }

  /** `Size => endAddr - startAddr`, an unchecked `uint` subtraction. */
  function Size(e: FileEntry): (r: U32)
    ensures r + e.startAddr == e.endAddr || r + e.startAddr == e.endAddr + 0x1_0000_0000
    ensures e.startAddr <= e.endAddr ==> r == e.endAddr - e.startAddr
    ensures e.startAddr > e.endAddr ==> r > e.endAddr
  {
    (e.endAddr - e.startAddr) % 0x1_0000_0000
  }

  /** `GetFilename()`: the name under which the device stores the entry. */
  function GetFilename(e: FileEntry): (name: string)
    ensures |name| == |NatToString(e.timestamp)| + 9
    ensures name[..5] == "file_" && name[|name| - 4..] == ".bin"
    ensures name[5..|name| - 4] == NatToString(e.timestamp)
  {
    "file_" + NatToString(e.timestamp) + ".bin"
  }

  /** Two entries share a file name exactly when they share a timestamp. */
  lemma GetFilenameInjective(a: FileEntry, b: FileEntry)
    ensures GetFilename(a) == GetFilename(b) <==> a.timestamp == b.timestamp
  {
    NatToStringInjective(a.timestamp, b.timestamp);
  }

  /** The separator of `ToString()`: a space, an em dash, a space. */
  const Dash: string := " — "

  /** `ToString()`: the timestamp, the separator, the size and `" bytes"`. */
  function ToString(e: FileEntry): (t: string)
  {
    NatToString(e.timestamp) + Dash + NatToString(Size(e)) + " bytes"
  }

  /** Reads the two numbers back out of a `ToString()` text. */
  function ParseText(t: string): (r: Option<(nat, nat)>)
  {
    match ReadNumber(t)
    case None => None
    case Some((x, r1)) =>
      match ReadLiteral(r1, Dash)
      case None => None
      case Some(r2) =>
        match ReadNumber(r2)
        case None => None
        case Some((y, r3)) => if r3 == " bytes" then Some((x, y)) else None
  }

  /** The rendering loses neither the timestamp nor the size. */
  lemma ParseToString(e: FileEntry)
    ensures ParseText(ToString(e)) == Some((e.timestamp as nat, Size(e) as nat))
  {
    var ts, sz := NatToString(e.timestamp), NatToString(Size(e));
    assert ToString(e) == ts + (Dash + (sz + " bytes"));
    ReadNumberOf(ts, Dash + (sz + " bytes"));
    ReadLiteralOf(Dash, sz + " bytes");
    ReadNumberOf(sz, " bytes");
    NatToStringValue(e.timestamp);
    NatToStringValue(Size(e));
  }
}
