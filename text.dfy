/**
 * The string formatting the source relies on: decimal `ToString()`, the
 * `"X"`/`"X4"`/`"D2"` format specifiers, `PadLeft`, `ToLowerInvariant`,
 * `Contains` and `string.Join`.
 */
module Text {
  import opened Wrappers

  predicate IsDigit(c: char) { '0' <= c <= '9' }

  function DigitChar(d: nat): (c: char)
    requires d < 10
    ensures IsDigit(c) && (c as int) - ('0' as int) == d
  {
    "0123456789"[d]
  }

  /** Decimal text of a natural number, as `uint.ToString()` prints it. */
  function NatToString(n: nat): (s: string)
    ensures |s| > 0
    ensures forall i :: 0 <= i < |s| ==> IsDigit(s[i])
    decreases n
  {
    if n < 10 then [DigitChar(n)] else NatToString(n / 10) + [DigitChar(n % 10)]
  }

  /** Decimal text of an integer, with a leading minus sign when negative. */
  function IntToString(i: int): (s: string)
  {
    if i < 0 then "-" + NatToString(-i) else NatToString(i)
  }

  /** The value a string of decimal digits denotes: the inverse of NatToString. */
  function DigitsValue(s: string): nat
    requires forall i :: 0 <= i < |s| ==> IsDigit(s[i])
  {
    if |s| == 0 then 0
    else
      assert IsDigit(s[|s| - 1]);
      10 * DigitsValue(s[..|s| - 1]) + ((s[|s| - 1] as int) - ('0' as int))
  }

  lemma {:induction false} NatToStringValue(n: nat)
    ensures DigitsValue(NatToString(n)) == n
    decreases n
  {
    var s := NatToString(n);
    if n >= 10 {
      assert s[..|s| - 1] == NatToString(n / 10);
      NatToStringValue(n / 10);
    }
  }

  /** Different numbers print differently. */
  lemma NatToStringInjective(a: nat, b: nat)
    ensures NatToString(a) == NatToString(b) <==> a == b
  {
    if NatToString(a) == NatToString(b) {
      NatToStringValue(a);
      NatToStringValue(b);
    }
  }

  /** `"D2"` (and the custom `"00"`) format of a non-negative number: at least two digits. */
  function Pad2(n: nat): (s: string)
  {
    if n < 10 then "0" + NatToString(n) else NatToString(n)
  }

  lemma Pad2Value(n: nat)
    ensures |Pad2(n)| >= 2
    ensures forall i :: 0 <= i < |Pad2(n)| ==> IsDigit(Pad2(n)[i])
    ensures DigitsValue(Pad2(n)) == n
    ensures n < 100 ==> |Pad2(n)| == 2
  {
    NatToStringValue(n);
    if n < 10 {
      assert Pad2(n)[..1] == "0";
      assert NatToString(n) == [DigitChar(n)];
    } else {
      assert n / 10 > 0;
      assert |NatToString(n)| >= 2 by { assert NatToString(n) == NatToString(n / 10) + [DigitChar(n % 10)]; }
      if n < 100 {
        assert NatToString(n / 10) == [DigitChar(n / 10)];
      }
    }
  }

  /** The custom format `"00"` of a possibly negative number: a sign, then two digits at least. */
  function Format00(i: int): (s: string)
  {
    if i < 0 then "-" + Pad2(-i) else Pad2(i)
  }

  function HexDigitChar(d: nat): char
    requires d < 16
  {
    "0123456789ABCDEF"[d]
  }

  /** The `"X"` format: upper-case hexadecimal without leading zeros. */
  function HexString(n: nat): (s: string)
    ensures |s| > 0
    decreases n
  {
    if n < 16 then [HexDigitChar(n)] else HexString(n / 16) + [HexDigitChar(n % 16)]
  }

  /** `s.PadLeft(width, c)`. */
  function PadLeft(s: string, width: int, c: char): (r: string)
    ensures |r| == if |s| >= width then |s| else width
    ensures r[|r| - |s|..] == s
    ensures forall i :: 0 <= i < |r| - |s| ==> r[i] == c
    decreases width - |s|
  {
    if |s| >= width then s else PadLeft([c] + s, width, c)
  }

  /** The `"Xw"` format, one digit at a time from the right: at least `w` digits. */
  function HexDigitsR(n: nat, w: int): (s: string)
    ensures |s| > 0
    decreases n, w
  {
    if n < 16 && w <= 1 then [HexDigitChar(n)] else HexDigitsR(n / 16, w - 1) + [HexDigitChar(n % 16)]
  }

  lemma PadLeftAppend(s: string, c: char, w: int)
    ensures PadLeft(s + [c], w, '0') == PadLeft(s, w - 1, '0') + [c]
  {
    var l, r := PadLeft(s + [c], w, '0'), PadLeft(s, w - 1, '0') + [c];
    var p := PadLeft(s, w - 1, '0');
    assert |l| == |r|;
    forall i | 0 <= i < |l| ensures l[i] == r[i] {
      if i < |l| - |s| - 1 {
        assert l[i] == '0' && p[i] == '0';
      } else if i < |l| - 1 {
        assert l[|l| - |s| - 1..] == s + [c];
        assert p[|p| - |s|..] == s;
        assert l[i] == s[i - (|l| - |s| - 1)];
        assert p[i] == s[i - (|p| - |s|)];
      }
    }
  }

  /** `n.ToString("X").PadLeft(w, '0')` is the `"Xw"` format of `n`. */
  lemma {:induction false} PadLeftHex(n: nat, w: int)
    ensures PadLeft(HexString(n), w, '0') == HexDigitsR(n, w)
    decreases n, w
  {
    if n < 16 && w <= 1 {
    } else if n < 16 {
      ZerosPad(w - 1);
      PadLeftHexSmall(n, w);
    } else {
      PadLeftHex(n / 16, w - 1);
      PadLeftHexLarge(n, w);
    }
  }

  /** Padding nothing to `k` places gives `k` zero digits. */
  lemma {:induction false} ZerosPad(k: int)
    requires k >= 1
    ensures PadLeft([], k, '0') == HexDigitsR(0, k)
    decreases k
  {
    ZerosStep(k);
    if k > 1 {
      ZerosPad(k - 1);
      HexZerosStep(k);
    } else {
      assert HexDigitsR(0, k) == [HexDigitChar(0)];
    }
  }

  lemma ZerosStep(k: int)
    requires k >= 1
    ensures PadLeft([], k, '0') == PadLeft([], k - 1, '0') + ['0']
  {
    assert PadLeft([], k, '0') == PadLeft([] + ['0'], k, '0');
    PadLeftAppend([], '0', k);
  }

  lemma HexZerosStep(k: int)
    requires k > 1
    ensures HexDigitsR(0, k) == HexDigitsR(0, k - 1) + ['0']
  {
    assert HexDigitChar(0) == '0';
  }

  /** The step of PadLeftHex for a single digit padded to two or more places. */
  lemma PadLeftHexSmall(n: nat, w: int)
    requires n < 16 && w > 1
    requires PadLeft([], w - 1, '0') == HexDigitsR(0, w - 1)
    ensures PadLeft(HexString(n), w, '0') == HexDigitsR(n, w)
  {
    var c := HexDigitChar(n);
    assert PadLeft(HexString(n), w, '0') == PadLeft([], w - 1, '0') + [c] by {
      assert HexString(n) == [] + [c];
      PadLeftAppend([], c, w);
    }
    HexDigitsRSmall(n, w);
  }

  lemma HexDigitsRSmall(n: nat, w: int)
    requires n < 16 && w > 1
    ensures HexDigitsR(n, w) == HexDigitsR(0, w - 1) + [HexDigitChar(n)]
  {
    DivUnique(n, 16, 0, n);
  }

  /** The step of PadLeftHex for a number of two or more digits. */
  lemma PadLeftHexLarge(n: nat, w: int)
    requires n >= 16
    requires PadLeft(HexString(n / 16), w - 1, '0') == HexDigitsR(n / 16, w - 1)
    ensures PadLeft(HexString(n), w, '0') == HexDigitsR(n, w)
  {
    var c := HexDigitChar(n % 16);
    assert HexString(n) == HexString(n / 16) + [c];
    PadLeftAppend(HexString(n / 16), c, w);
    assert HexDigitsR(n, w) == HexDigitsR(n / 16, w - 1) + [c];
  }

  lemma DivModSixteen(n: nat, m: nat)
    requires m == 1 || m == 16 || m == 256 || m == 4096
    ensures (n % (16 * m)) / 16 == (n / 16) % m
    ensures (n % (16 * m)) % 16 == n % 16
  {
    if m == 1 {
      DivMod16By1(n);
    } else if m == 16 {
      DivMod16By16(n);
    } else if m == 256 {
      DivMod16By256(n);
    } else {
      DivMod16By4096(n);
    }
  }

  lemma DivMod16By1(n: nat)
    ensures (n % 16) / 16 == (n / 16) % 1 && (n % 16) % 16 == n % 16
  {
  }

  lemma DivMod16By16(n: nat)
    ensures (n % 256) / 16 == (n / 16) % 16 && (n % 256) % 16 == n % 16
  {
    DivModNested(n, 16);
  }

  lemma DivMod16By256(n: nat)
    ensures (n % 4096) / 16 == (n / 16) % 256 && (n % 4096) % 16 == n % 16
  {
    DivModNested(n, 256);
  }

  lemma DivMod16By4096(n: nat)
    ensures (n % 65536) / 16 == (n / 16) % 4096 && (n % 65536) % 16 == n % 16
  {
    DivModNested(n, 4096);
  }

  /** Dropping the last hexadecimal digit commutes with keeping the low digits. */
  lemma DivModNested(n: nat, m: nat)
    requires m > 0
    ensures (n % (16 * m)) / 16 == (n / 16) % m && (n % (16 * m)) % 16 == n % 16
  {
    var q, r := n / (16 * m), n % (16 * m);
    var h, l := r / 16, r % 16;
    assert n == 16 * (m * q + h) + l;
    DivUnique(n, 16, m * q + h, l);
    assert h < m;
    DivUnique(n / 16, m, q, h);
  }

  /** The quotient and remainder are the only ones. */
  lemma DivUnique(n: int, d: nat, q: int, r: int)
    requires d > 0 && n == d * q + r && 0 <= r < d
    ensures n / d == q && n % d == r
  {
    var q', r' := n / d, n % d;
    assert d * q + r == d * q' + r';
    if q > q' {
      MulAtLeast(d, q - q');
    } else if q < q' {
      MulAtLeast(d, q' - q);
    }
  }

  lemma {:induction false} MulAtLeast(d: nat, k: nat)
    requires k >= 1
    ensures d * k >= d
  {
    if k > 1 {
      MulAtLeast(d, k - 1);
      assert d * k == d * (k - 1) + d;
    }
  }

  function Pow16(k: nat): (p: nat)
    ensures p >= 1
  {
    if k == 0 then 1 else 16 * Pow16(k - 1)
  }

  lemma Pow16Four()
    ensures Pow16(4) == 0x1_0000
  {
    assert Pow16(1) == 16 && Pow16(2) == 256 && Pow16(3) == 4096;
  }

  /** The last `k` digits of an `"Xw"` rendering are the `"Xk"` rendering of the value modulo 16^k. */
  lemma {:induction false} HexLowDigits(n: nat, w: int, k: nat)
    requires 1 <= k <= w && k <= 4
    ensures |HexDigitsR(n, w)| >= k
    ensures HexDigitsR(n, w)[|HexDigitsR(n, w)| - k..] == HexDigitsR(n % Pow16(k), k)
    decreases k
  {
    if k == 1 {
      HexLastDigit(n, w);
    } else {
      HexLowDigits(n / 16, w - 1, k - 1);
      HexLowDigitsStep(n, w, k);
    }
  }

  /** The last digit of an `"Xw"` rendering is the value's last hexadecimal digit. */
  lemma HexLastDigit(n: nat, w: int)
    requires w >= 1
    ensures HexDigitsR(n, w)[|HexDigitsR(n, w)| - 1..] == HexDigitsR(n % Pow16(1), 1)
  {
    var s := HexDigitsR(n, w);
    assert Pow16(1) == 16;
    assert HexDigitsR(n % 16, 1) == [HexDigitChar(n % 16)];
    if w == 1 && n < 16 {
      DivUnique(n, 16, 0, n);
    } else {
      assert s == HexDigitsR(n / 16, w - 1) + [HexDigitChar(n % 16)];
    }
  }

  /** The step of HexLowDigits: one more digit on the right. */
  lemma HexLowDigitsStep(n: nat, w: int, k: nat)
    requires 2 <= k <= w && k <= 4
    requires |HexDigitsR(n / 16, w - 1)| >= k - 1
    requires HexDigitsR(n / 16, w - 1)[|HexDigitsR(n / 16, w - 1)| - (k - 1)..] == HexDigitsR((n / 16) % Pow16(k - 1), k - 1)
    ensures |HexDigitsR(n, w)| >= k
    ensures HexDigitsR(n, w)[|HexDigitsR(n, w)| - k..] == HexDigitsR(n % Pow16(k), k)
  {
    var s, t, c := HexDigitsR(n, w), HexDigitsR(n / 16, w - 1), HexDigitChar(n % 16);
    assert s == t + [c];
    assert s[|s| - k..] == t[|t| - (k - 1)..] + [c];
    var m := Pow16(k - 1);
    assert m == 1 || m == 16 || m == 256 || m == 4096 by {
      assert Pow16(1) == 16 && Pow16(2) == 256 && Pow16(3) == 4096;
    }
    DivModSixteen(n, m);
    var r := n % Pow16(k);
    assert HexDigitsR(r, k) == HexDigitsR(r / 16, k - 1) + [HexDigitChar(r % 16)];
  }

  lemma {:induction false} HexDigitsRLength(n: nat, w: nat)
    requires n < Pow16(w) && w >= 1
    ensures |HexDigitsR(n, w)| == w
    decreases w
  {
    if w > 1 || n >= 16 {
      if w == 1 {
        assert false;
      }
      assert 16 * (n / 16) <= n < 16 * Pow16(w - 1);
      HexDigitsRLength(n / 16, w - 1);
    }
  }

  /** The longest prefix of `s` made of decimal digits: how a reader of the text finds a number's end. */
  function LeadingDigits(s: string): (d: string)
    ensures |d| <= |s| && d == s[..|d|]
    ensures forall i :: 0 <= i < |d| ==> IsDigit(d[i])
    ensures |d| == |s| || !IsDigit(s[|d|])
  {
    if |s| == 0 || !IsDigit(s[0]) then [] else [s[0]] + LeadingDigits(s[1..])
  }

  /** A run of digits followed by a non-digit is read back whole. */
  lemma {:induction false} LeadingDigitsOf(d: string, rest: string)
    requires forall i :: 0 <= i < |d| ==> IsDigit(d[i])
    requires |rest| == 0 || !IsDigit(rest[0])
    ensures LeadingDigits(d + rest) == d
  {
    if |d| > 0 {
      assert (d + rest)[1..] == d[1..] + rest;
      LeadingDigitsOf(d[1..], rest);
    } else {
      assert d + rest == rest;
    }
  }

  /** Reads a decimal number off the front of `s`: its value and what follows it. */
  function ReadNumber(s: string): (r: Option<(nat, string)>)
  {
    var d := LeadingDigits(s);
    if |d| == 0 then None else Some((DigitsValue(d), s[|d|..]))
  }

  lemma ReadNumberOf(d: string, rest: string)
    requires |d| > 0 && forall i :: 0 <= i < |d| ==> IsDigit(d[i])
    requires |rest| == 0 || !IsDigit(rest[0])
    ensures ReadNumber(d + rest) == Some((DigitsValue(d), rest))
  {
    LeadingDigitsOf(d, rest);
    assert (d + rest)[|d|..] == rest;
  }

  /** Reads the literal `lit` off the front of `s`, and what follows it. */
  function ReadLiteral(s: string, lit: string): (r: Option<string>)
  {
    if |s| < |lit| || s[..|lit|] != lit then None else Some(s[|lit|..])
  }

  lemma ReadLiteralOf(lit: string, rest: string)
    ensures ReadLiteral(lit + rest, lit) == Some(rest)
  {
    assert (lit + rest)[..|lit|] == lit;
    assert (lit + rest)[|lit|..] == rest;
  }

  /** The value of an upper-case hexadecimal digit: the inverse of HexDigitChar. */
  function HexDigitValue(c: char): (v: nat)
    ensures v < 16
  {
    if '0' <= c <= '9' then (c as int) - ('0' as int)
    else if 'A' <= c <= 'F' then (c as int) - ('A' as int) + 10
    else 0
  }

  lemma HexDigitRoundTrip(d: nat)
    requires d < 16
    ensures HexDigitValue(HexDigitChar(d)) == d
  {
  }

  /** The value of a string of upper-case hexadecimal digits. */
  function HexValue(s: string): nat
  {
    if |s| == 0 then 0 else 16 * HexValue(s[..|s| - 1]) + HexDigitValue(s[|s| - 1])
  }

  /** Reading an `"Xw"` rendering as hexadecimal gives the number back. */
  lemma {:induction false} HexDigitsRValue(n: nat, w: int)
    ensures HexValue(HexDigitsR(n, w)) == n
    decreases n, w
  {
    if n < 16 && w <= 1 {
      HexValueSnoc([], HexDigitChar(n));
      assert HexDigitsR(n, w) == [] + [HexDigitChar(n)];
      HexDigitRoundTrip(n);
    } else {
      HexDigitsRValue(n / 16, w - 1);
      HexDigitsRValueStep(n, w);
    }
  }

  lemma HexDigitsRValueStep(n: nat, w: int)
    requires !(n < 16 && w <= 1)
    requires HexValue(HexDigitsR(n / 16, w - 1)) == n / 16
    ensures HexValue(HexDigitsR(n, w)) == n
  {
    var t, c := HexDigitsR(n / 16, w - 1), HexDigitChar(n % 16);
    assert HexDigitsR(n, w) == t + [c];
    HexValueSnoc(t, c);
    HexDigitRoundTrip(n % 16);
  }

  lemma HexValueSnoc(t: string, c: char)
    ensures HexValue(t + [c]) == 16 * HexValue(t) + HexDigitValue(c)
  {
    assert (t + [c])[..|t|] == t;
  }

  lemma HexDigitsRInjective(a: nat, b: nat, w: int)
    ensures HexDigitsR(a, w) == HexDigitsR(b, w) <==> a == b
  {
    HexDigitsRValue(a, w);
    HexDigitsRValue(b, w);
  }

  /** `ToLowerInvariant` on the ASCII letters. */
  function LowerChar(c: char): char
  {
    if 'A' <= c <= 'Z' then ((c as int) + 32) as char else c
  }

  /**
   * The lowered line has the same length and no upper-case ASCII letter:
   * each upper-case letter becomes its lower-case counterpart and every
   * other character is kept.
   */
  function Lower(s: string): (r: string)
    ensures |r| == |s|
    ensures forall i :: 0 <= i < |r| ==> !('A' <= r[i] <= 'Z')
    ensures forall i :: 0 <= i < |s| && 'A' <= s[i] <= 'Z' ==> r[i] as int == s[i] as int - 'A' as int + 'a' as int
    ensures forall i :: 0 <= i < |s| && !('A' <= s[i] <= 'Z') ==> r[i] == s[i]
  {
    seq(|s|, i requires 0 <= i < |s| => LowerChar(s[i]))
  }

  lemma LowerIdempotent(s: string)
    ensures Lower(Lower(s)) == Lower(s)
  {
  }

  /** `text.Contains(pat)`: `pat` occurs in `text` at some position. */
  predicate Contains(text: string, pat: string)
  {
    exists i | 0 <= i <= |text| - |pat| :: OccursAt(text, pat, i)
  }

  predicate OccursAt(text: string, pat: string, i: int)
  {
    0 <= i <= |text| - |pat| && text[i..i + |pat|] == pat
  }

  /** `string.Join(sep, parts)`. */
  function Join(sep: string, parts: seq<string>): (r: string)
    decreases |parts|
  {
    if |parts| == 0 then "" else if |parts| == 1 then parts[0] else parts[0] + sep + Join(sep, parts[1..])
  }
}
