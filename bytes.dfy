/** Bytes, and the ways the helpers render them: printf's lowercase
    hexadecimal conversions (`%x`, `%02x`, `%04x`) and the printable test
    that decides how a byte shows in the ASCII column of a hex dump. */
module Bytes {

  /** An unsigned 8-bit value: a `guchar`, or a `gchar` as `memcmp` reads it. */
  type Byte = x: int | 0 <= x < 256

  const NUL: Byte := 0x00
  const NEWLINE: Byte := 0x0A
  const SPACE: Byte := 0x20
  const DOT: Byte := 0x2E
  const ZERO: Byte := 0x30
  const LBRACKET: Byte := 0x5B
  const RBRACKET: Byte := 0x5D

  /** `g_ascii_isprint`: the ASCII graphic characters and the space. */
  predicate Printable(b: Byte) {
    0x20 <= b <= 0x7E
  }

  /** How the ASCII column of a hex dump shows a byte: printable bytes
      verbatim, every other byte as a dot. */
  function Shown(b: Byte): (c: Byte)
    ensures Printable(c)
    ensures c == b <==> Printable(b)
    ensures !Printable(b) ==> c == DOT
  {
    if Printable(b) then b else DOT
  }

  predicate IsHexDigit(c: Byte) {
    0x30 <= c <= 0x39 || 0x61 <= c <= 0x66
  }

  predicate AllHexDigits(ds: seq<Byte>) {
    forall i :: 0 <= i < |ds| ==> IsHexDigit(ds[i])
  }

  /** The value of one lowercase hexadecimal digit. */
  function DigitValue(c: Byte): (d: nat)
    requires IsHexDigit(c)
    ensures d < 16
  {
    if c <= 0x39 then c - 0x30 else c - 0x61 + 10
  }

  /** The lowercase hexadecimal digit printf's `%x` writes for `d`. */
  function Digit(d: nat): (c: Byte)
    requires d < 16
    ensures IsHexDigit(c) && DigitValue(c) == d
    ensures c == ZERO <==> d == 0
  {
    if d < 10 then ZERO + d else 0x61 + (d - 10)
  }

  /** The number a string of hexadecimal digits denotes, most significant first. */
  function HexValue(ds: seq<Byte>): nat
    requires AllHexDigits(ds)
  {
    if ds == [] then 0 else HexValue(ds[..|ds| - 1]) * 16 + DigitValue(ds[|ds| - 1])
  }

  function Pow16(k: nat): (p: nat)
    ensures p >= 1
  {
    if k == 0 then 1 else 16 * Pow16(k - 1)
  }

  /** `%x`: the shortest lowercase hexadecimal rendering of `n`. */
  function Hex(n: nat): seq<Byte>
    decreases n
  {
    if n < 16 then [Digit(n)] else Hex(n / 16) + [Digit(n % 16)]
  }

  /** `%x` writes at least one digit, only hex digits, the value `n`, and a
      leading zero only for `n == 0`. */
  lemma {:induction false} HexCorrect(n: nat)
    ensures |Hex(n)| >= 1 && AllHexDigits(Hex(n))
    ensures HexValue(Hex(n)) == n
    ensures Hex(n)[0] == ZERO <==> n == 0
    decreases n
  {
    if n >= 16 {
      var r := Hex(n);
      HexCorrect(n / 16);
      assert r[..|r| - 1] == Hex(n / 16);
      assert r[0] == Hex(n / 16)[0];
    }
  }

  /** `%x` needs at most `k` digits exactly for the numbers below 16^k. */
  lemma {:induction false} HexWidth(n: nat, k: nat)
    requires k >= 1
    ensures |Hex(n)| <= k <==> n < Pow16(k)
    decreases n
  {
    if n >= 16 {
      HexCorrect(n / 16);
      if k == 1 {
        assert |Hex(n)| == |Hex(n / 16)| + 1;
      } else {
        HexWidth(n / 16, k - 1);
        assert |Hex(n)| == |Hex(n / 16)| + 1;
        assert n / 16 < Pow16(k - 1) <==> n < 16 * Pow16(k - 1);
      }
    }
  }

  function Zeros(k: nat): seq<Byte> {
    seq(k, _ => ZERO)
  }

  /** Leading zero digits do not change the value of a hexadecimal string. */
  lemma {:induction false} LeadingZeros(k: nat, ds: seq<Byte>)
    requires AllHexDigits(ds)
    ensures AllHexDigits(Zeros(k) + ds)
    ensures HexValue(Zeros(k) + ds) == HexValue(ds)
    decreases |ds|
  {
    var z := Zeros(k) + ds;
    if ds == [] {
      assert z == Zeros(k);
      ZerosValue(k);
    } else {
      var init := ds[..|ds| - 1];
      assert z[..|z| - 1] == Zeros(k) + init;
      LeadingZeros(k, init);
    }
  }

  lemma {:induction false} ZerosValue(k: nat)
    ensures AllHexDigits(Zeros(k)) && HexValue(Zeros(k)) == 0
  {
    if k > 0 {
      assert Zeros(k)[..k - 1] == Zeros(k - 1);
      ZerosValue(k - 1);
    }
  }

  /** `%0wx`: `n` in lowercase hexadecimal, padded on the left with zeros
      to at least `w` digits; a wider number is written in full. */
  function PadHex(n: nat, w: nat): seq<Byte> {
    Zeros(if |Hex(n)| < w then w - |Hex(n)| else 0) + Hex(n)
  }

  /** The padded rendering is `w` digits wide, or the full `%x` rendering when
      that is wider; it ends with the `%x` digits and denotes `n`. */
  lemma PadHexCorrect(n: nat, w: nat)
    ensures |PadHex(n, w)| == if |Hex(n)| < w then w else |Hex(n)|
    ensures AllHexDigits(PadHex(n, w)) && HexValue(PadHex(n, w)) == n
    ensures PadHex(n, w)[|PadHex(n, w)| - |Hex(n)|..] == Hex(n)
  {
    HexCorrect(n);
    LeadingZeros(if |Hex(n)| < w then w - |Hex(n)| else 0, Hex(n));
  }

  /** `%02x`. */
  function HexByte(b: Byte): seq<Byte> {
    PadHex(b, 2)
  }

  /** Every byte takes exactly two digits, and they give the byte back. */
  lemma HexByteCorrect(b: Byte)
    ensures |HexByte(b)| == 2 && AllHexDigits(HexByte(b))
    ensures 16 * DigitValue(HexByte(b)[0]) + DigitValue(HexByte(b)[1]) == b
  {
    var r := HexByte(b);
    assert Pow16(2) == 256;
    HexWidth(b, 2);
    PadHexCorrect(b, 2);
    assert |r| == 2;
    var first := r[..1];
    assert first[..0] == [];
    assert HexValue(first) == DigitValue(r[0]);
    assert HexValue(r) == HexValue(first) * 16 + DigitValue(r[1]);
  }

  /** Two bytes with the same rendering are the same byte. */
  lemma HexByteInjective(a: Byte, b: Byte)
    requires HexByte(a) == HexByte(b)
    ensures a == b
  {
    HexByteCorrect(a);
    HexByteCorrect(b);
  }
}
