/** `g_debug_hexdump`: the buffer it builds before logging it. Each line
    shows 16 bytes: an offset prefix, the bytes as two lowercase hex digits
    each, then the bytes again as ASCII. The last line, when partial, is
    padded so that its ASCII column lines up with the full lines above. */
module HexDump {
  import opened Bytes
  import opened GStrings

  // ---------------------------------------------------------------------------
  // The declarative layout, one line at a time

  /** `"[%04x]  "`: the prefix of the line whose first byte has index `at`. */
  function Offset(at: nat): seq<Byte> {
    [LBRACKET] + PadHex(at, 4) + [RBRACKET, SPACE, SPACE]
  }

  /** Each byte as two hex digits followed by a space. */
  function HexCells(g: seq<Byte>): seq<Byte>
    decreases |g|
  {
    if g == [] then [] else HexCells(g[..|g| - 1]) + HexByte(g[|g| - 1]) + [SPACE]
  }

  /** The ASCII column: each byte as `Shown` renders it. */
  function AsciiColumn(g: seq<Byte>): seq<Byte> {
    seq(|g|, k requires 0 <= k < |g| => Shown(g[k]))
  }

  function Spaces(n: nat): seq<Byte> {
    seq(n, _ => SPACE)
  }

  /** What closes a line of `n` bytes: the newline and indentation of the
      next line after a full group, nothing after the trailing partial one. */
  function EndOfLine(n: nat): seq<Byte> {
    if n == 16 then [NEWLINE, SPACE, SPACE] else []
  }

  /** A line shows its group `g` as the offset prefix, each byte's digits
      and separator, three spaces per byte missing from a full group and one
      more, the ASCII column, and the line break of a full group. For a full
      group the last separator and the extra space are the two spaces
      before the ASCII column. */
  function Uniform(g: seq<Byte>, at: nat): seq<Byte>
    requires |g| <= 16
  {
    Offset(at) + HexCells(g) + Spaces(3 * (16 - |g|) + 1) + AsciiColumn(g) + EndOfLine(|g|)
  }

  function LineCount(n: nat): nat {
    (n + 15) / 16
  }

  /** The bytes shown on line `k`: sixteen, or the rest of `s` on the last line. */
  function Group(s: seq<Byte>, k: nat): (g: seq<Byte>)
    requires k < LineCount(|s|)
    ensures 0 < |g| <= 16 && 16 * k + |g| <= |s|
    ensures |g| == 16 <==> 16 * k + 16 <= |s|
    ensures |g| < 16 ==> 16 * k + |g| == |s|
    ensures forall p :: 0 <= p < |g| ==> g[p] == s[16 * k + p]
  {
    var n := if 16 * k + 16 <= |s| then 16 else |s| - 16 * k;
    seq(n, p requires 0 <= p < n => s[16 * k + p])
  }

  /** The group is the slice of the input it starts at. */
  lemma GroupSlice(s: seq<Byte>, k: nat, lo: nat, hi: nat)
    requires k < LineCount(|s|) && lo == 16 * k && hi == lo + |Group(s, k)|
    ensures Group(s, k) == s[lo..hi]
  {
  }

  /** Line `k` of the dump of `s`: the group of bytes from index `16 * k`. */
  function Line(s: seq<Byte>, k: nat): seq<Byte>
    requires k < LineCount(|s|)
  {
    Uniform(Group(s, k), 16 * k)
  }

  /** The first `k` lines. */
  function Lines(s: seq<Byte>, k: nat): seq<Byte>
    requires k <= LineCount(|s|)
  {
    if k == 0 then [] else Lines(s, k - 1) + Line(s, k - 1)
  }

  /** The whole buffer: every line of `s`, in order. */
  function Dump(s: seq<Byte>): seq<Byte> {
    Lines(s, LineCount(|s|))
  }

  // ---------------------------------------------------------------------------
  // The buffer-building loop

  /** What the loop has appended after the bytes before index `i`: the
      complete lines, and the started line's offset and hex cells. */
  function Progress(s: seq<Byte>, i: nat): seq<Byte>
    requires i <= |s|
  {
    var lo := i - i % 16;
    Lines(s, i / 16) + if i % 16 == 0 then [] else Offset(lo) + HexCells(s[lo..i])
  }

  /** `g_debug_hexdump(msg, s, len)`, up to the `g_debug` call: the
      buffer it builds is the declarative dump of `s`. */
  method DebugHexdump(s: seq<Byte>) returns (dump: seq<Byte>)
    ensures dump == Dump(s)
  {
    var hex := new GString.New();
    var len := |s|;
    var i := 0;
    ProgressAtStart(s, i, 0);
    while i < len
      invariant 0 <= i <= len
      invariant hex.content == Progress(s, i)
    {
      AppendByte(hex, s, i);
      i := i + 1;
    }
    FinishDump(hex, s, i);
    dump := hex.content;
  }

  /** After the loop over all `len` bytes: a trailing partial line is
      filled up to the ASCII column and gets its ASCII characters. */
  method FinishDump(hex: GString, s: seq<Byte>, i: nat)
    requires i == |s| && hex.content == Progress(s, i)
    modifies hex
    ensures hex.content == Dump(s)
  {
    var len := |s|;
    if i % 16 != 0 {
      var missing := 16 - i % 16;
      AppendPadding(hex, missing);
      hex.AppendLen([SPACE], 1);
      var lo := i - len % 16;
      AppendAscii(hex, s, lo, i);
      CompletePartialLine(s, i, lo, missing);
    } else {
      CompleteFullDump(s, i);
    }
  }

  /** One turn of the outer loop: byte `i`, with the offset prefix before it
      when it starts a group, and the separator or the group's ASCII column
      after it. */
  method AppendByte(hex: GString, s: seq<Byte>, i: nat)
    requires i < |s| && hex.content == Progress(s, i)
    modifies hex
    ensures hex.content == Progress(s, i + 1)
  {
    var next := i + 1;
    if i % 16 == 0 {
      hex.AppendLen(Offset(i), |Offset(i)|);
    }
    var digits := HexByte(s[i]);
    HexByteCorrect(s[i]);
    hex.AppendLen(digits, 2);
    if next % 16 == 0 {
      LastOfGroup(i, next);
      var lo := i - 15;
      hex.AppendLen([SPACE, SPACE], 2);
      AppendAscii(hex, s, lo, next);
      hex.AppendLen([NEWLINE, SPACE, SPACE], 3);
      CompleteLine(s, i, next, lo);
    } else {
      hex.AppendC(SPACE);
      if i % 16 == 0 {
        StartLine(s, i, next);
      } else {
        ExtendLine(s, i, next);
      }
    }
  }

  /** The loops `for (j = lo; j < hi; j++)` that append the ASCII column. */
  method AppendAscii(hex: GString, s: seq<Byte>, lo: nat, hi: nat)
    requires lo <= hi <= |s|
    modifies hex
    ensures hex.content == old(hex.content) + AsciiColumn(s[lo..hi])
  {
    var j := lo;
    while j < hi
      invariant lo <= j <= hi
      invariant hex.content == old(hex.content) + AsciiColumn(s[lo..j])
    {
      AsciiColumnSnoc(s, lo, j);
      hex.AppendC(if Printable(s[j]) then s[j] else DOT);
      j := j + 1;
    }
  }

  /** The loop that fills up a partial line, three spaces per missing byte. */
  method AppendPadding(hex: GString, missing: nat)
    modifies hex
    ensures hex.content == old(hex.content) + Spaces(3 * missing)
  {
    var j := 0;
    while j < missing
      invariant 0 <= j <= missing
      invariant hex.content == old(hex.content) + Spaces(3 * j)
    {
      SpacesSnoc(j);
      hex.AppendLen([SPACE, SPACE, SPACE], 3);
      j := j + 1;
    }
  }

  // ---------------------------------------------------------------------------
  // Steps of the loop proof. Indices are passed as named variables so that
  // each step is matched without arithmetic on slice bounds.

  lemma AsciiColumnSnoc(s: seq<Byte>, lo: nat, j: nat)
    requires lo <= j < |s|
    ensures AsciiColumn(s[lo..j + 1]) == AsciiColumn(s[lo..j]) + [Shown(s[j])]
  {
  }

  lemma SpacesSnoc(j: nat)
    ensures Spaces(3 * (j + 1)) == Spaces(3 * j) + [SPACE, SPACE, SPACE]
  {
  }

  /** Index `16 * q + p` is byte `p` of group `q`. */
  lemma DivMod16(i: nat, q: nat, p: nat)
    requires i == 16 * q + p && p < 16
    ensures i / 16 == q && i % 16 == p
  {
  }

  /** A byte that ends its group is the 16th byte of that group. */
  lemma LastOfGroup(i: nat, next: nat)
    requires next == i + 1 && next % 16 == 0
    ensures i >= 15 && i % 16 == 15
  {
  }

  lemma ProgressAtStart(s: seq<Byte>, i: nat, q: nat)
    requires i <= |s| && i % 16 == 0 && q == i / 16
    ensures Progress(s, i) == Lines(s, q)
  {
  }

  lemma ProgressInLine(s: seq<Byte>, i: nat, q: nat, lo: nat)
    requires i <= |s| && i % 16 != 0 && q == i / 16 && lo == i - i % 16
    ensures Progress(s, i) == Lines(s, q) + (Offset(lo) + HexCells(s[lo..i]))
  {
  }

  lemma HexCellsStep(s: seq<Byte>, lo: nat, i: nat, next: nat)
    requires lo <= i < |s| && next == i + 1
    ensures HexCells(s[lo..next]) == HexCells(s[lo..i]) + HexByte(s[i]) + [SPACE]
  {
    var g := s[lo..next];
    assert g[..|g| - 1] == s[lo..i];
    assert g[|g| - 1] == s[i];
  }

  lemma Assoc(a: seq<Byte>, b: seq<Byte>, c: seq<Byte>, d: seq<Byte>, e: seq<Byte>)
    ensures a + (b + (c + d + e)) == a + (b + c) + d + e
    ensures a + (b + (d + e)) == a + b + d + e
  {
  }

  /** Adding byte `i`, the first of its group, starts a line. */
  lemma StartLine(s: seq<Byte>, i: nat, next: nat)
    requires i < |s| && i % 16 == 0 && next == i + 1
    ensures Progress(s, next) == Progress(s, i) + Offset(i) + HexByte(s[i]) + [SPACE]
  {
    var q := i / 16;
    DivMod16(next, q, 1);
    ProgressAtStart(s, i, q);
    ProgressInLine(s, next, q, i);
    HexCellsFirst(s, i, next);
    Assoc(Lines(s, q), Offset(i), [], HexByte(s[i]), [SPACE]);
  }

  lemma HexCellsFirst(s: seq<Byte>, i: nat, next: nat)
    requires i < |s| && next == i + 1
    ensures HexCells(s[i..next]) == HexByte(s[i]) + [SPACE]
  {
  }

  /** Adding byte `i`, neither the first nor the last of its group, extends the line. */
  lemma ExtendLine(s: seq<Byte>, i: nat, next: nat)
    requires i < |s| && i % 16 != 0 && next % 16 != 0 && next == i + 1
    ensures Progress(s, next) == Progress(s, i) + HexByte(s[i]) + [SPACE]
  {
    var q, p := i / 16, i % 16;
    var lo := i - p;
    DivMod16(i, q, p);
    DivMod16(next, q, p + 1);
    ProgressInLine(s, i, q, lo);
    ProgressInLine(s, next, q, lo);
    HexCellsStep(s, lo, i, next);
    Assoc(Lines(s, q), Offset(lo), HexCells(s[lo..i]), HexByte(s[i]), [SPACE]);
  }

  lemma LinesSnoc(s: seq<Byte>, q: nat)
    requires q + 1 <= LineCount(|s|)
    ensures Lines(s, q + 1) == Lines(s, q) + Line(s, q)
  {
  }

  lemma FullLineAt(s: seq<Byte>, q: nat, lo: nat, i: nat, hi: nat)
    requires lo == 16 * q && i == lo + 15 && hi == lo + 16 && hi <= |s|
    ensures q < LineCount(|s|)
    ensures Line(s, q) == Offset(lo) + HexCells(s[lo..i]) + HexByte(s[i]) + [SPACE, SPACE]
                          + AsciiColumn(s[lo..hi]) + [NEWLINE, SPACE, SPACE]
  {
    var g := Group(s, q);
    GroupSlice(s, q, lo, hi);
    HexCellsStep(s, lo, i, hi);
    assert 3 * (16 - |g|) + 1 == 1;
    assert Spaces(1) == [SPACE];
    AssocFull(Offset(lo), HexCells(s[lo..i]), HexByte(s[i]), AsciiColumn(g), [NEWLINE, SPACE, SPACE]);
  }

  lemma AssocFull(o: seq<Byte>, c: seq<Byte>, h: seq<Byte>, a: seq<Byte>, e: seq<Byte>)
    ensures o + c + h + [SPACE, SPACE] + a + e == o + (c + h + [SPACE]) + [SPACE] + a + e
  {
  }

  lemma AssocLine(l: seq<Byte>, o: seq<Byte>, c: seq<Byte>, h: seq<Byte>, x: seq<Byte>, a: seq<Byte>, y: seq<Byte>)
    ensures l + (o + c + h + x + a + y) == l + (o + c) + h + x + a + y
  {
  }

  /** Adding byte `i`, which ends its group, completes the line. */
  lemma CompleteLine(s: seq<Byte>, i: nat, next: nat, lo: nat)
    requires i < |s| && next == i + 1 && next % 16 == 0 && lo + 15 == i
    ensures Progress(s, next)
         == Progress(s, i) + HexByte(s[i]) + [SPACE, SPACE]
            + AsciiColumn(s[lo..next]) + [NEWLINE, SPACE, SPACE]
  {
    var q := i / 16;
    var q1 := q + 1;
    DivMod16(i, q, 15);
    DivMod16(next, q1, 0);
    ProgressInLine(s, i, q, lo);
    ProgressAtStart(s, next, q1);
    LinesSnoc(s, q);
    FullLineAt(s, q, lo, i, next);
    AssocLine(Lines(s, q), Offset(lo), HexCells(s[lo..i]), HexByte(s[i]), [SPACE, SPACE],
              AsciiColumn(s[lo..next]), [NEWLINE, SPACE, SPACE]);
  }

  /** A dump whose last group is complete gets no padding. */
  lemma CompleteFullDump(s: seq<Byte>, n: nat)
    requires n == |s| && n % 16 == 0
    ensures Dump(s) == Progress(s, n)
  {
    var q := n / 16;
    DivMod16(n + 15, q, 15);
    assert LineCount(n) == q;
    ProgressAtStart(s, n, q);
  }

  lemma PartialLineAt(s: seq<Byte>, q: nat, lo: nat, n: nat, missing: nat)
    requires lo == 16 * q && n == |s| && lo < n < lo + 16 && missing == 16 - (n - lo)
    ensures q < LineCount(n)
    ensures Line(s, q) == Offset(lo) + HexCells(s[lo..n]) + Spaces(3 * missing) + [SPACE]
                          + AsciiColumn(s[lo..n])
  {
    var g := Group(s, q);
    GroupSlice(s, q, lo, n);
    assert 3 * (16 - |g|) + 1 == 3 * missing + 1;
    SpacesPlusOne(3 * missing);
    AssocPartial(Offset(lo), HexCells(g), Spaces(3 * missing), AsciiColumn(g));
  }

  lemma SpacesPlusOne(m: nat)
    ensures Spaces(m) + [SPACE] == Spaces(m + 1)
  {
  }

  lemma AssocPartial(o: seq<Byte>, c: seq<Byte>, sp: seq<Byte>, a: seq<Byte>)
    ensures o + c + sp + [SPACE] + a == o + c + (sp + [SPACE]) + a + []
  {
  }

  lemma AssocTail(l: seq<Byte>, o: seq<Byte>, c: seq<Byte>, sp: seq<Byte>, x: seq<Byte>, a: seq<Byte>)
    ensures l + (o + c + sp + x + a) == l + (o + c) + sp + x + a
  {
  }

  /** After the loop, padding and the tail's ASCII column finish the dump. */
  lemma CompletePartialLine(s: seq<Byte>, n: nat, lo: nat, missing: nat)
    requires n == |s| && n % 16 != 0 && lo == n - n % 16 && missing == 16 - n % 16
    ensures Dump(s) == Progress(s, n) + Spaces(3 * missing) + [SPACE] + AsciiColumn(s[lo..n])
  {
    var q, r := n / 16, n % 16;
    var q1 := q + 1;
    DivMod16(n, q, r);
    DivMod16(n + 15, q1, r - 1);
    assert LineCount(n) == q1;
    ProgressInLine(s, n, q, lo);
    LinesSnoc(s, q);
    PartialLineAt(s, q, lo, n, missing);
    AssocTail(Lines(s, q), Offset(lo), HexCells(s[lo..n]), Spaces(3 * missing), [SPACE], AsciiColumn(s[lo..n]));
  }
}
