/** Where things stand in a hex dump. While offsets stay below 0x10000 the
    `%04x` prefix is eight bytes wide, every complete line is 76 bytes, and
    each byte has a fixed column: its two digits and separator at
    `CellPos(j)`, its ASCII rendering at `AsciiPos(j)`, 57 bytes into its
    line. From these positions the input can be read back from its dump. */
module HexDumpLayout {
  import opened Bytes
  import opened HexDump

  /** The index in the dump of the first hex digit of byte `j`. */
  function CellPos(j: nat): nat {
    76 * (j / 16) + 8 + 3 * (j % 16)
  }

  /** The index in the dump of byte `j`'s rendering in the ASCII column. */
  function AsciiPos(j: nat): nat {
    76 * (j / 16) + 57 + j % 16
  }

  // ---------------------------------------------------------------------------
  // Generic sequence facts, over plain variables

  /** A slice is determined by its elements. */
  lemma SliceFromPoints(u: seq<Byte>, w: seq<Byte>, i: nat, a: nat, b: nat)
    requires a <= b <= |w| && i + b <= |u|
    requires forall p :: a <= p < b ==> u[i + p] == w[p]
    ensures u[i + a..i + b] == w[a..b]
  {
  }

  lemma SliceOfAppendLeft(x: seq<Byte>, y: seq<Byte>, a: nat, b: nat)
    requires a <= b <= |x|
    ensures (x + y)[a..b] == x[a..b]
  {
  }

  lemma SliceOfSlice(u: seq<Byte>, i: nat, j: nat, x: nat, y: nat)
    requires i <= j <= |u| && x <= y <= j - i
    ensures u[i..j][x..y] == u[i + x..i + y]
  {
    forall t | 0 <= t < y - x
      ensures u[i..j][x..y][t] == u[i + x..i + y][t]
    {
      assert u[i..j][x..y][t] == u[i..j][x + t] == u[i + (x + t)];
    }
  }

  /** Rows written one after the other. */
  function Join(rows: seq<seq<Byte>>): seq<Byte>
    decreases |rows|
  {
    if rows == [] then [] else Join(rows[..|rows| - 1]) + rows[|rows| - 1]
  }

  /** The first `k` rows are complete lines of 76 bytes. */
  predicate FullRows(rows: seq<seq<Byte>>, k: nat)
    requires k <= |rows|
  {
    forall i :: 0 <= i < k ==> |rows[i]| == 76
  }

  lemma {:induction false} JoinLength(rows: seq<seq<Byte>>)
    requires FullRows(rows, |rows|)
    ensures |Join(rows)| == 76 * |rows|
    decreases |rows|
  {
    if rows != [] {
      var init := rows[..|rows| - 1];
      assert FullRows(init, |init|) by {
        forall i | 0 <= i < |init| ensures |init[i]| == 76 {
          assert init[i] == rows[i];
        }
      }
      JoinLength(init);
    }
  }

  /** After `k` complete rows, byte `p` of row `k` is byte `76 * k + p` of the join. */
  lemma {:induction false} JoinAt(rows: seq<seq<Byte>>, k: nat, p: nat)
    requires k < |rows| && FullRows(rows, k) && p < |rows[k]|
    ensures 76 * k + p < |Join(rows)| && Join(rows)[76 * k + p] == rows[k][p]
    decreases |rows|
  {
    var n := |rows| - 1;
    var init := rows[..n];
    assert Join(rows) == Join(init) + rows[n];
    if k == n {
      assert FullRows(init, n) by {
        forall i | 0 <= i < n ensures |init[i]| == 76 {
          assert init[i] == rows[i];
        }
      }
      JoinLength(init);
    } else {
      assert init[k] == rows[k];
      assert FullRows(init, k) by {
        forall i | 0 <= i < k ensures |init[i]| == 76 {
          assert init[i] == rows[i];
        }
      }
      JoinAt(init, k, p);
    }
  }

  /** The five parts of a line, read back by position: `i1`..`i4` are where
      the second to fifth parts start. */
  lemma PartsOf(u: seq<Byte>, o: seq<Byte>, h: seq<Byte>, pd: seq<Byte>, a: seq<Byte>, e: seq<Byte>,
                i1: nat, i2: nat, i3: nat, i4: nat)
    requires u == o + h + pd + a + e
    requires i1 == |o| && i2 == i1 + |h| && i3 == i2 + |pd| && i4 == i3 + |a|
    ensures i4 <= |u|
    ensures u[..i1] == o && u[i1..i2] == h && u[i2..i3] == pd && u[i3..i4] == a && u[i4..] == e
  {
  }

  // ---------------------------------------------------------------------------
  // The pieces of a line

  /** With an offset below 0x10000 the prefix is `[`, four digits giving the
      offset, `]` and two spaces. */
  lemma OffsetShape(at: nat)
    requires at < 0x10000
    ensures |Offset(at)| == 8
    ensures Offset(at)[0] == LBRACKET && Offset(at)[5..] == [RBRACKET, SPACE, SPACE]
    ensures AllHexDigits(Offset(at)[1..5]) && HexValue(Offset(at)[1..5]) == at
  {
    Pow16Four();
    HexWidth(at, 4);
    PadHexCorrect(at, 4);
    assert Offset(at)[1..5] == PadHex(at, 4);
  }

  /** The one consequence of `OffsetWidth` the line lemmas use; it keeps the
      wider case out of their proofs. */
  lemma OffsetLength(at: nat)
    requires at < 0x10000
    ensures |Offset(at)| == 8
  {
    OffsetWidth(at);
  }

  /** `%04x` is four digits wide exactly for offsets below 0x10000, and wider above. */
  lemma OffsetWidth(at: nat)
    ensures |Offset(at)| >= 8
    ensures |Offset(at)| == 8 <==> at < 0x10000
  {
    Pow16Four();
    HexWidth(at, 4);
    PadHexCorrect(at, 4);
  }

  lemma Pow16Four()
    ensures Pow16(4) == 0x10000
  {
  }

  lemma {:induction false} HexCellsLength(g: seq<Byte>)
    ensures |HexCells(g)| == 3 * |g|
    decreases |g|
  {
    if g != [] {
      HexCellsLength(g[..|g| - 1]);
      HexByteCorrect(g[|g| - 1]);
    }
  }

  /** Byte `p` of a group occupies cells `3p`, `3p + 1` and `3p + 2`: two digits and a space. */
  lemma {:induction false} HexCellAt(g: seq<Byte>, p: nat)
    requires p < |g|
    ensures 3 * p + 3 <= |HexCells(g)|
    ensures HexCells(g)[3 * p..3 * p + 3] == HexByte(g[p]) + [SPACE]
    decreases |g|
  {
    var n := |g| - 1;
    if p == n {
      LastCellOf(g, n);
    } else {
      HexCellAt(g[..n], p);
      EarlierCellOf(g, n, p);
    }
  }

  lemma LastCellOf(g: seq<Byte>, n: nat)
    requires n + 1 == |g|
    ensures 3 * n + 3 <= |HexCells(g)|
    ensures HexCells(g)[3 * n..3 * n + 3] == HexByte(g[n]) + [SPACE]
  {
    var h := HexCells(g[..n]);
    HexCellsUnfold(g, n);
    HexCellsLength(g[..n]);
    assert |g[..n]| == n;
    HexByteCorrect(g[n]);
    LastCell(h, HexByte(g[n]), |h|);
  }

  lemma EarlierCellOf(g: seq<Byte>, n: nat, p: nat)
    requires n + 1 == |g| && p < n
    requires 3 * p + 3 <= |HexCells(g[..n])|
    requires HexCells(g[..n])[3 * p..3 * p + 3] == HexByte(g[..n][p]) + [SPACE]
    ensures 3 * p + 3 <= |HexCells(g)|
    ensures HexCells(g)[3 * p..3 * p + 3] == HexByte(g[p]) + [SPACE]
  {
    var h := HexCells(g[..n]);
    HexCellsUnfold(g, n);
    SliceOfAppendLeft(h, HexByte(g[n]), 3 * p, 3 * p + 3);
    SliceOfAppendLeft(h + HexByte(g[n]), [SPACE], 3 * p, 3 * p + 3);
  }

  lemma HexCellsUnfold(g: seq<Byte>, n: nat)
    requires n + 1 == |g|
    ensures HexCells(g) == HexCells(g[..n]) + HexByte(g[n]) + [SPACE]
  {
  }

  lemma LastCell(h: seq<Byte>, b: seq<Byte>, at: nat)
    requires |b| == 2 && at == |h|
    ensures (h + b + [SPACE])[at..at + 3] == b + [SPACE]
  {
  }

  // ---------------------------------------------------------------------------
  // Positions within one line (offsets below 0x10000)

  /** A line is 57 bytes plus one per byte shown, plus 3 for the line break of a full line. */
  lemma UniformLength(g: seq<Byte>, at: nat)
    requires |g| <= 16 && at < 0x10000
    ensures |Uniform(g, at)| == 57 + |g| + |EndOfLine(|g|)|
  {
    OffsetLength(at);
    HexCellsLength(g);
  }

  /** The front of a line: the offset at 0, the hex cells from 8. */
  lemma UniformFront(g: seq<Byte>, at: nat)
    requires |g| <= 16 && at < 0x10000
    ensures 8 + 3 * |g| <= |Uniform(g, at)|
    ensures Uniform(g, at)[..8] == Offset(at)
    ensures Uniform(g, at)[8..8 + 3 * |g|] == HexCells(g)
  {
    var n := |g|;
    OffsetLength(at);
    HexCellsLength(g);
    PartsOf(Uniform(g, at), Offset(at), HexCells(g), Spaces(3 * (16 - n) + 1), AsciiColumn(g), EndOfLine(n),
            8, 8 + 3 * n, 57, 57 + n);
  }

  /** The back of a line: padding from `8 + 3 * |g|`, the ASCII column from 57, then the line break. */
  lemma UniformBack(g: seq<Byte>, at: nat)
    requires |g| <= 16 && at < 0x10000
    ensures 57 + |g| <= |Uniform(g, at)|
    ensures Uniform(g, at)[8 + 3 * |g|..57] == Spaces(3 * (16 - |g|) + 1)
    ensures Uniform(g, at)[57..57 + |g|] == AsciiColumn(g)
    ensures Uniform(g, at)[57 + |g|..] == EndOfLine(|g|)
  {
    var n := |g|;
    OffsetLength(at);
    HexCellsLength(g);
    PartsOf(Uniform(g, at), Offset(at), HexCells(g), Spaces(3 * (16 - n) + 1), AsciiColumn(g), EndOfLine(n),
            8, 8 + 3 * n, 57, 57 + n);
  }

  /** Byte `p` of the group: its two digits and a space at `8 + 3p`. */
  lemma UniformCell(g: seq<Byte>, at: nat, p: nat)
    requires |g| <= 16 && at < 0x10000 && p < |g|
    ensures 8 + 3 * p + 3 <= |Uniform(g, at)|
    ensures Uniform(g, at)[8 + 3 * p..8 + 3 * p + 3] == HexByte(g[p]) + [SPACE]
  {
    var n := |g|;
    var u := Uniform(g, at);
    UniformFront(g, at);
    HexCellAt(g, p);
    SliceOfSlice(u, 8, 8 + 3 * n, 3 * p, 3 * p + 3);
    assert 8 + (3 * p + 3) == 8 + 3 * p + 3;
  }

  // ---------------------------------------------------------------------------
  // Positions in the whole dump (inputs of at most 0x10000 bytes)

  /** Line `k` exists exactly when the group starting at `16 * k` is not empty. */
  lemma LineCountSpec(n: nat, k: nat)
    ensures k < LineCount(n) <==> 16 * k < n
  {
  }

  lemma {:induction false} LinesLength(s: seq<Byte>, k: nat)
    requires 16 * k <= |s| <= 0x10000
    ensures k <= LineCount(|s|) && |Lines(s, k)| == 76 * k
    decreases k
  {
    if k > 0 {
      var q := k - 1;
      assert q + 1 == k;
      LinesLength(s, q);
      LinesSnoc(s, q);
      UniformLength(Group(s, q), 16 * q);
    }
  }

  /** The dump is its lines, one after the other. */
  function Rows(s: seq<Byte>): seq<seq<Byte>> {
    seq(LineCount(|s|), k requires 0 <= k < LineCount(|s|) => Line(s, k))
  }

  lemma {:induction false} LinesJoin(s: seq<Byte>, k: nat)
    requires k <= LineCount(|s|)
    ensures Lines(s, k) == Join(Rows(s)[..k])
    decreases k
  {
    if k > 0 {
      var q := k - 1;
      assert q + 1 == k;
      LinesJoin(s, q);
      LinesSnoc(s, q);
      var r := Rows(s)[..q + 1];
      assert r[..q] == Rows(s)[..q];
      assert r[q] == Line(s, q);
      assert Join(r) == Join(r[..q]) + r[q];
    }
  }

  lemma DumpJoin(s: seq<Byte>)
    ensures Dump(s) == Join(Rows(s))
  {
    var n := LineCount(|s|);
    LinesJoin(s, n);
    assert Rows(s)[..n] == Rows(s);
  }

  /** Every line before the last one is complete. */
  lemma RowsFull(s: seq<Byte>, k: nat)
    requires |s| <= 0x10000 && k < LineCount(|s|)
    ensures FullRows(Rows(s), k)
  {
    LineCountSpec(|s|, k);
    forall i | 0 <= i < k
      ensures |Rows(s)[i]| == 76
    {
      var g := Group(s, i);
      assert |g| == 16;
      UniformLength(g, 16 * i);
    }
  }

  /** Byte `p` of line `k` is byte `76 * k + p` of the dump. */
  lemma DumpAt(s: seq<Byte>, k: nat, p: nat)
    requires |s| <= 0x10000 && k < LineCount(|s|) && p < |Line(s, k)|
    ensures 76 * k + p < |Dump(s)|
    ensures Dump(s)[76 * k + p] == Line(s, k)[p]
  {
    DumpJoin(s);
    RowsFull(s, k);
    assert Rows(s)[k] == Line(s, k);
    JoinAt(Rows(s), k, p);
  }

  /** Line `k` starts at index `76 * k` of the dump. */
  lemma DumpSlice(s: seq<Byte>, k: nat, a: nat, b: nat)
    requires |s| <= 0x10000 && k < LineCount(|s|) && a < b <= |Line(s, k)|
    ensures 76 * k + b <= |Dump(s)|
    ensures Dump(s)[76 * k + a..76 * k + b] == Line(s, k)[a..b]
  {
    DumpPoints(s, k, a, b);
    DumpSliceFromPoints(s, k, a, b);
  }

  lemma DumpSliceFromPoints(s: seq<Byte>, k: nat, a: nat, b: nat)
    requires |s| <= 0x10000 && k < LineCount(|s|) && a < b <= |Line(s, k)|
    requires 76 * k + b <= |Dump(s)|
    requires forall p :: a <= p < b ==> Dump(s)[76 * k + p] == Line(s, k)[p]
    ensures Dump(s)[76 * k + a..76 * k + b] == Line(s, k)[a..b]
  {
    SliceFromPoints(Dump(s), Line(s, k), 76 * k, a, b);
  }

  lemma DumpPoints(s: seq<Byte>, k: nat, a: nat, b: nat)
    requires |s| <= 0x10000 && k < LineCount(|s|) && a < b <= |Line(s, k)|
    ensures 76 * k + b <= |Dump(s)|
    ensures forall p :: a <= p < b ==> Dump(s)[76 * k + p] == Line(s, k)[p]
  {
    DumpAt(s, k, b - 1);
    forall p | a <= p < b
      ensures Dump(s)[76 * k + p] == Line(s, k)[p]
    {
      DumpAt(s, k, p);
    }
  }

  /** 76 bytes per complete group; a trailing group of `r` bytes adds `57 + r`
      bytes; when the length is a multiple of 16 there is nothing after the
      last line break. */
  lemma DumpLength(s: seq<Byte>)
    requires |s| <= 0x10000
    ensures |Dump(s)| == 76 * (|s| / 16) + (if |s| % 16 == 0 then 0 else 57 + |s| % 16)
  {
    var q, r := |s| / 16, |s| % 16;
    LinesLength(s, q);
    if r == 0 {
      assert LineCount(|s|) == q;
    } else {
      assert LineCount(|s|) == q + 1;
      assert |Group(s, q)| == r;
      LinesSnoc(s, q);
      UniformLength(Group(s, q), 16 * q);
    }
  }

  /** Each line begins with the `[%04x]  ` prefix of its first byte's index. */
  lemma DumpOffset(s: seq<Byte>, k: nat)
    requires |s| <= 0x10000 && k < LineCount(|s|)
    ensures 76 * k + 8 <= |Dump(s)|
    ensures Dump(s)[76 * k..76 * k + 8] == Offset(16 * k)
  {
    LineCountSpec(|s|, k);
    UniformFront(Group(s, k), 16 * k);
    DumpSlice(s, k, 0, 8);
    assert 76 * k + 0 == 76 * k;
  }

  /** Byte `j` appears, in order, as its two hex digits followed by a space. */
  lemma DumpByte(s: seq<Byte>, j: nat)
    requires |s| <= 0x10000 && j < |s|
    ensures CellPos(j) + 3 <= |Dump(s)|
    ensures Dump(s)[CellPos(j)..CellPos(j) + 3] == HexByte(s[j]) + [SPACE]
  {
    var k, p := j / 16, j % 16;
    var a := 8 + 3 * p;
    DumpCell(s, k, p, a, a + 3);
    assert CellPos(j) == 76 * k + a && CellPos(j) + 3 == 76 * k + (a + 3) && 16 * k + p == j;
  }

  /** Byte `p` of group `k` has its cell from `a = 8 + 3p` to `b` in line `k` of the dump. */
  lemma DumpCell(s: seq<Byte>, k: nat, p: nat, a: nat, b: nat)
    requires |s| <= 0x10000 && 16 * k + p < |s| && p < 16 && a == 8 + 3 * p && b == a + 3
    ensures 76 * k + b <= |Dump(s)|
    ensures Dump(s)[76 * k + a..76 * k + b] == HexByte(s[16 * k + p]) + [SPACE]
  {
    LineCell(s, k, p, a, b);
    DumpSlice(s, k, a, b);
  }

  lemma LineCell(s: seq<Byte>, k: nat, p: nat, a: nat, b: nat)
    requires |s| <= 0x10000 && 16 * k + p < |s| && p < 16 && a == 8 + 3 * p && b == a + 3
    ensures k < LineCount(|s|) && b <= |Line(s, k)|
    ensures Line(s, k)[a..b] == HexByte(s[16 * k + p]) + [SPACE]
  {
    LineCountSpec(|s|, k);
    var g := Group(s, k);
    assert g[p] == s[16 * k + p];
    UniformCell(g, 16 * k, p);
  }

  /** Only a byte whose index is a multiple of 16 has the offset prefix in
      front of it; every other byte directly follows the previous byte's
      digits and single space. */
  lemma CellAfter(j: nat)
    ensures j % 16 == 0 ==> CellPos(j) == 76 * (j / 16) + 8
    ensures j % 16 != 0 ==> CellPos(j) == CellPos(j - 1) + 3
  {
    if j % 16 != 0 {
      DivMod16(j - 1, j / 16, j % 16 - 1);
    }
  }

  /** What directly precedes byte `j`'s digits in the dump: the `[%04x]  `
      prefix of its own index when `j` is a multiple of 16, and otherwise
      the previous byte's two digits and a single space. */
  lemma DumpBefore(s: seq<Byte>, j: nat)
    requires |s| <= 0x10000 && j < |s|
    ensures CellPos(j) + 3 <= |Dump(s)|
    ensures j % 16 == 0 ==> 8 <= CellPos(j) && Dump(s)[CellPos(j) - 8..CellPos(j)] == Offset(j)
    ensures j % 16 != 0 ==> 3 <= CellPos(j) && Dump(s)[CellPos(j) - 3..CellPos(j)] == HexByte(s[j - 1]) + [SPACE]
  {
    CellAfter(j);
    DumpByte(s, j);
    if j % 16 == 0 {
      var k := j / 16;
      DumpOffset(s, k);
      assert 16 * k == j && CellPos(j) - 8 == 76 * k && CellPos(j) == 76 * k + 8;
    } else {
      DumpByte(s, j - 1);
      assert CellPos(j) - 3 == CellPos(j - 1) && CellPos(j) == CellPos(j - 1) + 3;
    }
  }

  /** Byte `j` shows in its line's ASCII column, printable bytes verbatim and the others as `.`. */
  lemma DumpAscii(s: seq<Byte>, j: nat)
    requires |s| <= 0x10000 && j < |s|
    ensures AsciiPos(j) < |Dump(s)|
    ensures Dump(s)[AsciiPos(j)] == Shown(s[j])
  {
    var k, p := j / 16, j % 16;
    LineAscii(s, k, p);
    var a := 57 + p;
    DumpAt(s, k, a);
    assert Dump(s)[76 * k + a] == Shown(s[16 * k + p]);
    assert AsciiPos(j) == 76 * k + a && 16 * k + p == j;
  }

  /** The ASCII rendering of byte `p` of group `k` is byte `57 + p` of its line. */
  lemma LineAscii(s: seq<Byte>, k: nat, p: nat)
    requires |s| <= 0x10000 && 16 * k + p < |s| && p < 16
    ensures k < LineCount(|s|) && 57 + p < |Line(s, k)|
    ensures Line(s, k)[57 + p] == Shown(s[16 * k + p])
  {
    LineCountSpec(|s|, k);
    var g := Group(s, k);
    assert g[p] == s[16 * k + p];
    UniformBack(g, 16 * k);
    assert Line(s, k)[57 + p] == AsciiColumn(g)[p];
  }
  /** After byte `j` there is one space and then the next byte's first
      digit, unless `j` ends its group. */
  lemma DumpSeparator(s: seq<Byte>, j: nat)
    requires |s| <= 0x10000 && j + 1 < |s| && (j + 1) % 16 != 0
    ensures CellPos(j) + 4 <= |Dump(s)|
    ensures Dump(s)[CellPos(j) + 2] == SPACE
    ensures Dump(s)[CellPos(j) + 3] == HexByte(s[j + 1])[0] && IsHexDigit(Dump(s)[CellPos(j) + 3])
  {
    DumpByte(s, j);
    DumpByte(s, j + 1);
    CellAfter(j + 1);
    HexByteCorrect(s[j + 1]);
    CellIndex(Dump(s), CellPos(j), HexByte(s[j]) + [SPACE], 2);
    CellIndex(Dump(s), CellPos(j + 1), HexByte(s[j + 1]) + [SPACE], 0);
  }

  lemma CellIndex(u: seq<Byte>, at: nat, w: seq<Byte>, x: nat)
    requires at + |w| <= |u| && x < |w| && u[at..at + |w|] == w
    ensures u[at + x] == w[x]
  {
  }

  /** A complete group ends its hex part with two spaces (the last byte's
      separator and one more) and its line with a newline and two spaces. */
  lemma DumpGroupEnd(s: seq<Byte>, k: nat)
    requires |s| <= 0x10000 && 16 * k + 16 <= |s|
    ensures 76 * k + 76 <= |Dump(s)|
    ensures Dump(s)[76 * k + 55..76 * k + 57] == [SPACE, SPACE]
    ensures Dump(s)[76 * k + 73..76 * k + 76] == [NEWLINE, SPACE, SPACE]
  {
    LineEnd(s, k);
    DumpSlice(s, k, 55, 57);
    DumpSlice(s, k, 73, 76);
  }

  lemma LineEnd(s: seq<Byte>, k: nat)
    requires |s| <= 0x10000 && 16 * k + 16 <= |s|
    ensures k < LineCount(|s|) && |Line(s, k)| == 76
    ensures Line(s, k)[55..57] == [SPACE, SPACE]
    ensures Line(s, k)[73..76] == [NEWLINE, SPACE, SPACE]
  {
    LineCountSpec(|s|, k);
    var g := Group(s, k);
    var u := Line(s, k);
    UniformLength(g, 16 * k);
    UniformCell(g, 16 * k, 15);
    UniformBack(g, 16 * k);
    assert u[53..56] == HexByte(g[15]) + [SPACE];
    assert u[55] == u[53..56][2];
    assert u[56] == u[8 + 3 * 16..57][0];
    assert u[73..76] == u[57 + 16..];
  }

  /** A trailing partial group of `r` bytes: after its hex cells come
      `3 * (16 - r) + 1` spaces, then its `r` ASCII characters, which end
      the dump. */
  lemma DumpTail(s: seq<Byte>, q: nat, r: nat)
    requires |s| <= 0x10000 && q == |s| / 16 && r == |s| % 16 && r != 0
    ensures |Dump(s)| == 76 * q + 57 + r
    ensures Dump(s)[76 * q + 8 + 3 * r..76 * q + 57] == Spaces(3 * (16 - r) + 1)
    ensures Dump(s)[76 * q + 57..] == AsciiColumn(s[16 * q..])
  {
    DumpLength(s);
    LineTail(s, q, r);
    DumpSlice(s, q, 8 + 3 * r, 57);
    DumpSlice(s, q, 57, 57 + r);
    TailSlice(Dump(s), 76 * q + 57, r);
  }

  lemma TailSlice(u: seq<Byte>, at: nat, r: nat)
    requires at + r == |u|
    ensures u[at..] == u[at..at + r]
  {
  }

  lemma LineTail(s: seq<Byte>, q: nat, r: nat)
    requires |s| <= 0x10000 && r == |s| % 16 && q == |s| / 16 && r != 0
    ensures q < LineCount(|s|) && |Line(s, q)| == 57 + r
    ensures Line(s, q)[8 + 3 * r..57] == Spaces(3 * (16 - r) + 1)
    ensures Line(s, q)[57..57 + r] == AsciiColumn(s[16 * q..])
  {
    var lo := 16 * q;
    DivMod16(|s|, q, r);
    LineCountSpec(|s|, q);
    var g := Group(s, q);
    GroupSlice(s, q, lo, |s|);
    UniformLength(g, lo);
    UniformBack(g, lo);
  }
  // ---------------------------------------------------------------------------
  // The dump loses nothing

  /** Two inputs of at most 0x10000 bytes with the same dump are equal: the
      length can be read off the dump's length and each byte off its two
      hex digits. */
  lemma DumpInjective(s: seq<Byte>, t: seq<Byte>)
    requires |s| <= 0x10000 && |t| <= 0x10000 && Dump(s) == Dump(t)
    ensures s == t
  {
    DumpLengthInjective(s, t);
    forall j | 0 <= j < |s|
      ensures s[j] == t[j]
    {
      DumpByte(s, j);
      DumpByte(t, j);
      SameCells(s[j], t[j], Dump(s), CellPos(j));
    }
  }

  lemma SameCells(a: Byte, b: Byte, d: seq<Byte>, at: nat)
    requires at + 3 <= |d|
    requires d[at..at + 3] == HexByte(a) + [SPACE] && d[at..at + 3] == HexByte(b) + [SPACE]
    ensures a == b
  {
    HexByteCorrect(a);
    HexByteCorrect(b);
    assert HexByte(a) == (HexByte(a) + [SPACE])[..2];
    HexByteInjective(a, b);
  }

  /** The dump's length determines the input's length. */
  lemma DumpLengthInjective(s: seq<Byte>, t: seq<Byte>)
    requires |s| <= 0x10000 && |t| <= 0x10000 && |Dump(s)| == |Dump(t)|
    ensures |s| == |t|
  {
    DumpLength(s);
    DumpLength(t);
    LengthParts(|s|, |Dump(s)|);
    LengthParts(|t|, |Dump(t)|);
  }

  /** A dump length gives back the input length divided by 16 and its remainder. */
  lemma LengthParts(n: nat, d: nat)
    requires d == 76 * (n / 16) + (if n % 16 == 0 then 0 else 57 + n % 16)
    ensures n / 16 == d / 76
    ensures n % 16 == (if d % 76 == 0 then 0 else d % 76 - 57)
  {
  }
}
