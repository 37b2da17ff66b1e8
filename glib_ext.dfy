/** The small helpers of glib-ext: comparing byte strings of known length,
    subtracting two `GTimeVal`s, and replacing or copying a `GString`.
    The hex dump is in module HexDump. */
module GlibExt {
  import opened Bytes
  import opened GStrings

  /** `memcmp(a, b, n)`: compares the first `n` bytes as unsigned values;
      only the sign of the result is meaningful. */
  function MemCmp(a: seq<Byte>, b: seq<Byte>, n: nat): (r: int)
    requires n <= |a| && n <= |b|
    ensures -1 <= r <= 1
    ensures r == 0 <==> a[..n] == b[..n]
    ensures r != 0 ==> exists k :: 0 <= k < n && a[..k] == b[..k] && a[k] != b[k] && (r < 0 <==> a[k] < b[k])
    decreases n
  {
    if n == 0 then 0
    else if a[0] != b[0] then
      assert a[..0] == b[..0];
      if a[0] < b[0] then -1 else 1
    else
      var r := MemCmp(a[1..], b[1..], n - 1);
      assert a[..n] == [a[0]] + a[1..][..n - 1];
      assert b[..n] == [b[0]] + b[1..][..n - 1];
      if r != 0 then
        var k :| 0 <= k < n - 1 && a[1..][..k] == b[1..][..k] && a[1..][k] != b[1..][k] && (r < 0 <==> a[1..][k] < b[1..][k]);
        assert a[..k + 1] == [a[0]] + a[1..][..k];
        assert b[..k + 1] == [b[0]] + b[1..][..k];
        r
      else
        r
  }

  /** `strleq(a, a_len, b, b_len)`: equal lengths and equal bytes. Bytes are
      read only when the lengths are equal, so only then must the buffers
      hold `a_len` and `b_len` bytes. */
  function Strleq(a: seq<Byte>, aLen: nat, b: seq<Byte>, bLen: nat): (r: bool)
    requires aLen == bLen ==> aLen <= |a| && bLen <= |b|
    ensures r <==> aLen == bLen && a[..aLen] == b[..bLen]
    ensures aLen != bLen ==> !r
  {
    if aLen != bLen then false
    else MemCmp(a, b, aLen) == 0
  }

  /** When the lengths differ, the bytes are not looked at: any buffers,
      even ones shorter than the lengths, give false. */
  lemma StrleqIgnoresBytesOnLengthMismatch(a: seq<Byte>, a': seq<Byte>, aLen: nat, b: seq<Byte>, b': seq<Byte>, bLen: nat)
    requires aLen != bLen
    ensures Strleq(a, aLen, b, bLen) == Strleq(a', aLen, b', bLen) == false
  {
  }

  lemma StrleqReflexive(a: seq<Byte>, aLen: nat)
    requires aLen <= |a|
    ensures Strleq(a, aLen, a, aLen)
  {
  }

  lemma StrleqSymmetric(a: seq<Byte>, aLen: nat, b: seq<Byte>, bLen: nat)
    requires aLen == bLen ==> aLen <= |a| && bLen <= |b|
    ensures Strleq(a, aLen, b, bLen) == Strleq(b, bLen, a, aLen)
  {
  }

  /** Only the first `aLen` and `bLen` bytes of the buffers matter. */
  lemma StrleqPrefixOnly(a: seq<Byte>, aLen: nat, b: seq<Byte>, bLen: nat, a': seq<Byte>, b': seq<Byte>)
    requires aLen <= |a| && bLen <= |b|
    ensures Strleq(a, aLen, b, bLen) == Strleq(a[..aLen] + a', aLen, b[..bLen] + b', bLen)
  {
  }

  // ---------------------------------------------------------------------------
  // GTimeVal arithmetic

  const USEC_PER_SEC: int := 1000000

  /** `GTimeVal`: seconds and microseconds (both `glong`). */
  datatype TimeVal = TimeVal(sec: int, usec: int)

  /** The instant a `GTimeVal` denotes, in microseconds. */
  function Micros(t: TimeVal): int {
    t.sec * USEC_PER_SEC + t.usec
  }

  /** The microsecond part lies in [0, 1000000), as `g_get_current_time` produces it. */
  predicate Normalised(t: TimeVal) {
    0 <= t.usec < USEC_PER_SEC
  }

  /** `a` is strictly earlier than `b` on the (seconds, microseconds) clock. */
  predicate Earlier(a: TimeVal, b: TimeVal) {
    a.sec < b.sec || (a.sec == b.sec && a.usec < b.usec)
  }

  /** `ge_gtimeval_diff(told, tnew, tdiff)`: the three updates of `*tdiff`
      compute the microseconds from `told` to `tnew`. */
  method TimeValDiff(told: TimeVal, tnew: TimeVal) returns (tdiff: int)
    ensures tdiff == Micros(tnew) - Micros(told)
  {
    tdiff := tnew.sec - told.sec;
    tdiff := tdiff * USEC_PER_SEC;
    tdiff := tdiff + (tnew.usec - told.usec);
  }

  /** The sign promised by the doc comment: for normalised values the
      difference is positive exactly when `told` is earlier than `tnew`,
      zero exactly when they are the same, and negative exactly when
      `tnew` is the earlier one. */
  lemma DiffSign(told: TimeVal, tnew: TimeVal)
    requires Normalised(told) && Normalised(tnew)
    ensures Micros(tnew) - Micros(told) > 0 <==> Earlier(told, tnew)
    ensures Micros(tnew) - Micros(told) == 0 <==> told == tnew
    ensures Micros(tnew) - Micros(told) < 0 <==> Earlier(tnew, told)
  {
  }

  /** Swapping the arguments negates the difference; equal arguments give 0. */
  lemma DiffAntisymmetric(a: TimeVal, b: TimeVal)
    ensures Micros(b) - Micros(a) == -(Micros(a) - Micros(b))
    ensures Micros(a) - Micros(a) == 0
  {
  }

  const INT64_MIN: int := -0x8000_0000_0000_0000
  const INT64_MAX: int := 0x7FFF_FFFF_FFFF_FFFF

  predicate InInt64(x: int) {
    INT64_MIN <= x <= INT64_MAX
  }

  /** The largest seconds difference for which no step of `ge_gtimeval_diff`
      leaves the `gint64` range. */
  const MAX_SEC_DIFF: int := 9_223_372_036_853

  /** For normalised values whose seconds differ by at most `MAX_SEC_DIFF`,
      each of the three values stored in `*tdiff` fits in a `gint64`, so the
      mathematical result is the one the C code stores. */
  lemma DiffFitsInt64(told: TimeVal, tnew: TimeVal)
    requires Normalised(told) && Normalised(tnew)
    requires -MAX_SEC_DIFF <= tnew.sec - told.sec <= MAX_SEC_DIFF
    ensures InInt64(tnew.sec - told.sec)
    ensures InInt64((tnew.sec - told.sec) * USEC_PER_SEC)
    ensures InInt64(Micros(tnew) - Micros(told))
  {
  }

  // ---------------------------------------------------------------------------
  // GString replace and copy

  /** `g_string_assign_len(s, str, str_len)`: truncates `s` to nothing and
      appends the first `str_len` bytes of `str`; returns `s`. Whatever `s`
      held before is gone, so a second identical call changes nothing. */
  method AssignLen(s: GString, str: seq<Byte>, strLen: nat) returns (r: GString)
    requires strLen <= |str|
    modifies s
    ensures r == s
    ensures s.content == str[..strLen]
  {
    s.Truncate(0);
    s.AppendLen(str, strLen);
    r := s;
  }

  /** `g_string_dup(src)`: a new GString assigned from `src->str`. Since
      `g_string_assign` copies a C string, the copy stops at the first
      embedded NUL of `src`; without one it equals `src`. */
  method Dup(src: GString) returns (dst: GString)
    ensures fresh(dst)
    ensures dst.content == UpToNul(src.content)
    ensures NUL !in src.content ==> dst.content == src.content
    ensures src.content == old(src.content)
  {
    dst := new GString.SizedNew(|src.content| + 1);
    dst.Assign(src.content + [NUL]);
  }
}
