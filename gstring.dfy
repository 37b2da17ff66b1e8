/** The parts of glib's `GString` the helpers use: a growable byte buffer
    whose `str` is always its contents followed by a NUL byte. Only the
    contents are modelled, not the allocation. */
module GStrings {
  import opened Bytes

  /** `strlen`: the index of the first NUL byte of a C string buffer. */
  function StrLen(buf: seq<Byte>): (n: nat)
    requires NUL in buf
    ensures n < |buf| && buf[n] == NUL
    ensures NUL !in buf[..n]
  {
    if buf[0] == NUL then 0
    else
      assert NUL in buf[1..];
      var n := 1 + StrLen(buf[1..]);
      assert buf[..n] == [buf[0]] + buf[1..][..n - 1];
      n
  }

  /** The bytes a C string buffer denotes: everything before its first NUL. */
  function CString(buf: seq<Byte>): (r: seq<Byte>)
    requires NUL in buf
    ensures NUL !in r
    ensures r + [NUL] <= buf
  {
    buf[..StrLen(buf)]
  }

  /** What is read back through a GString's `str`: its contents up to the
      first embedded NUL, or all of them when there is none. */
  function UpToNul(content: seq<Byte>): (r: seq<Byte>)
    ensures r <= content && NUL !in r
    ensures |r| < |content| ==> content[|r|] == NUL
    ensures NUL !in content ==> r == content
  {
    var buf := content + [NUL];
    var r := CString(buf);
    assert r + [NUL] <= buf;
    assert |r| < |content| ==> buf[|r|] == content[|r|];
    r
  }

  class GString {
    var content: seq<Byte>

    /** `g_string_new(NULL)`. */
    constructor New()
      ensures content == []
    {
      content := [];
    }

    /** `g_string_sized_new(n)`: `n` only pre-sizes the buffer. */
    constructor SizedNew(n: nat)
      ensures content == []
    {
      content := [];
    }

    /** `g_string_truncate(s, n)`: keeps the first `n` bytes. */
    method Truncate(n: nat)
      modifies this
      ensures content == old(content)[..if n < |old(content)| then n else |old(content)|]
    {
      content := content[..if n < |content| then n else |content|];
    }

    /** `g_string_append_len(s, val, n)`: appends the first `n` bytes of
        `val`, NUL bytes included. */
    method AppendLen(val: seq<Byte>, n: nat)
      requires n <= |val|
      modifies this
      ensures content == old(content) + val[..n]
      ensures n == |val| ==> content == old(content) + val
    {
      content := content + val[..n];
    }

    /** `g_string_append_c(s, c)`. */
    method AppendC(c: Byte)
      modifies this
      ensures content == old(content) + [c]
    {
      content := content + [c];
    }

    /** `g_string_append(s, val)`: appends the C string `val`. */
    method Append(val: seq<Byte>)
      requires NUL in val
      modifies this
      ensures content == old(content) + CString(val)
    {
      AppendLen(val, StrLen(val));
    }

    /** `g_string_assign(s, rval)`: replaces the contents by the C string `rval`. */
    method Assign(rval: seq<Byte>)
      requires NUL in rval
      modifies this
      ensures content == CString(rval)
    {
      Truncate(0);
      Append(rval);
    }
  }
}
