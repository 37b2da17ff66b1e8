# glib-ext helpers, modelled in Dafny

This project models the helper layer of `src/glib-ext.c`, which extends glib for
the proxy. The layer has four parts:

- `strleq` compares two byte strings of known length;
- `ge_gtimeval_diff` subtracts two `GTimeVal` timestamps, giving microseconds;
- `g_string_assign_len` and `g_string_dup` replace and copy a `GString`;
- `g_debug_hexdump` formats a buffer as a classic hex dump and logs it.

The project has five modules:

- `Bytes` (bytes.dfy): the byte type, the printable test, and printf's
  lowercase hexadecimal conversions `%x`, `%0Nx` and `%02x`.
- `GStrings` (gstring.dfy): the part of glib's `GString` that the helpers use.
  It is a class whose `content` field the glib calls update in place.
  `str` is the content followed by a NUL byte, so it reads back as a C string.
- `GlibExt` (glib_ext.dfy): `strleq`, with a model of `memcmp`; `ge_gtimeval_diff`;
  `g_string_assign_len`; `g_string_dup`.
- `HexDump` (hexdump.dfy): the buffer that `g_debug_hexdump` builds.
  - A declarative layout gives the dump one line at a time (`Dump`).
  - The method `DebugHexdump` follows the C loops step by step.
  - It is proved to build exactly `Dump(s)`.
- `HexDumpLayout` (hexdump_layout.dfy): where each part of the layout lies in
  the dump, for inputs of at most 0x10000 bytes. Up to that size, the `%04x`
  offset is four digits wide, so every complete line is 76 bytes. The module
  also proves that the input can be read back from its dump.

## Model

| member | source | states |
|---|---|---|
| GlibExt.MemCmp | src/glib-ext.c:64 | `memcmp` over `n` bytes: zero exactly when the first `n` bytes agree; otherwise the sign is that of the first differing pair of unsigned bytes |
| GlibExt.Strleq | src/glib-ext.c:62-65 | true exactly when the lengths are equal and the first `a_len` bytes agree; false whenever the lengths differ, with no demand on the buffers in that case |
| GlibExt.StrleqIgnoresBytesOnLengthMismatch | src/glib-ext.c:63 | with different lengths the result is false, whatever the buffers hold and however short they are |
| GlibExt.StrleqReflexive | src/glib-ext.c:62-65 | a string is equal to itself |
| GlibExt.StrleqSymmetric | src/glib-ext.c:62-65 | swapping the two strings does not change the result |
| GlibExt.StrleqPrefixOnly | src/glib-ext.c:62-65 | bytes beyond the given lengths do not affect the result |
| GlibExt.TimeValDiff | src/glib-ext.c:73-77 | the three updates of `*tdiff` leave the microseconds from `told` to `tnew` |
| GlibExt.DiffSign | src/glib-ext.c:67-77 | for microsecond parts in [0, 1000000): the difference is positive exactly when `told` is earlier, zero exactly when the two are equal, and negative exactly when `tnew` is earlier |
| GlibExt.DiffAntisymmetric | src/glib-ext.c:73-77 | swapping the arguments negates the difference; identical arguments give 0. This is an identity on `Micros`, so it holds of what `TimeValDiff` stores by that method's postcondition |
| GlibExt.DiffFitsInt64 | src/glib-ext.c:74-76 | when the seconds differ by at most 9223372036853, each of the three stored values fits in a `gint64`, so nothing overflows |
| GlibExt.AssignLen | src/glib-ext.c:79-82 | returns `s`, which then holds exactly the first `str_len` bytes of `str`; the old content does not matter, so a second identical call changes nothing |
| GlibExt.Dup | src/glib-ext.c:51-57 | a fresh string holding `src`'s content up to its first NUL byte, or all of it when there is none; `src` is unchanged |
| GStrings.UpToNul | src/glib-ext.c:54 | reading `str` as a C string gives a prefix of the content with no NUL in it; it stops at the first NUL, or covers the whole content when there is none |
| GStrings.GString.New | src/glib-ext.c:89 | `g_string_new(NULL)` starts empty |
| GStrings.GString.SizedNew | src/glib-ext.c:52 | `g_string_sized_new` starts empty |
| GStrings.GString.Truncate | src/glib-ext.c:80 | `g_string_truncate` keeps only the first `n` bytes |
| GStrings.GString.AppendLen | src/glib-ext.c:81 | `g_string_append_len` appends exactly the first `n` bytes given |
| GStrings.GString.AppendC | src/glib-ext.c:105 | `g_string_append_c` appends one byte |
| GStrings.GString.Append | src/glib-ext.c:54 | `g_string_append`, through which `g_string_assign` copies: appends the C string read from its argument |
| GStrings.GString.Assign | src/glib-ext.c:54 | `g_string_assign` replaces the content with the C string read from its argument |
| Bytes.Shown | src/glib-ext.c:101 | a byte shows as itself exactly when it is printable; otherwise it shows as `.`; what is shown is always printable |
| Bytes.HexCorrect | src/glib-ext.c:93 | `%x` writes only lowercase hex digits, denotes the number, and starts with 0 only for zero |
| Bytes.HexWidth | src/glib-ext.c:93 | `%x` fits in `k` digits exactly when the number is below 16^k |
| Bytes.PadHexCorrect | src/glib-ext.c:93 | `%0wx` is `w` digits wide unless the number needs more; it ends with the `%x` digits and denotes the number |
| Bytes.HexByteCorrect | src/glib-ext.c:95 | `%02x` of a byte is two hex digits giving the byte back |
| Bytes.HexByteInjective | src/glib-ext.c:95 | different bytes get different `%02x` renderings |
| HexDump.Group | src/glib-ext.c:91-100 | line `k` shows the bytes from index `16k`: sixteen of them, or the rest of the input on a partial last line |
| HexDump.GroupSlice | src/glib-ext.c:100 | a group is the slice of the input starting at `16k` |
| HexDump.DebugHexdump | src/glib-ext.c:84-121 | the buffer built before the `g_debug` call is exactly the declarative `Dump(s)` |
| HexDump.AppendByte | src/glib-ext.c:91-107 | one turn of the outer loop extends the buffer from the progress before byte `i` to the progress after it |
| HexDump.FinishDump | src/glib-ext.c:109-121 | after the loop, filling up a partial last line completes the dump; nothing is added when `len % 16 == 0` |
| HexDump.AppendAscii | src/glib-ext.c:100-102 | the `j` loop appends the ASCII column of bytes `lo` to `hi` |
| HexDump.AppendPadding | src/glib-ext.c:113-115 | the fill loop appends three spaces per missing byte |
| HexDump.StartLine | src/glib-ext.c:92-95 | the first byte of a group adds the offset prefix, its digits and one space |
| HexDump.ExtendLine | src/glib-ext.c:95-106 | a byte that neither starts nor ends its group adds its digits and one space |
| HexDump.CompleteLine | src/glib-ext.c:95-103 | the byte that ends a group adds its digits, two spaces, the group's ASCII column and `"\n  "`, which completes the line |
| HexDump.CompleteFullDump | src/glib-ext.c:109 | when the length is a multiple of 16, the progress after the loop is the whole dump |
| HexDump.CompletePartialLine | src/glib-ext.c:109-121 | otherwise, the padding, one space and the tail's ASCII column complete the dump |
| HexDumpLayout.OffsetShape | src/glib-ext.c:93 | for offsets below 0x10000 the prefix is `[`, four hex digits giving the offset, `]` and two spaces |
| HexDumpLayout.OffsetWidth | src/glib-ext.c:93 | the prefix is at least 8 bytes, and exactly 8 exactly when the offset is below 0x10000 |
| HexDumpLayout.HexCellAt | src/glib-ext.c:95-106 | byte `p` of a group takes cells `3p` to `3p + 2`: its two digits and a space |
| HexDumpLayout.UniformLength | src/glib-ext.c:91-121 | a line is 57 bytes plus one per byte shown, plus 3 after a full group |
| HexDumpLayout.JoinAt | src/glib-ext.c:91-107 | after `k` complete lines of 76 bytes, byte `p` of line `k` is byte `76k + p` of the whole buffer |
| HexDumpLayout.DumpLength | src/glib-ext.c:91-121 | 76 bytes per complete group, plus `57 + r` for a trailing group of `r` bytes, and nothing more when the length is a multiple of 16 |
| HexDumpLayout.DumpOffset | src/glib-ext.c:92-94 | each line starts with the `[%04x]  ` prefix of its first byte's index |
| HexDumpLayout.CellAfter | src/glib-ext.c:92-95 | position arithmetic only: the cell of a byte whose index is a multiple of 16 starts 8 bytes into its line, and every other byte's cell starts 3 bytes after the previous byte's |
| HexDumpLayout.DumpBefore | src/glib-ext.c:92-106 | in the dump, a byte whose index is a multiple of 16 is directly preceded by the `[%04x]  ` prefix of its own index; every other byte is directly preceded by the previous byte's two digits and a single space |
| HexDumpLayout.DumpByte | src/glib-ext.c:95 | every byte appears, in order, as its two lowercase hex digits at `CellPos(j)`, followed by a space |
| HexDumpLayout.DumpSeparator | src/glib-ext.c:104-106 | a byte that does not end its group is followed by a single space, then directly by the next byte's digits |
| HexDumpLayout.DumpGroupEnd | src/glib-ext.c:97-103 | a complete group ends its hex part with two spaces and its line with `"\n  "` |
| HexDumpLayout.DumpAscii | src/glib-ext.c:100-102 | byte `j` shows at `AsciiPos(j)` in its line's ASCII column, printable bytes verbatim and the others as `.` |
| HexDumpLayout.DumpTail | src/glib-ext.c:109-121 | a trailing group of `r` bytes is followed by `3 * (16 - r) + 1` spaces, then its `r` ASCII characters, which end the buffer |
| HexDumpLayout.DumpLengthInjective | src/glib-ext.c:91-121 | the buffer's length determines the input's length |
| HexDumpLayout.DumpInjective | src/glib-ext.c:84-121 | two inputs of at most 0x10000 bytes with the same buffer are equal |

## Left out

- The hook wrappers at `src/glib-ext.c:11-45` are left out. They are one-line forwards to glib hash and free functions, or they return a constant.
- The `g_debug` call at `src/glib-ext.c:123-126` and `g_string_free` at line 128 are left out. They are logging and deallocation. `DebugHexdump` returns the buffer it built instead.
- The `msg` parameter of `g_debug_hexdump` is only passed to `g_debug`, so it is left out.
- glib's allocation and growth of `GString` is left out. Only the content is modelled. The size given to `g_string_sized_new` is accepted and ignored.
- `g_ascii_isprint` is taken to hold for the bytes 0x20 to 0x7E. glib's table is not part of this model.
- The `C("..")` macro is not part of this model. At `src/glib-ext.c:99`, `103`, `114` and `117` it is read as the literal's bytes together with their count, without the terminating NUL. So `g_string_append_len(hex, C("  "))` appends exactly two spaces.
- `g_string_append_printf` is not modelled as a general formatter. Its two uses are modelled by their results: `Offset` for `"[%04x]  "` and `HexByte` for `"%02x"`.
- GlibExt.TimeValDiff: computes with unbounded integers, so it does not model what `gint64` overflow would store. `DiffFitsInt64` gives a bound under which no overflow happens.
- GlibExt.AssignLen: does not model the case where `str` points into `s`'s own buffer, because the model passes values and has no aliasing.
- `size_t` and `gsize` indices are modelled as unbounded `nat`s. Within the length of a buffer they cannot wrap around.
- The layout lemmas in `HexDumpLayout` cover inputs of at most 0x10000 bytes. Beyond that, `%04x` writes more than four digits and the lines stop having a fixed width. `OffsetWidth` states where that begins. `DebugHexdump` itself has no length bound.
- `src/resultset_merge.h` and `src/chassis-plugin.h` are left out. They hold only declarations, and the algorithms behind them are not part of this model.
