# COFF import-library scanner

This project models the helper script that finds the DLL behind a Windows
import library (`.lib`). An import library is a COFF archive. The file starts
with the archive magic `!<arch>\n`. Members follow, each with a 60-byte
header: bytes 48 to 57 hold the payload size as ASCII decimal, and bytes 58
and 59 hold the end marker `` `\n ``. Each member is padded to an even
offset. The script walks the members in file order and looks for a *short
import descriptor*: a payload of at least 20 bytes whose first two
little-endian 16-bit words are 0 and 0xFFFF. In such a payload, a
NUL-terminated symbol name starts at offset 20, and the DLL name follows it
as a second NUL-terminated string. The script returns the first non-empty
DLL name it finds, and nothing when there is none.

The model has five modules. `Base` is described after the list.

- `CString` (`cstring.dfy`) models `read_cstr` as pure functions. `FindNul`
  is `bytes.find` of a zero byte. `AsciiDecode` is ASCII decoding with
  `errors="ignore"`. `ReadCStr` is the string together with the offset past
  its terminator.
- `SizeField` (`size_field.dfy`) reads the header's size field:
  `int(field.decode("ascii").strip())`, where a `ValueError` means "stop".
  `EncodeSize` is the field an archiver writes; it is the partner of the
  round-trip lemma.
- `ImportLib` (`import_lib.dfy`) holds the scanner. A specification walks the
  archive as a function (`Walk`). A second function classifies each member's
  payload (`DescriptorDll`). The result is the first classified name
  (`FirstDll`, `LibDll`). `ParseLib` is the imperative scanning loop, with its
  invariants. It is proved equal to `LibDll` for every buffer.
- `ArchiveBuilder` (`archive_builder.dfy`) is the writing side of the
  layout. It builds an archive from entries (48 header bytes plus a payload).
  Its lemmas prove that the walk of a built archive yields exactly the
  members written, at even offsets. The scan's result is the name from the
  earliest entry that names a DLL.

`Base` (`base.dfy`) holds `Option`, the `byte` type and the little-endian
`u16` read (`struct`'s `<H`).

When the magic check fails, the source prints a message and exits the
process. Here that is the `NotAnArchive` outcome. A `None` return is
`NoDll`, and a name is `Dll(name)`. The file's bytes are a parameter: the
model starts after `f.read()`.

## Model

| member | source | states |
|---|---|---|
| Base.U16LE | pkg_config/private/scripts/get_dll_from_import_lib.py:40 | The value read is the little-endian 16-bit word at `i`: its low byte is `data[i]` and its high byte is `data[i + 1]`, so it is below 0x10000. |
| CString.FindNul | pkg_config/private/scripts/get_dll_from_import_lib.py:7-9 | The result is the first zero byte at or after the offset. It is `None` exactly when no zero byte follows the offset, which is `find`'s -1. |
| CString.AsciiDecode | pkg_config/private/scripts/get_dll_from_import_lib.py:10 | Decoding keeps only characters below 0x80 and is never longer than its input. NUL-free input gives NUL-free output. An all-ASCII input decodes to itself, character for character. A single byte decodes to its character when below 0x80 and to nothing otherwise. |
| CString.AsciiDecodeConcat | pkg_config/private/scripts/get_dll_from_import_lib.py:10 | Decoding a concatenation is the concatenation of the decodings, so decoding works byte by byte. |
| CString.AsciiDecodeDropsHigh | pkg_config/private/scripts/get_dll_from_import_lib.py:10 | A byte of 0x80 or above is dropped, and the bytes before and after it are kept, in order. |
| CString.ReadCStr | pkg_config/private/scripts/get_dll_from_import_lib.py:6-10 | With no terminator after the offset, the result is `(None, len(data))`. Otherwise the string is the decoded bytes from the offset up to the first NUL, and the returned offset is just past that NUL, inside the buffer. |
| CString.ReadCStrString | pkg_config/private/scripts/get_dll_from_import_lib.py:10 | A string that is found has no NUL character and no non-ASCII character. It is no longer than the bytes it was read from. |
| CString.ReadCStrAt | pkg_config/private/scripts/get_dll_from_import_lib.py:7-10 | Where the first NUL after the offset is at `nul`, the result is exactly the decoded bytes before it and `nul + 1`. |
| CString.ReadCStrOfTerminated | pkg_config/private/scripts/get_dll_from_import_lib.py:6-10 | Round trip: a NUL-free run stored at an offset and followed by a NUL reads back as that run, decoded, with the offset just past the NUL. |
| SizeField.ParseSize | pkg_config/private/scripts/get_dll_from_import_lib.py:26-29 | The field is read as `Some(n)` after it is stripped of Python's ASCII whitespace, when what remains is one or more decimal digits. Any other content gives `None`, the `except ValueError` break. Its contract is carried by `ParseEncodedSize`, `SizeRejectsNonDigit`, `BlankSizeRejected` and `ParseSizeBound`. |
| SizeField.ParseEncodedSize | pkg_config/private/scripts/get_dll_from_import_lib.py:27 | Round trip: the size field an archiver writes, a decimal number padded with spaces, parses back to that size. |
| SizeField.SizeRejectsNonDigit | pkg_config/private/scripts/get_dll_from_import_lib.py:26-29 | Any byte in the field that is neither whitespace nor a digit makes the field unreadable. This covers a sign, an underscore and a non-ASCII byte. |
| SizeField.BlankSizeRejected | pkg_config/private/scripts/get_dll_from_import_lib.py:27-29 | A field of whitespace only strips to nothing and is unreadable, as `int('')` is. |
| SizeField.ParseSizeBound | pkg_config/private/scripts/get_dll_from_import_lib.py:27 | A readable size is below 10 to the power of the field width. |
| ImportLib.HasMagic | pkg_config/private/scripts/get_dll_from_import_lib.py:17 | The buffer is at least 8 bytes long and starts with `!<arch>\n`. Its consequence is stated by `LibDll`. |
| ImportLib.RoundUpEven | pkg_config/private/scripts/get_dll_from_import_lib.py:48 | `p + p % 2` is the least even number not below `p`, and an even `p` is left unchanged. |
| ImportLib.NextHeader | pkg_config/private/scripts/get_dll_from_import_lib.py:32-33 | The next header is the even offset reached from the member's end, `pos + 60 + size`, by at most one pad byte. |
| ImportLib.MemberSize | pkg_config/private/scripts/get_dll_from_import_lib.py:23-35 | A header that passes all four checks declares a payload that ends inside the buffer. |
| ImportLib.Walk | pkg_config/private/scripts/get_dll_from_import_lib.py:20-48 | The members the loop visits, in file order, from a header position until the first unreadable header. Its contract is carried by `WalkStep`, `WalkMembers`, `WalkChain`, `HeadersAligned` and `WalkStops`. |
| ImportLib.WalkMembers | pkg_config/private/scripts/get_dll_from_import_lib.py:23-36 | Every member of the walk is backed by a readable header at its offset. Its payload is the buffer slice right after that header and lies inside the buffer. Every header after the first starts at an even offset. |
| ImportLib.WalkChain | pkg_config/private/scripts/get_dll_from_import_lib.py:20-48 | The walk starts at the given position. Each next header sits at the previous member's end rounded up to even. The walk stops at the first unreadable header. |
| ImportLib.HeadersAligned | pkg_config/private/scripts/get_dll_from_import_lib.py:20-48 | Every header read from offset 8 on starts at an even offset of at least 8, and all 60 of its bytes lie inside the buffer. |
| ImportLib.WalkStops | pkg_config/private/scripts/get_dll_from_import_lib.py:23-35 | The walk yields nothing exactly when one of the four stop conditions holds: fewer than 60 bytes left, an unreadable size, a wrong end marker, or a payload past the end. |
| ImportLib.IsShortImport | pkg_config/private/scripts/get_dll_from_import_lib.py:39-41 | The payload has at least 20 bytes, and its two leading little-endian words are 0 and 0xFFFF. The byte-level form is stated by `ShortImportSignature`. |
| ImportLib.ShortImportSignature | pkg_config/private/scripts/get_dll_from_import_lib.py:39-41 | The classifier test, at least 20 bytes with words (0, 0xFFFF), holds exactly when the payload is at least 20 bytes long and starts with `00 00 FF FF`. |
| ImportLib.DescriptorDll | pkg_config/private/scripts/get_dll_from_import_lib.py:39-45 | A member names a DLL only if it is a short import descriptor. The name is never empty and holds no NUL. |
| ImportLib.DescriptorDllShape | pkg_config/private/scripts/get_dll_from_import_lib.py:42-44 | A name that is found is the decoded bytes between the first NUL at or after offset 20 and the first NUL after it. |
| ImportLib.DescriptorDllOfStrings | pkg_config/private/scripts/get_dll_from_import_lib.py:42-44 | Conversely, a descriptor whose two strings are terminated names exactly the decoded second string, unless that string is empty. An empty string is skipped. |
| ImportLib.UnterminatedDescriptorSkipped | pkg_config/private/scripts/get_dll_from_import_lib.py:42-44 | A descriptor without two terminated strings after offset 20 names no DLL. |
| ImportLib.FirstDll | pkg_config/private/scripts/get_dll_from_import_lib.py:36-50 | First match over the walked members. A name that is returned is never empty. Which member supplies it is stated by `FirstDllIsEarliest`. |
| ImportLib.FirstDllIsEarliest | pkg_config/private/scripts/get_dll_from_import_lib.py:23-50 | First match wins. There is no result exactly when no member names a DLL. A result comes from a member that names one while no earlier member does. Every such earliest member determines the result. |
| ImportLib.LibDll | pkg_config/private/scripts/get_dll_from_import_lib.py:17-18 | The result is the format error exactly when the buffer does not start with the archive magic. A DLL name that is returned is never empty. |
| ImportLib.LibDllResult | pkg_config/private/scripts/get_dll_from_import_lib.py:17-50 | The scan of an archive gives no match exactly when no walked member names a DLL. Otherwise it gives the name from the earliest member that names one. |
| ImportLib.ScanStep | pkg_config/private/scripts/get_dll_from_import_lib.py:36-48 | One loop iteration: the member at `pos` decides the result if it names a DLL. Otherwise the result is the scan from the next even header. |
| ImportLib.ScanSkips | pkg_config/private/scripts/get_dll_from_import_lib.py:39-48 | A member that names no DLL leaves the result to the scan from the next header. |
| ImportLib.ScanFinds | pkg_config/private/scripts/get_dll_from_import_lib.py:42-45 | Returning the first name met inside the loop gives the whole scan's result. |
| ImportLib.ScanEnds | pkg_config/private/scripts/get_dll_from_import_lib.py:23-50 | A break or the end of the loop, reached with no name found so far, means no match. |
| ImportLib.ReadHeader | pkg_config/private/scripts/get_dll_from_import_lib.py:24-35 | Reading the header gives the declared size exactly when none of the three in-loop checks breaks: the size field parses, the end marker matches, and the payload fits. |
| ImportLib.ParseLib | pkg_config/private/scripts/get_dll_from_import_lib.py:13-50 | For every buffer the loop returns what the specification `LibDll` gives. The loop invariant keeps the header at an even offset of at least 8, with the same first match ahead as from the first header. |
| ArchiveBuilder.MemberSizeOfEncoded | pkg_config/private/scripts/get_dll_from_import_lib.py:24-36 | The header an archiver writes for a member is readable and declares the payload's size. The slice after that header is the payload. |
| ArchiveBuilder.WalkEncoded | pkg_config/private/scripts/get_dll_from_import_lib.py:23-48 | Walking members written after an even-length prefix yields them all, in order, at their laid-out offsets. |
| ArchiveBuilder.WalkBuiltArchive | pkg_config/private/scripts/get_dll_from_import_lib.py:17-48 | Round trip: a built archive has the magic, and its walk yields exactly the payloads written, in order. |
| ArchiveBuilder.SecondHeaderPadded | pkg_config/private/scripts/get_dll_from_import_lib.py:47-48 | After an odd-length first payload the second header is read one pad byte later, at an even offset. |
| ArchiveBuilder.FirstBuiltMemberWins | pkg_config/private/scripts/get_dll_from_import_lib.py:42-45 | When the first member written names a DLL, the scan reports that name whatever follows. |
| ArchiveBuilder.EarliestBuiltEntryWins | pkg_config/private/scripts/get_dll_from_import_lib.py:42-45 | When entry `i` names a DLL and no earlier entry does, the scan reports entry `i`'s name, whatever the entries after it hold. |
| ArchiveBuilder.NoDescriptorNoMatch | pkg_config/private/scripts/get_dll_from_import_lib.py:50 | An archive in which no member names a DLL gives no match. |
| ArchiveBuilder.MinimalDescriptor | pkg_config/private/scripts/get_dll_from_import_lib.py:39-45 | The payload `00 00 FF FF`, then 16 arbitrary bytes, then `A\0B\0` names the DLL "B". |
| ArchiveBuilder.MinimalArchive | pkg_config/private/scripts/get_dll_from_import_lib.py:17-50 | An archive of one member holding that payload scans to `Dll("B")`, whatever the other header fields and filler bytes are. |

## Left out

- Opening and reading the file (lines 14-15) are left out: the model takes the file's bytes as its input.
- `main` (lines 53-62) is left out: argument checking, the usage message and printing are I/O around `parse_lib`.
- The exit with a message on a bad magic (line 18) is the `NotAnArchive` outcome rather than a process exit.
- The member name `hdr[:16].rstrip()` (line 25) and the set `dlls` (line 21) are left out, because the source computes them and never uses them.
- SizeField.ParseSize: Python's `int()` also accepts a leading `+` or `-` and underscores between digits. The model reads a size only as one or more ASCII digits after stripping whitespace, and treats any other byte as the `ValueError` break (`SizeRejectsNonDigit`). In the source, a negative size has these effects. A size from -1 to -59 moves `pos` forward, past an empty member, to `pos + 60 + size` rounded up to even. A size of -60 or -61 leaves `pos` where it is, so the loop never ends. A size of -62 or below moves `pos` backwards. None of this is modelled, and every scan in the model terminates.
- ImportLib.ParseLib: the loop calls the classifier function `DescriptorDll` for lines 39-45 instead of repeating those branches inline. The member is an immutable slice, so nothing in there changes state.
- The other scripts of the repository and the pkg-config rules they serve are not part of this model.
