/** String Extractor: NUL-terminated strings inside a byte buffer, decoded as
    ASCII with every byte of 0x80 or above dropped. */
module CString {
  import opened Base

  /** `at` is the first 0x00 byte of `data` at or after `from`. */
  predicate FirstNulAt(data: seq<byte>, from: nat, at: nat) {
    from <= at < |data| && data[at] == 0 && forall k :: from <= k < at ==> data[k] != 0
  }

  /** There is only one first NUL. */
  lemma FirstNulUnique(data: seq<byte>, from: nat, a: nat, b: nat)
    requires FirstNulAt(data, from, a) && FirstNulAt(data, from, b)
    ensures a == b
  {
  }

  /** The position of the first 0x00 byte at or after `offset`, if any
      (`bytes.find(b"\x00", offset)`, with `None` for its -1). */
  function FindNul(data: seq<byte>, offset: nat): (r: Option<nat>)
    decreases |data| - offset
    ensures r.Some? ==> FirstNulAt(data, offset, r.value)
    ensures r.None? <==> forall k :: offset <= k < |data| ==> data[k] != 0
  {
    if offset >= |data| then None
    else if data[offset] == 0 then Some(offset)
    else FindNul(data, offset + 1)
  }

  /** ASCII decoding with `errors="ignore"`: the bytes below 0x80, in order,
      as characters. */
  function AsciiDecode(s: seq<byte>): (r: string)
    ensures |r| <= |s|
    ensures forall i :: 0 <= i < |r| ==> r[i] as int < 0x80
    ensures (forall k :: 0 <= k < |s| ==> s[k] != 0) ==> forall i :: 0 <= i < |r| ==> r[i] != '\0'
    ensures (forall k :: 0 <= k < |s| ==> s[k] < 0x80) ==>
              |r| == |s| && forall i :: 0 <= i < |r| ==> r[i] as int == s[i]
    ensures |s| == 1 ==> r == if s[0] < 0x80 then [s[0] as char] else []
  {
    if s == [] then []
    else (if s[0] < 0x80 then [s[0] as char] else []) + AsciiDecode(s[1..])
  }

  /** Decoding works byte by byte: with the one-byte case above, a byte of
      0x80 or above is dropped and the bytes around it are kept, in order. */
  lemma {:induction false} AsciiDecodeConcat(a: seq<byte>, b: seq<byte>)
    ensures AsciiDecode(a + b) == AsciiDecode(a) + AsciiDecode(b)
  {
    if a != [] {
      assert (a + b)[1..] == a[1..] + b;
      AsciiDecodeConcat(a[1..], b);
    } else {
      assert a + b == b;
    }
  }

  /** A byte of 0x80 or above is dropped; the bytes around it are kept. */
  lemma AsciiDecodeDropsHigh(a: seq<byte>, x: byte, b: seq<byte>)
    requires x >= 0x80
    ensures AsciiDecode(a + [x] + b) == AsciiDecode(a) + AsciiDecode(b)
  {
    AsciiDecodeConcat(a + [x], b);
    AsciiDecodeConcat(a, [x]);
  }

  /** `read_cstr(data, offset)`: the string that starts at `offset` and the
      offset just past its terminator, or `(None, len(data))` when no NUL
      follows `offset`. */
  function ReadCStr(data: seq<byte>, offset: nat): (r: (Option<string>, nat))
    ensures r.1 <= |data|
    ensures r.0.None? <==> forall k :: offset <= k < |data| ==> data[k] != 0
    ensures r.0.None? ==> r.1 == |data|
    ensures r.0.Some? ==>
              && offset < r.1
              && FirstNulAt(data, offset, r.1 - 1)
              && r.0.value == AsciiDecode(data[offset..r.1 - 1])
  {
    match FindNul(data, offset)
    case None => (None, |data|)
    case Some(end) => (Some(AsciiDecode(data[offset..end])), end + 1)
  }

  /** A string that `ReadCStr` finds holds no NUL and no byte it did not read. */
  lemma ReadCStrString(data: seq<byte>, offset: nat)
    requires ReadCStr(data, offset).0.Some?
    ensures var (s, next) := ReadCStr(data, offset);
            && |s.value| <= next - 1 - offset
            && forall i :: 0 <= i < |s.value| ==> s.value[i] != '\0' && s.value[i] as int < 0x80
  {
    var (s, next) := ReadCStr(data, offset);
    var body := data[offset..next - 1];
    assert forall k :: 0 <= k < |body| ==> body[k] == data[offset + k];
  }

  /** Where the first NUL after `offset` is known, `ReadCStr` reads up to it. */
  lemma ReadCStrAt(data: seq<byte>, offset: nat, nul: nat)
    requires FirstNulAt(data, offset, nul)
    ensures ReadCStr(data, offset) == (Some(AsciiDecode(data[offset..nul])), nul + 1)
  {
    var r := ReadCStr(data, offset);
    assert r.0.Some? by {
      assert data[nul] == 0;
    }
    FirstNulUnique(data, offset, nul, r.1 - 1);
  }

  /** A NUL-free run `s` stored at `offset` and followed by a NUL reads back
      as that run, decoded, with the offset just past the NUL (for an ASCII
      run the decoding is the run itself, by the contract of `AsciiDecode`). */
  lemma ReadCStrOfTerminated(data: seq<byte>, offset: nat, s: seq<byte>)
    requires forall k :: 0 <= k < |s| ==> s[k] != 0
    requires offset + |s| < |data| && data[offset .. offset + |s|] == s && data[offset + |s|] == 0
    ensures ReadCStr(data, offset) == (Some(AsciiDecode(s)), offset + |s| + 1)
  {
    assert FirstNulAt(data, offset, offset + |s|) by {
      assert forall k :: offset <= k < offset + |s| ==> data[k] == s[k - offset];
    }
    ReadCStrAt(data, offset, offset + |s|);
  }
}
