/** The import-library scanner: walks the members of a COFF archive
    (`!<arch>\n` followed by 60-byte member headers, each member padded to an
    even offset), recognises short import descriptors and returns the DLL
    name of the first one that names a DLL. */
module ImportLib {
  import opened Base
  import opened CString
  import opened SizeField

  /** `!<arch>\n` */
  const Magic: seq<byte> := [0x21, 0x3C, 0x61, 0x72, 0x63, 0x68, 0x3E, 0x0A]
  /** Offset of the first member header, just past the magic. */
  const FirstHeader: nat := 8
  const HeaderSize: nat := 60
  /** Header bytes 48..57 hold the size, 58..59 the end marker. */
  const SizeFieldAt: nat := 48
  const EndMarkerAt: nat := 58
  /** "`\n" */
  const EndMarker: seq<byte> := [0x60, 0x0A]
  /** The symbol name of a short import descriptor starts here. */
  const SymbolNameAt: nat := 20
  /** The least payload length the classifier accepts (the 20-byte import
      header that precedes the symbol name). */
  const ShortImportMin: nat := 20

  /** What the scan reports: the format error for a buffer that is not an
      archive, no match, or the DLL name found. */
  datatype Outcome = NotAnArchive | NoDll | Dll(name: string)

  /** A member: where its header starts and its payload bytes. */
  datatype Member = Member(offset: nat, payload: seq<byte>)

  predicate HasMagic(data: seq<byte>) {
    |data| >= |Magic| && data[..|Magic|] == Magic
  }

  /** `p + (p % 2)`: the member end padded to an even offset. */
  function RoundUpEven(p: nat): (r: nat)
    ensures r % 2 == 0 && p <= r <= p + 1
    ensures p % 2 == 0 ==> r == p
  {
    p + p % 2
  }

  // ---------------------------------------------------------------------
  // Archive Walker, as a specification

  /** The payload size of the member whose header starts at `pos`, or `None`
      where the source's loop stops: fewer than 60 bytes left, an unreadable
      size field, a wrong end marker, or a payload past the end. */
  function MemberSize(data: seq<byte>, pos: nat): (r: Option<nat>)
    ensures r.Some? ==> pos + HeaderSize + r.value <= |data|
  {
    if pos + HeaderSize > |data| then None
    else match ParseSize(data[pos + SizeFieldAt .. pos + EndMarkerAt])
      case None => None
      case Some(size) =>
        if data[pos + EndMarkerAt .. pos + HeaderSize] != EndMarker then None
        else if pos + HeaderSize + size > |data| then None
        else Some(size)
  }

  /** Where the header after a member of `size` bytes at `pos` begins. */
  function NextHeader(pos: nat, size: nat): (r: nat)
    ensures r % 2 == 0 && pos + HeaderSize + size <= r <= pos + HeaderSize + size + 1
  {
    RoundUpEven(pos + HeaderSize + size)
  }

  /** The members the walker yields from `pos` on, in file order. */
  function Walk(data: seq<byte>, pos: nat): seq<Member>
    decreases |data| - pos
  {
    match MemberSize(data, pos)
    case None => []
    case Some(size) =>
      [Member(pos, data[pos + HeaderSize .. pos + HeaderSize + size])]
        + Walk(data, NextHeader(pos, size))
  }

  /** The header position at which the walk from `pos` stops. */
  function WalkEnd(data: seq<byte>, pos: nat): nat
    decreases |data| - pos
  {
    match MemberSize(data, pos)
    case None => pos
    case Some(size) => WalkEnd(data, NextHeader(pos, size))
  }

  /** `m` is backed by a readable header at its offset and its payload is the
      slice of the buffer right after that header. */
  predicate HeaderBacks(data: seq<byte>, m: Member) {
    && MemberSize(data, m.offset) == Some(|m.payload|)
    && m.payload == data[m.offset + HeaderSize .. m.offset + HeaderSize + |m.payload|]
  }

  /** One step of the walk: a readable header at `pos` yields its member,
      followed by the walk from the next header. */
  lemma WalkStep(data: seq<byte>, pos: nat, size: nat)
    requires MemberSize(data, pos) == Some(size)
    ensures Walk(data, pos) ==
              [Member(pos, data[pos + HeaderSize .. pos + HeaderSize + size])] + Walk(data, NextHeader(pos, size))
    ensures WalkEnd(data, pos) == WalkEnd(data, NextHeader(pos, size))
  {
  }

  /** Every member of a walk is backed by its header, lies at or after the
      start, and every member after the first starts at an even offset. */
  lemma {:induction false} WalkMembers(data: seq<byte>, pos: nat)
    decreases |data| - pos
    ensures var ms := Walk(data, pos);
            forall i :: 0 <= i < |ms| ==>
              && HeaderBacks(data, ms[i])
              && ms[i].offset + HeaderSize + |ms[i].payload| <= |data|
              && pos <= ms[i].offset
              && (0 < i ==> ms[i].offset % 2 == 0)
  {
    match MemberSize(data, pos)
    case None =>
    case Some(size) =>
      var next := NextHeader(pos, size);
      WalkMembers(data, next);
      WalkStep(data, pos, size);
      var rest := Walk(data, next);
      var ms := Walk(data, pos);
      var head := Member(pos, data[pos + HeaderSize .. pos + HeaderSize + size]);
      assert ms[0] == head && HeaderBacks(data, head);
      assert next % 2 == 0 && pos <= next;
      assert forall i :: 0 < i < |ms| ==> ms[i] == rest[i - 1];
  }

  /** The walk starts at `pos`, every next header is at the previous
      member's end rounded up to even (so offsets strictly increase), and it
      stops exactly at the first unreadable header. */
  lemma {:induction false} WalkChain(data: seq<byte>, pos: nat)
    decreases |data| - pos
    ensures var ms := Walk(data, pos);
            && (|ms| > 0 ==> ms[0].offset == pos)
            && (forall i :: 0 <= i < |ms| - 1 ==>
                  ms[i + 1].offset == NextHeader(ms[i].offset, |ms[i].payload|))
            && WalkEnd(data, pos) == (if ms == [] then pos
                                      else NextHeader(ms[|ms| - 1].offset, |ms[|ms| - 1].payload|))
            && MemberSize(data, WalkEnd(data, pos)) == None
  {
    match MemberSize(data, pos)
    case None =>
    case Some(size) =>
      var next := NextHeader(pos, size);
      WalkChain(data, next);
      WalkStep(data, pos, size);
      var rest := Walk(data, next);
      var ms := Walk(data, pos);
      assert forall i :: 0 < i < |ms| ==> ms[i] == rest[i - 1];
  }

  /** The walk from the first header: every header it reads starts at an
      even offset of at least 8 and lies wholly inside the buffer. */
  lemma HeadersAligned(data: seq<byte>)
    ensures var ms := Walk(data, FirstHeader);
            forall i :: 0 <= i < |ms| ==>
              && ms[i].offset % 2 == 0
              && FirstHeader <= ms[i].offset
              && ms[i].offset + HeaderSize <= |data|
  {
    WalkMembers(data, FirstHeader);
  }

  /** The walk yields nothing from `pos` exactly when one of the loop's four
      stop conditions holds there. */
  lemma WalkStops(data: seq<byte>, pos: nat)
    ensures Walk(data, pos) == [] <==>
              || pos + HeaderSize > |data|
              || ParseSize(data[pos + SizeFieldAt .. pos + EndMarkerAt]).None?
              || data[pos + EndMarkerAt .. pos + HeaderSize] != EndMarker
              || pos + HeaderSize + ParseSize(data[pos + SizeFieldAt .. pos + EndMarkerAt]).value > |data|
  {
  }

  lemma SliceOfSlice(s: seq<byte>, lo: nat, hi: nat, i: nat, j: nat)
    requires lo <= hi <= |s| && i <= j <= hi - lo
    ensures s[lo..hi][i..j] == s[lo + i .. lo + j]
  {
    var t := s[lo..hi];
    assert forall k :: 0 <= k < j - i ==> t[i..j][k] == t[i + k] == s[lo + i + k];
  }

  // ---------------------------------------------------------------------
  // Import Descriptor Classifier

  /** A short import descriptor: at least 20 bytes, and the two leading
      little-endian u16 words are 0 and 0xFFFF. */
  predicate IsShortImport(payload: seq<byte>) {
    |payload| >= ShortImportMin && U16LE(payload, 0) == 0 && U16LE(payload, 2) == 0xFFFF
  }

  /** The signature on the bytes themselves: `00 00 FF FF`. */
  lemma ShortImportSignature(payload: seq<byte>)
    ensures IsShortImport(payload) <==> |payload| >= 20 && payload[..4] == [0x00, 0x00, 0xFF, 0xFF]
  {
    if |payload| >= 20 {
      ghost var v1, v2 := U16LE(payload, 0), U16LE(payload, 2);
      assert v1 == 0 <==> payload[0] == 0 && payload[1] == 0;
      assert v2 == 0xFFFF <==> payload[2] == 0xFF && payload[3] == 0xFF;
    }
  }

  /** The DLL name a member contributes: for a short import descriptor, the
      second C string (the one right after the symbol name that starts at
      payload offset 20), when it is terminated and not empty. */
  function DescriptorDll(payload: seq<byte>): (r: Option<string>)
    ensures r.Some? ==> IsShortImport(payload) && r.value != []
    ensures r.Some? ==> forall i :: 0 <= i < |r.value| ==> r.value[i] != '\0'
  {
    if !IsShortImport(payload) then None
    else
      var (_, off) := ReadCStr(payload, SymbolNameAt);
      var (name, _) := ReadCStr(payload, off);
      if name.Some? && name.value != [] then
        ReadCStrString(payload, off);
        name
      else None
  }

  /** The symbol name of a descriptor payload ends at the NUL at `i`, the
      first at or after offset 20, and the DLL string after it ends at the
      NUL at `j`, the first after `i`. */
  predicate StringsEndAt(payload: seq<byte>, i: nat, j: nat) {
    FirstNulAt(payload, SymbolNameAt, i) && FirstNulAt(payload, i + 1, j)
  }

  /** A member names a DLL only as a short import descriptor whose symbol
      name ends at a first NUL `i` at or after offset 20 and whose next
      string ends at the first NUL `j` after `i`; the name is the bytes in
      between, decoded. */
  lemma DescriptorDllShape(payload: seq<byte>)
    requires DescriptorDll(payload).Some?
    ensures IsShortImport(payload)
    ensures exists i: nat, j: nat :: StringsEndAt(payload, i, j) && DescriptorDll(payload).value == AsciiDecode(payload[i + 1 .. j])
  {
    var off := ReadCStr(payload, SymbolNameAt).1;
    var j := ReadCStr(payload, off).1 - 1;
    assert StringsEndAt(payload, off - 1, j);
  }

  /** Conversely, a short import descriptor whose two strings end at `i` and
      `j` names the DLL the bytes between them decode to, unless that is
      empty, in which case it is passed over. */
  lemma DescriptorDllOfStrings(payload: seq<byte>, i: nat, j: nat)
    requires IsShortImport(payload) && StringsEndAt(payload, i, j)
    ensures var n := AsciiDecode(payload[i + 1 .. j]);
            DescriptorDll(payload) == if n != [] then Some(n) else None
  {
    ReadCStrAt(payload, SymbolNameAt, i);
    ReadCStrAt(payload, i + 1, j);
  }

  /** A short import descriptor without two terminated strings after
      offset 20 names no DLL. */
  lemma UnterminatedDescriptorSkipped(payload: seq<byte>)
    requires forall i: nat, j: nat :: !StringsEndAt(payload, i, j)
    ensures DescriptorDll(payload).None?
  {
    if DescriptorDll(payload).Some? {
      DescriptorDllShape(payload);
    }
  }

  // ---------------------------------------------------------------------
  // Top-level scan, as a specification

  /** The DLL name of the earliest member that names one. */
  function FirstDll(ms: seq<Member>): (r: Option<string>)
    ensures r.Some? ==> r.value != []
  {
    if ms == [] then None
    else match DescriptorDll(ms[0].payload)
      case Some(n) => Some(n)
      case None => FirstDll(ms[1..])
  }

  lemma FirstDllCons(m: Member, rest: seq<Member>)
    ensures FirstDll([m] + rest) == if DescriptorDll(m.payload).Some? then DescriptorDll(m.payload) else FirstDll(rest)
  {
    assert ([m] + rest)[1..] == rest;
  }

  /** Member `i` names a DLL and no member before it does. */
  predicate EarliestDescriptor(ms: seq<Member>, i: nat) {
    && i < |ms|
    && DescriptorDll(ms[i].payload).Some?
    && forall j :: 0 <= j < i ==> DescriptorDll(ms[j].payload).None?
  }

  /** Behind a member that names no DLL, the earliest match moves up by one. */
  lemma EarliestBehindSkipped(ms: seq<Member>, i: nat)
    requires ms != [] && DescriptorDll(ms[0].payload).None?
    ensures EarliestDescriptor(ms, i + 1) <==> EarliestDescriptor(ms[1..], i)
  {
    var tail := ms[1..];
    assert forall j :: 0 < j < |ms| ==> ms[j] == tail[j - 1];
  }

  /** First match wins: the result is the name from the earliest member that
      names a DLL, and there is none exactly when no member names one. */
  lemma {:induction false} FirstDllIsEarliest(ms: seq<Member>)
    ensures FirstDll(ms).None? <==> forall i :: 0 <= i < |ms| ==> DescriptorDll(ms[i].payload).None?
    ensures FirstDll(ms).Some? ==>
              exists i: nat :: EarliestDescriptor(ms, i) && FirstDll(ms) == DescriptorDll(ms[i].payload)
    ensures forall i: nat :: EarliestDescriptor(ms, i) ==> FirstDll(ms) == DescriptorDll(ms[i].payload)
  {
    if ms != [] {
      FirstDllIsEarliest(ms[1..]);
      var tail := ms[1..];
      forall i | 0 < i < |ms| ensures ms[i] == tail[i - 1] { }
      if DescriptorDll(ms[0].payload).Some? {
        assert EarliestDescriptor(ms, 0);
        forall i: nat | EarliestDescriptor(ms, i) ensures i == 0 { }
      } else {
        forall i: nat | EarliestDescriptor(ms, i) ensures EarliestDescriptor(tail, i - 1) {
          EarliestBehindSkipped(ms, i - 1);
        }
        if FirstDll(tail).Some? {
          var i: nat :| EarliestDescriptor(tail, i) && FirstDll(tail) == DescriptorDll(tail[i].payload);
          EarliestBehindSkipped(ms, i);
        }
      }
    }
  }

  /** What `parse_lib` computes for the bytes of a `.lib` file. */
  function LibDll(data: seq<byte>): (r: Outcome)
    ensures r == NotAnArchive <==> !HasMagic(data)
    ensures r.Dll? ==> r.name != []
  {
    if !HasMagic(data) then NotAnArchive
    else match FirstDll(Walk(data, FirstHeader))
      case None => NoDll
      case Some(n) => Dll(n)
  }

  /** The result contract of an archive scan: the non-empty DLL name of the
      earliest member of the walk that names one, or no match exactly when
      none does. */
  lemma LibDllResult(data: seq<byte>)
    ensures var ms := Walk(data, FirstHeader);
            LibDll(data) == NoDll <==>
              HasMagic(data) && forall i :: 0 <= i < |ms| ==> DescriptorDll(ms[i].payload).None?
    ensures var ms := Walk(data, FirstHeader);
            forall i: nat :: HasMagic(data) && EarliestDescriptor(ms, i) ==>
              LibDll(data) == Dll(DescriptorDll(ms[i].payload).value)
    ensures LibDll(data).Dll? ==>
              && LibDll(data).name != []
              && exists i: nat :: EarliestDescriptor(Walk(data, FirstHeader), i)
  {
    FirstDllIsEarliest(Walk(data, FirstHeader));
  }

  // ---------------------------------------------------------------------
  // The scanning loop of `parse_lib`

  /** One step of the scan: the member at `pos` decides the result if it
      names a DLL, and otherwise the scan goes on at the next header. */
  lemma ScanStep(data: seq<byte>, pos: nat, size: nat, end: nat, member: seq<byte>, next: nat)
    requires MemberSize(data, pos) == Some(size)
    requires end == pos + HeaderSize + size && member == data[pos + HeaderSize .. end]
    requires next == RoundUpEven(end)
    ensures FirstDll(Walk(data, pos))
              == if DescriptorDll(member).Some? then DescriptorDll(member) else FirstDll(Walk(data, next))
  {
    WalkStep(data, pos, size);
    assert NextHeader(pos, size) == next;
    assert Walk(data, pos) == [Member(pos, member)] + Walk(data, next);
    FirstDllCons(Member(pos, member), Walk(data, next));
  }

  /** A member that names no DLL is passed over: the scan continues at the
      next header. */
  lemma ScanSkips(data: seq<byte>, pos: nat, size: nat, end: nat, member: seq<byte>, next: nat)
    requires MemberSize(data, pos) == Some(size)
    requires end == pos + HeaderSize + size && member == data[pos + HeaderSize .. end]
    requires DescriptorDll(member).None?
    requires next == RoundUpEven(end)
    ensures FirstDll(Walk(data, pos)) == FirstDll(Walk(data, next))
  {
    ScanStep(data, pos, size, end, member, next);
  }

  /** A member that names a DLL ends the scan with that name. */
  lemma ScanFinds(data: seq<byte>, pos: nat, size: nat, end: nat, member: seq<byte>, name: string)
    requires HasMagic(data)
    requires FirstDll(Walk(data, pos)) == FirstDll(Walk(data, FirstHeader))
    requires MemberSize(data, pos) == Some(size)
    requires end == pos + HeaderSize + size && member == data[pos + HeaderSize .. end]
    requires DescriptorDll(member) == Some(name)
    ensures LibDll(data) == Dll(name)
  {
    ScanStep(data, pos, size, end, member, RoundUpEven(end));
    assert FirstDll(Walk(data, FirstHeader)) == Some(name);
  }

  /** An unreadable header ends the scan with no match. */
  lemma ScanEnds(data: seq<byte>, pos: nat)
    requires HasMagic(data)
    requires FirstDll(Walk(data, pos)) == FirstDll(Walk(data, FirstHeader))
    requires MemberSize(data, pos) == None
    ensures LibDll(data) == NoDll
  {
  }

  /** The header checks of the loop body: read the header at `pos` and
      return the member size, or `None` where the loop breaks. */
  method ReadHeader(data: seq<byte>, pos: nat) returns (size: Option<nat>)
    requires pos + HeaderSize <= |data|
    ensures size == MemberSize(data, pos)
  {
    var hdr := data[pos .. pos + HeaderSize];
    SliceOfSlice(data, pos, pos + HeaderSize, SizeFieldAt, EndMarkerAt);
    SliceOfSlice(data, pos, pos + HeaderSize, EndMarkerAt, HeaderSize);
    size := ParseSize(hdr[SizeFieldAt .. EndMarkerAt]);
    if size.None? {
      return None;
    }
    if hdr[EndMarkerAt .. HeaderSize] != EndMarker {
      return None;
    }
    var posData := pos + HeaderSize;
    var posNext := posData + size.value;
    if posNext > |data| {
      return None;
    }
  }

  /** `parse_lib` on the bytes already read from the file. */
  method ParseLib(data: seq<byte>) returns (r: Outcome)
    ensures r == LibDll(data)
  {
    if !HasMagic(data) {
      return NotAnArchive;
    }
    var pos: nat := FirstHeader;
    while pos + HeaderSize <= |data|
      invariant pos % 2 == 0 && FirstHeader <= pos
      invariant FirstDll(Walk(data, pos)) == FirstDll(Walk(data, FirstHeader))
      decreases |data| - pos
    {
      var size := ReadHeader(data, pos);
      if size.None? {
        break;
      }
      var posNext := pos + HeaderSize + size.value;
      var member := data[pos + HeaderSize .. posNext];
      var dllName := DescriptorDll(member);
      if dllName.Some? {
        ScanFinds(data, pos, size.value, posNext, member, dllName.value);
        return Dll(dllName.value);
      }
      // 2-byte alignment
      var next := RoundUpEven(posNext);
      ScanSkips(data, pos, size.value, posNext, member, next);
      pos := next;
    }
    ScanEnds(data, pos);
    return NoDll;
  }
}
