/** The writing side of the archive layout, as an archiver lays members out:
    the magic, then per member a 60-byte header (48 bytes of name, date,
    owner, group and mode fields, the size field, the end marker), the
    payload, and a `\n` pad byte after an odd-length payload. Walking an
    archive built this way gives back exactly the members put in. */
module ArchiveBuilder {
  import opened Base
  import opened CString
  import opened SizeField
  import opened ImportLib

  /** One member to write: the 48 header bytes before the size field, and
      the payload. */
  datatype Entry = Entry(fields: seq<byte>, payload: seq<byte>)

  predicate Writable(e: Entry) {
    |e.fields| == SizeFieldAt && |e.payload| < Pow10(FieldWidth)
  }

  predicate AllWritable(es: seq<Entry>) {
    forall i :: 0 <= i < |es| ==> Writable(es[i])
  }

  function Padding(size: nat): (r: seq<byte>)
    ensures |r| == size % 2
  {
    if size % 2 == 1 then ['\n' as int] else []
  }

  function EncodeMember(e: Entry): (r: seq<byte>)
    requires Writable(e)
    ensures |r| == RoundUpEven(HeaderSize + |e.payload|)
  {
    e.fields + EncodeSize(|e.payload|) + EndMarker + e.payload + Padding(|e.payload|)
  }

  function EncodeMembers(es: seq<Entry>): seq<byte>
    requires AllWritable(es)
  {
    if es == [] then [] else EncodeMember(es[0]) + EncodeMembers(es[1..])
  }

  function BuildArchive(es: seq<Entry>): seq<byte>
    requires AllWritable(es)
  {
    Magic + EncodeMembers(es)
  }

  /** Where each member of `es` lands when the first header is at `offset`. */
  function Layout(es: seq<Entry>, offset: nat): (ms: seq<Member>)
    requires AllWritable(es)
    ensures |ms| == |es|
  {
    if es == [] then []
    else [Member(offset, es[0].payload)] + Layout(es[1..], offset + |EncodeMember(es[0])|)
  }

  lemma LayoutStep(es: seq<Entry>, offset: nat, next: nat)
    requires AllWritable(es) && es != []
    requires next == offset + |EncodeMember(es[0])|
    ensures AllWritable(es[1..])
    ensures Layout(es, offset) == [Member(offset, es[0].payload)] + Layout(es[1..], next)
  {
  }

  lemma SliceOfConcat(pre: seq<byte>, e: seq<byte>, rest: seq<byte>, a: nat, b: nat)
    requires a <= b <= |e|
    ensures (pre + e + rest)[|pre| + a .. |pre| + b] == e[a..b]
  {
    var data := pre + e + rest;
    assert forall k :: a <= k < b ==> data[|pre| + k] == e[k];
  }

  /** The header a built member starts with reads back as its payload size. */
  lemma {:induction false} MemberSizeOfEncoded(pre: seq<byte>, e: Entry, rest: seq<byte>)
    requires Writable(e)
    ensures var data := pre + EncodeMember(e) + rest;
            && MemberSize(data, |pre|) == Some(|e.payload|)
            && data[|pre| + HeaderSize .. |pre| + HeaderSize + |e.payload|] == e.payload
  {
    var enc := EncodeMember(e);
    var data := pre + enc + rest;
    var size := |e.payload|;
    assert enc[SizeFieldAt .. EndMarkerAt] == EncodeSize(size);
    assert enc[EndMarkerAt .. HeaderSize] == EndMarker;
    assert enc[HeaderSize .. HeaderSize + size] == e.payload;
    SliceOfConcat(pre, enc, rest, SizeFieldAt, EndMarkerAt);
    SliceOfConcat(pre, enc, rest, EndMarkerAt, HeaderSize);
    SliceOfConcat(pre, enc, rest, HeaderSize, HeaderSize + size);
    ParseEncodedSize(size);
  }

  lemma RoundUpEvenShift(a: nat, x: nat)
    requires a % 2 == 0
    ensures RoundUpEven(a + x) == a + RoundUpEven(x)
  {
    var k := a / 2;
    assert a == 2 * k;
    assert (a + x) % 2 == x % 2;
  }

  /** After an even-length prefix, the next header follows a built member
      directly. */
  lemma EncodedNext(pre: seq<byte>, e: Entry)
    requires Writable(e) && |pre| % 2 == 0
    ensures NextHeader(|pre|, |e.payload|) == |pre| + |EncodeMember(e)|
  {
    RoundUpEvenShift(|pre|, HeaderSize + |e.payload|);
  }

  lemma EncodeMembersStep(pre: seq<byte>, es: seq<Entry>)
    requires AllWritable(es) && es != []
    ensures AllWritable(es[1..])
    ensures pre + EncodeMembers(es) == (pre + EncodeMember(es[0])) + EncodeMembers(es[1..])
  {
  }

  /** One step of the walk over an arbitrary buffer, with the payload named. */
  lemma WalkCons(data: seq<byte>, pos: nat, payload: seq<byte>, next: nat)
    requires MemberSize(data, pos) == Some(|payload|)
    requires data[pos + HeaderSize .. pos + HeaderSize + |payload|] == payload
    requires NextHeader(pos, |payload|) == next
    ensures Walk(data, pos) == [Member(pos, payload)] + Walk(data, next)
  {
    WalkStep(data, pos, |payload|);
  }

  /** The first built member after an even-length prefix is walked as one
      step, and the walk carries on at the end of that member. */
  lemma WalkEncodedHead(pre: seq<byte>, es: seq<Entry>)
    requires AllWritable(es) && es != [] && |pre| % 2 == 0
    ensures AllWritable(es[1..])
    ensures var pre' := pre + EncodeMember(es[0]);
            && |pre'| == |pre| + |EncodeMember(es[0])|
            && |pre'| % 2 == 0
            && Walk(pre + EncodeMembers(es), |pre|)
              == [Member(|pre|, es[0].payload)] + Walk(pre' + EncodeMembers(es[1..]), |pre'|)
  {
    var e, tail := es[0], es[1..];
    var pre' := pre + EncodeMember(e);
    EncodeMembersStep(pre, es);
    MemberSizeOfEncoded(pre, e, EncodeMembers(tail));
    EncodedNext(pre, e);
    WalkCons(pre' + EncodeMembers(tail), |pre|, e.payload, |pre'|);
  }

  /** Walking the members written after an even-length prefix yields them all,
      at their laid-out offsets. */
  lemma {:induction false} WalkEncoded(pre: seq<byte>, es: seq<Entry>)
    requires AllWritable(es) && |pre| % 2 == 0
    decreases |es|
    ensures Walk(pre + EncodeMembers(es), |pre|) == Layout(es, |pre|)
  {
    if es == [] {
      assert pre + EncodeMembers(es) == pre;
    } else {
      var pre' := pre + EncodeMember(es[0]);
      WalkEncodedHead(pre, es);
      LayoutStep(es, |pre|, |pre'|);
      WalkEncoded(pre', es[1..]);
    }
  }

  /** Round trip: the walk of a built archive is its layout, so the scan sees
      exactly the payloads written, in order. */
  lemma WalkBuiltArchive(es: seq<Entry>)
    requires AllWritable(es)
    ensures HasMagic(BuildArchive(es))
    ensures Walk(BuildArchive(es), FirstHeader) == Layout(es, FirstHeader)
    ensures var ms := Walk(BuildArchive(es), FirstHeader);
            |ms| == |es| && forall i :: 0 <= i < |es| ==> ms[i].payload == es[i].payload
  {
    WalkEncoded(Magic, es);
    assert BuildArchive(es)[..|Magic|] == Magic;
    LayoutPayloads(es, FirstHeader);
  }

  lemma {:induction false} LayoutPayloads(es: seq<Entry>, offset: nat)
    requires AllWritable(es)
    ensures var ms := Layout(es, offset);
            forall i :: 0 <= i < |es| ==> ms[i].payload == es[i].payload
  {
    if es != [] {
      assert AllWritable(es[1..]);
      LayoutPayloads(es[1..], offset + |EncodeMember(es[0])|);
      var ms := Layout(es, offset);
      assert forall i :: 0 < i < |es| ==> ms[i] == Layout(es[1..], offset + |EncodeMember(es[0])|)[i - 1];
    }
  }

  /** After an odd-length first member the second header is read one pad
      byte later, at an even offset, and not one byte short. */
  lemma SecondHeaderPadded(a: Entry, b: Entry)
    requires Writable(a) && Writable(b)
    ensures var ms := Walk(BuildArchive([a, b]), FirstHeader);
            && |ms| == 2
            && ms[1].offset == FirstHeader + HeaderSize + |a.payload| + |a.payload| % 2
            && ms[1].offset % 2 == 0
  {
    WalkBuiltArchive([a, b]);
  }

  /** When the first member written names a DLL, the scan reports it,
      whatever the members after it hold. */
  lemma FirstBuiltMemberWins(es: seq<Entry>)
    requires AllWritable(es) && es != []
    requires DescriptorDll(es[0].payload).Some?
    ensures LibDll(BuildArchive(es)) == Dll(DescriptorDll(es[0].payload).value)
  {
    WalkBuiltArchive(es);
    var ms := Walk(BuildArchive(es), FirstHeader);
    FirstDllIsEarliest(ms);
    assert EarliestDescriptor(ms, 0);
  }

  /** The scan reports the name of the earliest entry that names a DLL,
      whatever the entries before it (which name none) and after it hold. */
  lemma EarliestBuiltEntryWins(es: seq<Entry>, i: nat)
    requires AllWritable(es) && i < |es|
    requires DescriptorDll(es[i].payload).Some?
    requires forall j :: 0 <= j < i ==> DescriptorDll(es[j].payload).None?
    ensures LibDll(BuildArchive(es)) == Dll(DescriptorDll(es[i].payload).value)
  {
    WalkBuiltArchive(es);
    LibDllResult(BuildArchive(es));
    assert EarliestDescriptor(Walk(BuildArchive(es), FirstHeader), i);
  }

  /** An archive in which no member names a DLL gives no match. */
  lemma NoDescriptorNoMatch(es: seq<Entry>)
    requires AllWritable(es)
    requires forall i :: 0 <= i < |es| ==> DescriptorDll(es[i].payload).None?
    ensures LibDll(BuildArchive(es)) == NoDll
  {
    WalkBuiltArchive(es);
    FirstDllIsEarliest(Walk(BuildArchive(es), FirstHeader));
  }

  /** The payload of the minimal import descriptor: signature `00 00 FF FF`,
      16 further bytes, then `A\0B\0`; it names the DLL "B". */
  function MinimalPayload(filler: seq<byte>): seq<byte>
    requires |filler| == 16
  {
    [0x00, 0x00, 0xFF, 0xFF] + filler + ['A' as int, 0, 'B' as int, 0]
  }

  lemma MinimalDescriptor(filler: seq<byte>)
    requires |filler| == 16
    ensures |MinimalPayload(filler)| == 24
    ensures DescriptorDll(MinimalPayload(filler)) == Some("B")
  {
    var payload := MinimalPayload(filler);
    assert payload[20] == 'A' as int && payload[21] == 0 && payload[22] == 'B' as int && payload[23] == 0;
    assert StringsEndAt(payload, 21, 23);
    assert payload[22..23] == ['B' as int];
    assert AsciiDecode(payload[22..23]) == "B";
    DescriptorDllOfStrings(payload, 21, 23);
  }

  /** The minimal archive: magic, one header declaring 24 bytes, and the
      minimal descriptor as payload; the scan returns "B", whatever the
      filler and the other header fields are. */
  lemma MinimalArchive(fields: seq<byte>, filler: seq<byte>)
    requires |fields| == SizeFieldAt && |filler| == 16
    ensures LibDll(BuildArchive([Entry(fields, MinimalPayload(filler))])) == Dll("B")
  {
    MinimalDescriptor(filler);
    assert Pow10(FieldWidth) == 10000000000;
    FirstBuiltMemberWins([Entry(fields, MinimalPayload(filler))]);
  }
}
