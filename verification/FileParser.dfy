/** The structural validation a file passes before anything in it is used. */
module FileParser {
  import opened Wrappers
  import opened Types
  import opened Store
  import opened Sorting
  import opened Bytes
  import opened FileLayout

  // ----- Header and section table -----

  function ReadHeader(bytes: seq<Byte>): DiskHeader
    requires HEADER_LEN <= |bytes|
  {
    DiskHeader(
      bytes[..8], U32At(bytes, 8), U32At(bytes, 12), U32At(bytes, 16), U32At(bytes, 20), U32At(bytes, 24),
      U32At(bytes, 28), U64At(bytes, 32), U64At(bytes, 40), U64At(bytes, 48), U64At(bytes, 56))
  }

  datatype DiskEntry = DiskEntry(kind: nat, flags: nat, offset: nat, byteLen: nat, elementCount: nat)

  function ReadEntry(bytes: seq<Byte>, at: nat): DiskEntry
    requires at + SECTION_ENTRY_LEN <= |bytes|
  {
    DiskEntry(
      U32At(bytes, at), U32At(bytes, at + 4), U64At(bytes, at + 8), U64At(bytes, at + 16), U64At(bytes, at + 24))
  }

  function ValidateHeader(h: DiskHeader, expected: FileKind): (r: Result<()>)
    ensures r.Ok? <==>
      && h.magic == MAGIC && h.formatVersion == FORMAT_VERSION && h.endianMarker == ENDIAN_MARKER
      && h.fileKind == expected.Code() && h.headerLen == HEADER_LEN
    ensures h.magic == MAGIC && h.formatVersion != FORMAT_VERSION ==>
      r == Err(UnsupportedFormatVersion(h.formatVersion))
    ensures h.magic == MAGIC && h.formatVersion == FORMAT_VERSION && h.endianMarker != ENDIAN_MARKER ==>
      r == Err(EndiannessMismatch)
  {
    if h.magic != MAGIC then Err(InvalidFile("magic does not match"))
    else if h.formatVersion != FORMAT_VERSION then Err(UnsupportedFormatVersion(h.formatVersion))
    else if h.endianMarker != ENDIAN_MARKER then Err(EndiannessMismatch)
    else
      match FileKindFromRaw(h.fileKind)
      case Err(e) => Err(e)
      case Ok(kind) =>
        if kind != expected then Err(InvalidFile("file kind does not match"))
        else if h.headerLen != HEADER_LEN then Err(InvalidFile("header size does not match"))
        else Ok(())
  }

  /** The range lies in the file. */
  function CheckedRange(bytes: seq<Byte>, offset: nat, len: nat): (r: Result<seq<Byte>>)
    requires |bytes| <= USIZE_MAX
    ensures r.Ok? <==> offset + len <= |bytes|
    ensures r.Ok? ==> r.value == bytes[offset..offset + len]
  {
    if offset + len > USIZE_MAX then Err(InvalidFile("file range overflows"))
    else if offset + len > |bytes| then Err(InvalidFile("file range is truncated"))
    else Ok(bytes[offset..offset + len])
  }

  // ----- Sections -----

  /** The byte length and the offset suit the elements of the section. */
  ghost predicate TypedFits(kind: SectionKind, offset: nat, byteLen: nat, elementCount: nat) {
    match kind
    case VocabularyTokenBlob | EmbeddingTokenBlob | CostMetadata => true
    case VocabularyTokenOffsets | EmbeddingTokenOffsets | SequenceOffsets | PostingOffsets =>
      byteLen == 8 * elementCount && offset % 8 == 0
    case PostingsSection => byteLen == 8 * elementCount && offset % 4 == 0
    case CorpusSymbols | Embeddings => byteLen == 4 * elementCount && offset % 4 == 0
  }

  /** The section lies in the file and suits its elements. */
  ghost predicate SectionFits(bytes: seq<Byte>, d: SectionDescriptor) {
    d.offset + d.byteLen <= |bytes| && TypedFits(d.kind, d.offset, d.byteLen, d.elementCount)
  }

  function ValidateSection(bytes: seq<Byte>, d: SectionDescriptor): (r: Result<()>)
    requires |bytes| <= USIZE_MAX
    ensures r.Ok? <==> SectionFits(bytes, d)
  {
    match CheckedRange(bytes, d.offset, d.byteLen)
    case Err(e) => Err(e)
    case Ok(_) =>
      match d.kind.ElementLayout()
      case None => Ok(())
      case Some((size, alignment)) =>
        if d.elementCount * size > USIZE_MAX then Err(InvalidFile("section byte length overflows"))
        else if d.byteLen != d.elementCount * size then
          Err(InvalidFile("section byte length does not match element count"))
        else if d.offset % alignment != 0 then Err(InvalidFile("section offset is not aligned"))
        else Ok(())
  }

  /** Entry `i` of the section table encodes the descriptor. */
  ghost predicate Lists(bytes: seq<Byte>, table: nat, i: nat, d: SectionDescriptor) {
    && table + SECTION_ENTRY_LEN * i + SECTION_ENTRY_LEN <= |bytes|
    && ReadEntry(bytes, table + SECTION_ENTRY_LEN * i) ==
       DiskEntry(d.kind.Code(), 0, d.offset, d.byteLen, d.elementCount)
  }

  /** The section table lists these descriptors: all in the file, aligned, and of
      different kinds. */
  ghost predicate TableFits(bytes: seq<Byte>, table: nat, descriptors: seq<SectionDescriptor>) {
    && (forall i :: 0 <= i < |descriptors| ==> Lists(bytes, table, i, descriptors[i]))
    && (forall i :: 0 <= i < |descriptors| ==> SectionFits(bytes, descriptors[i]))
    && (forall i, j :: 0 <= i < j < |descriptors| ==> descriptors[i].kind != descriptors[j].kind)
  }

  // ----- Regions -----

  /** A region of the file: its offset and its length. */
  type Region = (nat, nat)

  /** No byte belongs to both regions. */
  predicate Apart(a: Region, b: Region) {
    a.1 == 0 || b.1 == 0 || a.0 + a.1 <= b.0 || b.0 + b.1 <= a.0
  }

  ghost predicate ApartFrom(a: Region, regions: seq<Region>) {
    forall b :: b in regions ==> Apart(a, b)
  }

  /** The regions are pairwise apart. */
  ghost predicate AllApart(regions: seq<Region>) {
    regions == [] || (ApartFrom(regions[0], regions[1..]) && AllApart(regions[1..]))
  }

  predicate OffsetLeq(a: Region, b: Region) {
    a.0 <= b.0
  }

  lemma OffsetsAreOrdered()
    ensures TotalPreorder(OffsetLeq)
  {
  }

  /** Drops the regions that occupy no bytes. */
  function Occupied(regions: seq<Region>): seq<Region> {
    if regions == [] then []
    else if regions[0].1 == 0 then Occupied(regions[1..])
    else [regions[0]] + Occupied(regions[1..])
  }

  lemma {:induction false} OccupiedElements(regions: seq<Region>, b: Region)
    ensures b in Occupied(regions) <==> b in regions && b.1 != 0
  {
    if regions != [] {
      OccupiedElements(regions[1..], b);
      assert b in regions <==> b == regions[0] || b in regions[1..];
    }
  }

  lemma {:induction false} OccupiedApart(regions: seq<Region>)
    ensures AllApart(Occupied(regions)) <==> AllApart(regions)
  {
    if regions != [] {
      OccupiedApart(regions[1..]);
      forall b
        ensures b in Occupied(regions[1..]) <==> b in regions[1..] && b.1 != 0
      {
        OccupiedElements(regions[1..], b);
      }
      if regions[0].1 != 0 {
        assert Occupied(regions)[1..] == Occupied(regions[1..]);
      }
    }
  }

  lemma {:induction false} InsertElements(x: Region, s: seq<Region>, b: Region)
    ensures b in Insert(OffsetLeq, x, s) <==> b == x || b in s
  {
    InsertKeepsElements(OffsetLeq, x, s);
    assert b in Insert(OffsetLeq, x, s) <==> b in multiset(Insert(OffsetLeq, x, s));
    assert b in s <==> b in multiset(s);
  }

  lemma ApartFromInsert(a: Region, x: Region, s: seq<Region>)
    ensures ApartFrom(a, Insert(OffsetLeq, x, s)) <==> Apart(a, x) && ApartFrom(a, s)
  {
    hide Insert;
    forall b
      ensures b in Insert(OffsetLeq, x, s) <==> b == x || b in s
    {
      InsertElements(x, s, b);
    }
  }

  lemma ApartFromSplit(a: Region, s: seq<Region>)
    requires s != []
    ensures ApartFrom(a, s) <==> Apart(a, s[0]) && ApartFrom(a, s[1..])
  {
    assert forall b :: b in s <==> b == s[0] || b in s[1..];
  }

  lemma {:induction false} InsertApart(x: Region, s: seq<Region>)
    ensures AllApart(Insert(OffsetLeq, x, s)) <==> ApartFrom(x, s) && AllApart(s)
  {
    hide ApartFrom;
    if s == [] || OffsetLeq(x, s[0]) {
      assert ([x] + s)[1..] == s;
      NothingToMeet(x);
    } else {
      InsertApart(x, s[1..]);
      assert ([s[0]] + Insert(OffsetLeq, x, s[1..]))[1..] == Insert(OffsetLeq, x, s[1..]);
      ApartFromInsert(s[0], x, s[1..]);
      ApartFromSplit(x, s);
    }
  }

  lemma NothingToMeet(x: Region)
    ensures ApartFrom(x, [])
  {
  }

  lemma SortElements(s: seq<Region>, b: Region)
    ensures b in Sort(OffsetLeq, s) <==> b in s
  {
    OffsetsAreOrdered();
    SortIsSorted(OffsetLeq, s);
    SameElements(Sort(OffsetLeq, s), s, b);
  }

  /** Whether regions are apart does not depend on their order. */
  lemma {:induction false} SortApart(s: seq<Region>)
    ensures AllApart(Sort(OffsetLeq, s)) <==> AllApart(s)
  {
    if s != [] {
      SortApart(s[1..]);
      InsertApart(s[0], Sort(OffsetLeq, s[1..]));
      forall b
        ensures b in Sort(OffsetLeq, s[1..]) <==> b in s[1..]
      {
        SortElements(s[1..], b);
      }
    }
  }

  lemma {:induction false} ApartPairs(s: seq<Region>, i: nat, j: nat)
    requires AllApart(s) && i < j < |s|
    ensures Apart(s[i], s[j])
  {
    if i == 0 {
      assert s[j] == s[1..][j - 1];
    } else {
      ApartPairs(s[1..], i - 1, j - 1);
    }
  }

  lemma {:induction false} PairsApart(s: seq<Region>)
    requires forall i, j :: 0 <= i < j < |s| ==> Apart(s[i], s[j])
    ensures AllApart(s)
  {
    if s != [] {
      PairsApart(s[1..]);
      forall b | b in s[1..]
        ensures Apart(s[0], b)
      {
        var j :| 0 <= j < |s[1..]| && s[1..][j] == b;
        assert s[j + 1] == b;
      }
    }
  }

  /** Each region ends before the next one starts. */
  ghost predicate Chained(s: seq<Region>, n: nat) {
    forall i :: 0 <= i < n && i + 1 < |s| ==> s[i].0 + s[i].1 <= s[i + 1].0
  }

  lemma {:induction false} ChainedReach(s: seq<Region>, i: nat, j: nat)
    requires Chained(s, |s|) && i < j < |s|
    ensures s[i].0 + s[i].1 <= s[j].0
  {
    if i + 1 < j {
      ChainedReach(s, i, j - 1);
      assert s[j - 1].0 + s[j - 1].1 <= s[j].0;
    }
  }

  lemma ChainedIsApart(s: seq<Region>)
    requires Chained(s, |s|)
    ensures AllApart(s)
  {
    forall i, j | 0 <= i < j < |s|
      ensures Apart(s[i], s[j])
    {
      ChainedReach(s, i, j);
    }
    PairsApart(s);
  }

  lemma OverlapIsNotApart(ranges: seq<Region>, k: nat)
    requires Sorted(OffsetLeq, ranges) && k + 1 < |ranges| && ranges[k].0 + ranges[k].1 > ranges[k + 1].0
    requires forall x :: x in ranges ==> x.1 != 0
    ensures !AllApart(ranges)
  {
    assert OffsetLeq(ranges[k], ranges[k + 1]) && ranges[k] in ranges && ranges[k + 1] in ranges;
    if AllApart(ranges) {
      ApartPairs(ranges, k, k + 1);
    }
  }

  method CheckChain(ranges: seq<Region>) returns (r: Result<()>)
    requires Sorted(OffsetLeq, ranges) && forall x :: x in ranges ==> x.1 != 0
    ensures (forall x :: x in ranges ==> x.0 + x.1 <= USIZE_MAX) ==> (r.Ok? <==> AllApart(ranges))
    ensures r.Ok? ==> AllApart(ranges)
  {
    hide AllApart;
    var k := 0;
    while k + 1 < |ranges|
      invariant k <= |ranges| && Chained(ranges, k)
    {
      var previousEnd := ranges[k].0 + ranges[k].1;
      if previousEnd > USIZE_MAX {
        assert ranges[k] in ranges;
        return Err(InvalidFile("file range overflows"));
      }
      if previousEnd > ranges[k + 1].0 {
        OverlapIsNotApart(ranges, k);
        return Err(InvalidFile("file regions overlap"));
      }
      k := k + 1;
    }
    ChainedIsApart(ranges);
    return Ok(());
  }

  /** Accepts exactly the regions that share no byte. */
  method ValidateNonOverlapping(regions: seq<Region>) returns (r: Result<()>)
    ensures (forall x :: x in regions ==> x.0 + x.1 <= USIZE_MAX) ==> (r.Ok? <==> AllApart(regions))
    ensures r.Ok? ==> AllApart(regions)
  {
    hide *;
    var occupied := Occupied(regions);
    var ranges := Sort(OffsetLeq, occupied);
    OffsetsAreOrdered();
    SortIsSorted(OffsetLeq, occupied);
    forall x
      ensures x in ranges <==> x in regions && x.1 != 0
    {
      SortElements(occupied, x);
      OccupiedElements(regions, x);
    }
    SortApart(occupied);
    OccupiedApart(regions);
    r := CheckChain(ranges);
  }

  // ----- Offset arrays -----

  lemma {:induction false} StepsReach(offsets: seq<nat>, i: nat, j: nat)
    requires i <= j < |offsets| && forall k :: 0 <= k && k + 1 < |offsets| ==> offsets[k] <= offsets[k + 1]
    ensures offsets[i] <= offsets[j]
  {
    if i < j {
      StepsReach(offsets, i, j - 1);
      assert offsets[j - 1] <= offsets[j - 1 + 1];
    }
  }

  /** Accepts exactly the arrays that are safe to slice the payload by. */
  method ValidateOffsets(offsets: seq<nat>, payloadLen: nat) returns (r: Result<()>)
    ensures r.Ok? <==> OffsetsFit(offsets, payloadLen)
  {
    if offsets == [] || offsets[0] != 0 || offsets[|offsets| - 1] != payloadLen {
      return Err(InvalidFile("offset endpoints do not match payload"));
    }
    for k := 0 to |offsets| - 1
      invariant forall i :: 0 <= i < k ==> offsets[i] <= offsets[i + 1]
    {
      if offsets[k] > offsets[k + 1] {
        return Err(InvalidFile("offsets are not monotonic"));
      }
    }
    forall i, j | 0 <= i <= j < |offsets|
      ensures offsets[i] <= offsets[j]
    {
      StepsReach(offsets, i, j);
    }
    return Ok(());
  }

  // ----- The whole file -----

  /** The descriptors by kind. */
  function Collected(descriptors: seq<SectionDescriptor>): map<SectionKind, SectionDescriptor> {
    if descriptors == [] then map[]
    else
      var last := descriptors[|descriptors| - 1];
      Collected(descriptors[..|descriptors| - 1])[last.kind := last]
  }

  lemma NothingCollected()
    ensures Collected([]) == map[]
  {
  }

  lemma {:induction false} CollectedKinds(descriptors: seq<SectionDescriptor>, kind: SectionKind)
    ensures kind in Collected(descriptors) <==> exists i :: 0 <= i < |descriptors| && descriptors[i].kind == kind
    ensures kind in Collected(descriptors) ==>
      Collected(descriptors)[kind].kind == kind && Collected(descriptors)[kind] in descriptors
  {
    if descriptors != [] {
      CollectedKinds(descriptors[..|descriptors| - 1], kind);
    }
  }

  lemma {:induction false} CollectedLookup(descriptors: seq<SectionDescriptor>, i: nat)
    requires i < |descriptors|
    requires forall j, k :: 0 <= j < k < |descriptors| ==> descriptors[j].kind != descriptors[k].kind
    ensures descriptors[i].kind in Collected(descriptors)
    ensures Collected(descriptors)[descriptors[i].kind] == descriptors[i]
  {
    if i < |descriptors| - 1 {
      CollectedLookup(descriptors[..|descriptors| - 1], i);
    }
  }

  function RangeOf(d: SectionDescriptor): Region {
    (d.offset, d.byteLen)
  }

  /** The ranges of the sections, visited in the order of their kinds. */
  function KindRanges(sections: map<SectionKind, SectionDescriptor>, raw: nat): seq<Region>
    requires 1 <= raw <= 11
    decreases 11 - raw
  {
    if raw == 11 then []
    else
      var kind := SectionKindFromRaw(raw).value;
      (if kind in sections then [RangeOf(sections[kind])] else []) + KindRanges(sections, raw + 1)
  }

  /** Header, codec identifier, section table and sections. */
  function RegionsOf(h: DiskHeader, sections: map<SectionKind, SectionDescriptor>): seq<Region> {
    [(0, HEADER_LEN), (h.codecOffset, h.codecLen), (h.sectionTableOffset, SECTION_ENTRY_LEN * h.sectionCount)]
    + KindRanges(sections, 1)
  }

  // ----- Which byte belongs to what -----

  ghost predicate InCodec(bytes: seq<Byte>, p: nat)
    requires HEADER_LEN <= |bytes|
  {
    U64At(bytes, 32) <= p < U64At(bytes, 32) + U64At(bytes, 40)
  }

  ghost predicate InTable(bytes: seq<Byte>, p: nat)
    requires HEADER_LEN <= |bytes|
  {
    U64At(bytes, 48) <= p < U64At(bytes, 48) + 32 * U32At(bytes, 28)
  }

  ghost predicate InSection(sections: map<SectionKind, SectionDescriptor>, kind: SectionKind, p: nat) {
    kind in sections && sections[kind].offset <= p < sections[kind].offset + sections[kind].byteLen
  }

  /** No byte belongs to two of the header, the codec identifier, the section
      table and the sections of different kinds. */
  ghost predicate NoByteShared(bytes: seq<Byte>, sections: map<SectionKind, SectionDescriptor>)
    requires HEADER_LEN <= |bytes|
  {
    && (forall p: nat :: InCodec(bytes, p) ==> 64 <= p)
    && (forall p: nat :: InTable(bytes, p) ==> 64 <= p && !InCodec(bytes, p))
    && (forall kind, p: nat :: InSection(sections, kind, p) ==>
          64 <= p && !InCodec(bytes, p) && !InTable(bytes, p))
    && (forall a, b, p: nat :: InSection(sections, a, p) && InSection(sections, b, p) ==> a == b)
  }

  ghost predicate InRegion(region: Region, p: nat) {
    region.0 <= p < region.0 + region.1
  }

  /** Regions are apart exactly when they share no byte. */
  lemma ApartMeansNoSharedByte(a: Region, b: Region)
    ensures Apart(a, b) <==> forall p: nat :: !(InRegion(a, p) && InRegion(b, p))
  {
    if !Apart(a, b) {
      var p: nat := if a.0 < b.0 then b.0 else a.0;
      assert InRegion(a, p) && InRegion(b, p);
    }
  }

  /** The ranges of different kinds are apart. */
  ghost predicate KindsApart(sections: map<SectionKind, SectionDescriptor>) {
    forall a, b :: a in sections && b in sections && a != b ==> Apart(RangeOf(sections[a]), RangeOf(sections[b]))
  }

  lemma {:induction false} KindRangesApart(sections: map<SectionKind, SectionDescriptor>, raw: nat)
    requires 1 <= raw <= 11 && KindsApart(sections)
    ensures AllApart(KindRanges(sections, raw))
    decreases 11 - raw
  {
    hide RangeOf, Apart;
    if raw < 11 {
      var kind := SectionKindFromRaw(raw).value;
      KindRangesApart(sections, raw + 1);
      CodeOfRaw(raw);
      var rest := KindRanges(sections, raw + 1);
      if kind in sections {
        assert ([RangeOf(sections[kind])] + rest)[1..] == rest;
        forall b | b in rest
          ensures Apart(RangeOf(sections[kind]), b)
        {
          var other := KindRangesElements(sections, raw + 1, b);
        }
      } else {
        assert [] + rest == rest;
      }
    }
  }

  lemma {:induction false} KindRangesComplete(
    sections: map<SectionKind, SectionDescriptor>, raw: nat, kind: SectionKind)
    requires 1 <= raw <= kind.Code() && kind in sections
    ensures raw < 11 && RangeOf(sections[kind]) in KindRanges(sections, raw)
    decreases 11 - raw
  {
    CodeOfRaw(raw);
    if raw < kind.Code() {
      KindRangesComplete(sections, raw + 1, kind);
    }
  }

  lemma FirstKindRange(sections: map<SectionKind, SectionDescriptor>, raw: nat)
    requires 1 <= raw < 11 && AllApart(KindRanges(sections, raw))
    ensures AllApart(KindRanges(sections, raw + 1))
    ensures var kind := SectionKindFromRaw(raw).value;
            kind in sections ==> ApartFrom(RangeOf(sections[kind]), KindRanges(sections, raw + 1))
  {
    hide RangeOf, Apart, ApartFrom;
    var kind, rest := SectionKindFromRaw(raw).value, KindRanges(sections, raw + 1);
    if kind in sections {
      assert ([RangeOf(sections[kind])] + rest)[1..] == rest;
    } else {
      assert [] + rest == rest;
    }
  }

  lemma {:induction false} ApartKindRanges(
    sections: map<SectionKind, SectionDescriptor>, raw: nat, a: SectionKind, b: SectionKind)
    requires 1 <= raw <= a.Code() < b.Code() && a in sections && b in sections
    requires AllApart(KindRanges(sections, raw))
    ensures Apart(RangeOf(sections[a]), RangeOf(sections[b]))
    decreases 11 - raw
  {
    hide RangeOf, Apart, AllApart, KindRanges, SectionKind.Code;
    KindRangesComplete(sections, raw, a);
    FirstKindRange(sections, raw);
    if raw == a.Code() {
      KindRangesComplete(sections, raw + 1, b);
    } else {
      ApartKindRanges(sections, raw + 1, a, b);
    }
  }

  lemma KindRangesApartIff(sections: map<SectionKind, SectionDescriptor>)
    ensures AllApart(KindRanges(sections, 1)) <==> KindsApart(sections)
  {
    hide RangeOf, Apart, AllApart, KindRanges;
    if KindsApart(sections) {
      KindRangesApart(sections, 1);
    }
    if AllApart(KindRanges(sections, 1)) {
      forall a, b | a in sections && b in sections && a != b
        ensures Apart(RangeOf(sections[a]), RangeOf(sections[b]))
      {
        DifferentCodes(a, b);
        ApartIsSymmetric(RangeOf(sections[a]), RangeOf(sections[b]));
        if a.Code() < b.Code() {
          ApartKindRanges(sections, 1, a, b);
        } else {
          ApartKindRanges(sections, 1, b, a);
        }
      }
    }
  }

  lemma DifferentCodes(a: SectionKind, b: SectionKind)
    requires a != b
    ensures a.Code() != b.Code() && 1 <= a.Code() && 1 <= b.Code()
  {
  }

  lemma ApartIsSymmetric(a: Region, b: Region)
    ensures Apart(a, b) <==> Apart(b, a)
  {
  }

  /** A region is apart from the ranges exactly when it is from every section. */
  lemma ApartFromKindRanges(x: Region, sections: map<SectionKind, SectionDescriptor>)
    ensures ApartFrom(x, KindRanges(sections, 1)) <==>
            forall kind :: kind in sections ==> Apart(x, RangeOf(sections[kind]))
  {
    hide RangeOf, Apart, KindRanges;
    forall kind | kind in sections
      ensures RangeOf(sections[kind]) in KindRanges(sections, 1)
    {
      FirstCode(kind);
      KindRangesComplete(sections, 1, kind);
    }
    forall b | b in KindRanges(sections, 1)
      ensures exists kind :: kind in sections && b == RangeOf(sections[kind])
    {
      var kind := KindRangesElements(sections, 1, b);
    }
  }

  lemma FirstCode(kind: SectionKind)
    ensures 1 <= kind.Code()
  {
  }

  lemma AllApartSplit(a: Region, rest: seq<Region>)
    ensures AllApart([a] + rest) <==> ApartFrom(a, rest) && AllApart(rest)
  {
    assert ([a] + rest)[1..] == rest;
  }

  lemma ApartFromPrepended(x: Region, a: Region, rest: seq<Region>)
    ensures ApartFrom(x, [a] + rest) <==> Apart(x, a) && ApartFrom(x, rest)
  {
    assert ([a] + rest)[1..] == rest;
    ApartFromSplit(x, [a] + rest);
  }

  /** Three regions and the sections are pairwise apart. */
  lemma ThreeAndSections(a: Region, b: Region, c: Region, sections: map<SectionKind, SectionDescriptor>)
    ensures AllApart([a, b, c] + KindRanges(sections, 1)) <==>
            && Apart(a, b) && Apart(a, c) && Apart(b, c) && KindsApart(sections)
            && forall kind :: kind in sections ==>
                 && Apart(a, RangeOf(sections[kind])) && Apart(b, RangeOf(sections[kind]))
                 && Apart(c, RangeOf(sections[kind]))
  {
    hide RangeOf, Apart, AllApart, ApartFrom, KindRanges, KindsApart;
    var ranges := KindRanges(sections, 1);
    assert [a, b, c] + ranges == [a] + ([b] + ([c] + ranges));
    AllApartSplit(a, [b] + ([c] + ranges));
    AllApartSplit(b, [c] + ranges);
    AllApartSplit(c, ranges);
    ApartFromPrepended(a, b, [c] + ranges);
    ApartFromPrepended(a, c, ranges);
    ApartFromPrepended(b, c, ranges);
    ApartFromKindRanges(a, sections);
    ApartFromKindRanges(b, sections);
    ApartFromKindRanges(c, sections);
    KindRangesApartIff(sections);
  }

  lemma KindsApartMeansNoSharedByte(sections: map<SectionKind, SectionDescriptor>)
    ensures KindsApart(sections) <==>
            forall a, b, p: nat :: InSection(sections, a, p) && InSection(sections, b, p) ==> a == b
  {
    hide Apart;
    forall a, b | a in sections && b in sections
      ensures Apart(RangeOf(sections[a]), RangeOf(sections[b])) <==>
              forall p: nat :: !(InSection(sections, a, p) && InSection(sections, b, p))
    {
      SectionsApart(sections, a, b);
    }
  }

  lemma SectionsApart(sections: map<SectionKind, SectionDescriptor>, a: SectionKind, b: SectionKind)
    requires a in sections && b in sections
    ensures Apart(RangeOf(sections[a]), RangeOf(sections[b])) <==>
            forall p: nat :: !(InSection(sections, a, p) && InSection(sections, b, p))
  {
    ApartMeansNoSharedByte(RangeOf(sections[a]), RangeOf(sections[b]));
    assert forall p: nat :: InSection(sections, a, p) <==> InRegion(RangeOf(sections[a]), p);
    assert forall p: nat :: InSection(sections, b, p) <==> InRegion(RangeOf(sections[b]), p);
  }

  /** The listed regions are apart exactly when no byte is shared. */
  lemma RegionsShareNoByte(bytes: seq<Byte>, sections: map<SectionKind, SectionDescriptor>)
    requires HEADER_LEN <= |bytes|
    ensures AllApart(RegionsOf(ReadHeader(bytes), sections)) <==> NoByteShared(bytes, sections)
  {
    hide Apart, AllApart, KindRanges, KindsApart, U32At, U64At;
    var h := ReadHeader(bytes);
    var header: Region := (0, HEADER_LEN);
    var codec: Region := (h.codecOffset, h.codecLen);
    var table: Region := (h.sectionTableOffset, SECTION_ENTRY_LEN * h.sectionCount);
    ThreeAndSections(header, codec, table, sections);
    KindsApartMeansNoSharedByte(sections);
    ApartMeansNoSharedByte(header, codec);
    ApartMeansNoSharedByte(header, table);
    ApartMeansNoSharedByte(codec, table);
    assert forall p: nat :: InRegion(header, p) <==> p < 64;
    assert forall p: nat :: InRegion(codec, p) <==> InCodec(bytes, p);
    assert forall p: nat :: InRegion(table, p) <==> InTable(bytes, p);
    forall kind | kind in sections
      ensures Apart(header, RangeOf(sections[kind])) && Apart(codec, RangeOf(sections[kind]))
              && Apart(table, RangeOf(sections[kind])) <==>
              forall p: nat :: InSection(sections, kind, p) ==>
                64 <= p && !InCodec(bytes, p) && !InTable(bytes, p)
    {
      ApartMeansNoSharedByte(header, RangeOf(sections[kind]));
      ApartMeansNoSharedByte(codec, RangeOf(sections[kind]));
      ApartMeansNoSharedByte(table, RangeOf(sections[kind]));
      assert forall p: nat :: InRegion(RangeOf(sections[kind]), p) <==> InSection(sections, kind, p);
    }
  }

  datatype PersistedFile = PersistedFile(
    bytes: seq<Byte>, kind: FileKind, sections: map<SectionKind, SectionDescriptor>)
  {
    function Section(kind: SectionKind): Result<SectionDescriptor> {
      if kind in sections then Ok(sections[kind]) else Err(InvalidFile("required section is missing"))
    }

    /** A view of a section as 64-bit offsets. */
    function MappedOffsets(kind: SectionKind): Result<seq<nat>> {
      match Section(kind)
      case Err(e) => Err(e)
      case Ok(d) =>
        if d.byteLen != 8 * d.elementCount then Err(InvalidFile("section byte length does not match element count"))
        else if d.offset + d.byteLen > |bytes| then Err(InvalidFile("section lies outside the file"))
        else Ok(ReadU64s(bytes, d.offset, d.elementCount))
    }

    /** The array of this section is safe to slice a payload of this length by. */
    ghost predicate Cuts(kind: SectionKind, payloadLen: nat) {
      MappedOffsets(kind).Ok? && OffsetsFit(MappedOffsets(kind).value, payloadLen)
    }

    ghost predicate SearchEngineFits() {
      && sections.Keys ==
         {VocabularyTokenOffsets, VocabularyTokenBlob, SequenceOffsets, CorpusSymbols, PostingOffsets, PostingsSection}
      && Cuts(VocabularyTokenOffsets, sections[VocabularyTokenBlob].byteLen)
      && Cuts(SequenceOffsets, sections[CorpusSymbols].elementCount)
      && Cuts(PostingOffsets, sections[PostingsSection].elementCount)
      && |MappedOffsets(VocabularyTokenOffsets).value| == sections[VocabularyTokenBlob].elementCount + 1
      && |MappedOffsets(PostingOffsets).value| == sections[VocabularyTokenBlob].elementCount + 1
    }

    ghost predicate EmbeddingStoreFits() {
      && sections.Keys == {EmbeddingTokenOffsets, EmbeddingTokenBlob, Embeddings, CostMetadata}
      && Cuts(EmbeddingTokenOffsets, sections[EmbeddingTokenBlob].byteLen)
      && |MappedOffsets(EmbeddingTokenOffsets).value| == sections[EmbeddingTokenBlob].elementCount + 1
    }

    /** Exactly the sections of the file kind, with consistent offset arrays. */
    ghost predicate StructureFits() {
      match kind
      case SearchEngineFile => SearchEngineFits()
      case EmbeddingStoreFile => EmbeddingStoreFits()
      case LevenshteinCostsFile => sections.Keys == {}
      case CustomCostsFile | CosineCostsFile => sections.Keys == {CostMetadata}
    }

    method RequireExactSections(expected: set<SectionKind>) returns (r: Result<()>)
      ensures r.Ok? <==> sections.Keys == expected
    {
      if sections.Keys != expected {
        return Err(InvalidFile("sections do not match the selected file kind"));
      }
      return Ok(());
    }

    /** Accepts exactly the sections in `Cuts`, and returns their offsets. */
    method CheckOffsets(kind: SectionKind, payloadLen: nat) returns (r: Result<seq<nat>>)
      ensures r.Ok? <==> Cuts(kind, payloadLen)
      ensures r.Ok? ==> r == MappedOffsets(kind)
    {
      r := MappedOffsets(kind);
      if r.Ok? {
        var checked := ValidateOffsets(r.value, payloadLen);
        if checked.Err? {
          r := Err(checked.error);
        }
      }
    }

    method ValidateSearchEngine() returns (r: Result<()>)
      ensures r.Ok? <==> SearchEngineFits()
    {
      hide MappedOffsets, OffsetsFit;
      r := RequireExactSections(
        {VocabularyTokenOffsets, VocabularyTokenBlob, SequenceOffsets, CorpusSymbols, PostingOffsets, PostingsSection});
      if r.Err? {
        return;
      }
      var vocabularyOffsets := CheckOffsets(VocabularyTokenOffsets, sections[VocabularyTokenBlob].byteLen);
      var sequenceOffsets := CheckOffsets(SequenceOffsets, sections[CorpusSymbols].elementCount);
      var postingOffsets := CheckOffsets(PostingOffsets, sections[PostingsSection].elementCount);
      if vocabularyOffsets.Err? {
        return Err(vocabularyOffsets.error);
      }
      if sequenceOffsets.Err? {
        return Err(sequenceOffsets.error);
      }
      if postingOffsets.Err? {
        return Err(postingOffsets.error);
      }
      if |vocabularyOffsets.value| != sections[VocabularyTokenBlob].elementCount + 1 {
        return Err(InvalidFile("vocabulary offset count does not match token count"));
      }
      if |postingOffsets.value| != sections[VocabularyTokenBlob].elementCount + 1 {
        return Err(InvalidFile("posting offset count does not match vocabulary"));
      }
    }

    method ValidateEmbeddingStore() returns (r: Result<()>)
      ensures r.Ok? <==> EmbeddingStoreFits()
    {
      hide MappedOffsets, OffsetsFit;
      r := RequireExactSections({EmbeddingTokenOffsets, EmbeddingTokenBlob, Embeddings, CostMetadata});
      if r.Err? {
        return;
      }
      var offsets := CheckOffsets(EmbeddingTokenOffsets, sections[EmbeddingTokenBlob].byteLen);
      if offsets.Err? {
        return Err(offsets.error);
      }
      if |offsets.value| != sections[EmbeddingTokenBlob].elementCount + 1 {
        return Err(InvalidFile("embedding token offset count does not match token count"));
      }
    }

    /** Accepts exactly the section sets and offset arrays of the file kind. */
    method ValidateStructure() returns (r: Result<()>)
      ensures r.Ok? <==> StructureFits()
    {
      hide SearchEngineFits, EmbeddingStoreFits;
      match kind {
        case SearchEngineFile => r := ValidateSearchEngine();
        case EmbeddingStoreFile => r := ValidateEmbeddingStore();
        case LevenshteinCostsFile => r := RequireExactSections({});
        case CustomCostsFile | CosineCostsFile => r := RequireExactSections({CostMetadata});
      }
    }
  }

  /** The recorded codec is the expected one. */
  ghost predicate CodecFits(bytes: seq<Byte>, h: DiskHeader, codec: CodecTag) {
    && h.codecLen <= MAX_CODEC_ID_LEN && h.codecOffset + h.codecLen <= |bytes|
    && bytes[h.codecOffset..h.codecOffset + h.codecLen] == codec.id && h.codecVersion == codec.version
  }

  /** Every structural promise of the format, with these section descriptors. */
  ghost predicate ValidLayout(bytes: seq<Byte>, kind: FileKind, codec: CodecTag, descriptors: seq<SectionDescriptor>) {
    && |codec.id| <= MAX_CODEC_ID_LEN && HEADER_LEN <= |bytes|
    && var h := ReadHeader(bytes);
       && ValidateHeader(h, kind).Ok? && h.fileLen == |bytes| && CodecFits(bytes, h, codec)
       && |descriptors| == h.sectionCount && h.sectionTableOffset + SECTION_ENTRY_LEN * h.sectionCount <= |bytes|
       && TableFits(bytes, h.sectionTableOffset, descriptors)
       && NoByteShared(bytes, Collected(descriptors))
  }

  /** The fixed header is the one of this file kind, for a file of this length. */
  ghost predicate HeaderFits(bytes: seq<Byte>, kind: FileKind) {
    && 64 <= |bytes| && bytes[..8] == MAGIC && U32At(bytes, 8) == 1 && U32At(bytes, 12) == 0x0102_0304
    && U32At(bytes, 16) == kind.Code() && U32At(bytes, 20) == 64 && U64At(bytes, 56) == |bytes|
  }

  /** The header names a codec identifier that lies in the file. */
  ghost predicate RecordsCodec(bytes: seq<Byte>)
    requires 64 <= |bytes|
  {
    U64At(bytes, 40) <= MAX_CODEC_ID_LEN && U64At(bytes, 32) + U64At(bytes, 40) <= |bytes|
  }

  ghost function RecordedCodec(bytes: seq<Byte>): CodecTag
    requires 64 <= |bytes| && RecordsCodec(bytes)
  {
    CodecTag(bytes[U64At(bytes, 32)..U64At(bytes, 32) + U64At(bytes, 40)], U32At(bytes, 24))
  }

  ghost predicate ValidFile(bytes: seq<Byte>, kind: FileKind, codec: CodecTag, descriptors: seq<SectionDescriptor>) {
    ValidLayout(bytes, kind, codec, descriptors) && PersistedFile(bytes, kind, Collected(descriptors)).StructureFits()
  }

  /** A listed section is found by its kind, in the file and suiting its elements. */
  lemma ListedSection(bytes: seq<Byte>, kind: FileKind, codec: CodecTag, ds: seq<SectionDescriptor>, i: nat)
    requires ValidLayout(bytes, kind, codec, ds) && i < |ds|
    ensures ds[i].kind in Collected(ds) && Collected(ds)[ds[i].kind] == ds[i] && SectionFits(bytes, ds[i])
  {
    hide Collected, Lists, SectionFits, NoByteShared, CodecFits, U32At, U64At;
    CollectedLookup(ds, i);
  }

  lemma FoundSection(
    bytes: seq<Byte>, kind: FileKind, codec: CodecTag, ds: seq<SectionDescriptor>, wanted: SectionKind)
    returns (i: nat)
    requires ValidLayout(bytes, kind, codec, ds) && wanted in Collected(ds)
    ensures i < |ds| && ds[i].kind == wanted && Collected(ds)[wanted] == ds[i] && SectionFits(bytes, ds[i])
  {
    hide ValidLayout, Collected, SectionFits;
    CollectedKinds(ds, wanted);
    i :| 0 <= i < |ds| && ds[i].kind == wanted;
    ListedSection(bytes, kind, codec, ds, i);
  }

  lemma ListedOnce(bytes: seq<Byte>, table: nat, i: nat, a: SectionDescriptor, b: SectionDescriptor)
    requires Lists(bytes, table, i, a) && Lists(bytes, table, i, b)
    ensures a == b
  {
    assert SectionKindFromRaw(a.kind.Code()) == SectionKindFromRaw(b.kind.Code());
  }

  /** Accepts exactly the entries that list a section that fits. */
  method ParseEntry(bytes: seq<Byte>, table: nat, i: nat) returns (r: Result<SectionDescriptor>)
    requires |bytes| <= USIZE_MAX && table + SECTION_ENTRY_LEN * i + SECTION_ENTRY_LEN <= |bytes|
    ensures r.Ok? ==> Lists(bytes, table, i, r.value) && SectionFits(bytes, r.value)
    ensures r.Err? ==> forall d :: Lists(bytes, table, i, d) ==> !SectionFits(bytes, d)
  {
    hide SectionFits, U32At, U64At;
    var entry := ReadEntry(bytes, table + SECTION_ENTRY_LEN * i);
    var kind := SectionKindFromRaw(entry.kind);
    if kind.Err? {
      return Err(kind.error);
    }
    if entry.flags != 0 {
      return Err(InvalidFile("section flags are not zero"));
    }
    var descriptor := SectionDescriptor(kind.value, entry.offset, entry.byteLen, entry.elementCount);
    var checked := ValidateSection(bytes, descriptor);
    CodeOfRaw(entry.kind);
    if checked.Err? {
      forall d | Lists(bytes, table, i, d)
        ensures !SectionFits(bytes, d)
      {
        ListedOnce(bytes, table, i, d, descriptor);
      }
      return Err(checked.error);
    }
    return Ok(descriptor);
  }

  lemma CodeOfRaw(raw: nat)
    ensures SectionKindFromRaw(raw).Ok? ==> SectionKindFromRaw(raw).value.Code() == raw
  {
  }

  lemma TableIsUnique(bytes: seq<Byte>, table: nat, a: seq<SectionDescriptor>, b: seq<SectionDescriptor>, n: nat)
    requires n <= |a| && n <= |b|
    requires forall i :: 0 <= i < n ==> Lists(bytes, table, i, a[i])
    requires forall i :: 0 <= i < n ==> Lists(bytes, table, i, b[i])
    ensures a[..n] == b[..n]
  {
    forall i | 0 <= i < n
      ensures a[i] == b[i]
    {
      ListedOnce(bytes, table, i, a[i], b[i]);
    }
  }

  /** Two listed sections of the same kind leave no valid table. */
  lemma DuplicateKind(bytes: seq<Byte>, table: nat, found: seq<SectionDescriptor>, d: SectionDescriptor, count: nat)
    requires |found| < count && TableFits(bytes, table, found) && Lists(bytes, table, |found|, d)
    requires d.kind in Collected(found)
    ensures forall other :: |other| == count ==> !TableFits(bytes, table, other)
  {
    CollectedKinds(found, d.kind);
    var i :| 0 <= i < |found| && found[i].kind == d.kind;
    forall other | |other| == count && TableFits(bytes, table, other)
      ensures false
    {
      ListedOnce(bytes, table, i, found[i], other[i]);
      ListedOnce(bytes, table, |found|, d, other[|found|]);
    }
  }

  lemma BadEntry(bytes: seq<Byte>, table: nat, i: nat, count: nat)
    requires i < count && forall d :: Lists(bytes, table, i, d) ==> !SectionFits(bytes, d)
    ensures forall other :: |other| == count ==> !TableFits(bytes, table, other)
  {
    hide Lists, SectionFits;
    forall other | |other| == count
      ensures !TableFits(bytes, table, other)
    {
      assert Lists(bytes, table, i, other[i]) ==> !SectionFits(bytes, other[i]);
    }
  }

  lemma OneMoreListed(bytes: seq<Byte>, table: nat, found: seq<SectionDescriptor>, d: SectionDescriptor)
    requires TableFits(bytes, table, found) && Lists(bytes, table, |found|, d) && SectionFits(bytes, d)
    requires d.kind !in Collected(found)
    ensures TableFits(bytes, table, found + [d])
    ensures Collected(found + [d]) == Collected(found)[d.kind := d]
  {
    hide Lists, SectionFits;
    CollectedKinds(found, d.kind);
    assert (found + [d])[..|found|] == found;
  }

  /** Accepts exactly the tables that fit. */
  method ParseTable(bytes: seq<Byte>, table: nat, count: nat)
    returns (r: Result<map<SectionKind, SectionDescriptor>>, ghost found: seq<SectionDescriptor>)
    requires |bytes| <= USIZE_MAX && table + SECTION_ENTRY_LEN * count <= |bytes|
    ensures r.Ok? ==> |found| == count && TableFits(bytes, table, found) && r.value == Collected(found)
    ensures r.Err? ==> forall other :: |other| == count ==> !TableFits(bytes, table, other)
  {
    hide Lists, SectionFits, Collected;
    var sections: map<SectionKind, SectionDescriptor> := map[];
    found := [];
    NothingCollected();
    for i := 0 to count
      invariant |found| == i && TableFits(bytes, table, found) && sections == Collected(found)
    {
      var parsed := ParseEntry(bytes, table, i);
      if parsed.Err? {
        BadEntry(bytes, table, i, count);
        return Err(parsed.error), found;
      }
      var descriptor := parsed.value;
      if descriptor.kind in sections {
        DuplicateKind(bytes, table, found, descriptor, count);
        return Err(InvalidFile("section kind is duplicated")), found;
      }
      OneMoreListed(bytes, table, found, descriptor);
      sections := sections[descriptor.kind := descriptor];
      found := found + [descriptor];
    }
    return Ok(sections), found;
  }

  /** Every region of a file whose table fits ends within the 64-bit range. */
  lemma RegionsEnd(bytes: seq<Byte>, h: DiskHeader, descriptors: seq<SectionDescriptor>)
    requires |bytes| <= USIZE_MAX && HEADER_LEN <= |bytes| && h.codecOffset + h.codecLen <= |bytes|
    requires h.sectionTableOffset + SECTION_ENTRY_LEN * h.sectionCount <= |bytes|
    requires TableFits(bytes, h.sectionTableOffset, descriptors)
    ensures forall x :: x in RegionsOf(h, Collected(descriptors)) ==> x.0 + x.1 <= USIZE_MAX
  {
    hide Lists, Collected, KindRanges, TypedFits;
    forall x | x in RegionsOf(h, Collected(descriptors))
      ensures x.0 + x.1 <= USIZE_MAX
    {
      if x in KindRanges(Collected(descriptors), 1) {
        var kind := KindRangesElements(Collected(descriptors), 1, x);
        CollectedKinds(descriptors, kind);
      }
    }
  }

  lemma {:induction false} KindRangesElements(sections: map<SectionKind, SectionDescriptor>, raw: nat, x: Region)
    returns (kind: SectionKind)
    requires 1 <= raw <= 11 && x in KindRanges(sections, raw)
    ensures kind in sections && raw <= kind.Code() && x == RangeOf(sections[kind])
    decreases 11 - raw
  {
    var first := SectionKindFromRaw(raw).value;
    CodeOfRaw(raw);
    if first in sections && x == RangeOf(sections[first]) {
      kind := first;
    } else {
      kind := KindRangesElements(sections, raw + 1, x);
    }
  }

  /** Opens a snapshot: accepts exactly the files that keep every structural
      promise, and returns their sections. */
  method Parse(bytes: seq<Byte>, kind: FileKind, codec: CodecTag) returns (r: Result<PersistedFile>)
    requires |bytes| <= USIZE_MAX
    ensures forall ds :: ValidFile(bytes, kind, codec, ds) ==> r == Ok(PersistedFile(bytes, kind, Collected(ds)))
    ensures r.Ok? ==>
      exists ds :: ValidFile(bytes, kind, codec, ds) && r.value == PersistedFile(bytes, kind, Collected(ds))
    ensures r.Ok? ==> HEADER_LEN <= |bytes| && NoByteShared(bytes, r.value.sections)
    ensures |codec.id| > MAX_CODEC_ID_LEN ==> r == Err(CodecIdTooLong)
    ensures |codec.id| <= MAX_CODEC_ID_LEN && HEADER_LEN <= |bytes| && bytes[..8] == MAGIC ==>
      && (U32At(bytes, 8) != FORMAT_VERSION ==> r == Err(UnsupportedFormatVersion(U32At(bytes, 8))))
      && (U32At(bytes, 8) == FORMAT_VERSION && U32At(bytes, 12) != ENDIAN_MARKER ==> r == Err(EndiannessMismatch))
    ensures |codec.id| <= MAX_CODEC_ID_LEN && HeaderFits(bytes, kind) && RecordsCodec(bytes) ==>
      && (RecordedCodec(bytes).id != codec.id ==> r == Err(CodecMismatch))
      && (RecordedCodec(bytes).id == codec.id && RecordedCodec(bytes).version != codec.version ==>
            r == Err(CodecVersionMismatch))
  {
    hide U32At, U64At, TableFits, NoByteShared, Collected;
    if |codec.id| > MAX_CODEC_ID_LEN {
      return Err(CodecIdTooLong);
    }
    if |bytes| < HEADER_LEN {
      return Err(InvalidFile("header is truncated"));
    }
    var header := ReadHeader(bytes);
    var valid := ValidateHeader(header, kind);
    if valid.Err? {
      return Err(valid.error);
    }
    if header.fileLen != |bytes| {
      return Err(InvalidFile("recorded file length does not match"));
    }
    r := ParseContents(bytes, header, kind, codec);
  }

  /** The part of opening that follows the fixed header. A codec other than the
      expected one is named before anything else is looked at. */
  method ParseContents(bytes: seq<Byte>, header: DiskHeader, kind: FileKind, codec: CodecTag)
    returns (r: Result<PersistedFile>)
    requires |bytes| <= USIZE_MAX && HEADER_LEN <= |bytes| && header == ReadHeader(bytes)
    requires |codec.id| <= MAX_CODEC_ID_LEN && ValidateHeader(header, kind).Ok? && header.fileLen == |bytes|
    ensures forall ds :: ValidFile(bytes, kind, codec, ds) ==> r == Ok(PersistedFile(bytes, kind, Collected(ds)))
    ensures r.Ok? ==>
      exists ds :: ValidFile(bytes, kind, codec, ds) && r.value == PersistedFile(bytes, kind, Collected(ds))
    ensures RecordsCodec(bytes) ==>
      && (RecordedCodec(bytes).id != codec.id ==> r == Err(CodecMismatch))
      && (RecordedCodec(bytes).id == codec.id && RecordedCodec(bytes).version != codec.version ==>
            r == Err(CodecVersionMismatch))
  {
    hide ValidateHeader, TableFits, AllApart, NoByteShared, RegionsOf, Collected, U32At, U64At;
    var codecFits := CheckCodec(bytes, header, codec);
    if codecFits.Err? {
      return Err(codecFits.error);
    }
    var tableLen := SECTION_ENTRY_LEN * header.sectionCount;
    if tableLen > USIZE_MAX {
      return Err(InvalidFile("section table length overflows"));
    }
    var table := CheckedRange(bytes, header.sectionTableOffset, tableLen);
    if table.Err? {
      return Err(table.error);
    }
    var sections, found := ParseTable(bytes, header.sectionTableOffset, header.sectionCount);
    if sections.Err? {
      return Err(sections.error);
    }
    OnlyTable(bytes, header.sectionTableOffset, found);
    RegionsEnd(bytes, header, found);
    RegionsShareNoByte(bytes, sections.value);
    var apart := ValidateNonOverlapping(RegionsOf(header, sections.value));
    if apart.Err? {
      return Err(apart.error);
    }
    var file := PersistedFile(bytes, kind, sections.value);
    var structure := file.ValidateStructure();
    if structure.Err? {
      return Err(structure.error);
    }
    assert ValidFile(bytes, kind, codec, found);
    return Ok(file);
  }

  lemma OnlyTable(bytes: seq<Byte>, table: nat, found: seq<SectionDescriptor>)
    requires TableFits(bytes, table, found)
    ensures forall other :: |other| == |found| && TableFits(bytes, table, other) ==> other == found
  {
    hide Lists, SectionFits;
    forall other | |other| == |found| && TableFits(bytes, table, other)
      ensures other == found
    {
      TableIsUnique(bytes, table, other, found, |found|);
      assert other[..|found|] == other && found[..|found|] == found;
    }
  }

  /** Compares the recorded codec with the expected one. */
  method CheckCodec(bytes: seq<Byte>, h: DiskHeader, codec: CodecTag) returns (r: Result<()>)
    requires |bytes| <= USIZE_MAX
    ensures r.Ok? <==> CodecFits(bytes, h, codec)
    ensures h.codecLen <= MAX_CODEC_ID_LEN && h.codecOffset + h.codecLen <= |bytes| ==>
      var id := bytes[h.codecOffset..h.codecOffset + h.codecLen];
      && (id != codec.id ==> r == Err(CodecMismatch))
      && (id == codec.id && h.codecVersion != codec.version ==> r == Err(CodecVersionMismatch))
  {
    if h.codecLen > MAX_CODEC_ID_LEN {
      return Err(InvalidFile("codec identifier is too long"));
    }
    var actual := CheckedRange(bytes, h.codecOffset, h.codecLen);
    if actual.Err? {
      return Err(actual.error);
    }
    if actual.value != codec.id {
      return Err(CodecMismatch);
    }
    if h.codecVersion != codec.version {
      return Err(CodecVersionMismatch);
    }
    return Ok(());
  }
}
