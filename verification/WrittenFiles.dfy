/** What the writer lays out always passes the parser's structural checks. */
module WrittenFiles {
  import opened Types
  import opened Bytes
  import opened FileLayout
  import opened FileParser

  // ----- Reading back the fixed parts -----

  lemma HeaderParts(bytes: seq<Byte>, h: DiskHeader)
    requires |h.magic| == 8 && At(bytes, 0, HeaderBytes(h))
    ensures At(bytes, 0, h.magic)
    ensures At(
              bytes, 8,
              U32s([h.formatVersion, h.endianMarker, h.fileKind, h.headerLen, h.codecVersion, h.sectionCount]))
    ensures At(bytes, 32, U64s([h.codecOffset, h.codecLen, h.sectionTableOffset, h.fileLen]))
  {
    hide U32s, U64s, At;
    var words := U32s([h.formatVersion, h.endianMarker, h.fileKind, h.headerLen, h.codecVersion, h.sectionCount]);
    var longs := U64s([h.codecOffset, h.codecLen, h.sectionTableOffset, h.fileLen]);
    AtMiddle([], h.magic, words + longs);
    AtMiddle(h.magic, words, longs);
    AtMiddle(h.magic + words, longs, []);
    assert HeaderBytes(h) == [] + h.magic + (words + longs) == h.magic + words + longs
                          == (h.magic + words) + longs + [];
    AtPart(bytes, 0, HeaderBytes(h), 0, h.magic);
    AtPart(bytes, 0, HeaderBytes(h), 8, words);
    AtPart(bytes, 0, HeaderBytes(h), 32, longs);
  }

  ghost predicate HeaderInRange(h: DiskHeader) {
    && |h.magic| == 8 && h.formatVersion <= U32_MAX && h.endianMarker <= U32_MAX && h.fileKind <= U32_MAX
    && h.headerLen <= U32_MAX && h.codecVersion <= U32_MAX && h.sectionCount <= U32_MAX
    && h.codecOffset <= USIZE_MAX && h.codecLen <= USIZE_MAX
    && h.sectionTableOffset <= USIZE_MAX && h.fileLen <= USIZE_MAX
  }

  lemma SixWords(bytes: seq<Byte>, offset: nat, a: nat, b: nat, c: nat, d: nat, e: nat, f: nat)
    requires At(bytes, offset, U32s([a, b, c, d, e, f]))
    requires a <= U32_MAX && b <= U32_MAX && c <= U32_MAX && d <= U32_MAX && e <= U32_MAX && f <= U32_MAX
    ensures offset + 24 <= |bytes|
    ensures U32At(bytes, offset) == a && U32At(bytes, offset + 4) == b && U32At(bytes, offset + 8) == c
    ensures U32At(bytes, offset + 12) == d && U32At(bytes, offset + 16) == e && U32At(bytes, offset + 20) == f
  {
    hide *;
    U32Written(bytes, offset, [a, b, c, d, e, f], 0);
    U32Written(bytes, offset, [a, b, c, d, e, f], 1);
    U32Written(bytes, offset, [a, b, c, d, e, f], 2);
    U32Written(bytes, offset, [a, b, c, d, e, f], 3);
    U32Written(bytes, offset, [a, b, c, d, e, f], 4);
    U32Written(bytes, offset, [a, b, c, d, e, f], 5);
  }

  lemma FourLongs(bytes: seq<Byte>, offset: nat, a: nat, b: nat, c: nat, d: nat)
    requires At(bytes, offset, U64s([a, b, c, d]))
    requires a <= USIZE_MAX && b <= USIZE_MAX && c <= USIZE_MAX && d <= USIZE_MAX
    ensures offset + 32 <= |bytes|
    ensures U64At(bytes, offset) == a && U64At(bytes, offset + 8) == b
    ensures U64At(bytes, offset + 16) == c && U64At(bytes, offset + 24) == d
  {
    hide *;
    U64Written(bytes, offset, [a, b, c, d], 0);
    U64Written(bytes, offset, [a, b, c, d], 1);
    U64Written(bytes, offset, [a, b, c, d], 2);
    U64Written(bytes, offset, [a, b, c, d], 3);
  }

  /** The header round trip. */
  lemma HeaderRoundTrip(bytes: seq<Byte>, h: DiskHeader)
    requires HeaderInRange(h) && At(bytes, 0, HeaderBytes(h))
    ensures HEADER_LEN <= |bytes| && ReadHeader(bytes) == h
  {
    hide U32s, U64s, HeaderBytes, U32At, U64At;
    HeaderParts(bytes, h);
    SixWords(bytes, 8, h.formatVersion, h.endianMarker, h.fileKind, h.headerLen, h.codecVersion, h.sectionCount);
    FourLongs(bytes, 32, h.codecOffset, h.codecLen, h.sectionTableOffset, h.fileLen);
  }

  ghost predicate DescriptorInRange(d: SectionDescriptor) {
    d.offset <= USIZE_MAX && d.byteLen <= USIZE_MAX && d.elementCount <= USIZE_MAX
  }

  /** The section entry round trip. */
  lemma EntryRoundTrip(bytes: seq<Byte>, at: nat, d: SectionDescriptor)
    requires DescriptorInRange(d) && At(bytes, at, EntryBytes(d))
    ensures at + SECTION_ENTRY_LEN <= |bytes|
    ensures ReadEntry(bytes, at) == DiskEntry(d.kind.Code(), 0, d.offset, d.byteLen, d.elementCount)
  {
    hide U32s, U64s, U32At, U64At, At;
    var words, longs := U32s([d.kind.Code(), 0]), U64s([d.offset, d.byteLen, d.elementCount]);
    AtMiddle([], words, longs);
    AtMiddle(words, longs, []);
    assert EntryBytes(d) == [] + words + longs == words + longs + [];
    AtPart(bytes, at, EntryBytes(d), 0, words);
    AtPart(bytes, at, EntryBytes(d), 8, longs);
    AtFits(bytes, at, EntryBytes(d));
    U32Written(bytes, at, [d.kind.Code(), 0], 0);
    U32Written(bytes, at, [d.kind.Code(), 0], 1);
    U64Written(bytes, at + 8, [d.offset, d.byteLen, d.elementCount], 0);
    U64Written(bytes, at + 8, [d.offset, d.byteLen, d.elementCount], 1);
    U64Written(bytes, at + 8, [d.offset, d.byteLen, d.elementCount], 2);
  }

  lemma {:induction false} TableEntry(descriptors: seq<SectionDescriptor>, i: nat)
    requires i < |descriptors|
    ensures At(TableBytes(descriptors), SECTION_ENTRY_LEN * i, EntryBytes(descriptors[i]))
  {
    hide EntryBytes, At;
    var first, rest := EntryBytes(descriptors[0]), TableBytes(descriptors[1..]);
    if i == 0 {
      AtMiddle([], first, rest);
      assert [] + first + rest == TableBytes(descriptors);
    } else {
      TableEntry(descriptors[1..], i - 1);
      AtMiddle(first, rest, []);
      assert first + rest + [] == TableBytes(descriptors);
      AtPart(TableBytes(descriptors), SECTION_ENTRY_LEN, rest, SECTION_ENTRY_LEN * (i - 1), EntryBytes(descriptors[i]));
    }
  }

  lemma TableIsListed(bytes: seq<Byte>, table: nat, descriptors: seq<SectionDescriptor>, i: nat)
    requires At(bytes, table, TableBytes(descriptors)) && i < |descriptors| && DescriptorInRange(descriptors[i])
    ensures Lists(bytes, table, i, descriptors[i])
  {
    hide TableBytes, EntryBytes, ReadEntry, At;
    TableEntry(descriptors, i);
    AtPart(bytes, table, TableBytes(descriptors), SECTION_ENTRY_LEN * i, EntryBytes(descriptors[i]));
    EntryRoundTrip(bytes, table + SECTION_ENTRY_LEN * i, descriptors[i]);
  }

  // ----- Where the sections are placed -----

  lemma {:induction false} PayloadLength(sections: seq<Section>, cursor: nat)
    ensures cursor + |PayloadBytes(sections, cursor)| == PlaceEnd(sections, cursor)
    decreases |sections|
  {
    hide *;
    if sections == [] {
      NothingLeft(cursor);
    } else {
      PlaceStep(sections, 0, cursor);
      assert sections[0..] == sections;
      PlacedLength(sections[0], cursor);
      var d := Placed(sections[0], cursor);
      PayloadLength(sections[1..], d.offset + d.byteLen);
    }
  }

  /** Every section keeps its kind and size, starts aligned, and lies between the
      start and the end of the payloads. */
  lemma {:induction false} PlacedAt(sections: seq<Section>, cursor: nat, i: nat)
    requires i < |sections|
    ensures var d := Place(sections, cursor)[i];
            && d.kind == sections[i].0 && d.byteLen == sections[i].1.ByteLen()
            && d.elementCount == sections[i].1.ElementCount()
            && d.offset % sections[i].0.Alignment() == 0
            && cursor <= d.offset && d.offset + d.byteLen <= PlaceEnd(sections, cursor)
  {
    hide AlignUp;
    var d := Placed(sections[0], cursor);
    AlignUpIsAligned(cursor, sections[0].0.Alignment());
    if i == 0 {
      PlaceEndGrows(sections[1..], d.offset + d.byteLen);
    } else {
      PlacedAt(sections[1..], d.offset + d.byteLen, i - 1);
    }
  }

  /** Sections do not overlap. */
  lemma {:induction false} PlacedInOrder(sections: seq<Section>, cursor: nat, i: nat, j: nat)
    requires i < j < |sections|
    ensures var ds := Place(sections, cursor);
            ds[i].offset + ds[i].byteLen <= ds[j].offset
  {
    hide AlignUp;
    var d := Placed(sections[0], cursor);
    if i == 0 {
      PlacedAt(sections[1..], d.offset + d.byteLen, j - 1);
    } else {
      PlacedInOrder(sections[1..], d.offset + d.byteLen, i - 1, j - 1);
    }
  }

  /** The bytes of a section stand at its offset. */
  lemma {:induction false} PayloadAt(before: seq<Byte>, sections: seq<Section>, i: nat)
    requires i < |sections|
    ensures At(before + PayloadBytes(sections, |before|), Place(sections, |before|)[i].offset, sections[i].1.Encoded())
    decreases |sections|
  {
    hide *;
    PlaceStep(sections, 0, |before|);
    assert sections[0..] == sections;
    var d := Placed(sections[0], |before|);
    var padding, payload := Zeros(d.offset - |before|), sections[0].1.Encoded();
    var rest := PayloadBytes(sections[1..], d.offset + d.byteLen);
    assert before + (padding + payload + rest) == (before + padding) + payload + rest;
    if i == 0 {
      AtMiddle(before + padding, payload, rest);
    } else {
      PlacedLength(sections[0], |before|);
      PayloadAt(before + padding + payload, sections[1..], i - 1);
      assert (before + padding) + payload + rest == (before + padding + payload) + rest;
    }
  }

  lemma PlacedLength(section: Section, cursor: nat)
    ensures Placed(section, cursor).byteLen == |section.1.Encoded()|
  {
  }

  // ----- The written file -----

  /** The data is of the shape the section kind promises. */
  ghost predicate Suits(section: Section) {
    && section.1.ElementCount() <= USIZE_MAX
    && match section.0
       case VocabularyTokenBlob | EmbeddingTokenBlob | CostMetadata => section.1.Blob?
       case VocabularyTokenOffsets | EmbeddingTokenOffsets | SequenceOffsets | PostingOffsets => section.1.U64Array?
       case CorpusSymbols => section.1.SymbolArray?
       case PostingsSection => section.1.PostingArray?
       case Embeddings => false
  }

  /** What the callers of the writer keep. */
  ghost predicate Writable(codec: CodecTag, sections: seq<Section>) {
    && |codec.id| <= MAX_CODEC_ID_LEN && codec.version <= U32_MAX && |sections| <= U32_MAX
    && FileLen(codec, sections) <= USIZE_MAX
    && (forall i :: 0 <= i < |sections| ==> Suits(sections[i]))
    && (forall i, j :: 0 <= i < j < |sections| ==> sections[i].0 != sections[j].0)
  }

  lemma FrontParts(kind: FileKind, codec: CodecTag, sections: seq<Section>)
    ensures |FrontBytes(kind, codec, sections)| == PayloadStart(codec, |sections|)
    ensures var front := FrontBytes(kind, codec, sections);
            && At(front, 0, HeaderBytes(HeaderOf(kind, codec, sections)))
            && At(front, HEADER_LEN, codec.id)
            && At(front, TableOffset(codec), TableBytes(DescriptorsOf(codec, sections)))
  {
    hide AlignUp, At, HeaderBytes, TableBytes, Place, PlaceEnd, Zeros;
    AlignUpIsAligned(HEADER_LEN + |codec.id|, 8);
    FourParts(
      HeaderBytes(HeaderOf(kind, codec, sections)), codec.id, Zeros(TableOffset(codec) - HEADER_LEN - |codec.id|),
      TableBytes(DescriptorsOf(codec, sections)));
  }

  lemma FourParts(a: seq<Byte>, b: seq<Byte>, c: seq<Byte>, d: seq<Byte>)
    ensures At(a + b + c + d, 0, a) && At(a + b + c + d, |a|, b) && At(a + b + c + d, |a| + |b| + |c|, d)
  {
  }

  lemma AtExtended(front: seq<Byte>, rest: seq<Byte>, offset: nat, content: seq<Byte>)
    requires At(front, offset, content)
    ensures At(front + rest, offset, content)
  {
    assert (front + rest)[offset..offset + |content|] == front[offset..offset + |content|];
  }

  /** The header, the codec and the table stand where the header says. */
  lemma FileParts(kind: FileKind, codec: CodecTag, sections: seq<Section>)
    ensures var file := FileBytes(kind, codec, sections);
            && |file| == FileLen(codec, sections)
            && At(file, 0, HeaderBytes(HeaderOf(kind, codec, sections)))
            && At(file, HEADER_LEN, codec.id)
            && At(file, TableOffset(codec), TableBytes(DescriptorsOf(codec, sections)))
            && PayloadStart(codec, |sections|) <= |file|
  {
    hide At, HeaderBytes, TableBytes, DescriptorsOf, FrontBytes, PayloadStart, PlaceEnd, PayloadBytes, TableOffset;
    FrontParts(kind, codec, sections);
    var front, rest := FrontBytes(kind, codec, sections), PayloadBytes(sections, PayloadStart(codec, |sections|));
    PayloadLength(sections, PayloadStart(codec, |sections|));
    AtExtended(front, rest, 0, HeaderBytes(HeaderOf(kind, codec, sections)));
    AtExtended(front, rest, HEADER_LEN, codec.id);
    AtExtended(front, rest, TableOffset(codec), TableBytes(DescriptorsOf(codec, sections)));
  }

  /** Every section reads back as the bytes it was written from. */
  lemma SectionIsWritten(kind: FileKind, codec: CodecTag, sections: seq<Section>, i: nat)
    requires i < |sections|
    ensures var d := DescriptorsOf(codec, sections)[i];
            && At(FileBytes(kind, codec, sections), d.offset, sections[i].1.Encoded())
            && d.kind == sections[i].0 && d.byteLen == sections[i].1.ByteLen()
            && d.elementCount == sections[i].1.ElementCount()
            && PayloadStart(codec, |sections|) <= d.offset
            && d.offset + d.byteLen <= FileLen(codec, sections)
            && d.offset % sections[i].0.Alignment() == 0
  {
    hide At, FrontBytes, PayloadStart, Place, PlaceEnd, PayloadBytes;
    FrontParts(kind, codec, sections);
    PayloadAt(FrontBytes(kind, codec, sections), sections, i);
    PlacedAt(sections, PayloadStart(codec, |sections|), i);
  }

  lemma SectionSuits(section: Section, d: SectionDescriptor)
    requires Suits(section) && d.kind == section.0 && d.offset % section.0.Alignment() == 0
    requires d.byteLen == section.1.ByteLen() && d.elementCount == section.1.ElementCount()
    ensures TypedFits(d.kind, d.offset, d.byteLen, d.elementCount)
  {
  }

  /** The table of a written file fits. */
  lemma WrittenTableFits(kind: FileKind, codec: CodecTag, sections: seq<Section>)
    requires Writable(codec, sections)
    ensures TableFits(FileBytes(kind, codec, sections), TableOffset(codec), DescriptorsOf(codec, sections))
  {
    hide FileBytes, FileLen, DescriptorsOf, Lists, TypedFits, TableOffset, At, PayloadStart, TableBytes, HeaderBytes;
    hide HeaderOf;
    var file, ds := FileBytes(kind, codec, sections), DescriptorsOf(codec, sections);
    DescriptorCount(codec, sections);
    FileParts(kind, codec, sections);
    forall i | 0 <= i < |ds|
      ensures Lists(file, TableOffset(codec), i, ds[i]) && SectionFits(file, ds[i]) && ds[i].kind == sections[i].0
    {
      SectionIsWritten(kind, codec, sections, i);
      SectionSuits(sections[i], ds[i]);
      TableIsListed(file, TableOffset(codec), ds, i);
    }
  }

  lemma DescriptorCount(codec: CodecTag, sections: seq<Section>)
    ensures |DescriptorsOf(codec, sections)| == |sections|
  {
  }

  // ----- Every byte of a written file -----

  /** The header fields at their places. */
  lemma WrittenHeader(kind: FileKind, codec: CodecTag, sections: seq<Section>)
    requires Writable(codec, sections)
    ensures var file := FileBytes(kind, codec, sections);
            && 64 <= |file| && file[..8] == [89, 85, 82, 73, 78, 69, 0, 0]
            && U32At(file, 8) == 1 && U32At(file, 12) == 0x0102_0304 && U32At(file, 16) == kind.Code()
            && U32At(file, 20) == 64 && U32At(file, 24) == codec.version && U32At(file, 28) == |sections|
            && U64At(file, 32) == 64 && U64At(file, 40) == |codec.id| && U64At(file, 56) == |file|
    ensures var file := FileBytes(kind, codec, sections);
            var table := U64At(file, 48);
            && 64 + |codec.id| <= table < 64 + |codec.id| + 8 && table % 8 == 0
            && table == TableOffset(codec) && table + 32 * |sections| <= |file| && At(file, 64, codec.id)
  {
    hide FileBytes, TableBytes, HeaderBytes, PlaceEnd, Suits, AlignUp, DescriptorsOf, U32At, U64At;
    var file, h := FileBytes(kind, codec, sections), HeaderOf(kind, codec, sections);
    FileParts(kind, codec, sections);
    AlignUpIsAligned(HEADER_LEN + |codec.id|, 8);
    HeaderRoundTrip(file, h);
  }

  /** The fields of a table entry at their places. */
  lemma WrittenEntry(kind: FileKind, codec: CodecTag, sections: seq<Section>, i: nat)
    requires Writable(codec, sections) && i < |sections|
    ensures var file, d := FileBytes(kind, codec, sections), DescriptorsOf(codec, sections)[i];
            var entry := TableOffset(codec) + 32 * i;
            && entry + 32 <= |file|
            && U32At(file, entry) == sections[i].0.Code() && U32At(file, entry + 4) == 0
            && U64At(file, entry + 8) == d.offset && U64At(file, entry + 16) == d.byteLen
            && U64At(file, entry + 24) == d.elementCount
            && d.byteLen == |sections[i].1.Encoded()| && At(file, d.offset, sections[i].1.Encoded())
  {
    hide FileBytes, FileLen, DescriptorsOf, SectionFits, TableOffset, At, PayloadStart, U32At, U64At;
    DescriptorCount(codec, sections);
    WrittenTableFits(kind, codec, sections);
    SectionIsWritten(kind, codec, sections, i);
    assert Lists(FileBytes(kind, codec, sections), TableOffset(codec), i, DescriptorsOf(codec, sections)[i]);
  }

  /** Every section starts at the first suitable offset after the one before it. */
  lemma {:induction false} PlacedTightly(sections: seq<Section>, cursor: nat, i: nat)
    requires i < |sections|
    ensures var ds := Place(sections, cursor);
            var previous := if i == 0 then cursor else ds[i - 1].offset + ds[i - 1].byteLen;
            && previous <= ds[i].offset < previous + sections[i].0.Alignment()
            && (i + 1 == |sections| ==> PlaceEnd(sections, cursor) == ds[i].offset + ds[i].byteLen)
  {
    hide AlignUp;
    var d := Placed(sections[0], cursor);
    AlignUpIsAligned(cursor, sections[0].0.Alignment());
    if i > 0 {
      PlacedTightly(sections[1..], d.offset + d.byteLen, i - 1);
    }
  }

  /** The byte belongs to none of these sections. */
  ghost predicate Between(ds: seq<SectionDescriptor>, p: nat) {
    forall i :: 0 <= i < |ds| ==> !(ds[i].offset <= p < ds[i].offset + ds[i].byteLen)
  }

  lemma BetweenRest(d: SectionDescriptor, rest: seq<SectionDescriptor>, p: nat)
    requires Between([d] + rest, p)
    ensures Between(rest, p) && !(d.offset <= p < d.offset + d.byteLen)
  {
    var ds := [d] + rest;
    assert ds[0] == d;
    forall i | 0 <= i < |rest|
      ensures !(rest[i].offset <= p < rest[i].offset + rest[i].byteLen)
    {
      assert ds[i + 1] == rest[i];
    }
  }

  lemma PaddedByte(n: nat, payload: seq<Byte>, rest: seq<Byte>, k: nat)
    ensures k < n ==> (Zeros(n) + payload + rest)[k] == 0
    ensures n + |payload| <= k < n + |payload| + |rest| ==>
      (Zeros(n) + payload + rest)[k] == rest[k - n - |payload|]
  {
  }

  lemma {:induction false} PayloadPadding(sections: seq<Section>, cursor: nat, p: nat)
    requires cursor <= p < PlaceEnd(sections, cursor) && Between(Place(sections, cursor), p)
    ensures cursor + |PayloadBytes(sections, cursor)| == PlaceEnd(sections, cursor)
    ensures PayloadBytes(sections, cursor)[p - cursor] == 0
    decreases |sections|
  {
    hide *;
    PayloadLength(sections, cursor);
    NothingLeft(cursor);
    if sections != [] {
      assert sections[0..] == sections;
      PlaceStep(sections, 0, cursor);
      var d := Placed(sections[0], cursor);
      var end := d.offset + d.byteLen;
      var rest := PayloadBytes(sections[1..], end);
      PlacedLength(sections[0], cursor);
      PayloadLength(sections[1..], end);
      BetweenRest(d, Place(sections[1..], end), p);
      PaddedByte(d.offset - cursor, sections[0].1.Encoded(), rest, p - cursor);
      if end <= p {
        PayloadPadding(sections[1..], end, p);
      }
    }
  }

  /** Whatever is not header, codec identifier, table or section is zero. */
  lemma PaddingIsZero(kind: FileKind, codec: CodecTag, sections: seq<Section>, p: nat)
    requires p < FileLen(codec, sections) && 64 + |codec.id| <= p
    requires !(TableOffset(codec) <= p < TableOffset(codec) + 32 * |sections|)
    requires Between(DescriptorsOf(codec, sections), p)
    ensures |FileBytes(kind, codec, sections)| == FileLen(codec, sections)
    ensures FileBytes(kind, codec, sections)[p] == 0
  {
    hide AlignUp, HeaderBytes, TableBytes, Place, PlaceEnd, PayloadBytes;
    var start := PayloadStart(codec, |sections|);
    AlignUpIsAligned(HEADER_LEN + |codec.id|, 8);
    PayloadLength(sections, start);
    FrontParts(kind, codec, sections);
    if start <= p {
      PayloadPadding(sections, start, p);
    }
  }

  // ----- The regions are apart -----

  /** Regions that follow one another, and sections beyond them, share no byte. */
  lemma RegionsApart(bytes: seq<Byte>, sections: map<SectionKind, SectionDescriptor>, start: nat)
    requires HEADER_LEN <= |bytes| && HEADER_LEN <= U64At(bytes, 32)
    requires U64At(bytes, 32) + U64At(bytes, 40) <= U64At(bytes, 48)
    requires U64At(bytes, 48) + SECTION_ENTRY_LEN * U32At(bytes, 28) <= start
    requires KindsApart(sections) && forall kind :: kind in sections ==> start <= sections[kind].offset
    ensures NoByteShared(bytes, sections)
  {
    hide U64At, U32At;
    forall a, b, p: nat | a in sections && b in sections && a != b
      ensures !(InSection(sections, a, p) && InSection(sections, b, p))
    {
      assert Apart(RangeOf(sections[a]), RangeOf(sections[b]));
    }
  }

  lemma WrittenKindsApart(codec: CodecTag, sections: seq<Section>)
    requires Writable(codec, sections)
    ensures KindsApart(Collected(DescriptorsOf(codec, sections)))
    ensures forall kind :: kind in Collected(DescriptorsOf(codec, sections)) ==>
      PayloadStart(codec, |sections|) <= Collected(DescriptorsOf(codec, sections))[kind].offset
  {
    hide Place, PlaceEnd, Collected, PayloadStart, Suits;
    var ds, start := DescriptorsOf(codec, sections), PayloadStart(codec, |sections|);
    var collected := Collected(ds);
    forall kind | kind in collected
      ensures start <= collected[kind].offset
    {
      CollectedKinds(ds, kind);
      var i :| 0 <= i < |ds| && ds[i] == collected[kind];
      PlacedAt(sections, start, i);
    }
    forall a, b | a in collected && b in collected && a != b
      ensures Apart(RangeOf(collected[a]), RangeOf(collected[b]))
    {
      CollectedKinds(ds, a);
      CollectedKinds(ds, b);
      var i :| 0 <= i < |ds| && ds[i] == collected[a];
      var j :| 0 <= j < |ds| && ds[j] == collected[b];
      if i < j {
        PlacedInOrder(sections, start, i, j);
      } else {
        PlacedInOrder(sections, start, j, i);
      }
    }
  }

  // ----- The claim -----

  /** The layout of a written file keeps every structural promise: the recorded
      length is exact, the sections are in the file, aligned and of different
      kinds, and no two regions share a byte. */
  lemma WrittenLayoutIsValid(kind: FileKind, codec: CodecTag, sections: seq<Section>)
    requires Writable(codec, sections)
    ensures ValidLayout(FileBytes(kind, codec, sections), kind, codec, DescriptorsOf(codec, sections))
  {
    hide FileBytes, DescriptorsOf, TableFits, NoByteShared, Collected, HeaderBytes, TableBytes, PlaceEnd, Suits;
    var file, h := FileBytes(kind, codec, sections), HeaderOf(kind, codec, sections);
    FileParts(kind, codec, sections);
    AlignUpIsAligned(HEADER_LEN + |codec.id|, 8);
    HeaderRoundTrip(file, h);
    DescriptorCount(codec, sections);
    WrittenTableFits(kind, codec, sections);
    WrittenKindsApart(codec, sections);
    RegionsApart(file, Collected(DescriptorsOf(codec, sections)), PayloadStart(codec, |sections|));
  }

  /** Looking a written section up by its kind gives back its bytes. */
  lemma WrittenSection(kind: FileKind, codec: CodecTag, sections: seq<Section>, i: nat)
    requires Writable(codec, sections) && i < |sections|
    ensures var found := Collected(DescriptorsOf(codec, sections));
            && sections[i].0 in found
            && var d := found[sections[i].0];
               && At(FileBytes(kind, codec, sections), d.offset, sections[i].1.Encoded())
               && d.byteLen == sections[i].1.ByteLen() && d.elementCount == sections[i].1.ElementCount()
  {
    hide FileBytes, DescriptorsOf, At, Collected, PayloadStart, FileLen, Suits;
    var ds := DescriptorsOf(codec, sections);
    DescriptorCount(codec, sections);
    forall j | 0 <= j < |ds|
      ensures ds[j].kind == sections[j].0
    {
      SectionIsWritten(kind, codec, sections, j);
    }
    SectionIsWritten(kind, codec, sections, i);
    CollectedLookup(ds, i);
  }

  /** The file holds exactly the written kinds. */
  lemma WrittenKinds(kind: FileKind, codec: CodecTag, sections: seq<Section>, wanted: SectionKind)
    ensures wanted in Collected(DescriptorsOf(codec, sections)) <==>
      exists i :: 0 <= i < |sections| && sections[i].0 == wanted
  {
    hide FileBytes, DescriptorsOf, At, Collected, PayloadStart, FileLen;
    var ds := DescriptorsOf(codec, sections);
    DescriptorCount(codec, sections);
    forall j | 0 <= j < |ds|
      ensures ds[j].kind == sections[j].0
    {
      SectionIsWritten(kind, codec, sections, j);
    }
    CollectedKinds(ds, wanted);
    assert forall i :: 0 <= i < |sections| && sections[i].0 == wanted ==> ds[i].kind == wanted;
  }
}
