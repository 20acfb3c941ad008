/** The version 1 file format: header, section table, payloads, and the writer. */
module FileLayout {
  import opened Wrappers
  import opened Types
  import opened Bytes

  /** The letters YURINE and two zero bytes. */
  const MAGIC: seq<Byte> := [89, 85, 82, 73, 78, 69, 0, 0]
  const FORMAT_VERSION: nat := 1
  const ENDIAN_MARKER: nat := 0x0102_0304
  const HEADER_LEN: nat := 64
  const SECTION_ENTRY_LEN: nat := 32
  const MAX_CODEC_ID_LEN: nat := 255

  datatype FileKind = SearchEngineFile | EmbeddingStoreFile | LevenshteinCostsFile | CustomCostsFile | CosineCostsFile {
    function Code(): nat {
      match this
      case SearchEngineFile => 1
      case EmbeddingStoreFile => 2
      case LevenshteinCostsFile => 3
      case CustomCostsFile => 4
      case CosineCostsFile => 5
    }
  }

  function FileKindFromRaw(raw: nat): Result<FileKind> {
    match raw
    case 1 => Ok(SearchEngineFile)
    case 2 => Ok(EmbeddingStoreFile)
    case 3 => Ok(LevenshteinCostsFile)
    case 4 => Ok(CustomCostsFile)
    case 5 => Ok(CosineCostsFile)
    case _ => Err(InvalidFile("unknown file kind"))
  }

  datatype SectionKind =
    | VocabularyTokenOffsets
    | VocabularyTokenBlob
    | SequenceOffsets
    | CorpusSymbols
    | PostingOffsets
    | PostingsSection
    | EmbeddingTokenOffsets
    | EmbeddingTokenBlob
    | Embeddings
    | CostMetadata
  {
    function Code(): (code: nat)
      ensures SectionKindFromRaw(code) == Ok(this)
    {
      match this
      case VocabularyTokenOffsets => 1
      case VocabularyTokenBlob => 2
      case SequenceOffsets => 3
      case CorpusSymbols => 4
      case PostingOffsets => 5
      case PostingsSection => 6
      case EmbeddingTokenOffsets => 7
      case EmbeddingTokenBlob => 8
      case Embeddings => 9
      case CostMetadata => 10
    }

    /** Size and alignment of the elements of a fixed-width section. */
    function ElementLayout(): Option<(nat, nat)> {
      match this
      case VocabularyTokenBlob | EmbeddingTokenBlob | CostMetadata => None
      case VocabularyTokenOffsets | EmbeddingTokenOffsets | SequenceOffsets | PostingOffsets => Some((8, 8))
      case CorpusSymbols => Some((4, 4))
      case PostingsSection => Some((8, 4))
      case Embeddings => Some((4, 4))
    }

    function Alignment(): (r: nat)
      ensures r == 1 || r == 4 || r == 8
    {
      match ElementLayout()
      case None => 1
      case Some((_, alignment)) => alignment
    }
  }

  function SectionKindFromRaw(raw: nat): Result<SectionKind> {
    match raw
    case 1 => Ok(VocabularyTokenOffsets)
    case 2 => Ok(VocabularyTokenBlob)
    case 3 => Ok(SequenceOffsets)
    case 4 => Ok(CorpusSymbols)
    case 5 => Ok(PostingOffsets)
    case 6 => Ok(PostingsSection)
    case 7 => Ok(EmbeddingTokenOffsets)
    case 8 => Ok(EmbeddingTokenBlob)
    case 9 => Ok(Embeddings)
    case 10 => Ok(CostMetadata)
    case _ => Err(InvalidFile("unknown section kind"))
  }

  /** What a file records about the codec of its tokens. */
  datatype CodecTag = CodecTag(id: seq<Byte>, version: nat)

  datatype DiskHeader = DiskHeader(
    magic: seq<Byte>, formatVersion: nat, endianMarker: nat, fileKind: nat, headerLen: nat, codecVersion: nat,
    sectionCount: nat, codecOffset: nat, codecLen: nat, sectionTableOffset: nat, fileLen: nat)

  datatype SectionDescriptor = SectionDescriptor(kind: SectionKind, offset: nat, byteLen: nat, elementCount: nat)

  datatype SectionData =
    | Blob(bytes: seq<Byte>, records: nat)
    | U64Array(offsets: seq<nat>)
    | SymbolArray(symbols: seq<Symbol>)
    | PostingArray(postings: seq<Posting>)
  {
    function ByteLen(): nat {
      match this
      case Blob(bytes, _) => |bytes|
      case U64Array(offsets) => 8 * |offsets|
      case SymbolArray(symbols) => 4 * |symbols|
      case PostingArray(postings) => 8 * |postings|
    }

    function ElementCount(): nat {
      match this
      case Blob(_, records) => records
      case U64Array(offsets) => |offsets|
      case SymbolArray(symbols) => |symbols|
      case PostingArray(postings) => |postings|
    }

    /** The bytes written for this section. */
    function Encoded(): (r: seq<Byte>)
      ensures |r| == ByteLen()
    {
      match this
      case Blob(bytes, _) => bytes
      case U64Array(offsets) => U64s(offsets)
      case SymbolArray(symbols) => U32s(symbols)
      case PostingArray(postings) => U32s(PostingWords(postings))
    }
  }

  /** A posting is its string identifier and its position. */
  function PostingWords(postings: seq<Posting>): (r: seq<nat>)
    ensures |r| == 2 * |postings|
  {
    seq(2 * |postings|, i requires 0 <= i < 2 * |postings| =>
      if i % 2 == 0 then postings[i / 2].stringId else postings[i / 2].position)
  }

  type Section = (SectionKind, SectionData)

  // ----- The layout -----

  /** The least multiple of the alignment that is not below the value. */
  function AlignUp(value: nat, alignment: nat): nat
    requires 0 < alignment
  {
    value + (alignment - value % alignment) % alignment
  }

  lemma AlignUpIsAligned(value: nat, alignment: nat)
    requires alignment == 1 || alignment == 4 || alignment == 8
    ensures AlignUp(value, alignment) % alignment == 0
    ensures value <= AlignUp(value, alignment) < value + alignment
  {
    var remainder := value % alignment;
    if alignment == 4 {
      assert (alignment - remainder) % alignment == if remainder == 0 then 0 else 4 - remainder;
    } else if alignment == 8 {
      assert (alignment - remainder) % alignment == if remainder == 0 then 0 else 8 - remainder;
    }
  }

  /** The section that starts at the first aligned offset from the cursor on. */
  function Placed(section: Section, cursor: nat): SectionDescriptor {
    SectionDescriptor(
      section.0, AlignUp(cursor, section.0.Alignment()), section.1.ByteLen(), section.1.ElementCount())
  }

  /** The descriptors of sections written one after the other. */
  function Place(sections: seq<Section>, cursor: nat): (r: seq<SectionDescriptor>)
    ensures |r| == |sections|
  {
    if sections == [] then []
    else
      var d := Placed(sections[0], cursor);
      [d] + Place(sections[1..], d.offset + d.byteLen)
  }

  /** Where the last section ends. */
  function PlaceEnd(sections: seq<Section>, cursor: nat): nat {
    if sections == [] then cursor
    else
      var d := Placed(sections[0], cursor);
      PlaceEnd(sections[1..], d.offset + d.byteLen)
  }

  function Zeros(n: nat): (r: seq<Byte>)
    ensures |r| == n
  {
    seq(n, _ => 0)
  }

  function HeaderBytes(h: DiskHeader): (r: seq<Byte>)
    requires |h.magic| == 8
    ensures |r| == HEADER_LEN
  {
    h.magic
    + U32s([h.formatVersion, h.endianMarker, h.fileKind, h.headerLen, h.codecVersion, h.sectionCount])
    + U64s([h.codecOffset, h.codecLen, h.sectionTableOffset, h.fileLen])
  }

  function EntryBytes(d: SectionDescriptor): (r: seq<Byte>)
    ensures |r| == SECTION_ENTRY_LEN
  {
    U32s([d.kind.Code(), 0]) + U64s([d.offset, d.byteLen, d.elementCount])
  }

  function TableBytes(descriptors: seq<SectionDescriptor>): (r: seq<Byte>)
    ensures |r| == SECTION_ENTRY_LEN * |descriptors|
  {
    if descriptors == [] then [] else EntryBytes(descriptors[0]) + TableBytes(descriptors[1..])
  }

  /** Padding and payload of every section. */
  function PayloadBytes(sections: seq<Section>, cursor: nat): seq<Byte> {
    if sections == [] then []
    else
      var d := Placed(sections[0], cursor);
      Zeros(d.offset - cursor) + sections[0].1.Encoded() + PayloadBytes(sections[1..], d.offset + d.byteLen)
  }

  function TableOffset(codec: CodecTag): nat {
    AlignUp(HEADER_LEN + |codec.id|, 8)
  }

  /** Where the section table ends and the payloads may begin. */
  function PayloadStart(codec: CodecTag, sectionCount: nat): nat {
    TableOffset(codec) + SECTION_ENTRY_LEN * sectionCount
  }

  function FileLen(codec: CodecTag, sections: seq<Section>): nat {
    PlaceEnd(sections, PayloadStart(codec, |sections|))
  }

  function HeaderOf(kind: FileKind, codec: CodecTag, sections: seq<Section>): DiskHeader {
    DiskHeader(
      MAGIC, FORMAT_VERSION, ENDIAN_MARKER, kind.Code(), HEADER_LEN, codec.version, |sections|,
      HEADER_LEN, |codec.id|, TableOffset(codec), FileLen(codec, sections))
  }

  function DescriptorsOf(codec: CodecTag, sections: seq<Section>): seq<SectionDescriptor> {
    Place(sections, PayloadStart(codec, |sections|))
  }

  /** Header, codec identifier, padding and section table. */
  function FrontBytes(kind: FileKind, codec: CodecTag, sections: seq<Section>): seq<Byte> {
    HeaderBytes(HeaderOf(kind, codec, sections))
    + codec.id
    + Zeros(TableOffset(codec) - HEADER_LEN - |codec.id|)
    + TableBytes(DescriptorsOf(codec, sections))
  }

  /** The whole file. */
  function FileBytes(kind: FileKind, codec: CodecTag, sections: seq<Section>): seq<Byte> {
    FrontBytes(kind, codec, sections) + PayloadBytes(sections, PayloadStart(codec, |sections|))
  }

  lemma {:induction false} PlaceEndGrows(sections: seq<Section>, cursor: nat)
    ensures cursor <= PlaceEnd(sections, cursor)
  {
    if sections != [] {
      var d := Placed(sections[0], cursor);
      PlaceEndGrows(sections[1..], d.offset + d.byteLen);
    }
  }

  // ----- The writer -----

  lemma Associative(before: seq<SectionDescriptor>, d: SectionDescriptor, rest: seq<SectionDescriptor>)
    ensures (before + [d]) + rest == before + ([d] + rest)
  {
  }

  method PlaceSections(sections: seq<Section>, start: nat) returns (r: Result<(seq<SectionDescriptor>, nat)>)
    requires start <= USIZE_MAX
    ensures r.Ok? <==> PlaceEnd(sections, start) <= USIZE_MAX
    ensures r.Ok? ==> r.value == (Place(sections, start), PlaceEnd(sections, start))
  {
    hide *;
    var cursor: nat := start;
    var descriptors: seq<SectionDescriptor> := [];
    assert sections[0..] == sections;
    for k := 0 to |sections|
      invariant cursor <= USIZE_MAX
      invariant descriptors + Place(sections[k..], cursor) == Place(sections, start)
      invariant PlaceEnd(sections, start) == PlaceEnd(sections[k..], cursor)
    {
      PlaceStep(sections, k, cursor);
      var d := Placed(sections[k], cursor);
      ghost var rest := Place(sections[k + 1..], d.offset + d.byteLen);
      PlaceEndGrows(sections[k + 1..], d.offset + d.byteLen);
      if d.offset > USIZE_MAX {
        return Err(InvalidFile("file alignment overflows"));
      }
      if d.offset + d.byteLen > USIZE_MAX {
        return Err(InvalidFile("file length overflows"));
      }
      Associative(descriptors, d, rest);
      cursor := d.offset + d.byteLen;
      descriptors := descriptors + [d];
    }
    NothingLeft(cursor);
    assert sections[|sections|..] == [] && descriptors + [] == descriptors;
    return Ok((descriptors, cursor));
  }

  method WritePadding(output: seq<Byte>, len: nat) returns (r: seq<Byte>)
    ensures r == output + Zeros(len)
  {
    r := output;
    var remaining: nat := len;
    while remaining != 0
      invariant remaining <= len && r == output + Zeros(len - remaining)
    {
      var chunk := if remaining < 64 then remaining else 64;
      r := r + Zeros(chunk);
      remaining := remaining - chunk;
    }
  }

  method WriteTable(output: seq<Byte>, descriptors: seq<SectionDescriptor>) returns (r: seq<Byte>)
    ensures r == output + TableBytes(descriptors)
  {
    hide EntryBytes;
    r := output;
    for k := 0 to |descriptors|
      invariant r + TableBytes(descriptors[k..]) == output + TableBytes(descriptors)
    {
      assert descriptors[k..][0] == descriptors[k] && descriptors[k..][1..] == descriptors[k + 1..];
      ghost var rest := TableBytes(descriptors[k + 1..]);
      assert r + (EntryBytes(descriptors[k]) + rest) == (r + EntryBytes(descriptors[k])) + rest;
      r := r + EntryBytes(descriptors[k]);
    }
  }

  lemma PlaceStep(sections: seq<Section>, k: nat, cursor: nat)
    requires k < |sections|
    ensures var d := Placed(sections[k], cursor);
            && cursor <= d.offset
            && Place(sections[k..], cursor) == [d] + Place(sections[k + 1..], d.offset + d.byteLen)
            && PlaceEnd(sections[k..], cursor) == PlaceEnd(sections[k + 1..], d.offset + d.byteLen)
            && PayloadBytes(sections[k..], cursor) ==
               Zeros(d.offset - cursor) + sections[k].1.Encoded()
               + PayloadBytes(sections[k + 1..], d.offset + d.byteLen)
  {
    AlignUpIsAligned(cursor, sections[k].0.Alignment());
    hide AlignUp;
    assert sections[k..][0] == sections[k] && sections[k..][1..] == sections[k + 1..];
  }

  method WritePayload(output: seq<Byte>, section: Section, d: SectionDescriptor, written: nat, ghost rest: seq<Byte>)
    returns (r: seq<Byte>)
    requires written <= d.offset
    ensures r + rest == output + (Zeros(d.offset - written) + section.1.Encoded() + rest)
  {
    hide *;
    r := WritePadding(output, d.offset - written);
    r := r + section.1.Encoded();
  }

  method WritePayloads(output: seq<Byte>, sections: seq<Section>, descriptors: seq<SectionDescriptor>, start: nat)
    returns (r: seq<Byte>)
    requires descriptors == Place(sections, start)
    ensures r == output + PayloadBytes(sections, start)
  {
    hide *;
    r := output;
    var written: nat := start;
    assert sections[0..] == sections && descriptors[0..] == descriptors;
    for k := 0 to |sections|
      invariant descriptors[k..] == Place(sections[k..], written)
      invariant r + PayloadBytes(sections[k..], written) == output + PayloadBytes(sections, start)
    {
      PlaceStep(sections, k, written);
      var d := descriptors[k];
      assert d == descriptors[k..][0];
      r := WritePayload(r, sections[k], d, written, PayloadBytes(sections[k + 1..], d.offset + d.byteLen));
      written := d.offset + d.byteLen;
      assert descriptors[k + 1..] == descriptors[k..][1..];
    }
    NothingLeft(written);
    assert sections[|sections|..] == [];
  }

  lemma NothingLeft(cursor: nat)
    ensures Place([], cursor) == [] && PlaceEnd([], cursor) == cursor && PayloadBytes([], cursor) == []
  {
  }

  /** Writes a snapshot. Only an over-long codec identifier or a file beyond the
      64-bit range can fail. */
  method WriteFile(kind: FileKind, codec: CodecTag, sections: seq<Section>) returns (r: Result<seq<Byte>>)
    requires |sections| <= U32_MAX
    ensures r.Ok? <==> |codec.id| <= MAX_CODEC_ID_LEN && FileLen(codec, sections) <= USIZE_MAX
    ensures r.Ok? ==> r.value == FileBytes(kind, codec, sections)
    ensures |codec.id| > MAX_CODEC_ID_LEN ==> r == Err(CodecIdTooLong)
  {
    hide AlignUp, Place, PlaceEnd, FileBytes;
    if |codec.id| > MAX_CODEC_ID_LEN {
      return Err(CodecIdTooLong);
    }
    StartIsSmall(codec, |sections|);
    var placed := PlaceSections(sections, PayloadStart(codec, |sections|));
    if placed.Err? {
      return Err(placed.error);
    }
    r := WriteParts(kind, codec, sections, placed.value.0, placed.value.1);
  }

  lemma StartIsSmall(codec: CodecTag, sectionCount: nat)
    requires |codec.id| <= MAX_CODEC_ID_LEN && sectionCount <= U32_MAX
    ensures PayloadStart(codec, sectionCount) <= USIZE_MAX
  {
    AlignUpIsAligned(HEADER_LEN + |codec.id|, 8);
  }

  method WriteParts(
    kind: FileKind, codec: CodecTag, sections: seq<Section>, descriptors: seq<SectionDescriptor>, fileLen: nat)
    returns (r: Result<seq<Byte>>)
    requires descriptors == DescriptorsOf(codec, sections) && fileLen == FileLen(codec, sections)
    ensures r == Ok(FileBytes(kind, codec, sections))
  {
    hide AlignUp, Place, PlaceEnd, PayloadBytes, TableBytes, HeaderBytes, Zeros;
    var tableOffset := TableOffset(codec);
    var header := DiskHeader(
      MAGIC, FORMAT_VERSION, ENDIAN_MARKER, kind.Code(), HEADER_LEN, codec.version, |sections|,
      HEADER_LEN, |codec.id|, tableOffset, fileLen);
    var output := HeaderBytes(header) + codec.id;
    AlignUpIsAligned(HEADER_LEN + |codec.id|, 8);
    output := WritePadding(output, tableOffset - HEADER_LEN - |codec.id|);
    output := WriteTable(output, descriptors);
    output := WritePayloads(output, sections, descriptors, PayloadStart(codec, |sections|));
    return Ok(output);
  }
}
