/** Custom cost policies as files. */
module CostFiles {
  import opened Wrappers
  import opened Types
  import opened Bytes
  import opened Codecs
  import opened CustomCosts
  import opened FileLayout
  import opened FileParser
  import opened WrittenFiles

  function CostSections(metadata: seq<Byte>): seq<Section> {
    [(SectionKind.CostMetadata, Blob(metadata, 1))]
  }

  ghost predicate CostFileWith<T>(codec: Codec<T>, costs: CustomCosts<T>, bytes: seq<Byte>, metadata: seq<Byte>) {
    && SavedAs(codec, costs, metadata) && Writable(codec.Tag(), CostSections(metadata))
    && bytes == FileBytes(CustomCostsFile, codec.Tag(), CostSections(metadata))
  }

  /** The bytes are a saved file of the policy. */
  ghost predicate IsCostFile<T>(codec: Codec<T>, costs: CustomCosts<T>, bytes: seq<Byte>) {
    exists metadata :: CostFileWith(codec, costs, bytes, metadata)
  }

  lemma SingleSectionIsWritable(codec: CodecTag, metadata: seq<Byte>)
    requires |codec.id| <= MAX_CODEC_ID_LEN && codec.version <= U32_MAX
    requires FileLen(codec, CostSections(metadata)) <= USIZE_MAX
    ensures Writable(codec, CostSections(metadata))
  {
    hide FileLen;
  }

  /** No 64-bit file holds the policy. */
  ghost predicate TooLong<T>(codec: Codec<T>, costs: CustomCosts<T>) {
    exists metadata :: SavedAs(codec, costs, metadata) && FileLen(codec.Tag(), CostSections(metadata)) > USIZE_MAX
  }

  /** Saves a policy. Only tokens that do not round-trip, an over-long codec
      identifier or a file beyond the 64-bit range can fail. */
  method SaveWith<T(==)>(codec: Codec<T>, costs: CustomCosts<T>) returns (r: Result<seq<Byte>>)
    requires codec.version <= U32_MAX
    ensures r.Ok? ==> IsCostFile(codec, costs, r.value)
    ensures r.Ok? ==>
      && RulesRoundTrip(codec, costs.substitutions) && RulesRoundTrip(codec, costs.deletions)
      && RulesRoundTrip(codec, costs.insertions)
    ensures r.Err? ==>
      || |codec.id| > MAX_CODEC_ID_LEN || TooLong(codec, costs) || !RulesRoundTrip(codec, costs.substitutions)
      || !RulesRoundTrip(codec, costs.deletions) || !RulesRoundTrip(codec, costs.insertions)
  {
    hide SavedAs, RulesRoundTrip, FileBytes, FileLen, Writable;
    var metadata :- SaveMetadata(codec, costs);
    r := WriteFile(CustomCostsFile, codec.Tag(), CostSections(metadata));
    if r.Ok? {
      SingleSectionIsWritable(codec.Tag(), metadata);
      assert CostFileWith(codec, costs, r.value, metadata);
    }
  }

  /** The numbers by which a cost file names its kind and its section. */
  lemma CostFileNumbers<T>(codec: Codec<T>, costs: CustomCosts<T>, bytes: seq<Byte>)
    requires IsCostFile(codec, costs, bytes)
    ensures 64 <= |bytes| && U32At(bytes, 16) == 4 && U32At(bytes, 28) == 1 && U64At(bytes, 48) + 32 <= |bytes|
    ensures U32At(bytes, U64At(bytes, 48)) == 10
  {
    hide SavedAs, FileBytes, Writable, DescriptorsOf, U32At, U64At, At, TableOffset;
    var metadata :| CostFileWith(codec, costs, bytes, metadata);
    WrittenHeader(CustomCostsFile, codec.Tag(), CostSections(metadata));
    WrittenEntry(CustomCostsFile, codec.Tag(), CostSections(metadata), 0);
  }

  /** Two saves of equal policies write the same bytes. */
  lemma CostFilesAreDeterministic<T>(codec: Codec<T>, costs: CustomCosts<T>, a: seq<Byte>, b: seq<Byte>)
    requires IsCostFile(codec, costs, a) && IsCostFile(codec, costs, b)
    ensures a == b
  {
    hide SavedAs, FileBytes, Writable;
    var first :| CostFileWith(codec, costs, a, first);
    var second :| CostFileWith(codec, costs, b, second);
    SavedBytesAreDetermined(codec, costs, first, second);
  }

  /** The bytes of a section. */
  function SectionBytes(file: PersistedFile, kind: SectionKind): Result<seq<Byte>>
    requires |file.bytes| <= USIZE_MAX
  {
    match file.Section(kind)
    case Err(e) => Err(e)
    case Ok(d) => CheckedRange(file.bytes, d.offset, d.byteLen)
  }

  lemma SectionReadsBack(kind: FileKind, codec: CodecTag, sections: seq<Section>, i: nat)
    requires Writable(codec, sections) && i < |sections|
    ensures var file := PersistedFile(
              FileBytes(kind, codec, sections), kind, Collected(DescriptorsOf(codec, sections)));
            && |file.bytes| <= USIZE_MAX
            && SectionBytes(file, sections[i].0) == Ok(sections[i].1.Encoded())
  {
    hide FileBytes, Collected, DescriptorsOf, FileLen, Suits, HeaderBytes, TableBytes;
    FileParts(kind, codec, sections);
    WrittenSection(kind, codec, sections, i);
  }

  /** What an opened file means. */
  function CostsOf<T(==)>(codec: Codec<T>, file: PersistedFile): Result<CustomCosts<T>>
    requires |file.bytes| <= USIZE_MAX
  {
    var metadata :- SectionBytes(file, SectionKind.CostMetadata);
    ParseMetadata(codec, metadata)
  }

  lemma CostFileOpens<T>(codec: Codec<T>, costs: CustomCosts<T>, bytes: seq<Byte>, metadata: seq<Byte>)
    requires costs.Valid() && CostFileWith(codec, costs, bytes, metadata)
    ensures var ds := DescriptorsOf(codec.Tag(), CostSections(metadata));
            && |bytes| <= USIZE_MAX
            && ValidFile(bytes, CustomCostsFile, codec.Tag(), ds)
            && CostsOf(codec, PersistedFile(bytes, CustomCostsFile, Collected(ds))) == Ok(costs)
  {
    hide FileBytes, Collected, DescriptorsOf, ParseMetadata, ValidLayout, Writable, SavedAs, SectionBytes;
    var tag, sections := codec.Tag(), CostSections(metadata);
    WrittenLayoutIsValid(CustomCostsFile, tag, sections);
    SectionReadsBack(CustomCostsFile, tag, sections, 0);
    forall kind
      ensures kind in Collected(DescriptorsOf(tag, sections)) <==> kind == SectionKind.CostMetadata
    {
      WrittenKinds(CustomCostsFile, tag, sections, kind);
      assert sections[0].0 == SectionKind.CostMetadata;
    }
    SectionWithin(bytes, metadata, CustomCostsFile, tag, sections);
    MetadataRoundTrip(codec, costs, metadata);
  }

  lemma SectionWithin(bytes: seq<Byte>, metadata: seq<Byte>, kind: FileKind, codec: CodecTag, sections: seq<Section>)
    requires sections == CostSections(metadata) && Writable(codec, sections)
    requires bytes == FileBytes(kind, codec, sections)
    ensures |metadata| <= USIZE_MAX
  {
    hide FileBytes, Collected, DescriptorsOf, FileLen, Suits, HeaderBytes, TableBytes;
    FileParts(kind, codec, sections);
    SectionIsWritten(kind, codec, sections, 0);
  }

  /** A well-formed file of this kind whose metadata describes the policy. */
  ghost predicate DescribesPolicy<T(!new)>(codec: Codec<T>, bytes: seq<Byte>, costs: CustomCosts<T>) {
    exists ds ::
      && ValidFile(bytes, CustomCostsFile, codec.Tag(), ds)
      && exists i :: 0 <= i < |ds| && MetadataDescribes(codec, bytes, ds[i], costs)
  }

  ghost predicate MetadataDescribes<T(!new)>(
    codec: Codec<T>, bytes: seq<Byte>, d: SectionDescriptor, costs: CustomCosts<T>)
  {
    && d.kind == SectionKind.CostMetadata && d.offset + d.byteLen <= |bytes|
    && Describes(codec, bytes[d.offset..d.offset + d.byteLen], costs)
  }

  lemma MetadataSection(bytes: seq<Byte>, codec: CodecTag, ds: seq<SectionDescriptor>, i: nat)
    requires ValidLayout(bytes, CustomCostsFile, codec, ds) && |bytes| <= USIZE_MAX
    requires i < |ds| && ds[i].kind == SectionKind.CostMetadata
    ensures ds[i].offset + ds[i].byteLen <= |bytes|
    ensures SectionBytes(PersistedFile(bytes, CustomCostsFile, Collected(ds)), SectionKind.CostMetadata) ==
            Ok(bytes[ds[i].offset..ds[i].offset + ds[i].byteLen])
  {
    hide Collected, ValidLayout, TypedFits;
    ListedSection(bytes, CustomCostsFile, codec, ds, i);
  }

  /** What a valid file means is the policy its metadata describes. */
  lemma PolicyOfFile<T(!new)>(codec: Codec<T>, bytes: seq<Byte>, ds: seq<SectionDescriptor>, costs: CustomCosts<T>)
    requires ValidFile(bytes, CustomCostsFile, codec.Tag(), ds) && |bytes| <= USIZE_MAX
    ensures CostsOf(codec, PersistedFile(bytes, CustomCostsFile, Collected(ds))) == Ok(costs) <==>
            exists i :: 0 <= i < |ds| && MetadataDescribes(codec, bytes, ds[i], costs)
  {
    hide ParseMetadata, Describes, Collected, ValidLayout, SectionBytes, PersistedFile.EmbeddingStoreFits;
    hide PersistedFile.SearchEngineFits;
    var file := PersistedFile(bytes, CustomCostsFile, Collected(ds));
    assert SectionKind.CostMetadata in file.sections;
    var k := FoundSection(bytes, CustomCostsFile, codec.Tag(), ds, SectionKind.CostMetadata);
    forall i: nat | i < |ds| && ds[i].kind == SectionKind.CostMetadata
      ensures CostsOf(codec, file) == Ok(costs) <==> MetadataDescribes(codec, bytes, ds[i], costs)
    {
      MetadataSection(bytes, codec.Tag(), ds, i);
      ParsedIffDescribed(codec, bytes[ds[i].offset..ds[i].offset + ds[i].byteLen], costs);
    }
  }

  /** Parsing and the meaning of what was parsed decide exactly. */
  lemma OpensIffDescribed<T(!new)>(codec: Codec<T>, bytes: seq<Byte>, file: Result<PersistedFile>)
    requires |bytes| <= USIZE_MAX
    requires forall ds :: ValidFile(bytes, CustomCostsFile, codec.Tag(), ds) ==>
      file == Ok(PersistedFile(bytes, CustomCostsFile, Collected(ds)))
    requires file.Ok? ==> exists ds ::
      && ValidFile(bytes, CustomCostsFile, codec.Tag(), ds)
      && file.value == PersistedFile(bytes, CustomCostsFile, Collected(ds))
    ensures forall costs: CustomCosts<T> :: DescribesPolicy(codec, bytes, costs) <==>
      file.Ok? && |file.value.bytes| <= USIZE_MAX && CostsOf(codec, file.value) == Ok(costs)
  {
    hide ValidFile, CostsOf, MetadataDescribes, Collected;
    forall costs: CustomCosts<T>
      ensures DescribesPolicy(codec, bytes, costs) <==>
              file.Ok? && |file.value.bytes| <= USIZE_MAX && CostsOf(codec, file.value) == Ok(costs)
    {
      forall ds | ValidFile(bytes, CustomCostsFile, codec.Tag(), ds)
        ensures CostsOf(codec, PersistedFile(bytes, CustomCostsFile, Collected(ds))) == Ok(costs) <==>
                exists i :: 0 <= i < |ds| && MetadataDescribes(codec, bytes, ds[i], costs)
      {
        PolicyOfFile(codec, bytes, ds, costs);
      }
    }
  }

  /** Opens a policy. Every saved policy comes back unchanged; and from any bytes a
      policy opens exactly when they are a well-formed file that describes it. */
  method OpenWith<T(==, !new)>(codec: Codec<T>, bytes: seq<Byte>) returns (r: Result<CustomCosts<T>>)
    requires |bytes| <= USIZE_MAX
    ensures forall costs: CustomCosts<T> :: costs.Valid() && IsCostFile(codec, costs, bytes) ==> r == Ok(costs)
    ensures forall costs: CustomCosts<T> :: DescribesPolicy(codec, bytes, costs) <==> r == Ok(costs)
    ensures r.Ok? ==> r.value.Valid()
  {
    hide ValidFile, CostFileWith, ParseMetadata, DescribesPolicy, OpensExactly;
    var file := Parse(bytes, CustomCostsFile, codec.Tag());
    OpensIffDescribed(codec, bytes, file);
    forall costs: CustomCosts<T> | costs.Valid() && IsCostFile(codec, costs, bytes)
      ensures file.Ok? && CostsOf(codec, file.value) == Ok(costs)
    {
      var metadata :| CostFileWith(codec, costs, bytes, metadata);
      CostFileOpens(codec, costs, bytes, metadata);
    }
    if file.Err? {
      return Err(file.error);
    }
    var metadata :- SectionBytes(file.value, SectionKind.CostMetadata);
    r := OpenMetadata(codec, metadata);
  }
}
