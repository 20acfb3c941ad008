/** The search engine as a file. */
module EngineSnapshot {
  import opened Wrappers
  import opened Types
  import opened Collections
  import opened Store
  import opened Postings
  import opened Neighborhood
  import opened IndexVerification
  import opened Filtering
  import opened Engine
  import opened Bytes
  import opened Codecs
  import opened FileLayout
  import opened FileParser
  import opened WrittenFiles
  import opened CostFiles
  import V = Vocabulary

  // ----- Token framing -----

  /** The offsets cut the blob into the encodings of the tokens. */
  ghost predicate Frames<T>(codec: Codec<T>, tokens: seq<T>, blob: seq<Byte>, offsets: seq<nat>) {
    && OffsetsFit(offsets, |blob|) && |offsets| == |tokens| + 1
    && forall i :: 0 <= i < |tokens| ==> Framed(codec, tokens[i], blob, offsets[i], offsets[i + 1])
  }

  ghost predicate Framed<T>(codec: Codec<T>, token: T, blob: seq<Byte>, start: nat, end: nat) {
    start <= end <= |blob| && codec.RoundTrips(token) && blob[start..end] == codec.Encoding(token)
  }

  lemma OneMoreFramed<T>(codec: Codec<T>, tokens: seq<T>, blob: seq<Byte>, offsets: seq<nat>, token: T)
    requires Frames(codec, tokens, blob, offsets) && codec.RoundTrips(token)
    ensures var more := blob + codec.Encoding(token);
            Frames(codec, tokens + [token], more, offsets + [|more|])
  {
    var more := blob + codec.Encoding(token);
    var after := offsets + [|more|];
    forall i | 0 <= i < |tokens| + 1
      ensures Framed(codec, (tokens + [token])[i], more, after[i], after[i + 1])
    {
      if i < |tokens| {
        assert Framed(codec, tokens[i], blob, offsets[i], offsets[i + 1]);
        assert more[offsets[i]..offsets[i + 1]] == blob[offsets[i]..offsets[i + 1]];
      }
    }
  }

  /** Encodes the tokens one after the other, recording where each ends. */
  method FrameTokens<T(==)>(codec: Codec<T>, tokens: seq<T>) returns (r: Result<(seq<Byte>, seq<nat>)>)
    ensures r.Ok? <==> forall t :: t in tokens ==> codec.RoundTrips(t)
    ensures r.Ok? ==> Frames(codec, tokens, r.value.0, r.value.1)
  {
    hide Frames;
    var blob: seq<Byte> := [];
    var offsets: seq<nat> := [0];
    NothingFramed(codec);
    for k := 0 to |tokens|
      invariant Frames(codec, tokens[..k], blob, offsets)
      invariant forall i :: 0 <= i < k ==> codec.RoundTrips(tokens[i])
    {
      var encoded := codec.EncodeToken(tokens[k]);
      if encoded.Err? {
        assert tokens[k] in tokens;
        return Err(encoded.error);
      }
      OneMoreFramed(codec, tokens[..k], blob, offsets, tokens[k]);
      assert tokens[..k + 1] == tokens[..k] + [tokens[k]];
      blob := blob + encoded.value;
      offsets := offsets + [|blob|];
    }
    assert tokens[..|tokens|] == tokens;
    return Ok((blob, offsets));
  }

  lemma NothingFramed<T>(codec: Codec<T>)
    ensures Frames(codec, [], [], [0])
  {
  }

  /** Every slice decodes to its token. */
  ghost predicate DecodedAs<T>(codec: Codec<T>, offsets: seq<nat>, blob: seq<Byte>, tokens: seq<T>)
    requires OffsetsFit(offsets, |blob|)
  {
    && |tokens| == |offsets| - 1
    && forall k :: 0 <= k < |tokens| ==> codec.decode(blob[offsets[k]..offsets[k + 1]]) == Ok(tokens[k])
  }

  /** Decodes the slices in order; the result is exactly what all of them decode to. */
  method DecodeTokens<T(==, !new)>(codec: Codec<T>, offsets: seq<nat>, blob: seq<Byte>) returns (r: Result<seq<T>>)
    requires OffsetsFit(offsets, |blob|)
    ensures forall tokens: seq<T> :: Frames(codec, tokens, blob, offsets) ==> r == Ok(tokens)
    ensures forall tokens: seq<T> :: DecodedAs(codec, offsets, blob, tokens) <==> r == Ok(tokens)
    ensures r.Ok? ==> |r.value| == |offsets| - 1
  {
    forall tokens: seq<T> | Frames(codec, tokens, blob, offsets)
      ensures DecodedAs(codec, offsets, blob, tokens)
    {
      FramedIsDecoded(codec, tokens, blob, offsets);
    }
    hide Frames;
    var found: seq<T> := [];
    for k := 0 to |offsets| - 1
      invariant |found| == k
      invariant forall i :: 0 <= i < k ==> codec.decode(blob[offsets[i]..offsets[i + 1]]) == Ok(found[i])
    {
      assert offsets[k] <= offsets[k + 1] <= offsets[|offsets| - 1];
      var decoded := codec.decode(blob[offsets[k]..offsets[k + 1]]);
      if decoded.Err? {
        return Err(decoded.error);
      }
      found := found + [decoded.value];
    }
    forall tokens: seq<T> | DecodedAs(codec, offsets, blob, tokens)
      ensures found == tokens
    {
      forall k | 0 <= k < |tokens|
        ensures found[k] == tokens[k]
      {
        assert codec.decode(blob[offsets[k]..offsets[k + 1]]) == Ok(tokens[k]);
      }
    }
    return Ok(found);
  }

  lemma FramedIsDecoded<T>(codec: Codec<T>, tokens: seq<T>, blob: seq<Byte>, offsets: seq<nat>)
    requires OffsetsFit(offsets, |blob|) && Frames(codec, tokens, blob, offsets)
    ensures DecodedAs(codec, offsets, blob, tokens)
  {
    forall k | 0 <= k < |tokens|
      ensures codec.decode(blob[offsets[k]..offsets[k + 1]]) == Ok(tokens[k])
    {
      assert Framed(codec, tokens[k], blob, offsets[k], offsets[k + 1]);
    }
  }

  // ----- The sections of an engine -----

  function EngineSections(
    offsets: seq<nat>, blob: seq<Byte>, tokenCount: nat, store: CorpusStore, index: PostingsIndex): seq<Section>
  {
    [
      (VocabularyTokenOffsets, U64Array(offsets)),
      (VocabularyTokenBlob, Blob(blob, tokenCount)),
      (SequenceOffsets, U64Array(store.stringOffsets)),
      (CorpusSymbols, SymbolArray(store.symbols)),
      (PostingOffsets, U64Array(index.postingOffsets)),
      (PostingsSection, PostingArray(index.postings))
    ]
  }

  ghost predicate SnapshotWith<T>(
    codec: Codec<T>, engine: SearchEngine<T>, bytes: seq<Byte>, blob: seq<Byte>, offsets: seq<nat>)
  {
    var sections := EngineSections(offsets, blob, engine.vocabulary.Len(), engine.store, engine.index);
    && Frames(codec, engine.vocabulary.tokens, blob, offsets) && Writable(codec.Tag(), sections)
    && bytes == FileBytes(SearchEngineFile, codec.Tag(), sections)
  }

  /** The bytes are a snapshot of the engine. */
  ghost predicate IsSnapshot<T>(codec: Codec<T>, engine: SearchEngine<T>, bytes: seq<Byte>) {
    exists blob, offsets :: SnapshotWith(codec, engine, bytes, blob, offsets)
  }

  /** The parts agree in size, and every number fits the width it is stored in. */
  ghost predicate Storable<T>(engine: SearchEngine<T>) {
    && Assembled(engine)
    && (forall symbol :: symbol in engine.store.symbols ==> symbol <= U32_MAX)
    && (forall p :: p in engine.index.postings ==> p.stringId <= U32_MAX && p.position <= U32_MAX)
  }

  /** A snapshot opens as the same engine over mapped arrays. */
  function Opened<T>(engine: SearchEngine<T>): SearchEngine<T> {
    engine.(store := engine.store.(mapped := true))
  }

  // ----- Saving -----

  lemma EngineSectionsAreWritable<T>(codec: CodecTag, engine: SearchEngine<T>, offsets: seq<nat>, blob: seq<Byte>)
    requires |codec.id| <= MAX_CODEC_ID_LEN && codec.version <= U32_MAX
    requires var sections := EngineSections(offsets, blob, engine.vocabulary.Len(), engine.store, engine.index);
             FileLen(codec, sections) <= USIZE_MAX
    requires |offsets| == engine.vocabulary.Len() + 1
    ensures Writable(codec, EngineSections(offsets, blob, engine.vocabulary.Len(), engine.store, engine.index))
  {
    hide FileLen, DescriptorsOf;
    var sections := EngineSections(offsets, blob, engine.vocabulary.Len(), engine.store, engine.index);
    SectionLengths(codec, sections, 0);
    SectionLengths(codec, sections, 2);
    SectionLengths(codec, sections, 3);
    SectionLengths(codec, sections, 4);
    SectionLengths(codec, sections, 5);
  }

  lemma SectionLengths(codec: CodecTag, sections: seq<Section>, i: nat)
    requires i < |sections| && FileLen(codec, sections) <= USIZE_MAX
    ensures sections[i].1.ByteLen() <= USIZE_MAX
  {
    hide FileBytes, PlaceEnd, DescriptorsOf;
    SectionIsWritten(SearchEngineFile, codec, sections, i);
  }

  /** No 64-bit file holds the engine. */
  ghost predicate TooLong<T>(codec: Codec<T>, engine: SearchEngine<T>) {
    exists blob, offsets ::
      && Frames(codec, engine.vocabulary.tokens, blob, offsets)
      && USIZE_MAX <
         FileLen(codec.Tag(), EngineSections(offsets, blob, engine.vocabulary.Len(), engine.store, engine.index))
  }

  /** Saves an engine that verifies. Otherwise only tokens that do not round-trip,
      an over-long codec identifier or a file beyond the 64-bit range can fail. */
  method SaveWith<T(==)>(codec: Codec<T>, engine: SearchEngine<T>) returns (r: Result<seq<Byte>>)
    requires Assembled(engine) && codec.version <= U32_MAX
    ensures r.Ok? ==> IsSnapshot(codec, engine, r.value)
    ensures r.Ok? ==> Verifies(engine)
    ensures r.Err? ==>
      || |codec.id| > MAX_CODEC_ID_LEN || TooLong(codec, engine) || !Verifies(engine)
      || exists t :: t in engine.vocabulary.tokens && !codec.RoundTrips(t)
  {
    hide Frames, FileBytes, FileLen, Writable, EngineSections;
    var _ :- Verify(engine);
    var framed :- FrameTokens(codec, engine.vocabulary.tokens);
    var sections := EngineSections(framed.1, framed.0, engine.vocabulary.Len(), engine.store, engine.index);
    SixSections(framed.1, framed.0, engine.vocabulary.Len(), engine.store, engine.index);
    r := WriteFile(SearchEngineFile, codec.Tag(), sections);
    if r.Ok? {
      FrameCount(codec, engine.vocabulary.tokens, framed.0, framed.1);
      EngineSectionsAreWritable(codec.Tag(), engine, framed.1, framed.0);
      assert SnapshotWith(codec, engine, r.value, framed.0, framed.1);
    }
  }

  lemma SixSections(offsets: seq<nat>, blob: seq<Byte>, tokenCount: nat, store: CorpusStore, index: PostingsIndex)
    ensures |EngineSections(offsets, blob, tokenCount, store, index)| == 6
  {
  }

  lemma FrameCount<T>(codec: Codec<T>, tokens: seq<T>, blob: seq<Byte>, offsets: seq<nat>)
    requires Frames(codec, tokens, blob, offsets)
    ensures |offsets| == |tokens| + 1 && OffsetsFit(offsets, |blob|)
  {
  }

  // ----- Opening -----

  /** A view of the corpus symbols. */
  function MappedSymbols(file: PersistedFile): Result<seq<Symbol>> {
    match file.Section(CorpusSymbols)
    case Err(e) => Err(e)
    case Ok(d) =>
      if d.byteLen != 4 * d.elementCount then Err(InvalidFile("section byte length does not match element count"))
      else if d.offset + d.byteLen > |file.bytes| then Err(InvalidFile("section lies outside the file"))
      else Ok(ReadU32s(file.bytes, d.offset, d.elementCount))
  }

  /** A view of the postings. */
  function MappedPostings(file: PersistedFile): Result<seq<Posting>> {
    match file.Section(PostingsSection)
    case Err(e) => Err(e)
    case Ok(d) =>
      if d.byteLen != 8 * d.elementCount then Err(InvalidFile("section byte length does not match element count"))
      else if d.offset + d.byteLen > |file.bytes| then Err(InvalidFile("section lies outside the file"))
      else Ok(PostingsFromWords(ReadU32s(file.bytes, d.offset, 2 * d.elementCount)))
  }

  function PostingsFromWords(words: seq<nat>): (r: seq<Posting>)
    ensures |r| == |words| / 2
  {
    seq(|words| / 2, i requires 0 <= i < |words| / 2 => Posting(words[2 * i], words[2 * i + 1]))
  }

  lemma WordsOfPosting(postings: seq<Posting>, i: nat)
    requires i < |postings|
    ensures PostingWords(postings)[2 * i] == postings[i].stringId
    ensures PostingWords(postings)[2 * i + 1] == postings[i].position
  {
    assert (2 * i) / 2 == i && (2 * i + 1) / 2 == i;
  }

  lemma PostingsWordsRoundTrip(postings: seq<Posting>)
    ensures PostingsFromWords(PostingWords(postings)) == postings
  {
    hide PostingWords;
    forall i | 0 <= i < |postings|
      ensures PostingsFromWords(PostingWords(postings))[i] == postings[i]
    {
      WordsOfPosting(postings, i);
    }
  }

  /** Everything the engine is made of reads back from a file with these sections. */
  ghost predicate Holds(
    file: PersistedFile, offsets: seq<nat>, blob: seq<Byte>, store: CorpusStore, index: PostingsIndex)
  {
    && |file.bytes| <= USIZE_MAX
    && file.MappedOffsets(VocabularyTokenOffsets) == Ok(offsets)
    && SectionBytes(file, VocabularyTokenBlob) == Ok(blob)
    && file.MappedOffsets(SequenceOffsets) == Ok(store.stringOffsets)
    && MappedSymbols(file) == Ok(store.symbols)
    && file.MappedOffsets(PostingOffsets) == Ok(index.postingOffsets)
    && MappedPostings(file) == Ok(index.postings)
  }

  /** An offset array reads back. */
  lemma OffsetsReadBack(codec: CodecTag, sections: seq<Section>, i: nat, offsets: seq<nat>)
    requires Writable(codec, sections) && i < |sections| && sections[i].1 == U64Array(offsets)
    requires forall v :: v in offsets ==> v <= USIZE_MAX
    ensures var file := PersistedFile(
              FileBytes(SearchEngineFile, codec, sections), SearchEngineFile,
              Collected(DescriptorsOf(codec, sections)));
            file.MappedOffsets(sections[i].0) == Ok(offsets)
  {
    hide FileBytes, Collected, DescriptorsOf, Writable, At, U64s, U64At;
    WrittenSection(SearchEngineFile, codec, sections, i);
    var found := Collected(DescriptorsOf(codec, sections));
    var d := found[sections[i].0];
    AtFits(FileBytes(SearchEngineFile, codec, sections), d.offset, U64s(offsets));
    U64sRoundTrip(FileBytes(SearchEngineFile, codec, sections), d.offset, offsets);
  }

  lemma SymbolsReadBack(codec: CodecTag, sections: seq<Section>, i: nat, symbols: seq<Symbol>)
    requires Writable(codec, sections) && i < |sections| && sections[i] == (CorpusSymbols, SymbolArray(symbols))
    requires forall v :: v in symbols ==> v <= U32_MAX
    ensures var file := PersistedFile(
              FileBytes(SearchEngineFile, codec, sections), SearchEngineFile,
              Collected(DescriptorsOf(codec, sections)));
            MappedSymbols(file) == Ok(symbols)
  {
    hide FileBytes, Collected, DescriptorsOf, Writable, At, U32s, U32At;
    WrittenSection(SearchEngineFile, codec, sections, i);
    var found := Collected(DescriptorsOf(codec, sections));
    var d := found[sections[i].0];
    AtFits(FileBytes(SearchEngineFile, codec, sections), d.offset, U32s(symbols));
    U32sRoundTrip(FileBytes(SearchEngineFile, codec, sections), d.offset, symbols);
  }

  lemma WordsInRange(postings: seq<Posting>)
    requires forall p :: p in postings ==> p.stringId <= U32_MAX && p.position <= U32_MAX
    ensures forall v :: v in PostingWords(postings) ==> v <= U32_MAX
  {
    var words := PostingWords(postings);
    forall k | 0 <= k < |words|
      ensures words[k] <= U32_MAX
    {
      assert postings[k / 2] in postings;
    }
  }

  lemma PostingsReadBack(codec: CodecTag, sections: seq<Section>, i: nat, postings: seq<Posting>)
    requires Writable(codec, sections) && i < |sections| && sections[i] == (PostingsSection, PostingArray(postings))
    requires forall p :: p in postings ==> p.stringId <= U32_MAX && p.position <= U32_MAX
    ensures var file := PersistedFile(
              FileBytes(SearchEngineFile, codec, sections), SearchEngineFile,
              Collected(DescriptorsOf(codec, sections)));
            MappedPostings(file) == Ok(postings)
  {
    hide FileBytes, Collected, DescriptorsOf, Writable, At, U32s, U32At, PostingWords, PostingsFromWords;
    WrittenSection(SearchEngineFile, codec, sections, i);
    var found := Collected(DescriptorsOf(codec, sections));
    var d := found[sections[i].0];
    WordsInRange(postings);
    AtFits(FileBytes(SearchEngineFile, codec, sections), d.offset, U32s(PostingWords(postings)));
    U32sRoundTrip(FileBytes(SearchEngineFile, codec, sections), d.offset, PostingWords(postings));
    PostingsWordsRoundTrip(postings);
  }

  lemma OffsetsInRange(offsets: seq<nat>, payloadLen: nat)
    requires OffsetsFit(offsets, payloadLen) && payloadLen <= USIZE_MAX
    ensures forall v :: v in offsets ==> v <= USIZE_MAX
  {
  }

  /** A stored engine reads back part by part. */
  lemma SnapshotHolds<T>(codec: Codec<T>, engine: SearchEngine<T>, bytes: seq<Byte>, blob: seq<Byte>, offsets: seq<nat>)
    requires Storable(engine) && SnapshotWith(codec, engine, bytes, blob, offsets)
    ensures var sections := EngineSections(offsets, blob, engine.vocabulary.Len(), engine.store, engine.index);
            var file := PersistedFile(bytes, SearchEngineFile, Collected(DescriptorsOf(codec.Tag(), sections)));
            Holds(file, offsets, blob, engine.store, engine.index)
  {
    hide FileBytes, Collected, DescriptorsOf, Writable, FileLen;
    var tag := codec.Tag();
    var sections := EngineSections(offsets, blob, engine.vocabulary.Len(), engine.store, engine.index);
    PayloadsInRange(tag, sections, blob, engine);
    FrameCount(codec, engine.vocabulary.tokens, blob, offsets);
    OffsetsInRange(offsets, |blob|);
    OffsetsInRange(engine.store.stringOffsets, |engine.store.symbols|);
    OffsetsInRange(engine.index.postingOffsets, |engine.index.postings|);
    SectionReadsBack(SearchEngineFile, tag, sections, 1);
    OffsetsReadBack(tag, sections, 0, offsets);
    OffsetsReadBack(tag, sections, 2, engine.store.stringOffsets);
    SymbolsReadBack(tag, sections, 3, engine.store.symbols);
    OffsetsReadBack(tag, sections, 4, engine.index.postingOffsets);
    PostingsReadBack(tag, sections, 5, engine.index.postings);
  }

  lemma PayloadsInRange<T>(codec: CodecTag, sections: seq<Section>, blob: seq<Byte>, engine: SearchEngine<T>)
    requires Writable(codec, sections) && |sections| == 6
    requires sections[1].1.Blob? && sections[1].1.bytes == blob
    requires sections[3].1 == SymbolArray(engine.store.symbols) && sections[5].1 == PostingArray(engine.index.postings)
    ensures |blob| <= USIZE_MAX && |engine.store.symbols| <= USIZE_MAX && |engine.index.postings| <= USIZE_MAX
  {
    hide FileLen, Suits;
    SectionLengths(codec, sections, 1);
    SectionLengths(codec, sections, 3);
    SectionLengths(codec, sections, 5);
  }

  lemma EngineKinds<T>(
    codec: CodecTag, offsets: seq<nat>, blob: seq<Byte>, engine: SearchEngine<T>, sections: seq<Section>)
    requires sections == EngineSections(offsets, blob, engine.vocabulary.Len(), engine.store, engine.index)
    ensures Collected(DescriptorsOf(codec, sections)).Keys ==
         {VocabularyTokenOffsets, VocabularyTokenBlob, SequenceOffsets, CorpusSymbols, PostingOffsets, PostingsSection}
  {
    hide Collected, DescriptorsOf;
    assert sections[0].0 == VocabularyTokenOffsets && sections[1].0 == VocabularyTokenBlob;
    assert sections[2].0 == SequenceOffsets && sections[3].0 == CorpusSymbols;
    assert sections[4].0 == PostingOffsets && sections[5].0 == PostingsSection;
    forall kind
      ensures kind in Collected(DescriptorsOf(codec, sections)) <==>
        kind in
         {VocabularyTokenOffsets, VocabularyTokenBlob, SequenceOffsets, CorpusSymbols, PostingOffsets, PostingsSection}
    {
      WrittenKinds(SearchEngineFile, codec, sections, kind);
    }
  }

  lemma EngineCounts(
    codec: CodecTag, offsets: seq<nat>, blob: seq<Byte>, tokenCount: nat, store: CorpusStore, index: PostingsIndex)
    requires Writable(codec, EngineSections(offsets, blob, tokenCount, store, index))
    ensures var found := Collected(DescriptorsOf(codec, EngineSections(offsets, blob, tokenCount, store, index)));
            && VocabularyTokenBlob in found && CorpusSymbols in found && PostingsSection in found
            && found[VocabularyTokenBlob].byteLen == |blob| && found[VocabularyTokenBlob].elementCount == tokenCount
            && found[CorpusSymbols].elementCount == |store.symbols|
            && found[PostingsSection].elementCount == |index.postings|
  {
    hide FileBytes, Collected, DescriptorsOf, Writable, At;
    var sections := EngineSections(offsets, blob, tokenCount, store, index);
    WrittenSection(SearchEngineFile, codec, sections, 1);
    WrittenSection(SearchEngineFile, codec, sections, 3);
    WrittenSection(SearchEngineFile, codec, sections, 5);
  }

  /** A snapshot keeps every structural promise of its file kind. */
  lemma SnapshotIsValid<T>(
    codec: Codec<T>, engine: SearchEngine<T>, bytes: seq<Byte>, blob: seq<Byte>, offsets: seq<nat>)
    requires Storable(engine) && SnapshotWith(codec, engine, bytes, blob, offsets)
    ensures var sections := EngineSections(offsets, blob, engine.vocabulary.Len(), engine.store, engine.index);
            ValidFile(bytes, SearchEngineFile, codec.Tag(), DescriptorsOf(codec.Tag(), sections))
  {
    hide FileBytes, Collected, DescriptorsOf, Writable, ValidLayout, SectionBytes, MappedSymbols, MappedPostings;
    hide EngineSections;
    var tag := codec.Tag();
    var sections := EngineSections(offsets, blob, engine.vocabulary.Len(), engine.store, engine.index);
    WrittenLayoutIsValid(SearchEngineFile, tag, sections);
    SnapshotHolds(codec, engine, bytes, blob, offsets);
    EngineKinds(tag, offsets, blob, engine, sections);
    EngineCounts(tag, offsets, blob, engine.vocabulary.Len(), engine.store, engine.index);
    FrameCount(codec, engine.vocabulary.tokens, blob, offsets);
  }

  lemma SameVocabulary<T>(a: V.Vocabulary<T>, b: V.Vocabulary<T>)
    requires a.Valid() && b.Valid() && a.tokens == b.tokens
    ensures a == b
  {
    forall t
      ensures t in a.symbols <==> t in b.symbols
      ensures t in a.symbols ==> a.symbols[t] == b.symbols[t]
    {
      if t in a.symbols {
        assert a.tokens[a.symbols[t]] == t;
      }
      if t in b.symbols {
        assert b.tokens[b.symbols[t]] == t;
      }
    }
    assert a.symbols == b.symbols;
  }

  /** A valid vocabulary lists every token once. */
  lemma TokensAreDistinct<T>(v: V.Vocabulary<T>)
    requires v.Valid()
    ensures Distinct(v.tokens)
  {
  }

  /** The file holds this engine. */
  ghost predicate Stores<T>(codec: Codec<T>, file: PersistedFile, engine: SearchEngine<T>) {
    exists offsets, blob ::
      Frames(codec, engine.vocabulary.tokens, blob, offsets) && Holds(file, offsets, blob, engine.store, engine.index)
  }

  // ----- What a file holds -----

  /** The section is an array of these 64-bit numbers. */
  ghost predicate HoldsOffsets(bytes: seq<Byte>, d: SectionDescriptor, offsets: seq<nat>) {
    && |offsets| == d.elementCount && d.offset + 8 * |offsets| <= |bytes|
    && forall i :: 0 <= i < |offsets| ==> offsets[i] == U64At(bytes, d.offset + 8 * i)
  }

  /** The section is an array of these 32-bit symbols. */
  ghost predicate HoldsSymbols(bytes: seq<Byte>, d: SectionDescriptor, symbols: seq<Symbol>) {
    && |symbols| == d.elementCount && d.offset + 4 * |symbols| <= |bytes|
    && forall i :: 0 <= i < |symbols| ==> symbols[i] == U32At(bytes, d.offset + 4 * i)
  }

  /** The section is an array of postings: a string identifier, then a position. */
  ghost predicate HoldsPostings(bytes: seq<Byte>, d: SectionDescriptor, postings: seq<Posting>) {
    && |postings| == d.elementCount && d.offset + 8 * |postings| <= |bytes|
    && forall i :: 0 <= i < |postings| ==>
         postings[i] == Posting(U32At(bytes, d.offset + 8 * i), U32At(bytes, d.offset + 8 * i + 4))
  }

  /** Offsets `k` and `k + 1` cut a slice out of the blob that decodes to the token. */
  ghost predicate HoldsToken<T>(
    codec: Codec<T>, bytes: seq<Byte>, d: SectionDescriptor, blob: SectionDescriptor, k: nat, token: T)
  {
    && d.offset + 8 * k + 16 <= |bytes| && blob.offset + blob.byteLen <= |bytes|
    && var start, end := U64At(bytes, d.offset + 8 * k), U64At(bytes, d.offset + 8 * k + 8);
    && start <= end <= blob.byteLen
    && codec.decode(bytes[blob.offset + start..blob.offset + end]) == Ok(token)
  }

  ghost predicate HoldsTokens<T>(
    codec: Codec<T>, bytes: seq<Byte>, d: SectionDescriptor, blob: SectionDescriptor, tokens: seq<T>)
  {
    |tokens| + 1 == d.elementCount && forall k :: 0 <= k < |tokens| ==> HoldsToken(codec, bytes, d, blob, k, tokens[k])
  }

  /** The sections are the parts of this engine, over mapped arrays. */
  ghost predicate HoldsEngine<T>(
    codec: Codec<T>, bytes: seq<Byte>, sections: map<SectionKind, SectionDescriptor>, engine: SearchEngine<T>)
  {
    && sections.Keys ==
       {VocabularyTokenOffsets, VocabularyTokenBlob, SequenceOffsets, CorpusSymbols, PostingOffsets, PostingsSection}
    && HoldsTokens(
         codec, bytes, sections[VocabularyTokenOffsets], sections[VocabularyTokenBlob], engine.vocabulary.tokens)
    && HoldsOffsets(bytes, sections[SequenceOffsets], engine.store.stringOffsets)
    && HoldsSymbols(bytes, sections[CorpusSymbols], engine.store.symbols)
    && HoldsOffsets(bytes, sections[PostingOffsets], engine.index.postingOffsets)
    && HoldsPostings(bytes, sections[PostingsSection], engine.index.postings)
    && Assembled(engine) && engine.store.mapped
  }

  /** A well-formed file of this kind that holds the engine. */
  ghost predicate DescribesEngine<T>(codec: Codec<T>, bytes: seq<Byte>, engine: SearchEngine<T>) {
    exists ds ::
      ValidFile(bytes, SearchEngineFile, codec.Tag(), ds) && HoldsEngine(codec, bytes, Collected(ds), engine)
  }

  /** The views of a file are the parts of this engine. */
  ghost predicate Views<T>(codec: Codec<T>, file: PersistedFile, engine: SearchEngine<T>)
    requires |file.bytes| <= USIZE_MAX && file.SearchEngineFits()
  {
    && VocabularyIn(codec, file, engine.vocabulary)
    && file.MappedOffsets(SequenceOffsets) == Ok(engine.store.stringOffsets)
    && MappedSymbols(file) == Ok(engine.store.symbols)
    && file.MappedOffsets(PostingOffsets) == Ok(engine.index.postingOffsets)
    && MappedPostings(file) == Ok(engine.index.postings)
    && engine.store.symbolCount == engine.vocabulary.Len() && engine.store.mapped
    && engine.index.WellFormed()
    && engine.neighborhood == SubstitutionNeighborhood(engine.index.Alphabet())
  }

  /** The vocabulary numbers the decoded tokens. */
  ghost predicate VocabularyIn<T>(codec: Codec<T>, file: PersistedFile, v: V.Vocabulary<T>)
    requires |file.bytes| <= USIZE_MAX && file.SearchEngineFits()
  {
    var offsets, blob := file.MappedOffsets(VocabularyTokenOffsets).value, SectionBytes(file, VocabularyTokenBlob);
    && blob.Ok? && |blob.value| == file.sections[VocabularyTokenBlob].byteLen
    && DecodedAs(codec, offsets, blob.value, v.tokens) && v.Valid()
  }

  /** Decodes the vocabulary of an accepted file. Its offset arrays were viewed
      when the file was validated, so viewing them again cannot fail. */
  method OpenVocabulary<T(==, !new)>(codec: Codec<T>, file: PersistedFile) returns (r: Result<V.Vocabulary<T>>)
    requires |file.bytes| <= USIZE_MAX && file.SearchEngineFits()
    ensures forall v: V.Vocabulary<T> :: VocabularyIn(codec, file, v) <==> r == Ok(v)
    ensures r.Ok? ==> r.value.Valid() && r.value.Len() == file.sections[VocabularyTokenBlob].elementCount
  {
    hide Frames;
    var offsets := file.MappedOffsets(VocabularyTokenOffsets).value;
    var blob :- SectionBytes(file, VocabularyTokenBlob);
    var tokens := DecodeTokens(codec, offsets, blob);
    forall v: V.Vocabulary<T> | VocabularyIn(codec, file, v)
      ensures tokens == Ok(v.tokens) && Distinct(v.tokens)
    {
      TokensAreDistinct(v);
    }
    if tokens.Err? {
      return Err(tokens.error);
    }
    r := V.FromTokens(tokens.value);
    forall v: V.Vocabulary<T> | VocabularyIn(codec, file, v)
      ensures r == Ok(v)
    {
      SameVocabulary(r.value, v);
    }
  }

  /** Assembles an engine over the arrays of an accepted file. */
  method OpenEngine<T(==, !new)>(codec: Codec<T>, file: PersistedFile) returns (r: Result<SearchEngine<T>>)
    requires |file.bytes| <= USIZE_MAX && file.SearchEngineFits()
    ensures forall engine: SearchEngine<T> :: Views(codec, file, engine) <==> r == Ok(engine)
    ensures r.Ok? ==> Assembled(r.value) && r.value.store.mapped
  {
    hide Frames, OffsetsFit, VocabularyIn;
    var vocabulary :- OpenVocabulary(codec, file);
    var symbols :- MappedSymbols(file);
    var sequenceOffsets := file.MappedOffsets(SequenceOffsets).value;
    var postings :- MappedPostings(file);
    var postingOffsets := file.MappedOffsets(PostingOffsets).value;
    var store := CorpusStore(symbols, sequenceOffsets, vocabulary.Len(), true);
    var index := PostingsIndex(postings, postingOffsets);
    r := FromUnverifiedParts(vocabulary, index, store);
  }

  /** Opens a snapshot. Every saved engine comes back unchanged, over mapped arrays;
      and from any bytes an engine opens exactly when they are a well-formed file
      that holds it. */
  method OpenWith<T(==, !new)>(codec: Codec<T>, bytes: seq<Byte>) returns (r: Result<SearchEngine<T>>)
    requires |bytes| <= USIZE_MAX
    ensures forall engine: SearchEngine<T> :: Storable(engine) && IsSnapshot(codec, engine, bytes) ==>
      r == Ok(Opened(engine))
    ensures forall engine: SearchEngine<T> :: DescribesEngine(codec, bytes, engine) <==> r == Ok(engine)
    ensures r.Ok? ==> Assembled(r.value) && r.value.store.mapped && Searchable(r.value)
  {
    hide ValidFile, SnapshotWith, Storable, Views, DescribesEngine;
    var file := Parse(bytes, SearchEngineFile, codec.Tag());
    ParsedViews(codec, bytes, file);
    forall engine: SearchEngine<T> | Storable(engine) && IsSnapshot(codec, engine, bytes)
      ensures DescribesEngine(codec, bytes, Opened(engine))
    {
      var blob, offsets :| SnapshotWith(codec, engine, bytes, blob, offsets);
      SnapshotDescribes(codec, engine, bytes, blob, offsets);
    }
    if file.Err? {
      return Err(file.error);
    }
    r := OpenEngine(codec, file.value);
  }

  /** Opens a snapshot and verifies it. Exactly the well-formed files whose engine
      verifies pass, wherever they came from, and what passes represents the
      sequences its corpus decodes to; every saved engine that verifies passes. */
  method OpenVerified<T(==, !new)>(codec: Codec<T>, bytes: seq<Byte>) returns (r: Result<SearchEngine<T>>)
    requires |bytes| <= USIZE_MAX
    ensures forall engine: SearchEngine<T> ::
      (DescribesEngine(codec, bytes, engine) && engine.StructureFits() && Verifies(engine)) <==> r == Ok(engine)
    ensures r.Ok? ==>
      && Assembled(r.value) && WithinVocabulary(r.value.store.Corpus(), r.value.vocabulary.Len())
      && r.value.Represents(DecodedSequences(r.value.vocabulary, r.value.store.Corpus()))
    ensures forall engine: SearchEngine<T> ::
      Storable(engine) && Verifies(engine) && IsSnapshot(codec, engine, bytes) ==> r == Ok(Opened(engine))
  {
    hide IsSnapshot, DescribesEngine;
    var engine :- OpenWith(codec, bytes);
    var verified := Verify(engine);
    forall saved: SearchEngine<T> | Storable(saved) && Verifies(saved) && IsSnapshot(codec, saved, bytes)
      ensures verified.Ok? && engine == Opened(saved)
    {
      assert engine.store.Corpus() == saved.store.Corpus();
    }
    if verified.Err? {
      return Err(verified.error);
    }
    VerifiedEngineRepresents(engine);
    return Ok(engine);
  }

  lemma MappedOffsetsHold(file: PersistedFile, kind: SectionKind, offsets: seq<nat>)
    requires kind in file.sections && SectionFits(file.bytes, file.sections[kind])
    requires file.sections[kind].kind == kind
    requires kind in {VocabularyTokenOffsets, SequenceOffsets, PostingOffsets}
    ensures file.MappedOffsets(kind) == Ok(offsets) <==> HoldsOffsets(file.bytes, file.sections[kind], offsets)
  {
    hide U64At;
    var d := file.sections[kind];
    if HoldsOffsets(file.bytes, d, offsets) {
      assert ReadU64s(file.bytes, d.offset, d.elementCount) == offsets;
    }
  }

  lemma MappedSymbolsHold(file: PersistedFile, symbols: seq<Symbol>)
    requires CorpusSymbols in file.sections && SectionFits(file.bytes, file.sections[CorpusSymbols])
    requires file.sections[CorpusSymbols].kind == CorpusSymbols
    ensures MappedSymbols(file) == Ok(symbols) <==> HoldsSymbols(file.bytes, file.sections[CorpusSymbols], symbols)
  {
    hide U32At;
    var d := file.sections[CorpusSymbols];
    if HoldsSymbols(file.bytes, d, symbols) {
      assert ReadU32s(file.bytes, d.offset, d.elementCount) == symbols;
    }
  }

  lemma PostingsFromBytes(bytes: seq<Byte>, offset: nat, count: nat, i: nat)
    requires offset + 8 * count <= |bytes| && i < count
    ensures PostingsFromWords(ReadU32s(bytes, offset, 2 * count))[i] ==
            Posting(U32At(bytes, offset + 8 * i), U32At(bytes, offset + 8 * i + 4))
  {
    hide U32At;
    var words := ReadU32s(bytes, offset, 2 * count);
    assert words[2 * i] == U32At(bytes, offset + 4 * (2 * i));
    assert words[2 * i + 1] == U32At(bytes, offset + 4 * (2 * i + 1));
  }

  lemma MappedPostingsHold(file: PersistedFile, postings: seq<Posting>)
    requires PostingsSection in file.sections && SectionFits(file.bytes, file.sections[PostingsSection])
    requires file.sections[PostingsSection].kind == PostingsSection
    ensures MappedPostings(file) == Ok(postings) <==>
            HoldsPostings(file.bytes, file.sections[PostingsSection], postings)
  {
    hide U32At, PostingsFromWords;
    var d := file.sections[PostingsSection];
    var found := PostingsFromWords(ReadU32s(file.bytes, d.offset, 2 * d.elementCount));
    forall i | 0 <= i < d.elementCount
      ensures found[i] == Posting(U32At(file.bytes, d.offset + 8 * i), U32At(file.bytes, d.offset + 8 * i + 4))
    {
      PostingsFromBytes(file.bytes, d.offset, d.elementCount, i);
    }
    if HoldsPostings(file.bytes, d, postings) {
      assert found == postings;
    }
  }

  lemma SliceOfSlice(bytes: seq<Byte>, offset: nat, len: nat, start: nat, end: nat)
    requires offset + len <= |bytes| && start <= end <= len
    ensures bytes[offset..offset + len][start..end] == bytes[offset + start..offset + end]
  {
    var outer := bytes[offset..offset + len];
    forall j | 0 <= j < end - start
      ensures outer[start..end][j] == bytes[offset + start..offset + end][j]
    {
      assert outer[start + j] == bytes[offset + start + j];
    }
  }

  /** The views the vocabulary is decoded from. */
  lemma TokenViews(file: PersistedFile)
    requires |file.bytes| <= USIZE_MAX && file.SearchEngineFits()
    requires SectionFits(file.bytes, file.sections[VocabularyTokenBlob])
    requires file.sections[VocabularyTokenOffsets].kind == VocabularyTokenOffsets
    requires SectionFits(file.bytes, file.sections[VocabularyTokenOffsets])
    ensures var offsets, blob := file.MappedOffsets(VocabularyTokenOffsets), SectionBytes(file, VocabularyTokenBlob);
            var d, s := file.sections[VocabularyTokenOffsets], file.sections[VocabularyTokenBlob];
            && blob.Ok? && s.offset + s.byteLen <= |file.bytes|
            && blob.value == file.bytes[s.offset..s.offset + s.byteLen]
            && offsets.Ok? && HoldsOffsets(file.bytes, d, offsets.value) && OffsetsFit(offsets.value, |blob.value|)
  {
    hide U64At;
    MappedOffsetsHold(file, VocabularyTokenOffsets, file.MappedOffsets(VocabularyTokenOffsets).value);
  }

  lemma TokenHolds<T>(
    codec: Codec<T>, bytes: seq<Byte>, d: SectionDescriptor, s: SectionDescriptor, offsets: seq<nat>, k: nat, token: T)
    requires s.offset + s.byteLen <= |bytes| && HoldsOffsets(bytes, d, offsets) && OffsetsFit(offsets, s.byteLen)
    requires k + 1 < |offsets|
    ensures offsets[k] <= offsets[k + 1] <= s.byteLen
    ensures codec.decode(bytes[s.offset..s.offset + s.byteLen][offsets[k]..offsets[k + 1]]) == Ok(token) <==>
            HoldsToken(codec, bytes, d, s, k, token)
  {
    hide U64At;
    assert offsets[k + 1] <= offsets[|offsets| - 1];
    assert offsets[k] == U64At(bytes, d.offset + 8 * k) && offsets[k + 1] == U64At(bytes, d.offset + 8 * (k + 1));
    SliceOfSlice(bytes, s.offset, s.byteLen, offsets[k], offsets[k + 1]);
  }

  lemma DecodedHold<T>(codec: Codec<T>, file: PersistedFile, tokens: seq<T>)
    requires |file.bytes| <= USIZE_MAX && file.SearchEngineFits()
    requires SectionFits(file.bytes, file.sections[VocabularyTokenBlob])
    requires SectionFits(file.bytes, file.sections[VocabularyTokenOffsets])
    requires file.sections[VocabularyTokenOffsets].kind == VocabularyTokenOffsets
    ensures var blob := SectionBytes(file, VocabularyTokenBlob);
            && blob.Ok? && |blob.value| == file.sections[VocabularyTokenBlob].byteLen
            && (DecodedAs(codec, file.MappedOffsets(VocabularyTokenOffsets).value, blob.value, tokens) <==>
                HoldsTokens(codec, file.bytes, file.sections[VocabularyTokenOffsets],
                            file.sections[VocabularyTokenBlob], tokens))
  {
    hide U64At, HoldsToken, SectionFits, PersistedFile.MappedOffsets, SectionBytes;
    TokenViews(file);
    var d, s := file.sections[VocabularyTokenOffsets], file.sections[VocabularyTokenBlob];
    var offsets := file.MappedOffsets(VocabularyTokenOffsets).value;
    var blob := SectionBytes(file, VocabularyTokenBlob).value;
    SlicesHold(codec, file.bytes, d, s, offsets, blob, tokens);
  }

  lemma SlicesHold<T>(
    codec: Codec<T>, bytes: seq<Byte>, d: SectionDescriptor, s: SectionDescriptor, offsets: seq<nat>, blob: seq<Byte>,
    tokens: seq<T>)
    requires s.offset + s.byteLen <= |bytes| && blob == bytes[s.offset..s.offset + s.byteLen]
    requires HoldsOffsets(bytes, d, offsets) && OffsetsFit(offsets, |blob|)
    ensures DecodedAs(codec, offsets, blob, tokens) <==> HoldsTokens(codec, bytes, d, s, tokens)
  {
    hide U64At, HoldsToken;
    if DecodedAs(codec, offsets, blob, tokens) {
      forall k: nat | k < |tokens|
        ensures HoldsToken(codec, bytes, d, s, k, tokens[k])
      {
        assert codec.decode(blob[offsets[k]..offsets[k + 1]]) == Ok(tokens[k]);
        TokenHolds(codec, bytes, d, s, offsets, k, tokens[k]);
      }
    }
    if HoldsTokens(codec, bytes, d, s, tokens) {
      forall k: nat | k < |tokens|
        ensures codec.decode(blob[offsets[k]..offsets[k + 1]]) == Ok(tokens[k])
      {
        TokenHolds(codec, bytes, d, s, offsets, k, tokens[k]);
      }
    }
  }

  /** Viewing an accepted file finds exactly the engine it holds. */
  lemma ViewsHold<T>(codec: Codec<T>, bytes: seq<Byte>, ds: seq<SectionDescriptor>, engine: SearchEngine<T>)
    requires |bytes| <= USIZE_MAX && ValidFile(bytes, SearchEngineFile, codec.Tag(), ds)
    ensures var file := PersistedFile(bytes, SearchEngineFile, Collected(ds));
            && file.SearchEngineFits()
            && (Views(codec, file, engine) <==> HoldsEngine(codec, bytes, Collected(ds), engine))
  {
    hide ValidLayout, Collected, HoldsEngine, Views, SectionFits, PersistedFile.SearchEngineFits;
    var file := PersistedFile(bytes, SearchEngineFile, Collected(ds));
    EngineFits(file);
    forall kind | kind in file.sections
      ensures file.sections[kind].kind == kind && SectionFits(bytes, file.sections[kind])
    {
      var _ := FoundSection(bytes, SearchEngineFile, codec.Tag(), ds, kind);
    }
    FoundViewsHold(codec, file, engine);
  }

  lemma EngineFits(file: PersistedFile)
    requires file.kind == SearchEngineFile && file.StructureFits()
    ensures file.SearchEngineFits() && file.sections.Keys ==
         {VocabularyTokenOffsets, VocabularyTokenBlob, SequenceOffsets, CorpusSymbols, PostingOffsets, PostingsSection}
  {
  }

  /** What is viewed agrees in size. */
  lemma ViewedIsAssembled<T>(codec: Codec<T>, file: PersistedFile, engine: SearchEngine<T>)
    requires |file.bytes| <= USIZE_MAX && file.SearchEngineFits() && Views(codec, file, engine)
    ensures Assembled(engine)
  {
    hide OffsetsFit, U64At, U32At, SectionBytes, V.Numbers;
  }

  lemma FoundViewsHold<T>(codec: Codec<T>, file: PersistedFile, engine: SearchEngine<T>)
    requires |file.bytes| <= USIZE_MAX && file.SearchEngineFits()
    requires file.sections.Keys ==
       {VocabularyTokenOffsets, VocabularyTokenBlob, SequenceOffsets, CorpusSymbols, PostingOffsets, PostingsSection}
    requires forall kind :: kind in file.sections ==>
      file.sections[kind].kind == kind && SectionFits(file.bytes, file.sections[kind])
    ensures Views(codec, file, engine) <==> HoldsEngine(codec, file.bytes, file.sections, engine)
  {
    hide HoldsTokens, HoldsOffsets, HoldsSymbols, HoldsPostings, DecodedAs, SectionBytes, OffsetsFit, V.Numbers;
    hide MappedSymbols, MappedPostings, SectionFits, PersistedFile.SearchEngineFits, PersistedFile.MappedOffsets;
    DecodedHold(codec, file, engine.vocabulary.tokens);
    MappedOffsetsHold(file, SequenceOffsets, engine.store.stringOffsets);
    MappedSymbolsHold(file, engine.store.symbols);
    MappedOffsetsHold(file, PostingOffsets, engine.index.postingOffsets);
    MappedPostingsHold(file, engine.index.postings);
    if Views(codec, file, engine) {
      ViewedIsAssembled(codec, file, engine);
    }
  }

  /** Parsing and viewing decide exactly which engine opens. */
  lemma ParsedViews<T(!new)>(codec: Codec<T>, bytes: seq<Byte>, file: Result<PersistedFile>)
    requires |bytes| <= USIZE_MAX
    requires forall ds :: ValidFile(bytes, SearchEngineFile, codec.Tag(), ds) ==>
      file == Ok(PersistedFile(bytes, SearchEngineFile, Collected(ds)))
    requires file.Ok? ==> exists ds ::
      && ValidFile(bytes, SearchEngineFile, codec.Tag(), ds)
      && file.value == PersistedFile(bytes, SearchEngineFile, Collected(ds))
    ensures file.Ok? ==> |file.value.bytes| <= USIZE_MAX && file.value.SearchEngineFits()
    ensures forall engine: SearchEngine<T> :: DescribesEngine(codec, bytes, engine) <==>
      file.Ok? && Views(codec, file.value, engine)
  {
    hide ValidFile, Views, HoldsEngine, Collected, PersistedFile.SearchEngineFits;
    if file.Ok? {
      var ds :|
        && ValidFile(bytes, SearchEngineFile, codec.Tag(), ds)
        && file.value == PersistedFile(bytes, SearchEngineFile, Collected(ds));
      ParsedFits(bytes, codec.Tag(), ds);
    }
    forall engine: SearchEngine<T>
      ensures DescribesEngine(codec, bytes, engine) <==> file.Ok? && Views(codec, file.value, engine)
    {
      forall ds | ValidFile(bytes, SearchEngineFile, codec.Tag(), ds)
        ensures file.Ok? && (HoldsEngine(codec, bytes, Collected(ds), engine) <==> Views(codec, file.value, engine))
      {
        ViewsHold(codec, bytes, ds, engine);
      }
    }
  }

  lemma ParsedFits(bytes: seq<Byte>, codec: CodecTag, ds: seq<SectionDescriptor>)
    requires ValidFile(bytes, SearchEngineFile, codec, ds)
    ensures PersistedFile(bytes, SearchEngineFile, Collected(ds)).SearchEngineFits()
  {
    hide ValidLayout, Collected;
    EngineFits(PersistedFile(bytes, SearchEngineFile, Collected(ds)));
  }

  /** A snapshot is a well-formed file that holds the engine. */
  lemma SnapshotDescribes<T>(
    codec: Codec<T>, engine: SearchEngine<T>, bytes: seq<Byte>, blob: seq<Byte>, offsets: seq<nat>)
    requires |bytes| <= USIZE_MAX && Storable(engine) && SnapshotWith(codec, engine, bytes, blob, offsets)
    ensures DescribesEngine(codec, bytes, Opened(engine))
  {
    hide ValidFile, SnapshotWith, Storable, Views, HoldsEngine, Stores, Collected, DescriptorsOf;
    var sections := EngineSections(offsets, blob, engine.vocabulary.Len(), engine.store, engine.index);
    var ds := DescriptorsOf(codec.Tag(), sections);
    SnapshotIsStored(codec, engine, bytes, blob, offsets);
    ViewsHold(codec, bytes, ds, Opened(engine));
    StoredIsViewed(codec, PersistedFile(bytes, SearchEngineFile, Collected(ds)), engine);
  }

  lemma StoredIsViewed<T>(codec: Codec<T>, file: PersistedFile, engine: SearchEngine<T>)
    requires |file.bytes| <= USIZE_MAX && file.SearchEngineFits() && Storable(engine) && Stores(codec, file, engine)
    ensures Views(codec, file, Opened(engine))
  {
    hide Frames;
    var offsets, blob :|
      Frames(codec, engine.vocabulary.tokens, blob, offsets) && Holds(file, offsets, blob, engine.store, engine.index);
    FrameCount(codec, engine.vocabulary.tokens, blob, offsets);
    FramedIsDecoded(codec, engine.vocabulary.tokens, blob, offsets);
  }

  lemma SnapshotIsStored<T>(
    codec: Codec<T>, engine: SearchEngine<T>, bytes: seq<Byte>, blob: seq<Byte>, offsets: seq<nat>)
    requires Storable(engine) && SnapshotWith(codec, engine, bytes, blob, offsets)
    ensures var sections := EngineSections(offsets, blob, engine.vocabulary.Len(), engine.store, engine.index);
            var ds := DescriptorsOf(codec.Tag(), sections);
            && ValidFile(bytes, SearchEngineFile, codec.Tag(), ds)
            && Stores(codec, PersistedFile(bytes, SearchEngineFile, Collected(ds)), engine)
  {
    hide ValidFile, Storable, EngineSections, Holds, Writable, Frames, DescriptorsOf, Collected, FileBytes;
    SnapshotIsValid(codec, engine, bytes, blob, offsets);
    SnapshotHolds(codec, engine, bytes, blob, offsets);
  }

  /** The numbers by which a snapshot names its kind and its sections. */
  lemma SnapshotNumbers<T>(codec: Codec<T>, engine: SearchEngine<T>, bytes: seq<Byte>)
    requires IsSnapshot(codec, engine, bytes)
    ensures 64 <= |bytes| && U32At(bytes, 16) == 1 && U32At(bytes, 28) == 6 && U64At(bytes, 48) + 32 * 6 <= |bytes|
    ensures forall i :: 0 <= i < 6 ==> U32At(bytes, U64At(bytes, 48) + 32 * i) == i + 1
  {
    hide Frames, FileBytes, Writable, DescriptorsOf, U32At, U64At, At, TableOffset;
    var blob, offsets :| SnapshotWith(codec, engine, bytes, blob, offsets);
    var sections := EngineSections(offsets, blob, engine.vocabulary.Len(), engine.store, engine.index);
    WrittenHeader(SearchEngineFile, codec.Tag(), sections);
    forall i: nat | i < 6
      ensures U32At(bytes, U64At(bytes, 48) + 32 * i) == i + 1
    {
      WrittenEntry(SearchEngineFile, codec.Tag(), sections, i);
    }
  }

  // ----- Built engines -----

  /** An engine the builder made can be stored. */
  lemma BuiltEnginesAreStorable<T>(engine: SearchEngine<T>, sequences: seq<seq<T>>)
    requires engine.Represents(sequences)
    requires |sequences| <= U32_MAX + 1 && forall s :: s in sequences ==> |s| <= U32_MAX
    ensures Storable(engine)
  {
    hide OffsetsFit, EncodesAll;
    EncodedSymbolsAreKnown(engine.vocabulary, engine.store.Corpus(), sequences);
    StoredSymbolsAreKnown(engine.store, engine.vocabulary.Len());
    forall p | p in engine.index.postings
      ensures p.stringId <= U32_MAX && p.position <= U32_MAX
    {
      PostingInRange(engine, sequences, p);
    }
  }

  lemma PostingInRange<T>(engine: SearchEngine<T>, sequences: seq<seq<T>>, p: Posting)
    requires engine.Represents(sequences) && p in engine.index.postings
    requires |sequences| <= U32_MAX + 1 && forall s :: s in sequences ==> |s| <= U32_MAX
    ensures p.stringId <= U32_MAX && p.position <= U32_MAX
  {
    var k :| 0 <= k < |engine.index.postings| && engine.index.postings[k] == p;
    var symbol := SymbolOfPosting(engine.index, k);
    assert p in engine.index.PostingSlice(symbol);
    assert Occurs(engine.store.Corpus(), symbol, p);
    assert sequences[p.stringId] in sequences;
  }

  /** The slice that holds posting `k`. */
  lemma SymbolOfPosting(index: PostingsIndex, k: nat) returns (symbol: Symbol)
    requires index.WellFormed() && k < |index.postings| && |index.postingOffsets| <= UNKNOWN + 1
    ensures symbol + 1 < |index.postingOffsets| && index.postings[k] in index.PostingSlice(symbol)
  {
    symbol := SliceOf(index.postingOffsets, |index.postings|, k);
    var start := index.postingOffsets[symbol];
    assert index.PostingSlice(symbol)[k - start] == index.postings[k];
  }

  /** The opened engine holds the same data sequences, so every search on it
      answers exactly as on the original. */
  lemma OpenedEngineRepresents<T>(engine: SearchEngine<T>, sequences: seq<seq<T>>)
    requires engine.Represents(sequences)
    ensures Opened(engine).Represents(sequences)
  {
    assert Opened(engine).store.Corpus() == engine.store.Corpus();
  }
}
