/** What the stored rules of a cost policy say, and that reading them finds exactly
    that. */
module CostContents {
  import opened Wrappers
  import opened Types
  import opened Bytes
  import opened Codecs
  import opened CostMetadata

  // ----- Stored rules -----

  /** A stored rule: its encoded tokens and the bits of its cost, and the tokens and
      the cost they stand for. */
  datatype Entry<+T> = Entry(tokens: seq<seq<Byte>>, bits: nat, key: seq<T>, cost: nat)

  ghost function TokensLen(tokens: seq<seq<Byte>>): (len: nat)
    ensures 8 * |tokens| <= len
  {
    if tokens == [] then 0 else 8 + |tokens[0]| + TokensLen(tokens[1..])
  }

  /** Each token after its length. */
  ghost predicate TokensAt(bytes: seq<Byte>, position: nat, tokens: seq<seq<Byte>>)
    decreases |tokens|
  {
    tokens != [] ==>
      && At(bytes, position, LeU64(|tokens[0]|)) && At(bytes, position + 8, tokens[0])
      && TokensAt(bytes, position + 8 + |tokens[0]|, tokens[1..])
  }

  ghost function EntryLen<T>(entry: Entry<T>): nat {
    TokensLen(entry.tokens) + 4
  }

  /** The tokens, then the cost. */
  ghost predicate EntryAt<T>(bytes: seq<Byte>, position: nat, entry: Entry<T>) {
    && TokensAt(bytes, position, entry.tokens)
    && At(bytes, position + TokensLen(entry.tokens), LeU32(entry.bits))
  }

  ghost function EntriesLen<T>(entries: seq<Entry<T>>): nat {
    if entries == [] then 0 else EntryLen(entries[0]) + EntriesLen(entries[1..])
  }

  ghost predicate EntriesAt<T>(bytes: seq<Byte>, position: nat, entries: seq<Entry<T>>)
    decreases |entries|
  {
    entries != [] ==>
      EntryAt(bytes, position, entries[0]) && EntriesAt(bytes, position + EntryLen(entries[0]), entries[1..])
  }

  ghost predicate DecodesTo<T>(codec: Codec<T>, tokens: seq<seq<Byte>>, key: seq<T>) {
    |tokens| == |key| && forall n :: 0 <= n < |tokens| ==> codec.decode(tokens[n]) == Ok(key[n])
  }

  /** The tokens decode to the key and the bits stand for the cost. */
  ghost predicate Means<T>(codec: Codec<T>, entry: Entry<T>, arity: nat) {
    && |entry.key| == arity && DecodesTo(codec, entry.tokens, entry.key) && StandsFor(entry.bits, entry.cost)
    && (arity == 2 ==> entry.key[0] != entry.key[1])
  }

  /** The rules are the entries, all with different keys. */
  ghost predicate Gathers<T>(entries: seq<Entry<T>>, rules: Rules<T>) {
    && (forall i, j :: 0 <= i < j < |entries| ==> entries[i].key != entries[j].key)
    && (forall i :: 0 <= i < |entries| ==> entries[i].key in rules && rules[entries[i].key] == entries[i].cost)
    && (forall key :: key in rules ==> exists i :: 0 <= i < |entries| && entries[i].key == key)
  }

  /** The rule table that stands at this position. */
  ghost predicate TableAt<T>(
    codec: Codec<T>, bytes: seq<Byte>, position: nat, arity: nat, entries: seq<Entry<T>>, rules: Rules<T>)
  {
    && EntriesAt(bytes, position, entries) && (forall i :: 0 <= i < |entries| ==> Means(codec, entries[i], arity))
    && Gathers(entries, rules)
  }

  // ----- Reading a token, a key and a cost -----

  lemma StoredU32(bytes: seq<Byte>, position: nat)
    requires position + 4 <= |bytes|
    ensures At(bytes, position, LeU32(FromLe(bytes[position..position + 4])))
    ensures FromLe(bytes[position..position + 4]) <= U32_MAX
  {
    FromLeRoundTrip(bytes[position..position + 4]);
    FromLeFits(bytes[position..position + 4]);
    Ranges();
  }

  lemma StoredU64(bytes: seq<Byte>, position: nat)
    requires position + 8 <= |bytes|
    ensures At(bytes, position, LeU64(FromLe(bytes[position..position + 8])))
    ensures FromLe(bytes[position..position + 8]) <= USIZE_MAX
  {
    FromLeRoundTrip(bytes[position..position + 8]);
    FromLeFits(bytes[position..position + 8]);
    Ranges();
  }

  lemma U64Found(bytes: seq<Byte>, position: nat)
    requires position <= |bytes| <= USIZE_MAX && ReadU64(bytes, position).Ok?
    ensures var (value, next) := ReadU64(bytes, position).value;
            value <= USIZE_MAX && At(bytes, position, LeU64(value)) && next == position + 8
  {
    hide FromLe, LeU64, At;
    StoredU64(bytes, position);
  }

  lemma U32Found(bytes: seq<Byte>, position: nat)
    requires position <= |bytes| <= USIZE_MAX && ReadU32(bytes, position).Ok?
    ensures var (value, next) := ReadU32(bytes, position).value;
            value <= U32_MAX && At(bytes, position, LeU32(value)) && next == position + 4
  {
    hide FromLe, LeU32, At;
    StoredU32(bytes, position);
  }

  lemma BytesFound(bytes: seq<Byte>, position: nat)
    requires position <= |bytes| <= USIZE_MAX && ReadBytes(bytes, position).Ok?
    ensures var (content, next) := ReadBytes(bytes, position).value;
            && At(bytes, position, LeU64(|content|)) && At(bytes, position + 8, content)
            && next == position + 8 + |content|
  {
    hide ReadU64, LeU64;
    U64Found(bytes, position);
  }

  lemma BytesRead(bytes: seq<Byte>, position: nat, content: seq<Byte>)
    requires |bytes| <= USIZE_MAX
    requires At(bytes, position, LeU64(|content|)) && At(bytes, position + 8, content)
    ensures position <= |bytes| && ReadBytes(bytes, position) == Ok((content, position + 8 + |content|))
  {
    hide LeU64, ReadU64, At, ReadArray;
    AtFits(bytes, position + 8, content);
    U64ReadsBack(bytes, position, |content|);
    ArrayReadsBack(bytes, position + 8, content);
  }

  /** The bytes of a cost at a position. */
  ghost predicate CostAt(bytes: seq<Byte>, position: nat, cost: nat) {
    exists bits :: At(bytes, position, LeU32(bits)) && StandsFor(bits, cost)
  }

  lemma CostFound(bytes: seq<Byte>, position: nat) returns (bits: nat)
    requires position <= |bytes| <= USIZE_MAX && ReadCost(bytes, position).Ok?
    ensures var (cost, next) := ReadCost(bytes, position).value;
            At(bytes, position, LeU32(bits)) && StandsFor(bits, cost) && next == position + 4
  {
    hide ReadU32, LeU32, At;
    U32Found(bytes, position);
    bits := ReadU32(bytes, position).value.0;
  }

  lemma CostRead(bytes: seq<Byte>, position: nat, bits: nat, cost: nat)
    requires |bytes| <= USIZE_MAX && At(bytes, position, LeU32(bits)) && StandsFor(bits, cost)
    ensures position <= |bytes| && ReadCost(bytes, position) == Ok((cost, position + 4))
  {
    hide ReadU32, LeU32, At;
    U32ReadsBack(bytes, position, bits);
  }

  lemma {:induction false} KeyFound<T>(codec: Codec<T>, bytes: seq<Byte>, position: nat, arity: nat)
    returns (tokens: seq<seq<Byte>>)
    requires position <= |bytes| <= USIZE_MAX && ReadKey(codec, bytes, position, arity).Ok?
    ensures var (key, next) := ReadKey(codec, bytes, position, arity).value;
            && TokensAt(bytes, position, tokens) && DecodesTo(codec, tokens, key)
            && next == position + TokensLen(tokens)
    decreases arity
  {
    hide ReadBytes, At;
    if arity == 0 {
      return [];
    }
    BytesFound(bytes, position);
    var (encoded, next) := ReadBytes(bytes, position).value;
    var rest := KeyFound(codec, bytes, next, arity - 1);
    tokens := [encoded] + rest;
    assert tokens[1..] == rest;
  }

  lemma {:induction false} KeyRead<T>(
    codec: Codec<T>, bytes: seq<Byte>, position: nat, tokens: seq<seq<Byte>>, key: seq<T>)
    requires position <= |bytes| <= USIZE_MAX && TokensAt(bytes, position, tokens) && DecodesTo(codec, tokens, key)
    ensures ReadKey(codec, bytes, position, |key|) == Ok((key, position + TokensLen(tokens)))
    decreases |key|
  {
    hide ReadBytes, At;
    if key != [] {
      BytesRead(bytes, position, tokens[0]);
      KeyRead(codec, bytes, position + 8 + |tokens[0]|, tokens[1..], key[1..]);
      assert key == [key[0]] + key[1..];
    }
  }

  // ----- Reading a table -----

  /** Adding the entries one by one, each new, turns one table into the other. */
  ghost predicate Extends<T>(before: Rules<T>, entries: seq<Entry<T>>, after: Rules<T>)
    decreases |entries|
  {
    if entries == [] then after == before
    else
      && entries[0].key !in before
      && Extends(before[entries[0].key := entries[0].cost], entries[1..], after)
  }

  lemma RuleFound<T>(codec: Codec<T>, bytes: seq<Byte>, position: nat, arity: nat) returns (entry: Entry<T>)
    requires position <= |bytes| <= USIZE_MAX && ReadKey(codec, bytes, position, arity).Ok?
    requires ReadCost(bytes, ReadKey(codec, bytes, position, arity).value.1).Ok?
    requires arity == 2 ==>
      var key := ReadKey(codec, bytes, position, arity).value.0; key[0] != key[1]
    ensures var key := ReadKey(codec, bytes, position, arity).value;
            && entry.key == key.0 && ReadCost(bytes, key.1) == Ok((entry.cost, position + EntryLen(entry)))
            && EntryAt(bytes, position, entry) && Means(codec, entry, arity)
  {
    hide ReadKey, ReadCost, TokensAt, DecodesTo, StandsFor, At;
    var tokens := KeyFound(codec, bytes, position, arity);
    var (key, next) := ReadKey(codec, bytes, position, arity).value;
    var bits := CostFound(bytes, next);
    entry := Entry(tokens, bits, key, ReadCost(bytes, next).value.0);
  }

  lemma RuleRead<T>(codec: Codec<T>, bytes: seq<Byte>, position: nat, arity: nat, entry: Entry<T>)
    requires position <= |bytes| <= USIZE_MAX && EntryAt(bytes, position, entry) && Means(codec, entry, arity)
    ensures position + EntryLen(entry) <= |bytes|
    ensures ReadKey(codec, bytes, position, arity) == Ok((entry.key, position + TokensLen(entry.tokens)))
    ensures ReadCost(bytes, position + TokensLen(entry.tokens)) == Ok((entry.cost, position + EntryLen(entry)))
  {
    hide ReadKey, ReadCost, TokensAt, StandsFor, At;
    KeyRead(codec, bytes, position, entry.tokens, entry.key);
    CostRead(bytes, position + TokensLen(entry.tokens), entry.bits, entry.cost);
    AtFits(bytes, position + TokensLen(entry.tokens), LeU32(entry.bits));
  }

  lemma {:induction false} RulesFound<T>(
    codec: Codec<T>, bytes: seq<Byte>, position: nat, arity: nat, count: nat, before: Rules<T>, duplicated: string)
    returns (entries: seq<Entry<T>>)
    requires position <= |bytes| <= USIZE_MAX
    requires ReadRules(codec, bytes, position, arity, count, before, duplicated).Ok?
    ensures var (after, next) := ReadRules(codec, bytes, position, arity, count, before, duplicated).value;
            && |entries| == count && EntriesAt(bytes, position, entries)
            && (forall i :: 0 <= i < |entries| ==> Means(codec, entries[i], arity))
            && Extends(before, entries, after) && next == position + EntriesLen(entries)
    decreases count
  {
    hide ReadKey, ReadCost, EntryAt, Means, EntryLen;
    if count == 0 {
      return [];
    }
    var first := RuleFound(codec, bytes, position, arity);
    var rest := RulesFound(
      codec, bytes, position + EntryLen(first), arity, count - 1, before[first.key := first.cost], duplicated);
    entries := [first] + rest;
    assert entries[1..] == rest;
  }

  lemma {:induction false} RulesRead<T>(
    codec: Codec<T>, bytes: seq<Byte>, position: nat, arity: nat, entries: seq<Entry<T>>, before: Rules<T>,
    after: Rules<T>, duplicated: string)
    requires position <= |bytes| <= USIZE_MAX && EntriesAt(bytes, position, entries)
    requires forall i :: 0 <= i < |entries| ==> Means(codec, entries[i], arity)
    requires Extends(before, entries, after)
    ensures ReadRules(codec, bytes, position, arity, |entries|, before, duplicated) ==
            Ok((after, position + EntriesLen(entries)))
    decreases |entries|
  {
    hide ReadKey, ReadCost, EntryAt, EntryLen, DecodesTo, StandsFor;
    if entries != [] {
      var first := entries[0];
      RuleRead(codec, bytes, position, arity, first);
      assert forall i :: 0 <= i < |entries[1..]| ==> entries[1..][i] == entries[i + 1];
      RulesRead(
        codec, bytes, position + EntryLen(first), arity, entries[1..], before[first.key := first.cost], after,
        duplicated);
    }
  }

  /** The entries are new, all different, and the only addition. */
  ghost predicate GathersOnto<T>(before: Rules<T>, entries: seq<Entry<T>>, after: Rules<T>) {
    && (forall i, j :: 0 <= i < j < |entries| ==> entries[i].key != entries[j].key)
    && (forall i :: 0 <= i < |entries| ==>
          entries[i].key !in before && entries[i].key in after && after[entries[i].key] == entries[i].cost)
    && (forall key :: key in before ==> key in after && after[key] == before[key])
    && (forall key :: key in after ==> key in before || exists i :: 0 <= i < |entries| && entries[i].key == key)
  }

  lemma {:induction false} ExtendsIffGathers<T>(before: Rules<T>, entries: seq<Entry<T>>, after: Rules<T>)
    ensures Extends(before, entries, after) <==> GathersOnto(before, entries, after)
    decreases |entries|
  {
    hide GathersOnto;
    if entries == [] {
      NothingGathered(before, after);
    } else {
      ExtendsIffGathers(before[entries[0].key := entries[0].cost], entries[1..], after);
      FirstGathered(before, entries, after);
    }
  }

  lemma NothingGathered<T>(before: Rules<T>, after: Rules<T>)
    ensures GathersOnto(before, [], after) <==> after == before
  {
  }

  lemma FirstGathered<T>(before: Rules<T>, entries: seq<Entry<T>>, after: Rules<T>)
    requires entries != []
    ensures GathersOnto(before, entries, after) <==>
            && entries[0].key !in before
            && GathersOnto(before[entries[0].key := entries[0].cost], entries[1..], after)
  {
    hide GathersOnto;
    if GathersOnto(before, entries, after) {
      WithoutFirst(before, entries[0], entries[1..], entries, after);
    }
    if entries[0].key !in before && GathersOnto(before[entries[0].key := entries[0].cost], entries[1..], after) {
      WithFirst(before, entries[0], entries[1..], entries, after);
    }
  }

  lemma RestEntry<T>(
    before: Rules<T>, first: Entry<T>, rest: seq<Entry<T>>, after: Rules<T>, i: nat)
    requires GathersOnto(before, [first] + rest, after) && i < |rest|
    ensures rest[i].key !in before && rest[i].key != first.key
    ensures rest[i].key in after && after[rest[i].key] == rest[i].cost
    ensures forall j :: i < j < |rest| ==> rest[i].key != rest[j].key
  {
    var entries := [first] + rest;
    assert entries[i + 1] == rest[i] && entries[0] == first;
    forall j | i < j < |rest|
      ensures rest[i].key != rest[j].key
    {
      assert rest[j] == entries[j + 1];
    }
  }

  lemma RestKey<T>(
    before: Rules<T>, first: Entry<T>, rest: seq<Entry<T>>, after: Rules<T>, key: seq<T>)
    requires GathersOnto(before, [first] + rest, after) && key in after && key !in before && key != first.key
    ensures exists i :: 0 <= i < |rest| && rest[i].key == key
  {
    var entries := [first] + rest;
    var i :| 0 <= i < |entries| && entries[i].key == key;
    assert rest[i - 1].key == key;
  }

  lemma FirstEntry<T>(before: Rules<T>, first: Entry<T>, rest: seq<Entry<T>>, after: Rules<T>)
    requires GathersOnto(before, [first] + rest, after)
    ensures first.key !in before && first.key in after && after[first.key] == first.cost
    ensures forall key :: key in before ==> key in after && after[key] == before[key]
  {
    assert ([first] + rest)[0] == first;
  }

  lemma WithoutFirst<T>(
    before: Rules<T>, first: Entry<T>, rest: seq<Entry<T>>, entries: seq<Entry<T>>, after: Rules<T>)
    requires entries == [first] + rest && GathersOnto(before, entries, after)
    ensures first.key !in before && GathersOnto(before[first.key := first.cost], rest, after)
  {
    FirstEntry(before, first, rest, after);
    forall i: nat | i < |rest|
      ensures rest[i].key !in before && rest[i].key != first.key && rest[i].key in after
      ensures after[rest[i].key] == rest[i].cost && forall j :: i < j < |rest| ==> rest[i].key != rest[j].key
    {
      RestEntry(before, first, rest, after, i);
    }
    forall key | key in after && key !in before && key != first.key
      ensures exists i :: 0 <= i < |rest| && rest[i].key == key
    {
      RestKey(before, first, rest, after, key);
    }
  }

  lemma WithFirst<T>(
    before: Rules<T>, first: Entry<T>, rest: seq<Entry<T>>, entries: seq<Entry<T>>, after: Rules<T>)
    requires entries == [first] + rest && first.key !in before
    requires GathersOnto(before[first.key := first.cost], rest, after)
    ensures GathersOnto(before, entries, after)
  {
    assert entries[0] == first && forall i :: 0 < i < |entries| ==> entries[i] == rest[i - 1];
    assert first.key in before[first.key := first.cost];
    forall key | key in after && key !in before
      ensures exists i :: 0 <= i < |entries| && entries[i].key == key
    {
      if key == first.key {
        assert entries[0].key == key;
      } else {
        var i :| 0 <= i < |rest| && rest[i].key == key;
        assert entries[i + 1].key == key;
      }
    }
  }

  /** Reading a rule table finds exactly the table that stands there. */
  lemma TableRead<T>(
    codec: Codec<T>, bytes: seq<Byte>, position: nat, arity: nat, entries: seq<Entry<T>>, rules: Rules<T>,
    duplicated: string)
    requires position <= |bytes| <= USIZE_MAX && TableAt(codec, bytes, position, arity, entries, rules)
    ensures ReadRules(codec, bytes, position, arity, |entries|, map[], duplicated) ==
            Ok((rules, position + EntriesLen(entries)))
  {
    hide EntriesAt, Means, EntriesLen, ReadRules;
    ExtendsIffGathers(map[], entries, rules);
    RulesRead(codec, bytes, position, arity, entries, map[], rules, duplicated);
  }

  lemma TableFound<T>(
    codec: Codec<T>, bytes: seq<Byte>, position: nat, arity: nat, count: nat, duplicated: string)
    returns (entries: seq<Entry<T>>)
    requires position <= |bytes| <= USIZE_MAX
    requires ReadRules(codec, bytes, position, arity, count, map[], duplicated).Ok?
    ensures var (rules, next) := ReadRules(codec, bytes, position, arity, count, map[], duplicated).value;
            && |entries| == count && TableAt(codec, bytes, position, arity, entries, rules)
            && next == position + EntriesLen(entries)
  {
    hide EntriesAt, Means, EntriesLen, ReadRules;
    entries := RulesFound(codec, bytes, position, arity, count, map[], duplicated);
    ExtendsIffGathers(map[], entries, ReadRules(codec, bytes, position, arity, count, map[], duplicated).value.0);
  }

  /** Every entry takes room. */
  lemma {:induction false} EntriesTakeRoom<T>(codec: Codec<T>, entries: seq<Entry<T>>, arity: nat)
    requires (arity == 1 || arity == 2) && forall i :: 0 <= i < |entries| ==> Means(codec, entries[i], arity)
    ensures arity == 1 ==> 12 * |entries| <= EntriesLen(entries)
    ensures arity == 2 ==> 20 * |entries| <= EntriesLen(entries)
  {
    if entries != [] {
      assert Means(codec, entries[0], arity);
      assert forall i :: 0 <= i < |entries[1..]| ==> entries[1..][i] == entries[i + 1];
      EntriesTakeRoom(codec, entries[1..], arity);
    }
  }
}
