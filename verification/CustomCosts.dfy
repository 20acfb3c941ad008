/** Saving and opening a custom cost policy. */
module CustomCosts {
  import opened Wrappers
  import opened Types
  import opened Collections
  import opened Sorting
  import opened Bytes
  import opened Codecs
  import opened CostMetadata
  import opened CostContents

  const METADATA_VERSION: nat := 1

  datatype CustomCosts<!T(==)> = CustomCosts(
    defaultSubstitution: nat, defaultDeletion: nat, defaultInsertion: nat,
    substitutions: Rules<T>, deletions: Rules<T>, insertions: Rules<T>)
  {
    /** What the setters keep: every cost is a cost, and no rule substitutes a
        token for itself. */
    ghost predicate Valid() {
      && defaultSubstitution < INFINITY_BITS && defaultDeletion < INFINITY_BITS && defaultInsertion < INFINITY_BITS
      && ValidRules(substitutions, 2) && ValidRules(deletions, 1) && ValidRules(insertions, 1)
    }
  }

  ghost predicate ValidRules<T>(rules: Rules<T>, arity: nat) {
    forall key :: key in rules ==> ValidRule(key, rules[key], arity)
  }

  ghost predicate ValidRule<T>(key: seq<T>, cost: nat, arity: nat) {
    |key| == arity && cost < INFINITY_BITS && (arity == 2 ==> key[0] != key[1])
  }

  // ----- The order of saved rules -----

  predicate ByteLt(a: Byte, b: Byte) {
    a < b
  }

  predicate BytesLt(a: seq<Byte>, b: seq<Byte>) {
    Lex(ByteLt, a, b)
  }

  predicate KeyLt(a: seq<seq<Byte>>, b: seq<seq<Byte>>) {
    Lex(BytesLt, a, b)
  }

  predicate RowLeq(a: Row, b: Row) {
    !KeyLt(b.tokens, a.tokens)
  }

  lemma KeysAreOrdered()
    ensures StrictOrder(KeyLt)
  {
    LexIsStrictOrder(ByteLt, BytesLt);
    LexIsStrictOrder(BytesLt, KeyLt);
  }

  lemma RowsAreOrdered()
    ensures TotalPreorder(RowLeq)
  {
    hide KeyLt;
    KeysAreOrdered();
  }

  /** Strictly increasing keys. */
  ghost predicate Increasing(rows: seq<Row>) {
    forall i, j :: 0 <= i < j < |rows| ==> KeyLt(rows[i].tokens, rows[j].tokens)
  }

  /** Where two byte strings first differ the first is smaller, or it ends there. */
  ghost predicate BytesBefore(a: seq<Byte>, b: seq<Byte>) {
    exists n: nat :: n <= |a| && n < |b| && a[..n] == b[..n] && (n == |a| || a[n] < b[n])
  }

  /** Rules are saved by their first token, then by their second. */
  lemma SavedOrder(rows: seq<Row>, i: nat, j: nat)
    requires Increasing(rows) && i < j < |rows|
    ensures var a, b := rows[i].tokens, rows[j].tokens;
            exists n: nat :: n <= |a| && n < |b| && a[..n] == b[..n] && (n == |a| || BytesBefore(a[n], b[n]))
  {
    var a, b := rows[i].tokens, rows[j].tokens;
    LexMeans(BytesLt, a, b);
    var n: nat :| LessAt(BytesLt, a, b, n);
    if n < |a| {
      LexMeans(ByteLt, a[n], b[n]);
      var k: nat :| LessAt(ByteLt, a[n], b[n], k);
      assert a[n][..k] == b[n][..k];
    }
    assert a[..n] == b[..n];
  }

  /** An increasing sequence of rows is determined by its elements. */
  lemma {:induction false} IncreasingIsUnique(a: seq<Row>, b: seq<Row>)
    requires Increasing(a) && Increasing(b) && forall row :: row in a <==> row in b
    ensures a == b
  {
    hide KeyLt;
    if a == [] {
      if b != [] {
        var _ := SomeElement(b);
      }
    } else {
      assert a[0] in b && b[0] in a;
      KeysAreOrdered();
      assert a[0] == b[0];
      forall row
        ensures row in a[1..] <==> row in b[1..]
      {
        InTail(a, row);
        InTail(b, row);
      }
      IncreasingIsUnique(a[1..], b[1..]);
    }
  }

  lemma InTail(a: seq<Row>, row: Row)
    requires Increasing(a) && a != []
    ensures row in a[1..] <==> row in a && row != a[0]
  {
    hide KeyLt;
    KeysAreOrdered();
    assert row in a <==> row == a[0] || row in a[1..];
  }

  // ----- What is saved -----

  ghost predicate RulesRoundTrip<T>(codec: Codec<T>, rules: Rules<T>) {
    forall key :: key in rules ==> KeyRoundTrips(codec, key)
  }

  /** The row is the written form of the rule for this key. */
  ghost predicate IsRow<T>(codec: Codec<T>, rules: Rules<T>, key: seq<T>, row: Row) {
    key in rules && KeyRoundTrips(codec, key) && row == Row(EncodedKey(codec, key), rules[key])
  }

  /** One row for every rule, in increasing order. */
  ghost predicate SavedRows<T>(codec: Codec<T>, rules: Rules<T>, rows: seq<Row>) {
    && Increasing(rows)
    && (forall row :: row in rows ==> exists key :: key in rules && IsRow(codec, rules, key, row))
    && (forall key :: key in rules ==> exists row :: row in rows && IsRow(codec, rules, key, row))
  }

  function CountsBytes(substitutions: nat, deletions: nat, insertions: nat): seq<Byte> {
    LeU64(substitutions) + (LeU64(deletions) + LeU64(insertions))
  }

  function DefaultsBytes(substitution: nat, deletion: nat, insertion: nat): seq<Byte> {
    LeU32(substitution) + (LeU32(deletion) + LeU32(insertion))
  }

  function MetadataBytes<T>(costs: CustomCosts<T>, substitutions: seq<Row>, deletions: seq<Row>, insertions: seq<Row>)
    : seq<Byte>
  {
    LeU32(METADATA_VERSION)
    + (DefaultsBytes(costs.defaultSubstitution, costs.defaultDeletion, costs.defaultInsertion)
       + (CountsBytes(|substitutions|, |deletions|, |insertions|)
          + (RowsBytes(substitutions) + (RowsBytes(deletions) + RowsBytes(insertions)))))
  }

  ghost predicate SavedWith<T>(
    codec: Codec<T>, costs: CustomCosts<T>, bytes: seq<Byte>, s: seq<Row>, d: seq<Row>, i: seq<Row>)
  {
    && SavedRows(codec, costs.substitutions, s) && SavedRows(codec, costs.deletions, d)
    && SavedRows(codec, costs.insertions, i) && bytes == MetadataBytes(costs, s, d, i)
  }

  /** The bytes are a saved form of the policy. */
  ghost predicate SavedAs<T>(codec: Codec<T>, costs: CustomCosts<T>, bytes: seq<Byte>) {
    exists s, d, i :: SavedWith(codec, costs, bytes, s, d, i)
  }

  lemma SavedRowsAreDetermined<T>(codec: Codec<T>, rules: Rules<T>, a: seq<Row>, b: seq<Row>)
    requires SavedRows(codec, rules, a) && SavedRows(codec, rules, b)
    ensures a == b
  {
    hide Increasing, KeyRoundTrips, EncodedKey;
    forall row
      ensures row in a <==> row in b
    {
      if row in a {
        var key :| key in rules && IsRow(codec, rules, key, row);
        assert exists other :: other in b && IsRow(codec, rules, key, other);
      }
      if row in b {
        var key :| key in rules && IsRow(codec, rules, key, row);
        assert exists other :: other in a && IsRow(codec, rules, key, other);
      }
    }
    IncreasingIsUnique(a, b);
  }

  /** The saved bytes depend only on the policy, not on the order in which its
      maps are visited. */
  lemma SavedBytesAreDetermined<T>(codec: Codec<T>, costs: CustomCosts<T>, a: seq<Byte>, b: seq<Byte>)
    requires SavedAs(codec, costs, a) && SavedAs(codec, costs, b)
    ensures a == b
  {
    hide SavedRows, MetadataBytes;
    var s, d, i :| SavedWith(codec, costs, a, s, d, i);
    var s', d', i' :| SavedWith(codec, costs, b, s', d', i');
    SavedRowsAreDetermined(codec, costs.substitutions, s, s');
    SavedRowsAreDetermined(codec, costs.deletions, d, d');
    SavedRowsAreDetermined(codec, costs.insertions, i, i');
  }

  // ----- Saving -----

  /** The tokens of one rule, each checked to decode again. */
  method EncodeKey<T(==)>(codec: Codec<T>, key: seq<T>) returns (r: Result<seq<seq<Byte>>>)
    ensures r.Ok? <==> KeyRoundTrips(codec, key)
    ensures r.Ok? ==> r.value == EncodedKey(codec, key)
  {
    var tokens: seq<seq<Byte>> := [];
    for k := 0 to |key|
      invariant |tokens| == k
      invariant forall i :: 0 <= i < k ==> codec.RoundTrips(key[i]) && tokens[i] == codec.Encoding(key[i])
    {
      var encoded := codec.EncodeToken(key[k]);
      if encoded.Err? {
        assert key[k] in key;
        return Err(encoded.error);
      }
      tokens := tokens + [encoded.value];
    }
    return Ok(tokens);
  }

  lemma KeyEncodingIsInjective<T>(codec: Codec<T>, a: seq<T>, b: seq<T>)
    requires KeyRoundTrips(codec, a) && KeyRoundTrips(codec, b) && EncodedKey(codec, a) == EncodedKey(codec, b)
    ensures a == b
  {
    assert |EncodedKey(codec, a)| == |a| && |EncodedKey(codec, b)| == |b|;
    forall i | 0 <= i < |a|
      ensures a[i] == b[i]
    {
      assert a[i] in a && b[i] in b;
      assert EncodedKey(codec, a)[i] == EncodedKey(codec, b)[i];
      EncodingIsInjective(codec, a[i], b[i]);
    }
  }

  /** Rows for these keys: one each, all different. */
  ghost predicate RowsFor<T>(codec: Codec<T>, rules: Rules<T>, keys: set<seq<T>>, rows: seq<Row>) {
    && (forall row :: row in rows ==> exists key :: key in keys && IsRow(codec, rules, key, row))
    && (forall key :: key in keys ==> exists row :: row in rows && IsRow(codec, rules, key, row))
    && (forall i, j :: 0 <= i < j < |rows| ==> rows[i].tokens != rows[j].tokens)
  }

  lemma OneMoreRow<T>(codec: Codec<T>, rules: Rules<T>, keys: set<seq<T>>, rows: seq<Row>, key: seq<T>, row: Row)
    requires RowsFor(codec, rules, keys, rows) && key !in keys && IsRow(codec, rules, key, row)
    ensures RowsFor(codec, rules, keys + {key}, rows + [row])
  {
    hide KeyRoundTrips, EncodedKey;
    forall i | 0 <= i < |rows|
      ensures rows[i].tokens != row.tokens
    {
      assert rows[i] in rows;
      var other :| other in keys && IsRow(codec, rules, other, rows[i]);
      if rows[i].tokens == row.tokens {
        KeyEncodingIsInjective(codec, other, key);
      }
    }
    var more := rows + [row];
    forall x | x in more
      ensures exists k :: k in keys + {key} && IsRow(codec, rules, k, x)
    {
      if x != row {
        assert x in rows;
        var k :| k in keys && IsRow(codec, rules, k, x);
        assert k in keys + {key};
      }
    }
    forall k | k in keys + {key}
      ensures exists x :: x in more && IsRow(codec, rules, k, x)
    {
      if k == key {
        assert row in more;
      } else {
        var x :| x in rows && IsRow(codec, rules, k, x);
        assert x in more;
      }
    }
  }

  /** Encodes the rules in whatever order the map yields them. */
  method EncodeRules<T(==)>(codec: Codec<T>, rules: Rules<T>) returns (r: Result<seq<Row>>)
    ensures r.Ok? <==> RulesRoundTrip(codec, rules)
    ensures r.Ok? ==> RowsFor(codec, rules, rules.Keys, r.value)
  {
    hide RowsFor, KeyRoundTrips;
    var rows: seq<Row> := [];
    var rest := rules.Keys;
    NoRows(codec, rules);
    while rest != {}
      invariant rest <= rules.Keys
      invariant forall key :: key in rules.Keys - rest ==> KeyRoundTrips(codec, key)
      invariant RowsFor(codec, rules, rules.Keys - rest, rows)
      decreases rest
    {
      var key :| key in rest;
      var tokens := EncodeKey(codec, key);
      if tokens.Err? {
        return Err(tokens.error);
      }
      var row := Row(tokens.value, rules[key]);
      OneMoreRow(codec, rules, rules.Keys - rest, rows, key, row);
      assert (rules.Keys - rest) + {key} == rules.Keys - (rest - {key});
      rows := rows + [row];
      rest := rest - {key};
    }
    assert rules.Keys - rest == rules.Keys;
    return Ok(rows);
  }

  lemma NoRows<T>(codec: Codec<T>, rules: Rules<T>)
    ensures RowsFor(codec, rules, rules.Keys - rules.Keys, [])
  {
  }

  /** Sorting by key leaves strictly increasing keys. */
  lemma SortedRowsIncrease(rows: seq<Row>, sorted: seq<Row>)
    requires forall i, j :: 0 <= i < j < |rows| ==> rows[i].tokens != rows[j].tokens
    requires Sorted(RowLeq, sorted) && multiset(sorted) == multiset(rows)
    ensures Increasing(sorted)
    ensures forall row :: row in sorted <==> row in rows
  {
    hide KeyLt;
    KeysAreOrdered();
    forall row
      ensures row in sorted <==> row in rows
    {
      SameElements(sorted, rows, row);
    }
    forall i, j | 0 <= i < j < |sorted|
      ensures KeyLt(sorted[i].tokens, sorted[j].tokens)
    {
      assert RowLeq(sorted[i], sorted[j]);
      SortedKeysDiffer(rows, sorted, i, j);
    }
  }

  lemma SortedKeysDiffer(rows: seq<Row>, sorted: seq<Row>, i: nat, j: nat)
    requires forall i, j :: 0 <= i < j < |rows| ==> rows[i].tokens != rows[j].tokens
    requires multiset(sorted) == multiset(rows) && i < j < |sorted|
    ensures sorted[i].tokens != sorted[j].tokens
  {
    PermutationStaysDistinct(rows, sorted);
    assert sorted[i] in sorted && sorted[j] in sorted;
    var a :| 0 <= a < |rows| && rows[a] == sorted[i];
    var b :| 0 <= b < |rows| && rows[b] == sorted[j];
  }

  lemma IncreasingIsDistinct(rows: seq<Row>)
    requires Increasing(rows)
    ensures forall k :: 0 <= k < |rows| - 1 ==> rows[k].tokens != rows[k + 1].tokens
  {
    hide KeyLt;
    KeysAreOrdered();
  }

  /** Rejects two rows with the same key, which sorting puts side by side. */
  method RejectDuplicates(rows: seq<Row>) returns (r: Result<()>)
    ensures r.Ok? <==> forall k :: 0 <= k < |rows| - 1 ==> rows[k].tokens != rows[k + 1].tokens
    ensures r.Err? ==> r.error == InvalidTokenEncoding
  {
    if rows == [] {
      return Ok(());
    }
    for k := 0 to |rows| - 1
      invariant forall i :: 0 <= i < k ==> rows[i].tokens != rows[i + 1].tokens
    {
      if rows[k].tokens == rows[k + 1].tokens {
        return Err(InvalidTokenEncoding);
      }
    }
    return Ok(());
  }

  /** The rows of one rule table in saved order. The duplicate check never
      fires: tokens that decode again cannot share an encoding. */
  method SaveRules<T(==)>(codec: Codec<T>, rules: Rules<T>) returns (r: Result<seq<Row>>)
    ensures r.Ok? <==> RulesRoundTrip(codec, rules)
    ensures r.Ok? ==> SavedRows(codec, rules, r.value)
  {
    hide RowLeq, Increasing;
    var encoded := EncodeRules(codec, rules);
    if encoded.Err? {
      return encoded;
    }
    var rows := Sort(RowLeq, encoded.value);
    RowsAreOrdered();
    SortIsSorted(RowLeq, encoded.value);
    SortedRowsIncrease(encoded.value, rows);
    IncreasingIsDistinct(rows);
    var distinct := RejectDuplicates(rows);
    return if distinct.Ok? then Ok(rows) else Err(InvalidTokenEncoding);
  }

  method PushRows(output: seq<Byte>, rows: seq<Row>) returns (r: seq<Byte>)
    ensures r == output + RowsBytes(rows)
  {
    hide RowBytes;
    r := output;
    assert rows[0..] == rows;
    for k := 0 to |rows|
      invariant r + RowsBytes(rows[k..]) == output + RowsBytes(rows)
    {
      assert rows[k..][0] == rows[k] && rows[k..][1..] == rows[k + 1..];
      ghost var rest := RowsBytes(rows[k + 1..]);
      assert r + (RowBytes(rows[k]) + rest) == (r + RowBytes(rows[k])) + rest;
      r := PushRow(r, rows[k]);
    }
    assert rows[|rows|..] == [] && r + [] == r;
  }

  method PushRow(output: seq<Byte>, row: Row) returns (r: seq<Byte>)
    ensures r == output + RowBytes(row)
  {
    hide Prefixed;
    r := output;
    assert row.tokens[0..] == row.tokens;
    for k := 0 to |row.tokens|
      invariant r + TokensBytes(row.tokens[k..]) == output + TokensBytes(row.tokens)
    {
      assert row.tokens[k..][0] == row.tokens[k] && row.tokens[k..][1..] == row.tokens[k + 1..];
      ghost var rest := TokensBytes(row.tokens[k + 1..]);
      assert r + (Prefixed(row.tokens[k]) + rest) == (r + Prefixed(row.tokens[k])) + rest;
      r := PushBytes(r, row.tokens[k]);
    }
    assert row.tokens[|row.tokens|..] == [] && r + [] == r == output + TokensBytes(row.tokens);
    r := r + LeU32(row.cost);
  }

  /** The metadata of a policy. Only a token its codec cannot round-trip fails. */
  method SaveMetadata<T(==)>(codec: Codec<T>, costs: CustomCosts<T>) returns (r: Result<seq<Byte>>)
    ensures r.Ok? <==>
      && RulesRoundTrip(codec, costs.substitutions) && RulesRoundTrip(codec, costs.deletions)
      && RulesRoundTrip(codec, costs.insertions)
    ensures r.Ok? ==> SavedAs(codec, costs, r.value)
  {
    hide SavedRows, RulesRoundTrip, RowsBytes;
    var substitutions := SaveRules(codec, costs.substitutions);
    var deletions := SaveRules(codec, costs.deletions);
    var insertions := SaveRules(codec, costs.insertions);
    if substitutions.Err? {
      return Err(substitutions.error);
    }
    if deletions.Err? {
      return Err(deletions.error);
    }
    if insertions.Err? {
      return Err(insertions.error);
    }
    var metadata :=
      LeU32(METADATA_VERSION) + DefaultsBytes(costs.defaultSubstitution, costs.defaultDeletion, costs.defaultInsertion);
    metadata := metadata + CountsBytes(|substitutions.value|, |deletions.value|, |insertions.value|);
    metadata := PushRows(metadata, substitutions.value);
    metadata := PushRows(metadata, deletions.value);
    metadata := PushRows(metadata, insertions.value);
    assert metadata == MetadataBytes(costs, substitutions.value, deletions.value, insertions.value);
    assert SavedWith(codec, costs, metadata, substitutions.value, deletions.value, insertions.value);
    return Ok(metadata);
  }

  // ----- Opening -----

  /** The rule counts fit in the bytes that remain: a substitution takes at least
      20 bytes, any other rule at least 12. */
  function ValidateRuleCounts(remaining: nat, substitutions: nat, deletions: nat, insertions: nat): (r: Result<()>)
    requires remaining <= USIZE_MAX
    ensures r.Ok? <==> 20 * substitutions + 12 * deletions + 12 * insertions <= remaining
  {
    var tooMany := Err(InvalidFile("custom-cost rule counts exceed metadata size"));
    if substitutions * 20 > USIZE_MAX || deletions * 12 > USIZE_MAX || insertions * 12 > USIZE_MAX then tooMany
    else if deletions * 12 + substitutions * 20 > USIZE_MAX then tooMany
    else if insertions * 12 + (deletions * 12 + substitutions * 20) > remaining then tooMany
    else Ok(())
  }

  datatype Counts = Counts(substitutions: nat, deletions: nat, insertions: nat)

  /** The three rule tables, one after the other, and nothing else. */
  function ParseTables<T(==)>(
    codec: Codec<T>, bytes: seq<Byte>, position: nat, defaults: (nat, nat, nat), counts: Counts)
    : Result<CustomCosts<T>>
    requires position <= |bytes| <= USIZE_MAX
  {
    var substitutions :- ReadRules(
      codec, bytes, position, 2, counts.substitutions, map[], "substitution rule is duplicated");
    var deletions :- ReadRules(
      codec, bytes, substitutions.1, 1, counts.deletions, map[], "deletion rule is duplicated");
    var insertions :- ReadRules(
      codec, bytes, deletions.1, 1, counts.insertions, map[], "insertion rule is duplicated");
    if insertions.1 != |bytes| then Err(InvalidFile("cost metadata has trailing bytes"))
    else
      Ok(CustomCosts(defaults.0, defaults.1, defaults.2, substitutions.0, deletions.0, insertions.0))
  }

  function ParseDefaults(bytes: seq<Byte>, position: nat): (r: Result<((nat, nat, nat), nat)>)
    requires position <= |bytes| <= USIZE_MAX
    ensures r.Ok? ==> r.value.1 <= |bytes|
  {
    var substitution :- ReadCost(bytes, position);
    var deletion :- ReadCost(bytes, substitution.1);
    var insertion :- ReadCost(bytes, deletion.1);
    Ok(((substitution.0, deletion.0, insertion.0), insertion.1))
  }

  function ParseCounts(bytes: seq<Byte>, position: nat): (r: Result<(Counts, nat)>)
    requires position <= |bytes| <= USIZE_MAX
    ensures r.Ok? ==> r.value.1 <= |bytes|
  {
    var substitutions :- ReadU64(bytes, position);
    var deletions :- ReadU64(bytes, substitutions.1);
    var insertions :- ReadU64(bytes, deletions.1);
    Ok((Counts(substitutions.0, deletions.0, insertions.0), insertions.1))
  }

  /** What metadata means. */
  function ParseMetadata<T(==)>(codec: Codec<T>, bytes: seq<Byte>): Result<CustomCosts<T>>
    requires |bytes| <= USIZE_MAX
  {
    var version :- ReadU32(bytes, 0);
    if version.0 != METADATA_VERSION then Err(InvalidFile("unsupported custom-cost metadata version"))
    else
      var defaults :- ParseDefaults(bytes, version.1);
      var counts :- ParseCounts(bytes, defaults.1);
      var c := counts.0;
      var _ :- ValidateRuleCounts(|bytes| - counts.1, c.substitutions, c.deletions, c.insertions);
      ParseTables(codec, bytes, counts.1, defaults.0, c)
  }

  // ----- What metadata describes -----

  /** The version, three costs and three counts, then exactly that many rules of
      each kind, and nothing else. */
  ghost predicate DescribedBy<T>(
    codec: Codec<T>, bytes: seq<Byte>, costs: CustomCosts<T>, s: seq<Entry<T>>, d: seq<Entry<T>>, i: seq<Entry<T>>)
  {
    && At(bytes, 0, LeU32(1))
    && CostAt(bytes, 4, costs.defaultSubstitution) && CostAt(bytes, 8, costs.defaultDeletion)
    && CostAt(bytes, 12, costs.defaultInsertion)
    && At(bytes, 16, LeU64(|s|)) && At(bytes, 24, LeU64(|d|)) && At(bytes, 32, LeU64(|i|))
    && TableAt(codec, bytes, 40, 2, s, costs.substitutions)
    && TableAt(codec, bytes, 40 + EntriesLen(s), 1, d, costs.deletions)
    && TableAt(codec, bytes, 40 + EntriesLen(s) + EntriesLen(d), 1, i, costs.insertions)
    && |bytes| == 40 + EntriesLen(s) + EntriesLen(d) + EntriesLen(i)
  }

  /** The bytes describe this policy, whatever wrote them. */
  ghost predicate Describes<T(!new)>(codec: Codec<T>, bytes: seq<Byte>, costs: CustomCosts<T>) {
    exists s: seq<Entry<T>>, d: seq<Entry<T>>, i: seq<Entry<T>> :: DescribedBy(codec, bytes, costs, s, d, i)
  }

  lemma DefaultsRead(bytes: seq<Byte>, s: nat, d: nat, i: nat)
    requires |bytes| <= USIZE_MAX && CostAt(bytes, 4, s) && CostAt(bytes, 8, d) && CostAt(bytes, 12, i)
    ensures 4 <= |bytes| && ParseDefaults(bytes, 4) == Ok(((s, d, i), 16))
  {
    hide At, LeU32, ReadCost, StandsFor;
    var first :| At(bytes, 4, LeU32(first)) && StandsFor(first, s);
    var second :| At(bytes, 8, LeU32(second)) && StandsFor(second, d);
    var third :| At(bytes, 12, LeU32(third)) && StandsFor(third, i);
    CostRead(bytes, 4, first, s);
    CostRead(bytes, 8, second, d);
    CostRead(bytes, 12, third, i);
  }

  lemma DefaultsFound(bytes: seq<Byte>)
    requires 4 <= |bytes| <= USIZE_MAX && ParseDefaults(bytes, 4).Ok?
    ensures var ((s, d, i), next) := ParseDefaults(bytes, 4).value;
            CostAt(bytes, 4, s) && CostAt(bytes, 8, d) && CostAt(bytes, 12, i) && next == 16
  {
    hide At, LeU32, ReadCost, StandsFor;
    var first := CostFound(bytes, 4);
    var second := CostFound(bytes, 8);
    var third := CostFound(bytes, 12);
  }

  lemma CountsFound(bytes: seq<Byte>, position: nat)
    requires position <= |bytes| <= USIZE_MAX && ParseCounts(bytes, position).Ok?
    ensures var (counts, next) := ParseCounts(bytes, position).value;
            && At(bytes, position, LeU64(counts.substitutions)) && At(bytes, position + 8, LeU64(counts.deletions))
            && At(bytes, position + 16, LeU64(counts.insertions)) && next == position + 24
  {
    hide At, LeU64, ReadU64;
    U64Found(bytes, position);
    U64Found(bytes, position + 8);
    U64Found(bytes, position + 16);
  }

  lemma TablesRead<T>(
    codec: Codec<T>, bytes: seq<Byte>, costs: CustomCosts<T>, s: seq<Entry<T>>, d: seq<Entry<T>>, i: seq<Entry<T>>)
    requires 40 <= |bytes| <= USIZE_MAX && DescribedBy(codec, bytes, costs, s, d, i)
    ensures ParseTables(
              codec, bytes, 40, (costs.defaultSubstitution, costs.defaultDeletion, costs.defaultInsertion),
              Counts(|s|, |d|, |i|)) == Ok(costs)
  {
    hide At, LeU32, LeU64, CostAt, TableAt, EntriesLen, ReadRules;
    TableRead(codec, bytes, 40, 2, s, costs.substitutions, "substitution rule is duplicated");
    TableRead(codec, bytes, 40 + EntriesLen(s), 1, d, costs.deletions, "deletion rule is duplicated");
    TableRead(
      codec, bytes, 40 + EntriesLen(s) + EntriesLen(d), 1, i, costs.insertions, "insertion rule is duplicated");
  }

  lemma TablesFound<T>(
    codec: Codec<T>, bytes: seq<Byte>, defaults: (nat, nat, nat), counts: Counts)
    returns (s: seq<Entry<T>>, d: seq<Entry<T>>, i: seq<Entry<T>>)
    requires 40 <= |bytes| <= USIZE_MAX && ParseTables(codec, bytes, 40, defaults, counts).Ok?
    ensures var costs := ParseTables(codec, bytes, 40, defaults, counts).value;
            && |s| == counts.substitutions && |d| == counts.deletions && |i| == counts.insertions
            && TableAt(codec, bytes, 40, 2, s, costs.substitutions)
            && TableAt(codec, bytes, 40 + EntriesLen(s), 1, d, costs.deletions)
            && TableAt(codec, bytes, 40 + EntriesLen(s) + EntriesLen(d), 1, i, costs.insertions)
            && |bytes| == 40 + EntriesLen(s) + EntriesLen(d) + EntriesLen(i)
  {
    hide TableAt, EntriesLen, ReadRules;
    s := TableFound(codec, bytes, 40, 2, counts.substitutions, "substitution rule is duplicated");
    d := TableFound(codec, bytes, 40 + EntriesLen(s), 1, counts.deletions, "deletion rule is duplicated");
    i := TableFound(
      codec, bytes, 40 + EntriesLen(s) + EntriesLen(d), 1, counts.insertions, "insertion rule is duplicated");
  }

  lemma TablesTakeRoom<T>(
    codec: Codec<T>, bytes: seq<Byte>, costs: CustomCosts<T>, s: seq<Entry<T>>, d: seq<Entry<T>>, i: seq<Entry<T>>)
    requires DescribedBy(codec, bytes, costs, s, d, i)
    ensures 20 * |s| + 12 * |d| + 12 * |i| <= |bytes| - 40
  {
    hide At, LeU32, LeU64, CostAt, EntriesLen, EntriesAt, Means;
    EntriesTakeRoom(codec, s, 2);
    EntriesTakeRoom(codec, d, 1);
    EntriesTakeRoom(codec, i, 1);
  }

  /** The meaning of metadata is the policy its bytes describe, for all bytes. */
  lemma ParsedIffDescribed<T(!new)>(codec: Codec<T>, bytes: seq<Byte>, costs: CustomCosts<T>)
    requires |bytes| <= USIZE_MAX
    ensures ParseMetadata(codec, bytes) == Ok(costs) <==> Describes(codec, bytes, costs)
  {
    hide DescribedBy;
    if ParseMetadata(codec, bytes) == Ok(costs) {
      ParsedIsDescribed(codec, bytes, costs);
    }
    if Describes(codec, bytes, costs) {
      var s: seq<Entry<T>>, d: seq<Entry<T>>, i: seq<Entry<T>> :| DescribedBy(codec, bytes, costs, s, d, i);
      DescribedIsParsed(codec, bytes, costs, s, d, i);
    }
  }

  lemma NoCostIsInvalid(bytes: seq<Byte>, position: nat)
    requires position + 4 <= |bytes| <= USIZE_MAX
    ensures ReadCost(bytes, position).Err? ==> ReadCost(bytes, position) == Err(InvalidCost)
    ensures ReadCost(bytes, position).Ok? ==>
      CostAt(bytes, position, ReadCost(bytes, position).value.0) && ReadCost(bytes, position).value.1 == position + 4
  {
    hide StandsFor, FromLe, LeU32, At;
    if ReadCost(bytes, position).Ok? {
      var bits := CostFound(bytes, position);
    }
  }

  /** A default that is no cost, such as not a number or a negative one, is named. */
  lemma BadDefaultIsInvalidCost<T>(codec: Codec<T>, bytes: seq<Byte>, position: nat)
    requires 16 <= |bytes| <= USIZE_MAX && At(bytes, 0, LeU32(1)) && position in {4, 8, 12}
    requires forall cost :: !CostAt(bytes, position, cost)
    ensures ParseMetadata(codec, bytes) == Err(InvalidCost)
  {
    hide At, LeU32, CostAt, ReadU32, ReadCost, ParseTables, ParseCounts;
    U32ReadsBack(bytes, 0, 1);
    NoCostIsInvalid(bytes, 4);
    NoCostIsInvalid(bytes, 8);
    NoCostIsInvalid(bytes, 12);
  }

  /** A policy opens exactly when the bytes describe it. */
  ghost predicate OpensExactly<T(!new)>(codec: Codec<T>, bytes: seq<Byte>, r: Result<CustomCosts<T>>) {
    forall costs: CustomCosts<T> :: Describes(codec, bytes, costs) <==> r == Ok(costs)
  }

  lemma ParseOpensExactly<T(!new)>(codec: Codec<T>, bytes: seq<Byte>)
    requires |bytes| <= USIZE_MAX
    ensures OpensExactly(codec, bytes, ParseMetadata(codec, bytes))
  {
    hide Describes, ParseMetadata;
    forall costs: CustomCosts<T>
      ensures Describes(codec, bytes, costs) <==> ParseMetadata(codec, bytes) == Ok(costs)
    {
      ParsedIffDescribed(codec, bytes, costs);
    }
  }

  lemma DescribedIsParsed<T>(
    codec: Codec<T>, bytes: seq<Byte>, costs: CustomCosts<T>, s: seq<Entry<T>>, d: seq<Entry<T>>, i: seq<Entry<T>>)
    requires |bytes| <= USIZE_MAX && DescribedBy(codec, bytes, costs, s, d, i)
    ensures ParseMetadata(codec, bytes) == Ok(costs)
  {
    hide At, LeU32, LeU64, CostAt, TableAt, EntriesLen, ReadU32, ReadU64, ParseDefaults, ParseTables;
    TablesTakeRoom(codec, bytes, costs, s, d, i);
    U32ReadsBack(bytes, 0, 1);
    DefaultsRead(bytes, costs.defaultSubstitution, costs.defaultDeletion, costs.defaultInsertion);
    U64ReadsBack(bytes, 16, |s|);
    U64ReadsBack(bytes, 24, |d|);
    U64ReadsBack(bytes, 32, |i|);
    TablesRead(codec, bytes, costs, s, d, i);
  }

  lemma ParsedIsDescribed<T(!new)>(codec: Codec<T>, bytes: seq<Byte>, costs: CustomCosts<T>)
    requires |bytes| <= USIZE_MAX && ParseMetadata(codec, bytes) == Ok(costs)
    ensures Describes(codec, bytes, costs)
  {
    hide At, LeU32, LeU64, CostAt, TableAt, EntriesLen, ReadU32, ParseDefaults, ParseCounts, ReadRules;
    U32Found(bytes, 0);
    DefaultsFound(bytes);
    CountsFound(bytes, 16);
    var defaults, counts := ParseDefaults(bytes, 4).value.0, ParseCounts(bytes, 16).value.0;
    var s, d, i := TablesFound(codec, bytes, defaults, counts);
    assert DescribedBy(codec, bytes, costs, s, d, i);
  }

  /** Reads the tokens of one rule. */
  method OpenKey<T(==)>(codec: Codec<T>, reader: MetadataReader, arity: nat) returns (r: Result<seq<T>>)
    requires reader.Valid()
    modifies reader
    ensures reader.Valid()
    ensures match ReadKey(codec, reader.bytes, old(reader.position), arity)
            case Ok((key, next)) => r == Ok(key) && reader.position == next
            case Err(e) => r == Err(e)
    decreases arity
  {
    if arity == 0 {
      return Ok([]);
    }
    hide ReadBytes;
    var encoded :- reader.Bytes();
    var token :- codec.decode(encoded);
    var rest :- OpenKey(codec, reader, arity - 1);
    return Ok([token] + rest);
  }

  lemma NoMoreRules<T>(
    codec: Codec<T>, bytes: seq<Byte>, position: nat, arity: nat, rules: Rules<T>, duplicated: string)
    requires position <= |bytes| <= USIZE_MAX
    ensures ReadRules(codec, bytes, position, arity, 0, rules, duplicated) == Ok((rules, position))
  {
  }

  lemma NextRule<T>(
    codec: Codec<T>, bytes: seq<Byte>, position: nat, arity: nat, count: nat, rules: Rules<T>, duplicated: string)
    requires position <= |bytes| <= USIZE_MAX && 0 < count
    ensures ReadRules(codec, bytes, position, arity, count, rules, duplicated) ==
            match ReadKey(codec, bytes, position, arity)
            case Err(e) => Err(e)
            case Ok((key, next)) =>
              match ReadCost(bytes, next)
              case Err(e) => Err(e)
              case Ok((cost, end)) =>
                if arity == 2 && key[0] == key[1] then
                  Err(InvalidFile("equal-token substitution override is not allowed"))
                else if key in rules then Err(InvalidFile(duplicated))
                else ReadRules(codec, bytes, end, arity, count - 1, rules[key := cost], duplicated)
  {
    hide ReadKey, ReadCost;
  }

  /** Reads one rule table. */
  method OpenRules<T(==, !new)>(codec: Codec<T>, reader: MetadataReader, arity: nat, count: nat, duplicated: string)
    returns (r: Result<Rules<T>>)
    requires reader.Valid()
    modifies reader
    ensures reader.Valid()
    ensures match ReadRules(codec, reader.bytes, old(reader.position), arity, count, map[], duplicated)
            case Ok((rules, next)) => r == Ok(rules) && reader.position == next
            case Err(e) => r == Err(e)
    ensures r.Ok? ==> ValidRules(r.value, arity)
    ensures FindsTable(codec, reader.bytes, old(reader.position), arity, count,
                       if r.Ok? then Ok((r.value, reader.position)) else Err(r.error))
  {
    hide FindsTable, ReadKey, ReadCost, ReadRules;
    ReadsItsTable(codec, reader.bytes, reader.position, arity, count, duplicated);
    var rules: Rules<T> := map[];
    for k := 0 to count
      invariant reader.Valid() && ValidRules(rules, arity)
      invariant ReadRules(codec, reader.bytes, old(reader.position), arity, count, map[], duplicated) ==
                ReadRules(codec, reader.bytes, reader.position, arity, count - k, rules, duplicated)
    {
      NextRule(codec, reader.bytes, reader.position, arity, count - k, rules, duplicated);
      var key :- OpenKey(codec, reader, arity);
      var cost :- reader.Cost();
      if arity == 2 && key[0] == key[1] {
        return Err(InvalidFile("equal-token substitution override is not allowed"));
      }
      if key in rules {
        return Err(InvalidFile(duplicated));
      }
      rules := rules[key := cost];
    }
    NoMoreRules(codec, reader.bytes, reader.position, arity, rules, duplicated);
    return Ok(rules);
  }

  /** The result holds the rules and the end of the table of this many rules that
      stands at the position, if one does. */
  ghost predicate FindsTable<T(!new)>(
    codec: Codec<T>, bytes: seq<Byte>, position: nat, arity: nat, count: nat, r: Result<(Rules<T>, nat)>)
  {
    && (r.Ok? ==> exists entries: seq<Entry<T>> ::
          && |entries| == count && TableAt(codec, bytes, position, arity, entries, r.value.0)
          && r.value.1 == position + EntriesLen(entries))
    && forall entries: seq<Entry<T>>, rules: Rules<T> ::
         |entries| == count && TableAt(codec, bytes, position, arity, entries, rules) ==>
         r == Ok((rules, position + EntriesLen(entries)))
  }

  /** Reading succeeds exactly where a table of this many rules stands. */
  lemma ReadsItsTable<T(!new)>(
    codec: Codec<T>, bytes: seq<Byte>, position: nat, arity: nat, count: nat, duplicated: string)
    requires position <= |bytes| <= USIZE_MAX
    ensures FindsTable(codec, bytes, position, arity, count,
                       ReadRules(codec, bytes, position, arity, count, map[], duplicated))
  {
    hide TableAt, EntriesLen, ReadRules;
    if ReadRules(codec, bytes, position, arity, count, map[], duplicated).Ok? {
      var entries := TableFound(codec, bytes, position, arity, count, duplicated);
    }
    forall entries: seq<Entry<T>>, rules: Rules<T> |
      |entries| == count && TableAt(codec, bytes, position, arity, entries, rules)
      ensures ReadRules(codec, bytes, position, arity, count, map[], duplicated) ==
              Ok((rules, position + EntriesLen(entries)))
    {
      TableRead(codec, bytes, position, arity, entries, rules, duplicated);
    }
  }

  /** Opens metadata: defaults, counts, then the three rule tables. Exactly what the
      bytes describe opens, whatever wrote them, and it is a valid policy. */
  method OpenMetadata<T(==, !new)>(codec: Codec<T>, bytes: seq<Byte>) returns (r: Result<CustomCosts<T>>)
    requires |bytes| <= USIZE_MAX
    ensures r == ParseMetadata(codec, bytes)
    ensures OpensExactly(codec, bytes, r)
    ensures r.Ok? ==> r.value.Valid()
  {
    hide ReadU32, ReadU64, ReadCost, ReadRules, ValidRules, OpensExactly, FindsTable;
    ParseOpensExactly(codec, bytes);
    var reader := new MetadataReader(bytes);
    var version :- reader.U32();
    if version != METADATA_VERSION {
      return Err(InvalidFile("unsupported custom-cost metadata version"));
    }
    var substitution :- reader.Cost();
    var deletion :- reader.Cost();
    var insertion :- reader.Cost();
    var substitutionCount :- reader.U64();
    var deletionCount :- reader.U64();
    var insertionCount :- reader.U64();
    var _ :- ValidateRuleCounts(reader.Remaining(), substitutionCount, deletionCount, insertionCount);
    var substitutions :- OpenRules(codec, reader, 2, substitutionCount, "substitution rule is duplicated");
    var deletions :- OpenRules(codec, reader, 1, deletionCount, "deletion rule is duplicated");
    var insertions :- OpenRules(codec, reader, 1, insertionCount, "insertion rule is duplicated");
    var _ :- reader.Finish();
    return Ok(CustomCosts(substitution, deletion, insertion, substitutions, deletions, insertions));
  }

  // ----- Opening undoes saving -----

  /** The rules whose rows are among the first `n`. */
  ghost predicate ReadSoFar<T>(codec: Codec<T>, rules: Rules<T>, rows: seq<Row>, n: nat, read: Rules<T>)
    requires n <= |rows|
  {
    && (forall key :: key in read ==> key in rules && read[key] == rules[key])
    && (forall key :: key in rules ==> (key in read <==> exists i :: 0 <= i < n && IsRow(codec, rules, key, rows[i])))
  }

  lemma RowHasOneKey<T>(codec: Codec<T>, rules: Rules<T>, a: seq<T>, b: seq<T>, row: Row)
    requires IsRow(codec, rules, a, row) && IsRow(codec, rules, b, row)
    ensures a == b
  {
    hide KeyRoundTrips;
    KeyEncodingIsInjective(codec, a, b);
  }

  /** The next rule is new, and reading it extends what was read. */
  lemma OneMoreRead<T>(codec: Codec<T>, rules: Rules<T>, rows: seq<Row>, n: nat, read: Rules<T>, key: seq<T>)
    requires Increasing(rows) && n < |rows| && ReadSoFar(codec, rules, rows, n, read)
    requires IsRow(codec, rules, key, rows[n])
    ensures key !in read && ReadSoFar(codec, rules, rows, n + 1, read[key := rules[key]])
  {
    hide KeyLt, KeyRoundTrips, EncodedKey;
    KeysAreOrdered();
    forall other | other in rules && IsRow(codec, rules, other, rows[n])
      ensures other == key
    {
      RowHasOneKey(codec, rules, other, key, rows[n]);
    }
  }

  lemma AllRead<T>(codec: Codec<T>, rules: Rules<T>, rows: seq<Row>, read: Rules<T>)
    requires SavedRows(codec, rules, rows) && ReadSoFar(codec, rules, rows, |rows|, read)
    ensures read == rules
  {
    hide Increasing, KeyRoundTrips, EncodedKey;
    forall key | key in rules
      ensures key in read
    {
      var row :| row in rows && IsRow(codec, rules, key, row);
      var i :| 0 <= i < |rows| && rows[i] == row;
    }
  }

  lemma {:induction false} RulesReadBack<T>(
    codec: Codec<T>, rules: Rules<T>, rows: seq<Row>, n: nat, read: Rules<T>, arity: nat, bytes: seq<Byte>,
    position: nat, duplicated: string)
    requires |bytes| <= USIZE_MAX && SavedRows(codec, rules, rows) && ValidRules(rules, arity)
    requires n <= |rows| && ReadSoFar(codec, rules, rows, n, read) && At(bytes, position, RowsBytes(rows[n..]))
    ensures position <= |bytes|
    ensures ReadRules(codec, bytes, position, arity, |rows| - n, read, duplicated) ==
            Ok((rules, position + |RowsBytes(rows[n..])|))
    decreases |rows| - n
  {
    hide At, ReadSoFar, SavedRows, ReadKey, ReadCost, RowBytes, ValidRules, IsRow, KeyRoundTrips, EncodedKey;
    AtFits(bytes, position, RowsBytes(rows[n..]));
    if n == |rows| {
      AllRead(codec, rules, rows, read);
    } else {
      assert rows[n..][0] == rows[n] && rows[n..][1..] == rows[n + 1..];
      AtSplit(bytes, position, RowBytes(rows[n]), RowsBytes(rows[n + 1..]));
      var key := RowReadsBack(codec, rules, rows, n, arity, bytes, position);
      StepRead(codec, rules, rows, n, read, key);
      RulesReadBack(
        codec, rules, rows, n + 1, read[key := rules[key]], arity, bytes, position + |RowBytes(rows[n])|, duplicated);
    }
  }

  lemma StepRead<T>(codec: Codec<T>, rules: Rules<T>, rows: seq<Row>, n: nat, read: Rules<T>, key: seq<T>)
    requires SavedRows(codec, rules, rows) && n < |rows| && ReadSoFar(codec, rules, rows, n, read)
    requires IsRow(codec, rules, key, rows[n])
    ensures key in rules && key !in read && ReadSoFar(codec, rules, rows, n + 1, read[key := rules[key]])
  {
    hide ReadSoFar, Increasing;
    OneMoreRead(codec, rules, rows, n, read, key);
  }

  /** One row reads back as its rule. */
  lemma RowReadsBack<T>(
    codec: Codec<T>, rules: Rules<T>, rows: seq<Row>, n: nat, arity: nat, bytes: seq<Byte>, position: nat)
    returns (key: seq<T>)
    requires |bytes| <= USIZE_MAX && SavedRows(codec, rules, rows) && ValidRules(rules, arity)
    requires n < |rows| && At(bytes, position, RowBytes(rows[n]))
    ensures position <= |bytes| && IsRow(codec, rules, key, rows[n])
    ensures key in rules && ValidRule(key, rules[key], arity)
    ensures var end := position + |RowBytes(rows[n])|;
            && end <= |bytes|
            && ReadKey(codec, bytes, position, arity) == Ok((key, end - 4))
            && ReadCost(bytes, end - 4) == Ok((rules[key], end))
  {
    hide At, ReadKey, ReadCost, Increasing, KeyRoundTrips, EncodedKey, LeU32, TokensBytes;
    assert rows[n] in rows;
    key :| key in rules && IsRow(codec, rules, key, rows[n]);
    AtFits(bytes, position, RowBytes(rows[n]));
    AtSplit(bytes, position, TokensBytes(rows[n].tokens), LeU32(rows[n].cost));
    KeyReadsBack(codec, bytes, position, key);
    CostReadsBack(bytes, position + |TokensBytes(rows[n].tokens)|, rules[key]);
  }

  /** A row takes 8 bytes for each of its tokens and 4 for its cost. */
  lemma {:induction false} RowsTakeSpace<T>(codec: Codec<T>, rules: Rules<T>, rows: seq<Row>, arity: nat)
    requires forall row :: row in rows ==> |row.tokens| == arity
    requires arity == 1 || arity == 2
    ensures arity == 1 ==> 12 * |rows| <= |RowsBytes(rows)|
    ensures arity == 2 ==> 20 * |rows| <= |RowsBytes(rows)|
  {
    hide RowBytes;
    if rows != [] {
      assert rows[0] in rows;
      RowsTakeSpace(codec, rules, rows[1..], arity);
    }
  }

  lemma SavedRowsTakeSpace<T>(codec: Codec<T>, rules: Rules<T>, rows: seq<Row>, arity: nat)
    requires SavedRows(codec, rules, rows) && ValidRules(rules, arity) && (arity == 1 || arity == 2)
    ensures arity == 1 ==> 12 * |rows| <= |RowsBytes(rows)|
    ensures arity == 2 ==> 20 * |rows| <= |RowsBytes(rows)|
  {
    hide Increasing;
    forall row | row in rows
      ensures |row.tokens| == arity
    {
      var key :| key in rules && IsRow(codec, rules, key, row);
    }
    RowsTakeSpace(codec, rules, rows, arity);
  }

  lemma DefaultsReadBack(bytes: seq<Byte>, position: nat, s: nat, d: nat, i: nat)
    requires |bytes| <= USIZE_MAX && s < INFINITY_BITS && d < INFINITY_BITS && i < INFINITY_BITS
    requires At(bytes, position, DefaultsBytes(s, d, i))
    ensures position <= |bytes| && ParseDefaults(bytes, position) == Ok(((s, d, i), position + 12))
  {
    hide At, LeU32, ReadCost;
    AtSplit(bytes, position, LeU32(s), LeU32(d) + LeU32(i));
    AtSplit(bytes, position + 4, LeU32(d), LeU32(i));
    CostReadsBack(bytes, position, s);
    CostReadsBack(bytes, position + 4, d);
    CostReadsBack(bytes, position + 8, i);
  }

  lemma CountsReadBack(bytes: seq<Byte>, position: nat, s: nat, d: nat, i: nat)
    requires |bytes| <= USIZE_MAX && s <= USIZE_MAX && d <= USIZE_MAX && i <= USIZE_MAX
    requires At(bytes, position, CountsBytes(s, d, i))
    ensures position <= |bytes| && ParseCounts(bytes, position) == Ok((Counts(s, d, i), position + 24))
  {
    hide At, LeU64, ReadU64;
    AtSplit(bytes, position, LeU64(s), LeU64(d) + LeU64(i));
    AtSplit(bytes, position + 8, LeU64(d), LeU64(i));
    U64ReadsBack(bytes, position, s);
    U64ReadsBack(bytes, position + 8, d);
    U64ReadsBack(bytes, position + 16, i);
  }

  lemma NothingRead<T>(codec: Codec<T>, rules: Rules<T>, rows: seq<Row>)
    ensures ReadSoFar(codec, rules, rows, 0, map[])
  {
  }

  lemma TablesReadBack<T>(
    codec: Codec<T>, costs: CustomCosts<T>, bytes: seq<Byte>, position: nat, s: seq<Row>, d: seq<Row>, i: seq<Row>)
    requires |bytes| <= USIZE_MAX && costs.Valid()
    requires SavedRows(codec, costs.substitutions, s) && SavedRows(codec, costs.deletions, d)
    requires SavedRows(codec, costs.insertions, i)
    requires At(bytes, position, RowsBytes(s) + (RowsBytes(d) + RowsBytes(i)))
    requires position + |RowsBytes(s) + (RowsBytes(d) + RowsBytes(i))| == |bytes|
    ensures position <= |bytes|
    ensures ParseTables(
              codec, bytes, position, (costs.defaultSubstitution, costs.defaultDeletion, costs.defaultInsertion),
              Counts(|s|, |d|, |i|)) == Ok(costs)
  {
    hide At, RowsBytes, SavedRows, ReadRules, ReadSoFar, ValidRules;
    var second := position + |RowsBytes(s)|;
    var third := second + |RowsBytes(d)|;
    AtSplit(bytes, position, RowsBytes(s), RowsBytes(d) + RowsBytes(i));
    AtSplit(bytes, second, RowsBytes(d), RowsBytes(i));
    NothingRead(codec, costs.substitutions, s);
    NothingRead(codec, costs.deletions, d);
    NothingRead(codec, costs.insertions, i);
    assert s[0..] == s && d[0..] == d && i[0..] == i;
    RulesReadBack(codec, costs.substitutions, s, 0, map[], 2, bytes, position, "substitution rule is duplicated");
    RulesReadBack(codec, costs.deletions, d, 0, map[], 1, bytes, second, "deletion rule is duplicated");
    RulesReadBack(codec, costs.insertions, i, 0, map[], 1, bytes, third, "insertion rule is duplicated");
  }

  /** Opening saved metadata restores every default and rule, whatever the codec:
      the rule counts fit, nothing is a duplicate, and all bytes are consumed. */
  lemma MetadataRoundTrip<T>(codec: Codec<T>, costs: CustomCosts<T>, bytes: seq<Byte>)
    requires |bytes| <= USIZE_MAX && costs.Valid() && SavedAs(codec, costs, bytes)
    ensures ParseMetadata(codec, bytes) == Ok(costs)
  {
    hide At, RowsBytes, SavedRows, ParseTables, ParseDefaults, ParseCounts;
    hide ReadU32, LeU32, DefaultsBytes, CountsBytes, ValidRules;
    var s, d, i :| SavedWith(codec, costs, bytes, s, d, i);
    var tables := RowsBytes(s) + (RowsBytes(d) + RowsBytes(i));
    var counts := CountsBytes(|s|, |d|, |i|);
    var defaults := DefaultsBytes(costs.defaultSubstitution, costs.defaultDeletion, costs.defaultInsertion);
    PartLengths(costs, s, d, i);
    SavedRowsTakeSpace(codec, costs.substitutions, s, 2);
    SavedRowsTakeSpace(codec, costs.deletions, d, 1);
    SavedRowsTakeSpace(codec, costs.insertions, i, 1);
    AtWhole(bytes);
    AtSplit(bytes, 0, LeU32(METADATA_VERSION), defaults + (counts + tables));
    AtSplit(bytes, 4, defaults, counts + tables);
    AtSplit(bytes, 16, counts, tables);
    U32ReadsBack(bytes, 0, METADATA_VERSION);
    DefaultsReadBack(bytes, 4, costs.defaultSubstitution, costs.defaultDeletion, costs.defaultInsertion);
    CountsReadBack(bytes, 16, |s|, |d|, |i|);
    TablesReadBack(codec, costs, bytes, 40, s, d, i);
  }

  lemma AtWhole(bytes: seq<Byte>)
    ensures At(bytes, 0, bytes)
  {
  }

  lemma PartLengths<T>(costs: CustomCosts<T>, s: seq<Row>, d: seq<Row>, i: seq<Row>)
    ensures |DefaultsBytes(costs.defaultSubstitution, costs.defaultDeletion, costs.defaultInsertion)| == 12
    ensures |CountsBytes(|s|, |d|, |i|)| == 24
  {
  }
}
