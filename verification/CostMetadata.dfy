/** The byte layout of custom-cost rules, and the cursor that reads it back. */
module CostMetadata {
  import opened Wrappers
  import opened Types
  import opened Bytes
  import opened Codecs

  // ----- Costs as bits -----

  /** The bits of positive infinity; finite non-negative values lie below. */
  const INFINITY_BITS: nat := 0x7F80_0000

  const NEGATIVE_ZERO_BITS: nat := 0x8000_0000

  /** The bits of a cost: a finite non-negative value below the bits of infinity,
      or negative zero, which is zero. */
  ghost predicate StandsFor(bits: nat, cost: nat) {
    (bits < 0x7F80_0000 && cost == bits) || (bits == 0x8000_0000 && cost == 0)
  }

  /** Finite non-negative values are costs, and both zeros are zero. */
  function CostFromBits(bits: nat): (r: Result<nat>)
    ensures r.Ok? ==> r.value < INFINITY_BITS
    ensures forall cost: nat :: StandsFor(bits, cost) <==> r == Ok(cost)
    ensures r.Err? ==> r.error == InvalidCost
  {
    if bits < INFINITY_BITS then Ok(bits) else if bits == NEGATIVE_ZERO_BITS then Ok(0) else Err(InvalidCost)
  }

  // ----- Reading at a position -----

  function ReadArray(bytes: seq<Byte>, position: nat, n: nat): (r: Result<(seq<Byte>, nat)>)
    requires position <= |bytes| <= USIZE_MAX
    ensures r.Ok? <==> position + n <= |bytes|
    ensures r.Ok? ==> r.value == (bytes[position..position + n], position + n)
  {
    if position + n > USIZE_MAX then Err(InvalidFile("metadata range overflows"))
    else if position + n > |bytes| then Err(InvalidFile("cost metadata is truncated"))
    else Ok((bytes[position..position + n], position + n))
  }

  function ReadU32(bytes: seq<Byte>, position: nat): (r: Result<(nat, nat)>)
    requires position <= |bytes| <= USIZE_MAX
    ensures r.Ok? ==> r.value.1 <= |bytes|
  {
    var raw :- ReadArray(bytes, position, 4);
    Ok((FromLe(raw.0), raw.1))
  }

  function ReadU64(bytes: seq<Byte>, position: nat): (r: Result<(nat, nat)>)
    requires position <= |bytes| <= USIZE_MAX
    ensures r.Ok? ==> r.value.1 <= |bytes|
  {
    var raw :- ReadArray(bytes, position, 8);
    Ok((FromLe(raw.0), raw.1))
  }

  function ReadCost(bytes: seq<Byte>, position: nat): (r: Result<(nat, nat)>)
    requires position <= |bytes| <= USIZE_MAX
    ensures r.Ok? ==> r.value.0 < INFINITY_BITS && r.value.1 <= |bytes|
  {
    var bits :- ReadU32(bytes, position);
    var cost :- CostFromBits(bits.0);
    Ok((cost, bits.1))
  }

  /** A length and that many bytes. */
  function ReadBytes(bytes: seq<Byte>, position: nat): (r: Result<(seq<Byte>, nat)>)
    requires position <= |bytes| <= USIZE_MAX
    ensures r.Ok? ==> r.value.1 <= |bytes|
  {
    var len :- ReadU64(bytes, position);
    ReadArray(bytes, len.1, len.0)
  }

  /** The cursor: each read consumes what it returns. */
  class MetadataReader {
    const bytes: seq<Byte>
    var position: nat

    ghost predicate Valid()
      reads this
    {
      position <= |bytes| <= USIZE_MAX
    }

    constructor (bytes: seq<Byte>)
      requires |bytes| <= USIZE_MAX
      ensures Valid() && this.bytes == bytes && position == 0
    {
      this.bytes := bytes;
      position := 0;
    }

    method Array(n: nat) returns (r: Result<seq<Byte>>)
      requires Valid()
      modifies this
      ensures Valid()
      ensures match ReadArray(bytes, old(position), n)
              case Ok((value, next)) => r == Ok(value) && position == next
              case Err(e) => r == Err(e)
    {
      if position + n > USIZE_MAX {
        return Err(InvalidFile("metadata range overflows"));
      }
      if position + n > |bytes| {
        return Err(InvalidFile("cost metadata is truncated"));
      }
      r := Ok(bytes[position..position + n]);
      position := position + n;
    }

    method U32() returns (r: Result<nat>)
      requires Valid()
      modifies this
      ensures Valid()
      ensures match ReadU32(bytes, old(position))
              case Ok((value, next)) => r == Ok(value) && position == next
              case Err(e) => r == Err(e)
    {
      var raw :- Array(4);
      return Ok(FromLe(raw));
    }

    method U64() returns (r: Result<nat>)
      requires Valid()
      modifies this
      ensures Valid()
      ensures match ReadU64(bytes, old(position))
              case Ok((value, next)) => r == Ok(value) && position == next
              case Err(e) => r == Err(e)
    {
      var raw :- Array(8);
      return Ok(FromLe(raw));
    }

    method Cost() returns (r: Result<nat>)
      requires Valid()
      modifies this
      ensures Valid()
      ensures match ReadCost(bytes, old(position))
              case Ok((value, next)) => r == Ok(value) && position == next
              case Err(e) => r == Err(e)
    {
      var bits :- U32();
      return CostFromBits(bits);
    }

    method Bytes() returns (r: Result<seq<Byte>>)
      requires Valid()
      modifies this
      ensures Valid()
      ensures match ReadBytes(bytes, old(position))
              case Ok((value, next)) => r == Ok(value) && position == next
              case Err(e) => r == Err(e)
    {
      var len :- U64();
      r := Array(len);
    }

    function Remaining(): nat
      requires Valid()
      reads this
    {
      |bytes| - position
    }

    function Finish(): Result<()>
      reads this
    {
      if position == |bytes| then Ok(()) else Err(InvalidFile("cost metadata has trailing bytes"))
    }
  }

  // ----- Rules -----

  /** Rules by their tokens: two for a substitution, one otherwise. */
  type Rules<!T(==)> = map<seq<T>, nat>

  /** One rule as it is written: its encoded tokens and its cost. */
  datatype Row = Row(tokens: seq<seq<Byte>>, cost: nat)

  function Prefixed(bytes: seq<Byte>): seq<Byte> {
    LeU64(|bytes|) + bytes
  }

  /** Appends a length and the bytes. */
  method PushBytes(output: seq<Byte>, bytes: seq<Byte>) returns (r: seq<Byte>)
    ensures r == output + Prefixed(bytes)
  {
    r := output + LeU64(|bytes|);
    r := r + bytes;
  }

  function TokensBytes(tokens: seq<seq<Byte>>): (r: seq<Byte>)
    ensures 8 * |tokens| <= |r|
  {
    if tokens == [] then [] else Prefixed(tokens[0]) + TokensBytes(tokens[1..])
  }

  function RowBytes(row: Row): (r: seq<Byte>)
    ensures 8 * |row.tokens| + 4 <= |r|
  {
    TokensBytes(row.tokens) + LeU32(row.cost)
  }

  function RowsBytes(rows: seq<Row>): seq<Byte> {
    if rows == [] then [] else RowBytes(rows[0]) + RowsBytes(rows[1..])
  }

  predicate KeyRoundTrips<T(==)>(codec: Codec<T>, key: seq<T>) {
    forall t :: t in key ==> codec.RoundTrips(t)
  }

  function EncodedKey<T(==)>(codec: Codec<T>, key: seq<T>): (r: seq<seq<Byte>>)
    requires KeyRoundTrips(codec, key)
    ensures |r| == |key|
  {
    seq(|key|, i requires 0 <= i < |key| => codec.Encoding(key[i]))
  }

  /** The tokens of a rule, each read and decoded in turn. */
  function ReadKey<T(==)>(codec: Codec<T>, bytes: seq<Byte>, position: nat, arity: nat): (r: Result<(seq<T>, nat)>)
    requires position <= |bytes| <= USIZE_MAX
    ensures r.Ok? ==> |r.value.0| == arity && r.value.1 <= |bytes|
    decreases arity
  {
    if arity == 0 then Ok(([], position))
    else
      var encoded :- ReadBytes(bytes, position);
      var token :- codec.decode(encoded.0);
      var rest :- ReadKey(codec, bytes, encoded.1, arity - 1);
      Ok(([token] + rest.0, rest.1))
  }

  /** Reads `count` rules on top of those already read. */
  function ReadRules<T(==)>(
    codec: Codec<T>, bytes: seq<Byte>, position: nat, arity: nat, count: nat, rules: Rules<T>, duplicated: string)
    : (r: Result<(Rules<T>, nat)>)
    requires position <= |bytes| <= USIZE_MAX
    ensures r.Ok? ==> r.value.1 <= |bytes|
    decreases count
  {
    if count == 0 then Ok((rules, position))
    else
      var key :- ReadKey(codec, bytes, position, arity);
      var cost :- ReadCost(bytes, key.1);
      if arity == 2 && key.0[0] == key.0[1] then
        Err(InvalidFile("equal-token substitution override is not allowed"))
      else if key.0 in rules then Err(InvalidFile(duplicated))
      else ReadRules(codec, bytes, cost.1, arity, count - 1, rules[key.0 := cost.0], duplicated)
  }

  // ----- Reading undoes writing -----

  lemma ArrayReadsBack(bytes: seq<Byte>, position: nat, content: seq<Byte>)
    requires |bytes| <= USIZE_MAX && At(bytes, position, content)
    ensures position <= |bytes| && ReadArray(bytes, position, |content|) == Ok((content, position + |content|))
  {
  }

  lemma U32ReadsBack(bytes: seq<Byte>, position: nat, value: nat)
    requires |bytes| <= USIZE_MAX && value <= U32_MAX && At(bytes, position, LeU32(value))
    ensures position <= |bytes| && ReadU32(bytes, position) == Ok((value, position + 4))
  {
    hide FromLe, LeU32;
    ArrayReadsBack(bytes, position, LeU32(value));
    U32RoundTrip(value);
  }

  lemma U64ReadsBack(bytes: seq<Byte>, position: nat, value: nat)
    requires |bytes| <= USIZE_MAX && value <= USIZE_MAX && At(bytes, position, LeU64(value))
    ensures position <= |bytes| && ReadU64(bytes, position) == Ok((value, position + 8))
  {
    hide FromLe, LeU64;
    ArrayReadsBack(bytes, position, LeU64(value));
    U64RoundTrip(value);
  }

  lemma CostReadsBack(bytes: seq<Byte>, position: nat, cost: nat)
    requires |bytes| <= USIZE_MAX && cost < INFINITY_BITS && At(bytes, position, LeU32(cost))
    ensures position <= |bytes| && ReadCost(bytes, position) == Ok((cost, position + 4))
  {
    hide FromLe, LeU32, ReadU32;
    U32ReadsBack(bytes, position, cost);
  }

  /** Splits what stands at a position. */
  lemma AtSplit(bytes: seq<Byte>, position: nat, first: seq<Byte>, second: seq<Byte>)
    requires At(bytes, position, first + second)
    ensures At(bytes, position, first) && At(bytes, position + |first|, second)
  {
    assert At(first + second, 0, first) && At(first + second, |first|, second);
    AtPart(bytes, position, first + second, 0, first);
    AtPart(bytes, position, first + second, |first|, second);
  }

  lemma BytesReadBack(bytes: seq<Byte>, position: nat, content: seq<Byte>)
    requires |bytes| <= USIZE_MAX && At(bytes, position, Prefixed(content))
    ensures position <= |bytes|
    ensures ReadBytes(bytes, position) == Ok((content, position + |Prefixed(content)|))
  {
    hide FromLe, LeU64, At, ReadU64, ReadArray;
    AtSplit(bytes, position, LeU64(|content|), content);
    AtFits(bytes, position + 8, content);
    U64ReadsBack(bytes, position, |content|);
    ArrayReadsBack(bytes, position + 8, content);
  }

  lemma {:induction false} KeyReadsBack<T>(codec: Codec<T>, bytes: seq<Byte>, position: nat, key: seq<T>)
    requires |bytes| <= USIZE_MAX && KeyRoundTrips(codec, key)
    requires At(bytes, position, TokensBytes(EncodedKey(codec, key)))
    ensures position <= |bytes|
    ensures ReadKey(codec, bytes, position, |key|) ==
            Ok((key, position + |TokensBytes(EncodedKey(codec, key))|))
    decreases |key|
  {
    hide At, Prefixed, ReadBytes;
    var tokens := EncodedKey(codec, key);
    AtFits(bytes, position, TokensBytes(tokens));
    if key != [] {
      assert key[0] in key;
      assert forall t :: t in key[1..] ==> t in key;
      assert tokens[1..] == EncodedKey(codec, key[1..]);
      AtSplit(bytes, position, Prefixed(tokens[0]), TokensBytes(tokens[1..]));
      BytesReadBack(bytes, position, tokens[0]);
      KeyReadsBack(codec, bytes, position + |Prefixed(tokens[0])|, key[1..]);
      assert key == [key[0]] + key[1..];
    }
  }
}
