/** Little-endian numbers in byte sequences. */
module Bytes {
  import opened Types

  type Byte = b: int | 0 <= b < 0x100

  /** The `width` lowest bytes of a number, least significant first. */
  function Le(width: nat, value: nat): (r: seq<Byte>)
    ensures |r| == width
  {
    if width == 0 then [] else [value % 0x100] + Le(width - 1, value / 0x100)
  }

  function FromLe(bytes: seq<Byte>): nat {
    if bytes == [] then 0 else bytes[0] + 0x100 * FromLe(bytes[1..])
  }

  /** One more than the largest number of this many bytes. */
  function Range(width: nat): nat {
    if width == 0 then 1 else 0x100 * Range(width - 1)
  }

  lemma {:induction false} LeRoundTrip(width: nat, value: nat)
    requires value < Range(width)
    ensures FromLe(Le(width, value)) == value
  {
    if width > 0 {
      LeRoundTrip(width - 1, value / 0x100);
      assert Le(width, value)[1..] == Le(width - 1, value / 0x100);
    }
  }

  lemma {:induction false} FromLeFits(bytes: seq<Byte>)
    ensures FromLe(bytes) < Range(|bytes|)
  {
    if bytes != [] {
      FromLeFits(bytes[1..]);
    }
  }

  /** Every sequence of bytes is written for one number only. */
  lemma {:induction false} FromLeRoundTrip(bytes: seq<Byte>)
    ensures Le(|bytes|, FromLe(bytes)) == bytes
  {
    if bytes != [] {
      var value := FromLe(bytes);
      assert value % 0x100 == bytes[0] && value / 0x100 == FromLe(bytes[1..]);
      FromLeRoundTrip(bytes[1..]);
    }
  }

  lemma {:induction false} TimesGrows(a: nat, b: nat, unit: nat)
    requires a <= b
    ensures a * unit <= b * unit
  {
    if a < b {
      TimesGrows(a, b - 1, unit);
      assert b * unit == (b - 1) * unit + unit;
    }
  }

  lemma QuotientBounds(value: nat, unit: nat)
    requires 0 < unit
    ensures value / unit * unit <= value < (value / unit + 1) * unit
  {
    assert value == value / unit * unit + value % unit;
  }

  /** The quotient is determined by where the number lies between two multiples. */
  lemma QuotientBetween(value: nat, unit: nat, quotient: nat)
    requires 0 < unit && quotient * unit <= value < (quotient + 1) * unit
    ensures value / unit == quotient
  {
    QuotientBounds(value, unit);
    if value / unit < quotient {
      TimesGrows(value / unit + 1, quotient, unit);
    } else if quotient < value / unit {
      TimesGrows(quotient + 1, value / unit, unit);
    }
  }

  lemma TimesAssociates(a: nat, b: nat, c: nat)
    ensures a * b * c == a * (c * b)
  {
  }

  lemma QuotientOfQuotient(value: nat, a: nat, b: nat)
    requires 0 < a && 0 < b && 0 < a * b
    ensures value / a / b == value / (a * b)
  {
    var whole: nat := value / a;
    var q: nat := whole / b;
    QuotientBounds(value, a);
    QuotientBounds(whole, b);
    TimesGrows(q * b, whole, a);
    TimesGrows(whole + 1, (q + 1) * b, a);
    TimesAssociates(q, b, a);
    TimesAssociates(q + 1, b, a);
    QuotientBetween(value, a * b, q);
  }

  lemma RangeIsPositive(width: nat)
    ensures 0 < Range(width)
  {
  }

  /** Byte `i` holds the digit of weight 256 to the `i`: least significant first. */
  lemma {:induction false} LeByte(width: nat, value: nat, i: nat)
    requires i < width
    ensures 0 < Range(i) && Le(width, value)[i] == value / Range(i) % 0x100
  {
    RangeIsPositive(i);
    if i > 0 {
      LeByte(width - 1, value / 0x100, i - 1);
      RangeIsPositive(i - 1);
      QuotientOfQuotient(value, 0x100, Range(i - 1));
    }
  }

  lemma Ranges()
    ensures Range(4) == U32_MAX + 1 && Range(8) == USIZE_MAX + 1
  {
    assert Range(2) == 0x1_0000;
    assert Range(4) == 0x1_0000_0000;
    assert Range(6) == 0x1_0000_0000_0000;
  }

  /** The bytes of a `u32`. */
  function LeU32(value: nat): (r: seq<Byte>)
    ensures |r| == 4
  {
    Le(4, value)
  }

  /** The bytes of a `u64`. */
  function LeU64(value: nat): (r: seq<Byte>)
    ensures |r| == 8
  {
    Le(8, value)
  }

  lemma U32RoundTrip(value: nat)
    requires value <= U32_MAX
    ensures FromLe(LeU32(value)) == value
  {
    Ranges();
    LeRoundTrip(4, value);
  }

  lemma U64RoundTrip(value: nat)
    requires value <= USIZE_MAX
    ensures FromLe(LeU64(value)) == value
  {
    Ranges();
    LeRoundTrip(8, value);
  }

  // ----- Ranges of a file -----

  /** `content` stands at `offset`. */
  ghost predicate At(bytes: seq<Byte>, offset: nat, content: seq<Byte>) {
    offset + |content| <= |bytes| && bytes[offset..offset + |content|] == content
  }

  lemma AtPart(bytes: seq<Byte>, offset: nat, content: seq<Byte>, inner: nat, part: seq<Byte>)
    requires At(bytes, offset, content) && At(content, inner, part)
    ensures At(bytes, offset + inner, part)
  {
    forall j | 0 <= j < |part|
      ensures bytes[offset + inner + j] == part[j]
    {
      assert bytes[offset..offset + |content|][inner + j] == content[inner + j];
      assert content[inner..inner + |part|][j] == part[j];
    }
  }

  lemma AtFits(bytes: seq<Byte>, offset: nat, content: seq<Byte>)
    requires At(bytes, offset, content)
    ensures offset + |content| <= |bytes|
  {
  }

  lemma AtMiddle(before: seq<Byte>, content: seq<Byte>, after: seq<Byte>)
    ensures At(before + content + after, |before|, content)
  {
  }

  function U32At(bytes: seq<Byte>, offset: nat): nat
    requires offset + 4 <= |bytes|
  {
    FromLe(bytes[offset..offset + 4])
  }

  function U64At(bytes: seq<Byte>, offset: nat): nat
    requires offset + 8 <= |bytes|
  {
    FromLe(bytes[offset..offset + 8])
  }

  lemma U32AtWritten(bytes: seq<Byte>, offset: nat, value: nat)
    requires At(bytes, offset, LeU32(value)) && value <= U32_MAX
    ensures offset + 4 <= |bytes| && U32At(bytes, offset) == value
  {
    hide FromLe, LeU32;
    U32RoundTrip(value);
  }

  lemma U64AtWritten(bytes: seq<Byte>, offset: nat, value: nat)
    requires At(bytes, offset, LeU64(value)) && value <= USIZE_MAX
    ensures offset + 8 <= |bytes| && U64At(bytes, offset) == value
  {
    hide FromLe, LeU64;
    U64RoundTrip(value);
  }

  // ----- Arrays of numbers -----

  function U32s(values: seq<nat>): (r: seq<Byte>)
    ensures |r| == 4 * |values|
  {
    if values == [] then [] else LeU32(values[0]) + U32s(values[1..])
  }

  function U64s(values: seq<nat>): (r: seq<Byte>)
    ensures |r| == 8 * |values|
  {
    if values == [] then [] else LeU64(values[0]) + U64s(values[1..])
  }

  function ReadU32s(bytes: seq<Byte>, offset: nat, count: nat): (r: seq<nat>)
    requires offset + 4 * count <= |bytes|
    ensures |r| == count && forall i :: 0 <= i < count ==> r[i] == U32At(bytes, offset + 4 * i)
  {
    seq(count, i requires 0 <= i < count => U32At(bytes, offset + 4 * i))
  }

  function ReadU64s(bytes: seq<Byte>, offset: nat, count: nat): (r: seq<nat>)
    requires offset + 8 * count <= |bytes|
    ensures |r| == count && forall i :: 0 <= i < count ==> r[i] == U64At(bytes, offset + 8 * i)
  {
    seq(count, i requires 0 <= i < count => U64At(bytes, offset + 8 * i))
  }

  lemma {:induction false} U32sElement(values: seq<nat>, i: nat)
    requires i < |values|
    ensures At(U32s(values), 4 * i, LeU32(values[i]))
  {
    hide LeU32;
    if i > 0 {
      U32sElement(values[1..], i - 1);
      AtMiddle(LeU32(values[0]), U32s(values[1..]), []);
      assert LeU32(values[0]) + U32s(values[1..]) + [] == U32s(values);
      AtPart(U32s(values), 4, U32s(values[1..]), 4 * (i - 1), LeU32(values[i]));
    }
  }

  lemma {:induction false} U64sElement(values: seq<nat>, i: nat)
    requires i < |values|
    ensures At(U64s(values), 8 * i, LeU64(values[i]))
  {
    hide LeU64;
    if i > 0 {
      U64sElement(values[1..], i - 1);
      AtMiddle(LeU64(values[0]), U64s(values[1..]), []);
      assert LeU64(values[0]) + U64s(values[1..]) + [] == U64s(values);
      AtPart(U64s(values), 8, U64s(values[1..]), 8 * (i - 1), LeU64(values[i]));
    }
  }

  lemma U32Written(bytes: seq<Byte>, offset: nat, values: seq<nat>, i: nat)
    requires At(bytes, offset, U32s(values)) && i < |values| && values[i] <= U32_MAX
    ensures offset + 4 * i + 4 <= |bytes| && U32At(bytes, offset + 4 * i) == values[i]
  {
    hide *;
    U32sElement(values, i);
    AtPart(bytes, offset, U32s(values), 4 * i, LeU32(values[i]));
    U32AtWritten(bytes, offset + 4 * i, values[i]);
  }

  /** Reading an array of `u32` where one was written gives it back. */
  lemma U32sRoundTrip(bytes: seq<Byte>, offset: nat, values: seq<nat>)
    requires At(bytes, offset, U32s(values)) && forall v :: v in values ==> v <= U32_MAX
    ensures offset + 4 * |values| <= |bytes| && ReadU32s(bytes, offset, |values|) == values
  {
    hide *;
    AtFits(bytes, offset, U32s(values));
    forall i | 0 <= i < |values|
      ensures ReadU32s(bytes, offset, |values|)[i] == values[i]
    {
      assert values[i] in values;
      U32Written(bytes, offset, values, i);
    }
  }

  lemma U64Written(bytes: seq<Byte>, offset: nat, values: seq<nat>, i: nat)
    requires At(bytes, offset, U64s(values)) && i < |values| && values[i] <= USIZE_MAX
    ensures offset + 8 * i + 8 <= |bytes| && U64At(bytes, offset + 8 * i) == values[i]
  {
    hide *;
    U64sElement(values, i);
    AtPart(bytes, offset, U64s(values), 8 * i, LeU64(values[i]));
    U64AtWritten(bytes, offset + 8 * i, values[i]);
  }

  /** Reading an array of `u64` where one was written gives it back. */
  lemma U64sRoundTrip(bytes: seq<Byte>, offset: nat, values: seq<nat>)
    requires At(bytes, offset, U64s(values)) && forall v :: v in values ==> v <= USIZE_MAX
    ensures offset + 8 * |values| <= |bytes| && ReadU64s(bytes, offset, |values|) == values
  {
    hide *;
    AtFits(bytes, offset, U64s(values));
    forall i | 0 <= i < |values|
      ensures ReadU64s(bytes, offset, |values|)[i] == values[i]
    {
      assert values[i] in values;
      U64Written(bytes, offset, values, i);
    }
  }
}
