/** The document type of json.hpp and its equality operator. */
module JsonValue {
  // A double: every value but the sign of zero and the payload of a NaN.
  datatype Double = NaN | NegInfinity | Finite(r: real) | PosInfinity

  const TWO_63 := 0x8000_0000_0000_0000
  const TWO_64 := 0x1_0000_0000_0000_0000

  type Int64 = i: int | -0x8000_0000_0000_0000 <= i < 0x8000_0000_0000_0000
  type UInt64 = u: int | 0 <= u < 0x1_0000_0000_0000_0000

  datatype Json =
    | Null
    | Boolean(b: bool)
    | Integer(i: Int64)
    | Unsigned(u: UInt64)
    | Float(f: Double)
    | String(s: string)
    | Binary(bytes: string, subtype: nat, hasSubtype: bool)
    | Array(items: seq<Json>)
    | Object(members: map<string, Json>)
    | Discarded

  // The tag type() returns.
  datatype Kind =
    | NullKind | BooleanKind | IntegerKind | UnsignedKind | FloatKind
    | StringKind | BinaryKind | ArrayKind | ObjectKind | DiscardedKind

  function KindOf(j: Json): Kind {
    match j
    case Null => NullKind
    case Boolean(_) => BooleanKind
    case Integer(_) => IntegerKind
    case Unsigned(_) => UnsignedKind
    case Float(_) => FloatKind
    case String(_) => StringKind
    case Binary(_, _, _) => BinaryKind
    case Array(_) => ArrayKind
    case Object(_) => ObjectKind
    case Discarded => DiscardedKind
  }

  // Rounds m to the nearest integer with a 53-bit significand, ties to even.
  function RoundToSignificand(m: nat, ulp: nat): nat
    requires ulp > 0
    decreases m - ulp
  {
    if m >= 0x20_0000_0000_0000 * ulp then RoundToSignificand(m, 2 * ulp)
    else
      var q := m / ulp;
      var rest := m % ulp;
      if 2 * rest < ulp || (2 * rest == ulp && q % 2 == 0) then q * ulp else (q + 1) * ulp
  }

  // static_cast<double> of an integer.
  function ToDouble(i: int): Double {
    if i >= 0 then Finite(RoundToSignificand(i, 1) as real)
    else Finite(-(RoundToSignificand(-i, 1) as real))
  }

  // static_cast<int64_t> of an unsigned integer: two's complement wrap-around.
  function WrapToInt64(u: UInt64): Int64 {
    if u < TWO_63 then u else u - TWO_64
  }

  // == on doubles: a NaN equals nothing.
  predicate DoubleEqual(a: Double, b: Double) {
    a == b && a != NaN
  }

  // operator==, including its conversions between the three number types.
  predicate Equal(a: Json, b: Json)
    decreases a
  {
    match (a, b)
    case (Array(x), Array(y)) => |x| == |y| && forall i | 0 <= i < |x| :: Equal(x[i], y[i])
    case (Object(x), Object(y)) => x.Keys == y.Keys && forall k | k in x :: Equal(x[k], y[k])
    case (Null, Null) => true
    case (String(x), String(y)) => x == y
    case (Boolean(x), Boolean(y)) => x == y
    case (Integer(x), Integer(y)) => x == y
    case (Unsigned(x), Unsigned(y)) => x == y
    case (Float(x), Float(y)) => DoubleEqual(x, y)
    case (Binary(_, _, _), Binary(_, _, _)) => a == b
    case (Integer(x), Float(y)) => DoubleEqual(ToDouble(x), y)
    case (Float(x), Integer(y)) => DoubleEqual(x, ToDouble(y))
    case (Unsigned(x), Float(y)) => DoubleEqual(ToDouble(x), y)
    case (Float(x), Unsigned(y)) => DoubleEqual(x, ToDouble(y))
    case (Unsigned(x), Integer(y)) => WrapToInt64(x) == y
    case (Integer(x), Unsigned(y)) => x == WrapToInt64(y)
    case _ => false
  }

  // No NaN and no discarded value anywhere in the document.
  predicate Comparable(j: Json) {
    match j
    case Float(f) => f != NaN
    case Discarded => false
    case Array(x) => forall i | 0 <= i < |x| :: Comparable(x[i])
    case Object(m) => forall k | k in m :: Comparable(m[k])
    case _ => true
  }

  // operator== is reflexive exactly on the comparable documents.
  lemma {:induction false} EqualReflexive(j: Json)
    ensures Equal(j, j) <==> Comparable(j)
  {
    match j
    case Array(x) =>
      forall i | 0 <= i < |x| { EqualReflexive(x[i]); }
    case Object(m) =>
      forall k | k in m { EqualReflexive(m[k]); }
    case _ =>
  }

  // Nothing equals a document with a NaN or a discarded value in it.
  lemma {:induction false} EqualToComparable(a: Json, b: Json)
    requires Equal(a, b)
    ensures Comparable(b)
    decreases b
  {
    match b
    case Array(y) =>
      forall i | 0 <= i < |y| { EqualToComparable(a.items[i], y[i]); }
    case Object(m) =>
      forall k | k in m { EqualToComparable(a.members[k], m[k]); }
    case _ =>
  }
}
