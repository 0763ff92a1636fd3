/** JSON documents (`basic_json`), their types and `operator==`. */
module Json {
  import opened ByteStrings

  const TWO_TO_THE_63 := 0x8000_0000_0000_0000
  const TWO_TO_THE_64 := 0x1_0000_0000_0000_0000

  type int64 = x: int | -TWO_TO_THE_63 <= x < TWO_TO_THE_63
  type uint64 = x: int | 0 <= x < TWO_TO_THE_64

  /** A document. An object is a map: wherever the order of `std::map` shows, keys are
      visited through SortedKeys. A floating-point number is its IEEE 754 binary64 pattern. */
  datatype Json =
    | Null
    | Bool(b: bool)
    | Int(i: int64)
    | Uint(u: uint64)
    | Float(bits: uint64)
    | Str(s: Bytes)
    | Arr(items: seq<Json>)
    | Obj(members: map<Bytes, Json>)
  {
    predicate IsPrimitive() {
      !Arr? && !Obj?
    }
  }

  datatype Result<+T> = Ok(value: T) | Err(error: Error) {
    predicate IsFailure() {
      Err?
    }

    function PropagateFailure<U>(): Result<U>
      requires Err?
    {
      Err(error)
    }

    function Extract(): T
      requires Ok?
    {
      value
    }
  }

  /** The exceptions of the library with their numbers, those of the C++ standard library that
      escape it, and the two ways out that are no exceptions: a failed `assert`, and an access
      outside a container. */
  datatype Error =
    | ParseError(id: nat)
    | TypeError(id: nat)
    | OutOfRange(id: nat)
    | OtherError(id: nat)
    | InvalidArgument
    | StdOutOfRange
    | LengthError
    | AssertionFailure
    | UndefinedBehaviour

  predicate SameType(a: Json, b: Json) {
    match (a, b)
    case (Null, Null) => true
    case (Bool(_), Bool(_)) => true
    case (Int(_), Int(_)) => true
    case (Uint(_), Uint(_)) => true
    case (Float(_), Float(_)) => true
    case (Str(_), Str(_)) => true
    case (Arr(_), Arr(_)) => true
    case (Obj(_), Obj(_)) => true
    case _ => false
  }

  /** `static_cast<int64_t>` of an unsigned number. */
  function ToInt64(u: uint64): int64 {
    if u < TWO_TO_THE_63 then u else u - TWO_TO_THE_64
  }

  predicate IsNaN(bits: int) {
    bits % TWO_TO_THE_63 > 0x7FF0_0000_0000_0000
  }

  /** IEEE 754 equality: a NaN equals nothing and the two zeros are equal. */
  predicate FloatEq(a: int, b: int) {
    !IsNaN(a) && !IsNaN(b) && (a == b || (a % TWO_TO_THE_63 == 0 && b % TWO_TO_THE_63 == 0))
  }

  function Exponent(m: nat): nat
    requires m > 0
  {
    if m == 1 then 0 else 1 + Exponent(m / 2)
  }

  function Pow2(e: nat): (p: nat)
    ensures p > 0
  {
    if e == 0 then 1 else 2 * Pow2(e - 1)
  }

  /** The binary64 pattern nearest to an integer, ties to even: `static_cast<double>(n)`. */
  function IntToDouble(n: int): int {
    if n == 0 then 0 else
      var m := if n < 0 then -n else n;
      var e := Exponent(m);
      var significand :=
        if e <= 52 then
          m * Pow2(52 - e)
        else
          var unit := Pow2(e - 52);
          var q, r := m / unit, m % unit;
          if 2 * r > unit || (2 * r == unit && q % 2 == 1) then q + 1 else q;
      (if n < 0 then TWO_TO_THE_63 else 0) + (e + 1022) * 0x10_0000_0000_0000 + significand
  }

  /** `operator==` on documents. */
  predicate JEq(a: Json, b: Json) {
    match (a, b)
    case (Null, Null) => true
    case (Bool(x), Bool(y)) => x == y
    case (Int(x), Int(y)) => x == y
    case (Uint(x), Uint(y)) => x == y
    case (Float(x), Float(y)) => FloatEq(x, y)
    case (Str(x), Str(y)) => x == y
    case (Arr(x), Arr(y)) => |x| == |y| && forall i | 0 <= i < |x| :: JEq(x[i], y[i])
    case (Obj(x), Obj(y)) => x.Keys == y.Keys && forall k | k in x :: JEq(x[k], y[k])
    case (Int(x), Float(y)) => FloatEq(IntToDouble(x), y)
    case (Float(x), Int(y)) => FloatEq(x, IntToDouble(y))
    case (Uint(x), Float(y)) => FloatEq(IntToDouble(x), y)
    case (Float(x), Uint(y)) => FloatEq(x, IntToDouble(y))
    case (Uint(x), Int(y)) => ToInt64(x) == y
    case (Int(x), Uint(y)) => x == ToInt64(y)
    case _ => false
  }

  /** No NaN anywhere in the document. */
  predicate NoNaN(j: Json) {
    match j
    case Float(x) => !IsNaN(x)
    case Arr(a) => forall x | x in a :: NoNaN(x)
    case Obj(m) => forall k | k in m :: NoNaN(m[k])
    case _ => true
  }

  /** A document equals itself exactly when it holds no NaN. */
  lemma {:induction false} JEqReflexive(j: Json)
    ensures JEq(j, j) <==> NoNaN(j)
  {
    match j
    case Arr(a) =>
      forall i | 0 <= i < |a| ensures JEq(a[i], a[i]) <==> NoNaN(a[i]) {
        JEqReflexive(a[i]);
      }
      assert NoNaN(j) <==> forall i | 0 <= i < |a| :: NoNaN(a[i]);
    case Obj(m) =>
      forall k | k in m ensures JEq(m[k], m[k]) <==> NoNaN(m[k]) {
        JEqReflexive(m[k]);
      }
    case _ =>
  }
}
