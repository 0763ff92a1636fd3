/** Bytes in and out of vectors: `add_to_vector`, `get_from_vector`, `check_length`, and the
    floating-point formats that the binary decoders widen. */
module Binary {
  import opened ByteStrings
  import opened Json

  /** A `std::vector<uint8_t>`: its size never reaches 2^63. */
  type Vector = v: Bytes | |v| < TWO_TO_THE_63

  /** What a decoder returns, and the index it leaves behind. */
  datatype Parsed<+T> = Parsed(value: T, next: nat)

  /** `done` in front of what the rest of the items decodes to. */
  function Before(done: seq<Json>, r: Result<Parsed<seq<Json>>>): Result<Parsed<seq<Json>>> {
    if r.Ok? then Ok(Parsed(done + r.value.value, r.value.next)) else r
  }

  function BeforeText(done: Bytes, r: Result<Parsed<Bytes>>): Result<Parsed<Bytes>> {
    if r.Ok? then Ok(Parsed(done + r.value.value, r.value.next)) else r
  }

  lemma BeforeNothing(r: Result<Parsed<seq<Json>>>, t: Result<Parsed<Bytes>>)
    ensures Before([], r) == r && BeforeText([], t) == t
  {
    if r.Ok? {
      assert [] + r.value.value == r.value.value;
    }
    if t.Ok? {
      assert [] + t.value.value == t.value.value;
    }
  }

  lemma BeforeOne(done: seq<Json>, x: Json, r: Result<Parsed<seq<Json>>>)
    ensures Before(done, Before([x], r)) == Before(done + [x], r)
  {
    if r.Ok? {
      assert done + ([x] + r.value.value) == done + [x] + r.value.value;
    }
  }

  lemma BeforeOneText(done: Bytes, s: Bytes, r: Result<Parsed<Bytes>>)
    ensures BeforeText(done, BeforeText(s, r)) == BeforeText(done + s, r)
  {
    if r.Ok? {
      assert done + (s + r.value.value) == done + s + r.value.value;
    }
  }

  /** 256 to the power of `width` */
  function Capacity(width: nat): (c: nat)
    ensures c > 0
  {
    if width == 0 then 1 else 256 * Capacity(width - 1)
  }

  /** The low `width` bytes of a number in two's complement, most significant first. */
  function BigEndian(number: int, width: nat): (b: Bytes)
    ensures |b| == width
    decreases width
  {
    if width == 0 then [] else BigEndian(number / 256, width - 1) + [number % 256]
  }

  /** A byte vector that the encoders push onto. */
  class ByteVector {
    var v: Bytes

    constructor ()
      ensures v == []
    {
      v := [];
    }

    method PushBack(b: byte)
      modifies this
      ensures v == old(v) + [b]
    {
      v := v + [b];
    }

    /** `std::copy` to the back */
    method Append(s: Bytes)
      modifies this
      ensures v == old(v) + s
    {
      for i := 0 to |s|
        invariant v == old(v) + s[..i]
      {
        PushBack(s[i]);
        assert s[..i + 1] == s[..i] + [s[i]];
      }
      assert s[..|s|] == s;
    }

    /** `add_to_vector` */
    method AddToVector(bytes: nat, number: int)
      requires bytes == 1 || bytes == 2 || bytes == 4 || bytes == 8
      modifies this
      ensures v == old(v) + BigEndian(number, bytes)
    {
      hide BigEndian;
      BigEndianBytes(number);
      if bytes == 8 {
        PushBack(number / 0x100_0000_0000_0000 % 0x100);
        PushBack(number / 0x1_0000_0000_0000 % 0x100);
        PushBack(number / 0x100_0000_0000 % 0x100);
        PushBack(number / 0x1_0000_0000 % 0x100);
        PushBack(number / 0x100_0000 % 0x100);
        PushBack(number / 0x1_0000 % 0x100);
        PushBack(number / 0x100 % 0x100);
        PushBack(number % 0x100);
      } else if bytes == 4 {
        PushBack(number / 0x100_0000 % 0x100);
        PushBack(number / 0x1_0000 % 0x100);
        PushBack(number / 0x100 % 0x100);
        PushBack(number % 0x100);
      } else if bytes == 2 {
        PushBack(number / 0x100 % 0x100);
        PushBack(number % 0x100);
      } else {
        PushBack(number % 0x100);
      }
    }
  }

  lemma BigEndianBytes(n: int)
    ensures BigEndian(n, 1) == [n % 0x100]
    ensures BigEndian(n, 2) == [n / 0x100 % 0x100, n % 0x100]
    ensures BigEndian(n, 4) ==
            [n / 0x100_0000 % 0x100, n / 0x1_0000 % 0x100, n / 0x100 % 0x100, n % 0x100]
    ensures BigEndian(n, 8) ==
            [n / 0x100_0000_0000_0000 % 0x100, n / 0x1_0000_0000_0000 % 0x100,
             n / 0x100_0000_0000 % 0x100, n / 0x1_0000_0000 % 0x100,
             n / 0x100_0000 % 0x100, n / 0x1_0000 % 0x100, n / 0x100 % 0x100, n % 0x100]
  {
    hide BigEndian;
    OneByte(n);
    TwoBytes(n);
    FourBytes(n);
    EightBytes(n);
  }

  lemma EightBytes(n: int)
    ensures BigEndian(n, 8) ==
            [n / 0x100_0000_0000_0000 % 0x100, n / 0x1_0000_0000_0000 % 0x100,
             n / 0x100_0000_0000 % 0x100, n / 0x1_0000_0000 % 0x100,
             n / 0x100_0000 % 0x100, n / 0x1_0000 % 0x100, n / 0x100 % 0x100, n % 0x100]
  {
    hide BigEndian;
    var high := n / 0x1_0000_0000;
    Divided(n);
    Concatenated(n, 6);
    Concatenated(n / 0x1_0000, 4);
    FourBytes(high);
    TwoBytes(n / 0x1_0000);
    TwoBytes(n);
    JoinFourTwoTwo(BigEndian(high, 4), BigEndian(n / 0x1_0000, 2), BigEndian(n, 2));
  }

  lemma JoinFourTwoTwo(a: Bytes, b: Bytes, c: Bytes)
    requires |a| == 4 && |b| == 2 && |c| == 2
    ensures a + b + c == [a[0], a[1], a[2], a[3], b[0], b[1], c[0], c[1]]
  {
  }

  /** Shifting in steps. */
  lemma Divided(n: int)
    ensures n / 0x1_0000 / 0x100 == n / 0x100_0000 && n / 0x1_0000 / 0x1_0000 == n / 0x1_0000_0000
    ensures var high := n / 0x1_0000_0000;
            && high / 0x100 == n / 0x100_0000_0000 && high / 0x1_0000 == n / 0x1_0000_0000_0000
            && high / 0x100_0000 == n / 0x100_0000_0000_0000
  {
  }

  lemma FourBytes(n: int)
    ensures BigEndian(n, 4) ==
            [n / 0x100_0000 % 0x100, n / 0x1_0000 % 0x100, n / 0x100 % 0x100, n % 0x100]
  {
    hide BigEndian;
    Divided(n);
    TwoBytes(n);
    TwoBytes(n / 0x1_0000);
    Concatenated(n, 2);
  }

  lemma OneByte(n: int)
    ensures BigEndian(n, 1) == [n % 0x100]
  {
    assert BigEndian(n / 0x100, 0) == [];
  }

  lemma TwoBytes(n: int)
    ensures BigEndian(n, 2) == [n / 0x100 % 0x100, n % 0x100]
  {
    OneByte(n / 0x100);
  }

  lemma Concatenated(n: int, a: nat)
    ensures BigEndian(n, a + 2) == BigEndian(n / 0x1_0000, a) + BigEndian(n, 2)
  {
    assert n / 0x100 / 0x100 == n / 0x1_0000;
    assert BigEndian(n, a + 2) == BigEndian(n / 0x100, a + 1) + [n % 0x100];
    assert BigEndian(n / 0x100, a + 1) == BigEndian(n / 0x1_0000, a) + [n / 0x100 % 0x100];
    TwoBytes(n);
  }

  function FromBigEndian(b: Bytes): (n: nat)
    ensures n < Capacity(|b|)
  {
    if b == [] then 0 else FromBigEndian(b[..|b| - 1]) * 256 + b[|b| - 1]
  }

  lemma Capacities()
    ensures Capacity(1) == 0x100 && Capacity(2) == 0x1_0000
    ensures Capacity(4) == 0x1_0000_0000 && Capacity(8) == TWO_TO_THE_64
  {
    assert Capacity(0) == 1;
    assert Capacity(3) == 256 * Capacity(2) && Capacity(4) == 256 * Capacity(3);
    assert Capacity(5) == 256 * Capacity(4) && Capacity(6) == 256 * Capacity(5);
    assert Capacity(7) == 256 * Capacity(6) && Capacity(8) == 256 * Capacity(7);
  }

  /** Reading back what was written gives the number, reduced to what fits. */
  lemma {:induction false} FromToBigEndian(number: int, width: nat, wraps: int)
    requires 0 <= number + wraps * Capacity(width) < Capacity(width)
    ensures FromBigEndian(BigEndian(number, width)) == number + wraps * Capacity(width)
    decreases width
  {
    if width > 0 {
      var c := Capacity(width - 1);
      ShiftByte(number, wraps, c);
      FromToBigEndian(number / 256, width - 1, wraps);
      var b := BigEndian(number, width);
      assert b[..width - 1] == BigEndian(number / 256, width - 1);
    }
  }

  /** Taking the low byte off a number that may be off by a multiple of the capacity. */
  lemma ShiftByte(number: int, wraps: int, c: nat)
    requires 0 <= number + wraps * (256 * c) < 256 * c
    ensures 0 <= number / 256 + wraps * c < c
    ensures (number / 256 + wraps * c) * 256 + number % 256 == number + wraps * (256 * c)
  {
    var k := wraps * c;
    assert wraps * (256 * c) == 256 * k;
  }

  /** The bytes of the number that they stand for. */
  lemma {:induction false} ToFromBigEndian(b: Bytes)
    ensures BigEndian(FromBigEndian(b), |b|) == b
    decreases |b|
  {
    if b != [] {
      var n := |b| - 1;
      ToFromBigEndian(b[..n]);
      assert FromBigEndian(b) / 256 == FromBigEndian(b[..n]) && FromBigEndian(b) % 256 == b[n];
    }
  }

  /** The number of bytes left, which every value makes smaller. */
  function Left(v: Vector, idx: nat): nat {
    if idx <= |v| then |v| - idx else 0
  }

  /** `check_length`, with the wrap-around of `size_t`. */
  predicate LengthOk(size: nat, len: nat, offset: nat) {
    if len > size || offset > size then false
    else if size > TWO_TO_THE_64 - 1 - offset then false
    else (len + offset) % TWO_TO_THE_64 <= size
  }

  /** The three tests of `check_length` say that the range lies inside the vector. */
  lemma LengthOkMeansInside(size: nat, len: nat, offset: nat)
    requires size < TWO_TO_THE_63
    ensures LengthOk(size, len, offset) <==> offset + len <= size
  {
  }

  /** `get_from_vector`: the `width` bytes after index `at`. */
  function ReadNumber(v: Vector, at: nat, width: nat): (r: Result<nat>)
    ensures r.Ok? <==> at + 1 + width <= |v|
    ensures r.Ok? ==> r.value < Capacity(width)
    ensures r.Err? ==> r.error == ParseError(110)
  {
    if LengthOk(|v|, width, at + 1) then Ok(FromBigEndian(v[at + 1..at + 1 + width])) else Err(ParseError(110))
  }

  /** The loop of `get_from_vector`, which fills the integer from its low byte upwards. */
  method GetFromVector(v: Vector, at: nat, width: nat) returns (r: Result<nat>)
    ensures r == ReadNumber(v, at, width)
  {
    if !LengthOk(|v|, width, at + 1) {
      return Err(ParseError(110));
    }
    var result: nat, unit: nat := 0, 1;
    var i := 0;
    while i < width
      invariant 0 <= i <= width && unit == Capacity(i)
      invariant result == FromBigEndian(v[at + 1 + width - i..at + 1 + width])
    {
      ghost var low := v[at + 1 + width - i..at + 1 + width];
      ghost var more := v[at + width - i..at + 1 + width];
      assert more == [v[at + width - i]] + low;
      PrependByte(v[at + width - i], low);
      result := result + v[at + width - i] * unit;
      unit := 256 * unit;
      i := i + 1;
    }
    return Ok(result);
  }

  lemma {:induction false} PrependByte(c: byte, b: Bytes)
    ensures FromBigEndian([c] + b) == c * Capacity(|b|) + FromBigEndian(b)
  {
    if b == [] {
      assert [c][..0] == [] && [c] + [] == [c];
    } else {
      var n := |b|;
      PrependByte(c, b[..n - 1]);
      assert ([c] + b)[..n] == [c] + b[..n - 1];
      assert c * Capacity(n) == 256 * (c * Capacity(n - 1));
    }
  }

  /** A number written after its first byte is read back. */
  lemma ReadBack(v: Vector, at: nat, first: byte, number: int, width: nat, wraps: int)
    requires Stands(v, at, [first] + BigEndian(number, width))
    requires 0 <= number + wraps * Capacity(width) < Capacity(width)
    ensures ReadNumber(v, at, width) == Ok(number + wraps * Capacity(width))
    ensures v[at] == first
  {
    hide BigEndian, FromBigEndian, Capacity;
    StandsParts(v, at, [first], BigEndian(number, width));
    FromToBigEndian(number, width, wraps);
  }

  lemma FirstThere(v: Vector, idx: nat, first: byte, rest: Bytes)
    requires Stands(v, idx, [first] + rest)
    ensures idx < |v| && v[idx] == first && LengthOk(|v|, 1, idx) && Stands(v, idx + 1, rest)
  {
    StandsParts(v, idx, [first], rest);
    assert v[idx..idx + 1][0] == v[idx];
  }

  lemma TextThere(v: Vector, idx: nat, s: Bytes)
    requires Stands(v, idx, s)
    ensures idx + |s| <= |v| && LengthOk(|v|, |s|, idx) && v[idx..idx + |s|] == s
  {
    LengthOkMeansInside(|v|, |s|, idx);
  }

  lemma Inside(v: Vector, idx: nat, s: Bytes)
    requires Stands(v, idx, s)
    ensures idx + |s| <= |v|
  {
  }

  lemma JoinStands(v: Vector, idx: nat, a: Bytes, b: Bytes)
    requires Stands(v, idx, a) && Stands(v, idx + |a|, b)
    ensures Stands(v, idx, a + b)
  {
    assert v[idx..idx + |a| + |b|] == v[idx..idx + |a|] + v[idx + |a|..idx + |a| + |b|];
  }

  lemma FirstJoins(v: Vector, idx: nat, first: byte, rest: Bytes)
    requires idx < |v| && v[idx] == first && Stands(v, idx + 1, rest)
    ensures Stands(v, idx, [first] + rest)
  {
    assert v[idx..idx + 1] == [first];
    JoinStands(v, idx, [first], rest);
  }

  lemma NothingStands(v: Vector, idx: nat)
    requires idx <= |v|
    ensures Stands(v, idx, [])
  {
  }

  lemma OneStands(v: Vector, idx: nat)
    requires idx < |v|
    ensures Stands(v, idx, [v[idx]])
  {
    var b := v[idx..idx + 1];
    assert |b| == 1 && b[0] == v[idx];
  }

  lemma NumberRead(v: Vector, at: nat, width: nat)
    requires ReadNumber(v, at, width).Ok?
    ensures Stands(v, at, [v[at]] + BigEndian(ReadNumber(v, at, width).value, width))
  {
    hide BigEndian, FromBigEndian;
    var b := v[at + 1..at + 1 + width];
    LengthOkMeansInside(|v|, width, at + 1);
    ToFromBigEndian(b);
    assert v[at..at + 1 + width] == [v[at]] + b;
  }

  // ---- widening of floating-point numbers ----

  const DOUBLE_EXPONENT := 0x10_0000_0000_0000 // 2^52, one step of a binary64 exponent
  const INFINITY := 0x7FF0_0000_0000_0000
  const QUIET_NAN := 0x7FF8_0000_0000_0000

  /** `ldexp(m, e)` of a whole number of at most 24 bits and an exponent that keeps the result a
      normal number. */
  function Scaled(m: nat, e: int): (bits: nat)
    requires m < 0x100_0000 && -200 <= e <= 200
    ensures bits < TWO_TO_THE_63
  {
    if m == 0 then 0
    else
      var top := Exponent(m);
      ScaledBounds(m);
      var significand := m * Pow2(52 - top);
      (top + e + 1022) * DOUBLE_EXPONENT + significand
  }

  lemma ScaledBounds(m: nat)
    requires 0 < m < 0x100_0000
    ensures Exponent(m) <= 23
    ensures DOUBLE_EXPONENT <= m * Pow2(52 - Exponent(m)) < 2 * DOUBLE_EXPONENT
  {
    hide Exponent, Pow2;
    ExponentRange(m);
    Powers();
    var e := Exponent(m);
    if e > 23 {
      Pow2Monotone(24, e);
    }
    Pow2Sum(e, 52 - e);
    ScaleUp(Pow2(e), m, Pow2(52 - e));
  }

  /** The two parts of a positive normal number, whose value is the significand times two to the power of
      the scale. */
  function DoubleSignificand(bits: nat): nat {
    DOUBLE_EXPONENT + bits % DOUBLE_EXPONENT
  }

  function DoubleScale(bits: nat): int {
    bits / DOUBLE_EXPONENT - 1075
  }

  /** Widening keeps the value: the significand is `m` times a power of two that the scale takes back. */
  lemma ScaledValue(m: nat, e: int)
    requires 0 < m < 0x100_0000 && -200 <= e <= 200
    ensures var bits, k := Scaled(m, e), 52 - Exponent(m);
            k >= 0 && DoubleSignificand(bits) == m * Pow2(k) && DoubleScale(bits) == e - k
  {
    hide Pow2, Exponent;
    ScaledBounds(m);
    var high, low := Exponent(m) + e + 1023, m * Pow2(52 - Exponent(m)) - DOUBLE_EXPONENT;
    assert Scaled(m, e) == high * DOUBLE_EXPONENT + low;
    SplitBits(high, low);
  }

  lemma SplitBits(high: nat, low: nat)
    requires low < DOUBLE_EXPONENT
    ensures (high * DOUBLE_EXPONENT + low) / DOUBLE_EXPONENT == high
    ensures (high * DOUBLE_EXPONENT + low) % DOUBLE_EXPONENT == low
  {
  }

  lemma ScaleUp(low: nat, m: nat, factor: nat)
    requires low <= m < 2 * low && factor > 0
    ensures low * factor <= m * factor < 2 * (low * factor)
  {
  }

  lemma Powers()
    ensures Pow2(24) == 0x100_0000 && Pow2(52) == DOUBLE_EXPONENT
  {
    assert Pow2(0) == 1;
    hide Pow2;
    EightDoublings(0);
    EightDoublings(8);
    EightDoublings(16);
    EightDoublings(24);
    EightDoublings(32);
    EightDoublings(40);
    FourDoublings(48);
  }

  lemma FourDoublings(e: nat)
    ensures Pow2(e + 4) == 16 * Pow2(e)
  {
    assert Pow2(e + 2) == 4 * Pow2(e);
  }

  lemma EightDoublings(e: nat)
    ensures Pow2(e + 8) == 256 * Pow2(e)
  {
    hide Pow2;
    FourDoublings(e);
    FourDoublings(e + 4);
  }

  lemma {:induction false} ExponentRange(m: nat)
    requires m > 0
    ensures Pow2(Exponent(m)) <= m < 2 * Pow2(Exponent(m))
  {
    if m > 1 {
      ExponentRange(m / 2);
    }
  }

  lemma {:induction false} Pow2Monotone(a: nat, b: nat)
    requires a <= b
    ensures Pow2(a) <= Pow2(b)
  {
    if a < b {
      Pow2Monotone(a, b - 1);
    }
  }

  lemma {:induction false} Pow2Sum(a: nat, b: nat)
    ensures Pow2(a) * Pow2(b) == Pow2(a + b)
  {
    if a > 0 {
      Pow2Sum(a - 1, b);
      assert Pow2(a) * Pow2(b) == 2 * (Pow2(a - 1) * Pow2(b));
    }
  }

  function Signed(negative: bool, bits: nat): uint64
    requires bits < TWO_TO_THE_63
  {
    if negative then bits + TWO_TO_THE_63 else bits
  }

  /** The binary64 pattern of a binary16 pattern (Figure 3 of RFC 7049, Appendix D). */
  function HalfToDouble(half: nat): uint64
    requires half < 0x1_0000
  {
    var exp, mant := half / 0x400 % 0x20, half % 0x400;
    Signed(half >= 0x8000,
           if exp == 0 then Scaled(mant, -24)
           else if exp != 31 then Scaled(mant + 0x400, exp - 25)
           else if mant == 0 then INFINITY else QUIET_NAN)
  }

  /** The binary64 pattern of a binary32 pattern. */
  function SingleToDouble(single: nat): uint64
    requires single < 0x1_0000_0000
  {
    var exp, mant := single / 0x80_0000 % 0x100, single % 0x80_0000;
    Signed(single >= 0x8000_0000,
           if exp == 0 then Scaled(mant, -149)
           else if exp != 255 then Scaled(mant + 0x80_0000, exp - 150)
           else if mant == 0 then INFINITY else QUIET_NAN)
  }

  /** What a binary format keeps of a document: an integer that is not negative comes back as an
      unsigned number. */
  function Canonical(j: Json): Json {
    match j
    case Int(i) => if i >= 0 then Uint(i) else j
    case Arr(a) => Arr(seq(|a|, k requires 0 <= k < |a| => Canonical(a[k])))
    case Obj(m) => Obj(map k | k in m :: Canonical(m[k]))
    case _ => j
  }

  /** The canonical document equals the original, unless there is a NaN in it. */
  lemma {:induction false} CanonicalEqual(j: Json)
    ensures JEq(Canonical(j), j) <==> NoNaN(j)
  {
    match j
    case Arr(a) =>
      forall k | 0 <= k < |a| ensures JEq(Canonical(a[k]), a[k]) <==> NoNaN(a[k]) {
        CanonicalEqual(a[k]);
      }
      assert NoNaN(j) <==> forall k | 0 <= k < |a| :: NoNaN(a[k]);
    case Obj(m) =>
      forall k | k in m ensures JEq(Canonical(m[k]), m[k]) <==> NoNaN(m[k]) {
        CanonicalEqual(m[k]);
      }
    case _ =>
  }

  function CanonicalItems(j: Json, n: nat): seq<Json>
    requires j.Arr? && n <= |j.items|
  {
    seq(n, k requires 0 <= k < n => Canonical(j.items[k]))
  }

  lemma CanonicalItemsStep(j: Json, n: nat)
    requires j.Arr? && n <= |j.items|
    ensures n == 0 ==> CanonicalItems(j, n) == []
    ensures n > 0 ==> CanonicalItems(j, n) == CanonicalItems(j, n - 1) + [Canonical(j.items[n - 1])]
  {
    hide Canonical;
  }

  lemma CanonicalArray(j: Json)
    requires j.Arr?
    ensures CanonicalItems(j, |j.items|) + [] == Canonical(j).items && Canonical(j).Arr?
  {
  }

  /** `m` after the members `keys` have been assigned. */
  function CanonicalMembers(j: Json, keys: seq<Bytes>, m: map<Bytes, Json>): map<Bytes, Json>
    requires j.Obj? && forall k | k in keys :: k in j.members
  {
    m + map k | k in keys :: Canonical(j.members[k])
  }

  lemma CanonicalMembersNone(j: Json, m: map<Bytes, Json>)
    requires j.Obj?
    ensures CanonicalMembers(j, [], m) == m
  {
  }

  lemma CanonicalMembersStep(j: Json, keys: seq<Bytes>, m: map<Bytes, Json>)
    requires j.Obj? && (forall k | k in keys :: k in j.members) && keys != []
    ensures var last := |keys| - 1;
            CanonicalMembers(j, keys, m) ==
              CanonicalMembers(j, keys[..last], m)[keys[last] := Canonical(j.members[keys[last]])]
  {
    hide Canonical;
    var last := |keys| - 1;
    assert keys == keys[..last] + [keys[last]];
  }

  lemma CanonicalObject(j: Json)
    requires j.Obj?
    ensures Canonical(j).Obj?
    ensures CanonicalMembers(j, SortedKeys(j.members.Keys), map[]) == Canonical(j).members
  {
    hide SortedKeys;
  }
}
