/** `operator<` on documents, and what kind of order it is. */
module Order {
  import opened Binary
  import opened ByteStrings
  import opened Json

  /** The order of types: null, booleans, numbers, objects, arrays, strings. */
  function TypeRank(j: Json): nat {
    match j
    case Null => 0
    case Bool(_) => 1
    case Int(_) => 2
    case Uint(_) => 2
    case Float(_) => 2
    case Obj(_) => 3
    case Arr(_) => 4
    case Str(_) => 5
  }

  function FloatRank(bits: int): int {
    if bits < TWO_TO_THE_63 then bits else TWO_TO_THE_63 - bits
  }

  /** IEEE 754 order: sign and magnitude; a NaN is not less than anything. */
  predicate FloatLess(a: int, b: int) {
    !IsNaN(a) && !IsNaN(b) && FloatRank(a) < FloatRank(b)
  }

  function Max(a: nat, b: nat): nat {
    if a < b then b else a
  }

  function Height(j: Json): nat
    decreases j, 1, 0
  {
    match j
    case Arr(a) => 1 + TallestItem(j, |a|)
    case Obj(m) => 1 + TallestMember(j, SortedKeys(m.Keys))
    case _ => 0
  }

  function TallestItem(j: Json, n: nat): (h: nat)
    requires j.Arr? && n <= |j.items|
    ensures forall k | 0 <= k < n :: Height(j.items[k]) <= h
    decreases j, 0, n
  {
    if n == 0 then 0 else Max(TallestItem(j, n - 1), Height(j.items[n - 1]))
  }

  function TallestMember(j: Json, keys: seq<Bytes>): (h: nat)
    requires j.Obj? && forall k | k in keys :: k in j.members
    ensures forall k | k in keys :: Height(j.members[k]) <= h
    decreases j, 0, |keys|
  {
    if keys == [] then 0 else Max(Height(j.members[keys[0]]), TallestMember(j, keys[1..]))
  }

  /** `operator<` */
  predicate JLess(a: Json, b: Json)
    decreases Height(a) + Height(b), 1, 0
  {
    match (a, b)
    case (Null, Null) => false
    case (Bool(x), Bool(y)) => !x && y
    case (Int(x), Int(y)) => x < y
    case (Uint(x), Uint(y)) => x < y
    case (Float(x), Float(y)) => FloatLess(x, y)
    case (Str(x), Str(y)) => Less(x, y)
    case (Arr(_), Arr(_)) => LessItems(a, b, 0)
    case (Obj(x), Obj(y)) => LessMembers(a, b, SortedKeys(x.Keys), SortedKeys(y.Keys))
    case (Int(x), Float(y)) => FloatLess(IntToDouble(x), y)
    case (Float(x), Int(y)) => FloatLess(x, IntToDouble(y))
    case (Uint(x), Float(y)) => FloatLess(IntToDouble(x), y)
    case (Float(x), Uint(y)) => FloatLess(x, IntToDouble(y))
    case (Int(x), Uint(y)) => x < ToInt64(y)
    case (Uint(x), Int(y)) => ToInt64(x) < y
    case _ => TypeRank(a) < TypeRank(b)
  }

  /** `std::lexicographical_compare` on arrays, from element `i` on. */
  predicate LessItems(a: Json, b: Json, i: nat)
    requires a.Arr? && b.Arr? && i <= |a.items| && i <= |b.items|
    decreases Height(a) + Height(b), 0, |a.items| - i
  {
    if i == |b.items| then false
    else if i == |a.items| then true
    else if JLess(a.items[i], b.items[i]) then true
    else if JLess(b.items[i], a.items[i]) then false
    else LessItems(a, b, i + 1)
  }

  /** `operator<` on pairs of a key and a value. */
  predicate PairLess(a: Json, ka: Bytes, b: Json, kb: Bytes)
    requires a.Obj? && b.Obj? && ka in a.members && kb in b.members
    decreases Height(a) + Height(b), 0, 0
  {
    SmallerMembers(a, ka, b, kb);
    Less(ka, kb) || (!Less(kb, ka) && JLess(a.members[ka], b.members[kb]))
  }

  lemma SmallerMembers(a: Json, ka: Bytes, b: Json, kb: Bytes)
    requires a.Obj? && b.Obj? && ka in a.members && kb in b.members
    ensures Height(a.members[ka]) < Height(a) && Height(b.members[kb]) < Height(b)
  {
    hide SortedKeys;
    assert ka in SortedKeys(a.members.Keys) && kb in SortedKeys(b.members.Keys);
  }

  /** `std::lexicographical_compare` on objects, whose members are visited in key order. */
  predicate LessMembers(a: Json, b: Json, ka: seq<Bytes>, kb: seq<Bytes>)
    requires a.Obj? && b.Obj? && (forall k | k in ka :: k in a.members) && (forall k | k in kb :: k in b.members)
    decreases Height(a) + Height(b), 0, |ka| + 1
  {
    if kb == [] then false
    else if ka == [] then true
    else if PairLess(a, ka[0], b, kb[0]) then true
    else if PairLess(b, kb[0], a, ka[0]) then false
    else LessMembers(a, b, ka[1..], kb[1..])
  }

  // ---- the laws ----

  /** At most one of less and greater; and neither of them exactly if the documents are equal. */
  predicate Trichotomous(less: bool, equal: bool, greater: bool) {
    if less then !equal && !greater else equal == !greater
  }

  lemma {:induction false} Trichotomy(a: Json, b: Json)
    requires NoNaN(a) && NoNaN(b)
    ensures Trichotomous(JLess(a, b), JEq(a, b), JLess(b, a))
    decreases a, 1
  {
    hide LessItems, LessMembers, Less, SortedKeys, NoNaN, Height;
    match (a, b) {
      case (Str(x), Str(y)) => StringsTrichotomous(x, y);
      case (Arr(_), Arr(_)) => ItemsTrichotomous(a, b, 0);
      case (Obj(_), Obj(_)) => ObjectsTrichotomous(a, b);
      case _ =>
        if IsNumber(a) && IsNumber(b) {
          NumbersTrichotomous(a, b);
        }
    }
  }

  predicate IsNumber(j: Json) {
    j.Int? || j.Uint? || j.Float?
  }

  lemma NumbersTrichotomous(a: Json, b: Json)
    requires IsNumber(a) && IsNumber(b) && NoNaN(a) && NoNaN(b)
    ensures Trichotomous(JLess(a, b), JEq(a, b), JLess(b, a))
  {
    hide IntToDouble, IsNaN, FloatLess, FloatEq;
    if a.Float? || b.Float? {
      var x := if a.Float? then a.bits else IntToDouble(if a.Int? then a.i else a.u);
      var y := if b.Float? then b.bits else IntToDouble(if b.Int? then b.i else b.u);
      if !a.Float? {
        DoubleIsFinite(if a.Int? then a.i else a.u);
      }
      if !b.Float? {
        DoubleIsFinite(if b.Int? then b.i else b.u);
      }
      FloatsTrichotomous(x, y);
    }
  }

  lemma FloatsTrichotomous(x: int, y: int)
    requires 0 <= x < TWO_TO_THE_64 && 0 <= y < TWO_TO_THE_64 && !IsNaN(x) && !IsNaN(y)
    ensures Trichotomous(FloatLess(x, y), FloatEq(x, y), FloatLess(y, x))
  {
  }

  /** The significand that a number is rounded to. */
  function Rounded(m: nat, e: nat): nat {
    if e <= 52 then
      m * Pow2(52 - e)
    else
      var unit := Pow2(e - 52);
      var q, r := m / unit, m % unit;
      if 2 * r > unit || (2 * r == unit && q % 2 == 1) then q + 1 else q
  }

  lemma RoundedBound(m: nat, e: nat)
    requires Pow2(e) <= m < 2 * Pow2(e)
    ensures Rounded(m, e) <= 2 * DOUBLE_EXPONENT
  {
    hide Pow2;
    Powers();
    if e <= 52 {
      Pow2Sum(e, 52 - e);
      ScaleUp(Pow2(e), m, Pow2(52 - e));
    } else {
      Pow2Sum(52, e - 52);
      Quotient(m, Pow2(e - 52));
    }
  }

  lemma Quotient(m: nat, unit: nat)
    requires unit > 0 && m < 2 * (DOUBLE_EXPONENT * unit)
    ensures m / unit < 2 * DOUBLE_EXPONENT
  {
  }

  lemma ExponentIs(m: nat, e: nat)
    requires Pow2(e) <= m < 2 * Pow2(e)
    ensures Exponent(m) == e
  {
    hide Exponent;
    var x := Exponent(m);
    ExponentRange(m);
    if x < e {
      Pow2Monotone(x + 1, e);
    } else if e < x {
      Pow2Monotone(e + 1, x);
    }
  }

  lemma LargestExponent(m: nat)
    requires 0 < m <= TWO_TO_THE_64
    ensures Exponent(m) <= 64
  {
    hide Exponent, Pow2;
    ExponentRange(m);
    PowerOf64();
    if Exponent(m) > 64 {
      Pow2Monotone(65, Exponent(m));
    }
  }

  lemma PowerOf64()
    ensures Pow2(65) == 2 * TWO_TO_THE_64 && Pow2(53) == 2 * DOUBLE_EXPONENT
  {
    Powers();
    assert Pow2(4) == 16 by {
      assert Pow2(0) == 1 && Pow2(2) == 4;
    }
    assert Pow2(65) == 2 * Pow2(64) && Pow2(53) == 2 * Pow2(52);
    hide Pow2;
    Pow2Sum(4, 4);
    Pow2Sum(8, 4);
    Pow2Sum(52, 12);
  }

  lemma DoubleOf(n: int)
    requires n != 0
    ensures var m := if n < 0 then -n else n;
            IntToDouble(n) ==
            (if n < 0 then TWO_TO_THE_63 else 0) + (Exponent(m) + 1022) * DOUBLE_EXPONENT + Rounded(m, Exponent(m))
  {
    hide Exponent, Pow2;
  }

  /** The conversion of a number to a double never gives an infinity or a NaN. */
  lemma DoubleIsFinite(n: int)
    requires -TWO_TO_THE_63 <= n < TWO_TO_THE_64
    ensures 0 <= IntToDouble(n) < TWO_TO_THE_64 && !IsNaN(IntToDouble(n))
  {
    ZeroIsFinite();
    if n != 0 {
      hide Exponent, Pow2, Rounded, IntToDouble, IsNaN;
      var m := if n < 0 then -n else n;
      DoubleOf(n);
      LargestExponent(m);
      ExponentRange(m);
      RoundedBound(m, Exponent(m));
      SmallExponent(Exponent(m), Rounded(m, Exponent(m)), n < 0);
    }
  }

  lemma ZeroIsFinite()
    ensures IntToDouble(0) == 0 && !IsNaN(0)
  {
  }

  lemma SmallExponent(e: nat, significand: nat, negative: bool)
    requires e <= 64 && significand <= 2 * DOUBLE_EXPONENT
    ensures var bits := (if negative then TWO_TO_THE_63 else 0) + (e + 1022) * DOUBLE_EXPONENT + significand;
            0 <= bits < TWO_TO_THE_64 && !IsNaN(bits)
  {
  }

  lemma StringsTrichotomous(x: Bytes, y: Bytes)
    ensures Trichotomous(Less(x, y), x == y, Less(y, x))
  {
    hide Less;
    LessTotal(x, y);
    LessIrreflexive(x);
    if Less(x, y) {
      LessAsymmetric(x, y);
    } else if Less(y, x) {
      LessAsymmetric(y, x);
    }
  }

  predicate EqualItems(a: Json, b: Json, i: nat)
    requires a.Arr? && b.Arr?
  {
    |a.items| == |b.items| && forall k | i <= k < |a.items| :: JEq(a.items[k], b.items[k])
  }

  lemma {:induction false} ItemsTrichotomous(a: Json, b: Json, i: nat)
    requires a.Arr? && b.Arr? && i <= |a.items| && i <= |b.items| && NoNaN(a) && NoNaN(b)
    ensures Trichotomous(LessItems(a, b, i), EqualItems(a, b, i), LessItems(b, a, i))
    decreases a, 0, |a.items| - i
  {
    hide JLess, JEq, Height;
    if i < |a.items| && i < |b.items| {
      Trichotomy(a.items[i], b.items[i]);
      ItemsTrichotomous(a, b, i + 1);
    }
  }

  lemma {:induction false} PairsTrichotomous(a: Json, ka: Bytes, b: Json, kb: Bytes)
    requires a.Obj? && b.Obj? && ka in a.members && kb in b.members && NoNaN(a) && NoNaN(b)
    ensures Trichotomous(PairLess(a, ka, b, kb), ka == kb && JEq(a.members[ka], b.members[kb]), PairLess(b, kb, a, ka))
    decreases a, 0, 0
  {
    hide JLess, JEq, Height, Less;
    StringsTrichotomous(ka, kb);
    Trichotomy(a.members[ka], b.members[kb]);
  }

  predicate EqualMembers(a: Json, b: Json, ka: seq<Bytes>, kb: seq<Bytes>)
    requires a.Obj? && b.Obj? && (forall k | k in ka :: k in a.members) && (forall k | k in kb :: k in b.members)
  {
    ka == kb && forall k | k in ka :: JEq(a.members[k], b.members[k])
  }

  lemma {:induction false} MembersTrichotomous(a: Json, b: Json, ka: seq<Bytes>, kb: seq<Bytes>)
    requires a.Obj? && b.Obj? && (forall k | k in ka :: k in a.members) && (forall k | k in kb :: k in b.members)
    requires NoNaN(a) && NoNaN(b)
    ensures Trichotomous(LessMembers(a, b, ka, kb), EqualMembers(a, b, ka, kb), LessMembers(b, a, kb, ka))
    decreases a, 0, |ka| + 1
  {
    hide PairLess, JEq, Height, Less, NoNaN;
    if ka != [] && kb != [] {
      PairsTrichotomous(a, ka[0], b, kb[0]);
      MembersTrichotomous(a, b, ka[1..], kb[1..]);
      assert ka == [ka[0]] + ka[1..] && kb == [kb[0]] + kb[1..];
    }
  }

  lemma {:induction false} ObjectsTrichotomous(a: Json, b: Json)
    requires a.Obj? && b.Obj? && NoNaN(a) && NoNaN(b)
    ensures Trichotomous(JLess(a, b), JEq(a, b), JLess(b, a))
    decreases a, 0, |a.members| + 2
  {
    hide LessMembers, Less, SortedKeys, NoNaN, Height;
    var ka, kb := SortedKeys(a.members.Keys), SortedKeys(b.members.Keys);
    MembersTrichotomous(a, b, ka, kb);
    assert EqualMembers(a, b, ka, kb) <==> JEq(a, b) by {
      if ka == kb {
        assert forall k :: k in a.members.Keys <==> k in b.members.Keys;
      }
    }
  }

  /** What transitivity says of three things in a row, with ties: `xy` for x < y and so on. */
  predicate Chained(ab: bool, ba: bool, bc: bool, cb: bool, ac: bool, ca: bool) {
    !ba && !cb ==> !ca && (ac <==> ab || bc)
  }

  /** The numbers in a document are all from the set `n`. */
  ghost predicate Within(j: Json, n: iset<Json>) {
    match j
    case Arr(a) => forall x | x in a :: Within(x, n)
    case Obj(m) => forall k | k in m :: Within(m[k], n)
    case _ => IsNumber(j) ==> j in n
  }

  /** Any three of the numbers are ordered transitively. */
  ghost predicate NumbersChain(n: iset<Json>) {
    forall x, y, z | x in n && y in n && z in n && IsNumber(x) && IsNumber(y) && IsNumber(z) ::
      Chained(JLess(x, y), JLess(y, x), JLess(y, z), JLess(z, y), JLess(x, z), JLess(z, x))
  }

  ghost predicate NaNFree(n: iset<Json>) {
    forall x | x in n && x.Float? :: !IsNaN(x.bits)
  }

  lemma {:induction false} WithinHasNoNaN(j: Json, n: iset<Json>)
    requires Within(j, n) && NaNFree(n)
    ensures NoNaN(j)
  {
    match j
    case Arr(a) =>
      forall x | x in a ensures NoNaN(x) {
        WithinHasNoNaN(x, n);
      }
    case Obj(m) =>
      forall k | k in m ensures NoNaN(m[k]) {
        WithinHasNoNaN(m[k], n);
      }
    case _ =>
  }

  lemma {:induction false} Transitivity(a: Json, b: Json, c: Json, n: iset<Json>)
    requires Within(a, n) && Within(b, n) && Within(c, n) && NaNFree(n) && NumbersChain(n)
    ensures Chained(JLess(a, b), JLess(b, a), JLess(b, c), JLess(c, b), JLess(a, c), JLess(c, a))
    decreases a, 1
  {
    hide JLess, LessItems, LessMembers, Less, SortedKeys, Height;
    LessByType(a, b);
    LessByType(b, a);
    LessByType(b, c);
    LessByType(c, b);
    LessByType(a, c);
    LessByType(c, a);
    match (a, b, c) {
      case (Str(x), Str(y), Str(z)) => StringsChained(x, y, z);
      case (Arr(_), Arr(_), Arr(_)) => ItemsChained(a, b, c, 0, n);
      case (Obj(x), Obj(y), Obj(z)) =>
        MembersChained(a, b, c, SortedKeys(x.Keys), SortedKeys(y.Keys), SortedKeys(z.Keys), n);
      case _ =>
    }
  }

  /** How documents compare, but for numbers. */
  lemma LessByType(a: Json, b: Json)
    ensures TypeRank(a) != TypeRank(b) ==> JLess(a, b) == (TypeRank(a) < TypeRank(b))
    ensures a.Null? && b.Null? ==> !JLess(a, b)
    ensures a.Bool? && b.Bool? ==> JLess(a, b) == (!a.b && b.b)
    ensures a.Str? && b.Str? ==> JLess(a, b) == Less(a.s, b.s)
    ensures a.Arr? && b.Arr? ==> JLess(a, b) == LessItems(a, b, 0)
    ensures a.Obj? && b.Obj? ==>
              JLess(a, b) == LessMembers(a, b, SortedKeys(a.members.Keys), SortedKeys(b.members.Keys))
  {
    hide LessItems, LessMembers, Less, SortedKeys, Height;
  }

  lemma StringsChained(x: Bytes, y: Bytes, z: Bytes)
    ensures Chained(Less(x, y), Less(y, x), Less(y, z), Less(z, y), Less(x, z), Less(z, x))
  {
    hide Less;
    StringsTrichotomous(x, y);
    StringsTrichotomous(y, z);
    StringsTrichotomous(x, z);
    if Less(x, y) && Less(y, z) {
      LessTransitive(x, y, z);
    }
  }

  lemma {:induction false} ItemsChained(a: Json, b: Json, c: Json, i: nat, n: iset<Json>)
    requires a.Arr? && b.Arr? && c.Arr? && i <= |a.items| && i <= |b.items| && i <= |c.items|
    requires Within(a, n) && Within(b, n) && Within(c, n) && NaNFree(n) && NumbersChain(n)
    ensures Chained(LessItems(a, b, i), LessItems(b, a, i), LessItems(b, c, i), LessItems(c, b, i), LessItems(a, c, i),
                    LessItems(c, a, i))
    decreases a, 0, |a.items| - i
  {
    hide JLess, Height, JEq, NaNFree, NumbersChain;
    WithinHasNoNaN(a, n);
    WithinHasNoNaN(b, n);
    WithinHasNoNaN(c, n);
    if i < |a.items| && i < |b.items| && i < |c.items| {
      Transitivity(a.items[i], b.items[i], c.items[i], n);
      Trichotomy(a.items[i], b.items[i]);
      Trichotomy(b.items[i], c.items[i]);
      ItemsChained(a, b, c, i + 1, n);
    } else if i < |a.items| && i < |b.items| {
      ItemsTrichotomous(a, b, i);
    }
  }

  lemma {:induction false} PairsChained(a: Json, ka: Bytes, b: Json, kb: Bytes, c: Json, kc: Bytes, n: iset<Json>)
    requires a.Obj? && b.Obj? && c.Obj? && ka in a.members && kb in b.members && kc in c.members
    requires Within(a, n) && Within(b, n) && Within(c, n) && NaNFree(n) && NumbersChain(n)
    ensures Chained(PairLess(a, ka, b, kb), PairLess(b, kb, a, ka), PairLess(b, kb, c, kc), PairLess(c, kc, b, kb),
                    PairLess(a, ka, c, kc), PairLess(c, kc, a, ka))
    decreases a, 0, 0
  {
    hide JLess, Height, Less, NaNFree, NumbersChain;
    StringsTrichotomous(ka, kb);
    StringsTrichotomous(kb, kc);
    StringsTrichotomous(ka, kc);
    StringsChained(ka, kb, kc);
    Transitivity(a.members[ka], b.members[kb], c.members[kc], n);
  }

  lemma {:induction false} MembersChained(a: Json, b: Json, c: Json, ka: seq<Bytes>, kb: seq<Bytes>, kc: seq<Bytes>,
                                          n: iset<Json>)
    requires a.Obj? && b.Obj? && c.Obj? && NaNFree(n) && NumbersChain(n)
    requires (forall k | k in ka :: k in a.members) && (forall k | k in kb :: k in b.members)
    requires (forall k | k in kc :: k in c.members) && Within(a, n) && Within(b, n) && Within(c, n)
    ensures Chained(LessMembers(a, b, ka, kb), LessMembers(b, a, kb, ka), LessMembers(b, c, kb, kc),
                    LessMembers(c, b, kc, kb), LessMembers(a, c, ka, kc), LessMembers(c, a, kc, ka))
    decreases a, 0, |ka| + 1
  {
    hide PairLess, JEq, Height, Less, NoNaN, Within, NaNFree, NumbersChain;
    WithinHasNoNaN(a, n);
    WithinHasNoNaN(b, n);
    WithinHasNoNaN(c, n);
    if ka != [] && kb != [] && kc != [] {
      PairsChained(a, ka[0], b, kb[0], c, kc[0], n);
      PairsTrichotomous(a, ka[0], b, kb[0]);
      PairsTrichotomous(b, kb[0], c, kc[0]);
      MembersChained(a, b, c, ka[1..], kb[1..], kc[1..], n);
    }
  }

  /** The laws of a strict weak order whose ties are exactly `operator==`, for three documents. */
  predicate StrictWeak(a: Json, b: Json, c: Json) {
    && !JLess(a, a)
    && (JLess(a, b) ==> !JLess(b, a))
    && (JLess(a, b) && JLess(b, c) ==> JLess(a, c))
    && (JEq(a, b) <==> !JLess(a, b) && !JLess(b, a))
    && (JEq(a, b) && JEq(b, c) ==> JEq(a, c))
  }

  ghost predicate StrictWeakOver(n: iset<Json>) {
    forall a, b, c | Within(a, n) && Within(b, n) && Within(c, n) :: StrictWeak(a, b, c)
  }

  lemma LawsHold(a: Json, b: Json, c: Json, n: iset<Json>)
    requires Within(a, n) && Within(b, n) && Within(c, n) && NaNFree(n) && NumbersChain(n)
    ensures StrictWeak(a, b, c)
  {
    hide JLess, JEq, Within, NaNFree, NumbersChain, NoNaN;
    WithinHasNoNaN(a, n);
    WithinHasNoNaN(b, n);
    WithinHasNoNaN(c, n);
    Trichotomy(a, a);
    Trichotomy(a, b);
    Trichotomy(b, c);
    Trichotomy(a, c);
    Transitivity(a, b, c, n);
  }

  /** The laws give back the chain of any three numbers. */
  lemma LawsChain(n: iset<Json>, x: Json, y: Json, z: Json)
    requires StrictWeakOver(n) && x in n && y in n && z in n && IsNumber(x) && IsNumber(y) && IsNumber(z)
    ensures Chained(JLess(x, y), JLess(y, x), JLess(y, z), JLess(z, y), JLess(x, z), JLess(z, x))
  {
    hide JLess, JEq;
    assert Within(x, n) && Within(y, n) && Within(z, n);
    assert StrictWeak(x, y, z) && StrictWeak(y, z, x) && StrictWeak(z, x, y);
    assert StrictWeak(x, z, y) && StrictWeak(z, y, x) && StrictWeak(y, x, z);
  }

  /** `operator<` is a strict weak order whose ties are exactly `operator==`, on all documents with numbers
      from a set, if and only if there is no NaN in the set and any three of its numbers are ordered
      transitively. */
  lemma StrictWeakOrderIff(n: iset<Json>)
    ensures StrictWeakOver(n) <==> NaNFree(n) && NumbersChain(n)
  {
    hide JLess, Within, StrictWeak, JEq, Chained;
    if NaNFree(n) && NumbersChain(n) {
      forall a, b, c | Within(a, n) && Within(b, n) && Within(c, n) ensures StrictWeak(a, b, c) {
        LawsHold(a, b, c, n);
      }
    }
    if StrictWeakOver(n) {
      forall x | x in n && x.Float? ensures !IsNaN(x.bits) {
        LawsExcludeNaN(n, x);
      }
      forall x, y, z | x in n && y in n && z in n && IsNumber(x) && IsNumber(y) && IsNumber(z)
        ensures Chained(JLess(x, y), JLess(y, x), JLess(y, z), JLess(z, y), JLess(x, z), JLess(z, x))
      {
        LawsChain(n, x, y, z);
      }
    }
  }

  lemma LawsExcludeNaN(n: iset<Json>, x: Json)
    requires StrictWeakOver(n) && x in n && x.Float?
    ensures !IsNaN(x.bits)
  {
    assert Within(x, n);
    assert StrictWeak(x, x, x);
  }

  /** An unsigned number `h` that the conversion makes negative, a signed number between the result and a
      smaller unsigned number `l`: `h` goes before `i`, `i` before `l`, and `l` before `h`. */
  predicate Conflict(h: uint64, i: int64, l: uint64) {
    l < TWO_TO_THE_63 <= h && ToInt64(h) <= i <= l
  }

  ghost predicate ConflictFree(n: iset<Json>) {
    forall h: uint64, i: int64, l: uint64 | Uint(h) in n && Int(i) in n && Uint(l) in n :: !Conflict(h, i, l)
  }

  /** On float-free documents the laws hold exactly if the numbers hold no such conflict. */
  lemma IntegersOrderedIff(n: iset<Json>)
    requires forall x | x in n :: !x.Float?
    ensures StrictWeakOver(n) <==> ConflictFree(n)
  {
    hide JLess, StrictWeakOver, Chained, Conflict;
    StrictWeakOrderIff(n);
    if ConflictFree(n) {
      forall x, y, z | x in n && y in n && z in n && IsNumber(x) && IsNumber(y) && IsNumber(z)
        ensures Chained(JLess(x, y), JLess(y, x), JLess(y, z), JLess(z, y), JLess(x, z), JLess(z, x))
      {
        assert !x.Float? && !y.Float? && !z.Float?;
        IntegersChain(x, y, z, n);
      }
    }
    if NumbersChain(n) {
      forall h: uint64, i: int64, l: uint64 | Uint(h) in n && Int(i) in n && Uint(l) in n ensures !Conflict(h, i, l) {
        if Conflict(h, i, l) {
          ConflictBreaks(h, i, l);
        }
      }
    }
  }

  lemma IntegersChain(x: Json, y: Json, z: Json, n: iset<Json>)
    requires (x.Int? || x.Uint?) && (y.Int? || y.Uint?) && (z.Int? || z.Uint?)
    requires x in n && y in n && z in n && ConflictFree(n)
    ensures Chained(JLess(x, y), JLess(y, x), JLess(y, z), JLess(z, y), JLess(x, z), JLess(z, x))
  {
    hide JLess;
    IntegersLess(x, y);
    IntegersLess(y, z);
    IntegersLess(x, z);
    if x.Uint? && y.Int? && z.Uint? {
      assert !Conflict(x.u, y.i, z.u);
    } else if x.Uint? && y.Uint? && z.Int? {
      assert !Conflict(y.u, z.i, x.u);
    } else if x.Int? && y.Uint? && z.Uint? {
      assert !Conflict(z.u, x.i, y.u);
    }
  }

  lemma IntegersLess(x: Json, y: Json)
    requires (x.Int? || x.Uint?) && (y.Int? || y.Uint?)
    ensures x.Uint? && y.Uint? ==> JLess(x, y) == (x.u < y.u) && JLess(y, x) == (y.u < x.u)
    ensures !(x.Uint? && y.Uint?) ==>
              var a, b := if x.Int? then x.i else ToInt64(x.u), if y.Int? then y.i else ToInt64(y.u);
              JLess(x, y) == (a < b) && JLess(y, x) == (b < a)
  {
  }

  lemma ConflictBreaks(h: uint64, i: int64, l: uint64)
    requires Conflict(h, i, l)
    ensures var x, y, z := Uint(h), Int(i), Uint(l);
            !Chained(JLess(x, y), JLess(y, x), JLess(y, z), JLess(z, y), JLess(x, z), JLess(z, x))
  {
  }

  /** Without the bound on unsigned numbers there are cycles. */
  lemma Cycle()
    ensures JLess(Uint(TWO_TO_THE_63), Int(0)) && JLess(Int(0), Uint(1)) && JLess(Uint(1), Uint(TWO_TO_THE_63))
  {
  }

  /** Comparing a signed with an unsigned number goes by their values exactly if the conversion of the
      unsigned one keeps its value, or makes it a number that is still greater. */
  lemma MixedComparison(i: int64, u: uint64)
    ensures (JLess(Int(i), Uint(u)) <==> i < u) <==> u < TWO_TO_THE_63 || i < u - TWO_TO_THE_64
    ensures (JLess(Uint(u), Int(i)) <==> u < i) <==> u < TWO_TO_THE_63 || i <= u - TWO_TO_THE_64
  {
  }

  /** With floating-point numbers ties are not transitive: the two largest numbers are different, and
      both equal the double that they are rounded to. */
  lemma RoundingTies()
    ensures var a, f, b := Int(0x20_0000_0000_0000), Float(0x4340_0000_0000_0000), Int(0x20_0000_0000_0001);
            JEq(a, f) && JEq(f, b) && !JEq(a, b) && JLess(a, b)
  {
    assert Pow2(1) == 2;
    hide Exponent, Pow2;
    PowerOf64();
    ExponentIs(0x20_0000_0000_0000, 53);
    ExponentIs(0x20_0000_0000_0001, 53);
    DoubleOf(0x20_0000_0000_0000);
    DoubleOf(0x20_0000_0000_0001);
  }
}
