/** Byte strings: the model of `std::string`, with the order `std::map` sorts keys by. */
module ByteStrings {

  type byte = x: int | 0 <= x < 256

  type Bytes = seq<byte>

  /** The bytes of an ASCII text. */
  function Ascii(text: string): (s: Bytes)
    ensures |s| == |text|
  {
    seq(|text|, i requires 0 <= i < |text| => if text[i] as int < 0x80 then text[i] as int else 0)
  }

  /** Byte-wise lexicographic order, as `std::char_traits<char>::compare` defines it. */
  predicate Less(a: Bytes, b: Bytes) {
    b != [] && (a == [] || a[0] < b[0] || (a[0] == b[0] && Less(a[1..], b[1..])))
  }

  lemma {:induction false} LessIrreflexive(a: Bytes)
    ensures !Less(a, a)
  {
    if a != [] {
      LessIrreflexive(a[1..]);
    }
  }

  lemma {:induction false} LessTransitive(a: Bytes, b: Bytes, c: Bytes)
    requires Less(a, b) && Less(b, c)
    ensures Less(a, c)
  {
    if a != [] && a[0] == b[0] && b[0] == c[0] {
      LessTransitive(a[1..], b[1..], c[1..]);
    }
  }

  lemma LessAsymmetric(a: Bytes, b: Bytes)
    requires Less(a, b)
    ensures !Less(b, a) && a != b
  {
    LessIrreflexive(a);
    if Less(b, a) {
      LessTransitive(a, b, a);
    }
  }

  lemma {:induction false} LessTotal(a: Bytes, b: Bytes)
    ensures Less(a, b) || a == b || Less(b, a)
  {
    if a != [] && b != [] && a[0] == b[0] {
      LessTotal(a[1..], b[1..]);
      assert a == [a[0]] + a[1..] && b == [b[0]] + b[1..];
    }
  }

  /** A common prefix does not influence the order. */
  lemma {:induction false} LessPrefix(p: Bytes, a: Bytes, b: Bytes)
    ensures Less(p + a, p + b) == Less(a, b)
  {
    if p == [] {
      assert p + a == a && p + b == b;
    } else {
      assert (p + a)[1..] == p[1..] + a && (p + b)[1..] == p[1..] + b;
      LessPrefix(p[1..], a, b);
    }
  }

  ghost predicate IsLeast(k: Bytes, s: set<Bytes>) {
    k in s && forall x | x in s :: x == k || Less(k, x)
  }

  lemma {:induction false} LeastExists(s: set<Bytes>)
    requires s != {}
    ensures exists k :: IsLeast(k, s)
  {
    var x :| x in s;
    var rest := s - {x};
    if rest == {} {
      assert s == {x};
      assert IsLeast(x, s);
    } else {
      LeastExists(rest);
      var k :| IsLeast(k, rest);
      LessTotal(k, x);
      if Less(k, x) {
        assert IsLeast(k, s);
      } else {
        forall y | y in s ensures y == x || Less(x, y) {
          if y in rest && y != k {
            LessTransitive(x, k, y);
          }
        }
        assert IsLeast(x, s);
      }
    }
  }

  lemma LeastUnique(s: set<Bytes>)
    ensures forall k, k' | k in s && k' in s && (forall x | x in s :: x == k || Less(k, x))
                           && (forall x | x in s :: x == k' || Less(k', x)) :: k == k'
  {
    forall k, k' | k in s && k' in s && (forall x | x in s :: x == k || Less(k, x))
                   && (forall x | x in s :: x == k' || Less(k', x))
      ensures k == k'
    {
      if k != k' {
        LessAsymmetric(k, k');
      }
    }
  }

  function Least(s: set<Bytes>): (k: Bytes)
    requires s != {}
    ensures IsLeast(k, s)
  {
    assert exists k :: k in s && forall x | x in s :: x == k || Less(k, x) by {
      LeastExists(s);
      var k :| IsLeast(k, s);
    }
    LeastUnique(s);
    var k :| k in s && forall x | x in s :: x == k || Less(k, x);
    k
  }

  /** The keys of a `std::map<std::string, _>` in iteration order. */
  function SortedKeys(s: set<Bytes>): (keys: seq<Bytes>)
    ensures forall k :: k in keys <==> k in s
    ensures |keys| == |s|
  {
    if s == {} then [] else var k := Least(s); [k] + SortedKeys(s - {k})
  }

  ghost predicate Sorted(keys: seq<Bytes>) {
    forall i, j | 0 <= i < j < |keys| :: Less(keys[i], keys[j])
  }

  lemma {:induction false} SortedKeysSorted(s: set<Bytes>)
    ensures Sorted(SortedKeys(s))
  {
    if s != {} {
      SortedKeysSorted(s - {Least(s)});
    }
  }

  lemma SortedDistinct(keys: seq<Bytes>)
    requires Sorted(keys)
    ensures forall i, j | 0 <= i < j < |keys| :: keys[i] != keys[j]
  {
    forall i, j | 0 <= i < j < |keys| ensures keys[i] != keys[j] {
      LessAsymmetric(keys[i], keys[j]);
    }
  }

  /** A strictly ascending sequence is determined by its elements. */
  lemma {:induction false} SortedUnique(a: seq<Bytes>, b: seq<Bytes>)
    requires Sorted(a) && Sorted(b)
    requires forall k :: k in a <==> k in b
    ensures a == b
  {
    if a == [] {
      assert forall i | 0 <= i < |b| :: b[i] in b;
    } else {
      assert a[0] in b;
      assert b[0] in a;
      if a[0] != b[0] {
        LessAsymmetric(a[0], b[0]);
      }
      SortedDistinct(a);
      SortedDistinct(b);
      forall k ensures k in a[1..] <==> k in b[1..] {
        assert k in a <==> k == a[0] || k in a[1..];
        assert k in b <==> k == b[0] || k in b[1..];
      }
      SortedUnique(a[1..], b[1..]);
    }
  }

  /** `bytes` stands in `v` at `idx`. */
  predicate Stands(v: Bytes, idx: nat, bytes: Bytes) {
    idx + |bytes| <= |v| && v[idx..idx + |bytes|] == bytes
  }

  lemma StandsParts(v: Bytes, idx: nat, a: Bytes, b: Bytes)
    requires Stands(v, idx, a + b)
    ensures Stands(v, idx, a) && Stands(v, idx + |a|, b)
  {
    var whole := v[idx..idx + |a + b|];
    assert whole[..|a|] == a && whole[|a|..] == b;
    assert v[idx..idx + |a|] == whole[..|a|];
    assert v[idx + |a|..idx + |a| + |b|] == whole[|a|..];
  }

  lemma StandsWithin(pre: Bytes, bytes: Bytes, suffix: Bytes)
    ensures Stands(pre + bytes + suffix, |pre|, bytes)
  {
    assert (pre + bytes + suffix)[|pre|..|pre| + |bytes|] == bytes;
  }

  // ---- concatenations, grouped in other ways ----

  lemma Regroup(a: Bytes, b: Bytes, c: Bytes, tail: Bytes)
    ensures a + b + c + tail == a + (b + (c + tail))
    ensures c == [] ==> a + b + c == a + b && c + tail == tail
    ensures a == [] ==> b + c + tail == b + (c + tail)
  {
  }

  /** A piece that is appended to the last of three. */
  lemma RegroupLast(a: Bytes, b: Bytes, c: Bytes, d: Bytes)
    ensures a + (b + c) + d == a + (b + (c + d))
    ensures a + b + d == a + (b + d)
  {
  }
}
