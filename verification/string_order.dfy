/**
 * The order of the keys of a TreeMap<String, _>: String.compareTo. A Java string is a sequence
 * of UTF-16 code units, and compareTo compares those units one by one and puts a proper prefix
 * first. A character outside the Basic Multilingual Plane is two units, a surrogate pair, so
 * the order is taken over the UTF-16 encoding of the keys and not over their characters. Keys
 * are kept as a strictly ascending list, which is the order in which the map's values() are
 * visited.
 */
module StringOrder {

  /** The UTF-16 code units of one character: itself, or a high and a low surrogate. */
  function Units(c: char): (u: seq<int>)
    ensures |u| == 1 <==> c as int < 0x10000
    ensures |u| == 1 || |u| == 2
    ensures |u| == 1 ==> !(0xD800 <= u[0] < 0xDC00)
    ensures |u| == 2 ==> 0xD800 <= u[0] < 0xDC00 && 0xDC00 <= u[1] < 0xE000
  {
    if c as int < 0x10000 then [c as int]
    else
      var v := c as int - 0x10000;
      [0xD800 + v / 0x400, 0xDC00 + v % 0x400]
  }

  /** Two characters with the same code units are the same character. */
  lemma UnitsInjective(c: char, d: char)
    requires Units(c) == Units(d)
    ensures c == d
  {
    if c as int >= 0x10000 {
      var v := c as int - 0x10000;
      var w := d as int - 0x10000;
      assert v / 0x400 == w / 0x400 && v % 0x400 == w % 0x400;
      assert v == 0x400 * (v / 0x400) + v % 0x400;
      assert w == 0x400 * (w / 0x400) + w % 0x400;
    }
  }

  /** The UTF-16 encoding of a string: what a Java String holds. */
  function Utf16(s: string): (u: seq<int>)
    ensures |u| >= |s|
    ensures u == [] <==> s == []
  {
    if s == [] then [] else Units(s[0]) + Utf16(s[1..])
  }

  /** Different strings have different encodings, so no two keys collide. */
  lemma {:induction false} Utf16Injective(a: string, b: string)
    requires Utf16(a) == Utf16(b)
    ensures a == b
  {
    if a != [] {
      var ua, ub := Units(a[0]), Units(b[0]);
      var u := Utf16(a);
      assert u == ua + Utf16(a[1..]) && u == ub + Utf16(b[1..]);
      assert u[0] == ua[0] && u[0] == ub[0];
      assert |ua| == |ub|;
      assert ua == u[..|ua|] && ub == u[..|ub|];
      UnitsInjective(a[0], b[0]);
      assert Utf16(a[1..]) == u[|ua|..] == Utf16(b[1..]);
      Utf16Injective(a[1..], b[1..]);
      assert a == [a[0]] + a[1..] && b == [b[0]] + b[1..];
    }
  }

  /** Lexicographic order of code-unit sequences, a proper prefix first. */
  predicate UnitsLess(a: seq<int>, b: seq<int>) {
    if a == [] then b != []
    else if b == [] then false
    else if a[0] != b[0] then a[0] < b[0]
    else UnitsLess(a[1..], b[1..])
  }

  /** `a.compareTo(b) < 0`: the UTF-16 units of `a` come first. */
  predicate Less(a: string, b: string) {
    UnitsLess(Utf16(a), Utf16(b))
  }

  /** No unit sequence comes before itself. */
  lemma {:induction false} UnitsLessIrreflexive(a: seq<int>)
    ensures !UnitsLess(a, a)
  {
    if a != [] {
      UnitsLessIrreflexive(a[1..]);
    }
  }

  /** The order of unit sequences is transitive. */
  lemma {:induction false} UnitsLessTransitive(a: seq<int>, b: seq<int>, c: seq<int>)
    requires UnitsLess(a, b) && UnitsLess(b, c)
    ensures UnitsLess(a, c)
  {
    if a != [] && b != [] && c != [] && a[0] == b[0] && b[0] == c[0] {
      UnitsLessTransitive(a[1..], b[1..], c[1..]);
    }
  }

  /** Two different unit sequences are ordered one way or the other. */
  lemma {:induction false} UnitsLessTotal(a: seq<int>, b: seq<int>)
    requires a != b
    ensures UnitsLess(a, b) || UnitsLess(b, a)
  {
    if a != [] && b != [] && a[0] == b[0] {
      assert a == [a[0]] + a[1..] && b == [b[0]] + b[1..];
      UnitsLessTotal(a[1..], b[1..]);
    }
  }

  /** No string comes before itself. */
  lemma LessIrreflexive(a: string)
    ensures !Less(a, a)
  {
    UnitsLessIrreflexive(Utf16(a));
  }

  /** The order is transitive. */
  lemma LessTransitive(a: string, b: string, c: string)
    requires Less(a, b) && Less(b, c)
    ensures Less(a, c)
  {
    UnitsLessTransitive(Utf16(a), Utf16(b), Utf16(c));
  }

  /** Two different strings are ordered one way or the other. */
  lemma LessTotal(a: string, b: string)
    requires a != b
    ensures Less(a, b) || Less(b, a)
  {
    if Utf16(a) == Utf16(b) {
      Utf16Injective(a, b);
    }
    UnitsLessTotal(Utf16(a), Utf16(b));
  }

  /**
   * A character outside the Basic Multilingual Plane sorts by its high surrogate: U+1D465
   * (units D835 DC65) comes before U+FF58, although its code point is larger.
   */
  lemma SupplementaryBeforeUpperBmp()
    ensures Less("\U{1D465}", "\U{FF58}") && !Less("\U{FF58}", "\U{1D465}")
  {
    assert Utf16("\U{1D465}") == [0xD835, 0xDC65];
    assert Utf16("\U{FF58}") == [0xFF58];
  }

  /** Strictly ascending: the order of a TreeMap's keys. */
  predicate Ascending(keys: seq<string>) {
    forall i, j :: 0 <= i < j < |keys| ==> Less(keys[i], keys[j])
  }

  /** An ascending list has no key twice. */
  lemma AscendingDistinct(keys: seq<string>, i: int, j: int)
    requires Ascending(keys) && 0 <= i < j < |keys|
    ensures keys[i] != keys[j]
  {
    LessIrreflexive(keys[i]);
  }

  /**
   * TreeMap.put of a new key on the key list: the key goes in front of the first larger key,
   * so the list stays ascending and gains exactly that key.
   */
  function Insert(keys: seq<string>, k: string): (r: seq<string>)
    requires Ascending(keys) && k !in keys
    ensures |r| == |keys| + 1 && Ascending(r)
    ensures forall x :: x in r <==> x in keys || x == k
  {
    if keys == [] then [k]
    else if Less(k, keys[0]) then
      assert forall j :: 0 < j < |keys| ==> Less(keys[0], keys[j]);
      forall j | 0 <= j < |keys|
        ensures Less(k, keys[j])
      {
        if j > 0 {
          LessTransitive(k, keys[0], keys[j]);
        }
      }
      AscendingCons(k, keys);
      [k] + keys
    else
      var rest := Insert(keys[1..], k);
      LessTotal(k, keys[0]);
      assert forall x :: x in keys <==> x == keys[0] || x in keys[1..];
      assert forall j :: 0 <= j < |rest| ==> Less(keys[0], rest[j]) by {
        forall j | 0 <= j < |rest|
          ensures Less(keys[0], rest[j])
        {
          if rest[j] != k {
            assert rest[j] in rest;
            assert rest[j] in keys[1..];
            var t :| 0 <= t < |keys[1..]| && keys[1..][t] == rest[j];
            assert keys[t + 1] == rest[j];
          }
        }
      }
      AscendingCons(keys[0], rest);
      [keys[0]] + rest
  }

  /** A key below every key of an ascending list can go in front of it. */
  lemma AscendingCons(x: string, s: seq<string>)
    requires Ascending(s) && forall j :: 0 <= j < |s| ==> Less(x, s[j])
    ensures Ascending([x] + s)
  {
    var r := [x] + s;
    forall i, j | 0 <= i < j < |r|
      ensures Less(r[i], r[j])
    {
      assert r[j] == s[j - 1];
      if i > 0 {
        assert r[i] == s[i - 1];
      }
    }
  }
}
