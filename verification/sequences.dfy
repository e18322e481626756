/**
 * The java.util.List and java.util.Collections operations the modelled code relies on:
 * indexOf, remove(Object), add(index, element), reverse, and the "first minimum" that a
 * left-to-right scan with a strict comparison selects.
 */
module Sequences {

  /** List.indexOf: the position of the first element equal to `x`, or -1. */
  function IndexOf<T(==)>(s: seq<T>, x: T): (i: int)
    ensures -1 <= i < |s|
    ensures i == -1 <==> x !in s
    ensures 0 <= i ==> s[i] == x && x !in s[..i]
  {
    if s == [] then -1
    else if s[0] == x then 0
    else
      var j := IndexOf(s[1..], x);
      assert j >= 0 ==> s[..j + 1] == [s[0]] + s[1..][..j];
      if j == -1 then -1 else j + 1
  }

  /** String.lastIndexOf: the position of the last element equal to `x`, or -1. */
  function LastIndexOf<T(==)>(s: seq<T>, x: T): (i: int)
    ensures -1 <= i < |s|
    ensures i == -1 <==> x !in s
    ensures 0 <= i ==> s[i] == x && x !in s[i + 1..]
  {
    if s == [] then -1
    else if s[|s| - 1] == x then |s| - 1
    else
      var j := LastIndexOf(s[..|s| - 1], x);
      assert s == s[..|s| - 1] + [s[|s| - 1]];
      assert j >= 0 ==> s[j + 1..] == s[..|s| - 1][j + 1..] + [s[|s| - 1]];
      j
  }

  /** An occurrence with none after it is the one LastIndexOf finds. */
  lemma {:induction false} LastIndexOfAt<T>(s: seq<T>, j: nat, x: T)
    requires j < |s| && s[j] == x && x !in s[j + 1..]
    ensures LastIndexOf(s, x) == j
    decreases |s|
  {
    if j < |s| - 1 {
      assert s[|s| - 1] in s[j + 1..];
      assert s[..|s| - 1][j + 1..] == s[j + 1..|s| - 1];
      LastIndexOfAt(s[..|s| - 1], j, x);
    }
  }

  /** The sequence without its element at position `k`. */
  function RemoveAt<T>(s: seq<T>, k: nat): (r: seq<T>)
    requires k < |s|
    ensures |r| == |s| - 1
    ensures multiset(r) == multiset(s) - multiset{s[k]}
  {
    assert s == s[..k] + [s[k]] + s[k + 1..];
    s[..k] + s[k + 1..]
  }

  /** List.remove(Object): drops the first element equal to `x`, if there is one. */
  function RemoveFirst<T(==)>(s: seq<T>, x: T): (r: seq<T>)
    ensures x !in s ==> r == s
    ensures x in s ==> |r| == |s| - 1 && multiset(r) == multiset(s) - multiset{x}
    ensures forall y :: y in r ==> y in s
  {
    var i := IndexOf(s, x);
    if i == -1 then s else RemoveAt(s, i)
  }

  /** List.add(index, element): `x` ends at position `k`, the rest keep their order. */
  function InsertAt<T>(s: seq<T>, k: nat, x: T): (r: seq<T>)
    requires k <= |s|
    ensures |r| == |s| + 1 && r[k] == x
    ensures multiset(r) == multiset(s) + multiset{x}
  {
    assert s == s[..k] + s[k..];
    s[..k] + [x] + s[k..]
  }

  /** Collections.reverse. */
  function Reverse<T>(s: seq<T>): (r: seq<T>)
    ensures |r| == |s|
    ensures forall k :: 0 <= k < |s| ==> r[k] == s[|s| - 1 - k]
    ensures multiset(r) == multiset(s)
  {
    if s == [] then []
    else
      assert s == s[..|s| - 1] + [s[|s| - 1]];
      [s[|s| - 1]] + Reverse(s[..|s| - 1])
  }

  /**
   * The position a left-to-right scan selects when it replaces its candidate only on a
   * strictly smaller weight: the first position holding the minimum.
   */
  function FirstMinIndex(w: seq<int>): (k: nat)
    requires |w| > 0
    ensures k < |w|
    ensures forall j :: 0 <= j < |w| ==> w[k] <= w[j]
    ensures forall j :: 0 <= j < k ==> w[k] < w[j]
  {
    if |w| == 1 then 0
    else
      var k := FirstMinIndex(w[..|w| - 1]);
      if w[|w| - 1] < w[k] then |w| - 1 else k
  }

  /** Reversing twice gives the original sequence back. */
  lemma {:induction false} ReverseReverse<T>(s: seq<T>)
    ensures Reverse(Reverse(s)) == s
  {
    var r := Reverse(Reverse(s));
    assert |r| == |s|;
    forall k | 0 <= k < |s| ensures r[k] == s[k] {
      assert r[k] == Reverse(s)[|s| - 1 - k];
    }
  }

  /** Concatenation is associative (stated once so that callers need not re-prove it). */
  lemma AppendAssoc<T>(a: seq<T>, b: seq<T>, c: seq<T>)
    ensures (a + b) + c == a + (b + c)
  {
  }

  /** A non-empty sequence is its prefix followed by its last element. */
  lemma InitLast<T>(s: seq<T>)
    requires s != []
    ensures s == s[..|s| - 1] + [s[|s| - 1]]
  {
  }

  /** Removing the first element by value removes the head. */
  lemma RemoveFirstHead<T>(s: seq<T>)
    requires s != []
    ensures RemoveFirst(s, s[0]) == s[1..]
    ensures [s[0]] + s[1..] == s
  {
    assert IndexOf(s, s[0]) == 0;
    RemoveAtSlices(s, 0);
  }

  /** Removing what was inserted gives the sequence back. */
  lemma RemoveInserted<T>(s: seq<T>, k: nat, x: T)
    requires k <= |s|
    ensures RemoveAt(InsertAt(s, k, x), k) == s
  {
    var r := InsertAt(s, k, x);
    assert r[..k] == s[..k];
    assert r[k + 1..] == s[k..];
    assert s == s[..k] + s[k..];
  }

  /** A position holding `x` with no `x` before it is what IndexOf finds. */
  lemma IndexOfAt<T>(s: seq<T>, j: nat, x: T)
    requires j < |s| && s[j] == x && x !in s[..j]
    ensures IndexOf(s, x) == j
  {
  }

  /** The slices on either side of an inserted element are those of the original. */
  lemma InsertAtSlices<T>(s: seq<T>, k: nat, x: T)
    requires k <= |s|
    ensures InsertAt(s, k, x)[..k] == s[..k]
    ensures InsertAt(s, k, x)[k + 1..] == s[k..]
  {
  }

  /** The slices on either side of a removed element are those of the original. */
  lemma RemoveAtSlices<T>(s: seq<T>, k: nat)
    requires k < |s|
    ensures RemoveAt(s, k)[..k] == s[..k]
    ensures RemoveAt(s, k)[k..] == s[k + 1..]
  {
  }

  /** Putting a removed element back where it was restores the sequence. */
  lemma InsertRemoved<T>(s: seq<T>, k: nat)
    requires k < |s|
    ensures InsertAt(RemoveAt(s, k), k, s[k]) == s
  {
    RemoveAtSlices(s, k);
    assert s == s[..k] + [s[k]] + s[k + 1..];
  }

  /**
   * After moving the first occurrence of an element one place towards the front, that is
   * where IndexOf finds it.
   */
  lemma MovedFrontFound<T>(s: seq<T>, i: nat)
    requires 1 <= i < |s| && IndexOf(s, s[i]) == i
    ensures IndexOf(InsertAt(RemoveAt(s, i), i - 1, s[i]), s[i]) == i - 1
  {
    var rest := RemoveAt(s, i);
    var up := InsertAt(rest, i - 1, s[i]);
    RemoveAtSlices(s, i);
    InsertAtSlices(rest, i - 1, s[i]);
    assert up[..i - 1] == s[..i][..i - 1];
    IndexOfAt(up, i - 1, s[i]);
  }

  /**
   * Moving the first occurrence of an element one place towards the front and then one place
   * back restores the sequence.
   */
  lemma MoveFrontThenBack<T>(s: seq<T>, i: nat)
    requires 1 <= i < |s| && IndexOf(s, s[i]) == i
    ensures IndexOf(InsertAt(RemoveFirst(s, s[i]), i - 1, s[i]), s[i]) == i - 1
    ensures InsertAt(RemoveFirst(InsertAt(RemoveFirst(s, s[i]), i - 1, s[i]), s[i]), i, s[i]) == s
  {
    MovedFrontFound(s, i);
    RemoveInserted(RemoveAt(s, i), i - 1, s[i]);
    InsertRemoved(s, i);
  }

  /** Replacing position `k` changes only that position. */
  lemma ReplaceAtSlices<T>(s: seq<T>, k: nat, x: T)
    requires k < |s|
    ensures s[k := x][..k + 1] == s[..k] + [x]
    ensures s[k := x][k + 1..] == s[k + 1..]
  {
  }

  /** Two sequences with equal suffixes from `i` and `k` agree on the next element and beyond. */
  lemma SuffixHead<T>(s: seq<T>, t: seq<T>, i: nat, k: nat)
    requires i < |s| && k <= |t| && s[i..] == t[k..]
    ensures k < |t| && s[i] == t[k] && s[i + 1..] == t[k + 1..]
  {
    assert s[i..][0] == s[i];
    assert s[i + 1..] == s[i..][1..];
    assert t[k + 1..] == t[k..][1..];
  }

  /** Putting a removed element back in front restores the multiset. */
  lemma PrependRestores<T>(s: seq<T>, x: T, t: seq<T>)
    requires x in s && multiset(t) == multiset(s) - multiset{x}
    ensures multiset([x] + t) == multiset(s)
  {
  }
}
