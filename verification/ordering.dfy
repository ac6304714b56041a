/**
 * The order in which the directory keeps names. A Rust `String` compares
 * byte-wise on its UTF-8 encoding, and UTF-8 preserves code-point order, so
 * the order is the lexicographic order on sequences of characters.
 */
module Ordering {

  /** `a <= b` in lexicographic order: `a` is a prefix of `b`, or at the first
      position where they differ `a` has the smaller character. */
  predicate LessEq(a: string, b: string)
    decreases |a|
  {
    if a == [] then true
    else if b == [] then false
    else if a[0] != b[0] then a[0] < b[0]
    else LessEq(a[1..], b[1..])
  }

  /** The first position at which `a` and `b` differ holds a smaller character in `a`. */
  ghost predicate DiffersBelow(a: string, b: string, k: nat) {
    k < |a| && k < |b| && a[..k] == b[..k] && a[k] < b[k]
  }

  /** `LessEq` is the usual lexicographic order: a prefix, or smaller at the first difference. */
  lemma {:induction false} LessEqMeaning(a: string, b: string)
    ensures LessEq(a, b) <==>
              (|a| <= |b| && a == b[..|a|]) || exists k: nat :: DiffersBelow(a, b, k)
    decreases |a|
  {
    if a != [] && b != [] {
      if a[0] != b[0] {
        if a[0] < b[0] {
          assert DiffersBelow(a, b, 0);
        }
      } else {
        LessEqMeaning(a[1..], b[1..]);
        if exists k: nat :: DiffersBelow(a[1..], b[1..], k) {
          var k: nat :| DiffersBelow(a[1..], b[1..], k);
          assert a[..k + 1] == [a[0]] + a[1..][..k];
          assert b[..k + 1] == [b[0]] + b[1..][..k];
          assert DiffersBelow(a, b, k + 1);
        }
        if exists k: nat :: DiffersBelow(a, b, k) {
          var k: nat :| DiffersBelow(a, b, k);
          assert k > 0;
          assert a[1..][..k - 1] == a[..k][1..];
          assert b[1..][..k - 1] == b[..k][1..];
          assert DiffersBelow(a[1..], b[1..], k - 1);
        }
        if |a| <= |b| && a == b[..|a|] {
          assert b[1..][..|a| - 1] == b[..|a|][1..];
          assert a[1..] == b[1..][..|a| - 1];
        }
        if |a[1..]| <= |b[1..]| && a[1..] == b[1..][..|a| - 1] {
          assert a == [a[0]] + a[1..];
          assert b[..|a|] == [b[0]] + b[1..][..|a| - 1];
        }
      }
    }
  }

  lemma {:induction false} LessEqReflexive(a: string)
    ensures LessEq(a, a)
    decreases |a|
  {
    if a != [] {
      LessEqReflexive(a[1..]);
    }
  }

  lemma {:induction false} LessEqTotal(a: string, b: string)
    ensures LessEq(a, b) || LessEq(b, a)
    decreases |a|
  {
    if a != [] && b != [] && a[0] == b[0] {
      LessEqTotal(a[1..], b[1..]);
    }
  }

  lemma {:induction false} LessEqAntisymmetric(a: string, b: string)
    requires LessEq(a, b) && LessEq(b, a)
    ensures a == b
    decreases |a|
  {
    if a != [] && b != [] {
      LessEqAntisymmetric(a[1..], b[1..]);
      assert a == [a[0]] + a[1..] && b == [b[0]] + b[1..];
    }
  }

  lemma {:induction false} LessEqTransitive(a: string, b: string, c: string)
    requires LessEq(a, b) && LessEq(b, c)
    ensures LessEq(a, c)
    decreases |a|
  {
    if a != [] && b != [] && c != [] && a[0] == b[0] && b[0] == c[0] {
      LessEqTransitive(a[1..], b[1..], c[1..]);
    }
  }

  /** Ascending order of the whole sequence; equal names may repeat. */
  ghost predicate Sorted(s: seq<string>) {
    forall i, j :: 0 <= i < j < |s| ==> LessEq(s[i], s[j])
  }

  /** `x` is at or below every element of `s`. */
  ghost predicate Below(x: string, s: seq<string>) {
    forall j :: 0 <= j < |s| ==> LessEq(x, s[j])
  }

  lemma BelowByMultiset(x: string, s: seq<string>, t: seq<string>)
    requires Below(x, s) && multiset(t) <= multiset(s)
    ensures Below(x, t)
  {
    forall j | 0 <= j < |t| ensures LessEq(x, t[j]) {
      assert t[j] in multiset(t);
      assert t[j] in multiset(s);
      var k :| 0 <= k < |s| && s[k] == t[j];
    }
  }

  /** Places `x` in front of the first element it is at or below. */
  function Insert(x: string, s: seq<string>): (r: seq<string>)
    requires Sorted(s)
    ensures Sorted(r)
    ensures multiset(r) == multiset(s) + multiset{x}
  {
    if s == [] then [x]
    else if LessEq(x, s[0]) then
      assert Below(x, s) by {
        forall j | 0 <= j < |s| ensures LessEq(x, s[j]) {
          if j > 0 { LessEqTransitive(x, s[0], s[j]); }
        }
      }
      [x] + s
    else
      var rest := Insert(x, s[1..]);
      assert multiset(s) == multiset{s[0]} + multiset(s[1..]) by {
        assert s == [s[0]] + s[1..];
      }
      assert Below(s[0], rest) by {
        LessEqTotal(x, s[0]);
        assert Below(s[0], s[1..] + [x]);
        BelowByMultiset(s[0], s[1..] + [x], rest);
      }
      [s[0]] + rest
  }

  /**
   * The result of the standard library's `sort_unstable`: a sorted
   * rearrangement of its input. SortedUnique shows that there is only one,
   * so which algorithm produces it does not matter.
   */
  function Sort(s: seq<string>): (r: seq<string>)
    ensures Sorted(r)
    ensures multiset(r) == multiset(s)
  {
    if s == [] then []
    else
      assert s == [s[0]] + s[1..];
      Insert(s[0], Sort(s[1..]))
  }

  /** A sorted sequence is determined by its multiset of elements. */
  lemma {:induction false} SortedUnique(a: seq<string>, b: seq<string>)
    requires Sorted(a) && Sorted(b)
    requires multiset(a) == multiset(b)
    ensures a == b
    decreases |a|
  {
    if a == [] {
      assert |multiset(b)| == 0;
    } else {
      assert b != [] by {
        assert a[0] in multiset(a);
      }
      HeadIsLeast(a, b);
      HeadIsLeast(b, a);
      LessEqAntisymmetric(a[0], b[0]);
      MultisetTail(a, b);
      SortedTail(a);
      SortedTail(b);
      SortedUnique(a[1..], b[1..]);
    }
  }

  lemma MultisetTail(a: seq<string>, b: seq<string>)
    requires a != [] && b != [] && a[0] == b[0]
    requires multiset(a) == multiset(b)
    ensures multiset(a[1..]) == multiset(b[1..])
  {
    assert a == [a[0]] + a[1..] && b == [b[0]] + b[1..];
    calc {
      multiset(a[1..]);
      multiset(a) - multiset{a[0]};
      multiset(b) - multiset{b[0]};
      multiset(b[1..]);
    }
  }

  lemma SortedTail(a: seq<string>)
    requires Sorted(a) && a != []
    ensures Sorted(a[1..])
  {
  }

  /** The head of a sorted sequence is at or below everything with the same elements. */
  lemma HeadIsLeast(a: seq<string>, b: seq<string>)
    requires Sorted(a) && a != [] && b != []
    requires multiset(a) == multiset(b)
    ensures LessEq(a[0], b[0])
  {
    assert b[0] in multiset(a);
    var i :| 0 <= i < |a| && a[i] == b[0];
    if i == 0 {
      LessEqReflexive(a[0]);
    }
  }
}
