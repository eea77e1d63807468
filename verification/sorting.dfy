/**
  The two orderings the aggregator needs: `DataFrame.sort_values` on an integer
  key, and `sorted(set(xs))` on strings.
 */
module Sorting {
  import opened Strings

  /** Keys never decrease along `s`. No order among equal keys is implied. */
  ghost predicate SortedBy<T>(s: seq<T>, key: T -> int) {
    forall i, j :: 0 <= i < j < |s| ==> key(s[i]) <= key(s[j])
  }

  function Insert<T(==)>(x: T, s: seq<T>, key: T -> int): (r: seq<T>)
    requires SortedBy(s, key)
    ensures SortedBy(r, key)
    ensures multiset(r) == multiset(s) + multiset{x}
  {
    if |s| == 0 then [x]
    else if key(x) <= key(s[0]) then [x] + s
    else
      assert s == [s[0]] + s[1..];
      var t := Insert(x, s[1..], key);
      assert forall j :: 0 <= j < |t| ==> key(s[0]) <= key(t[j]) by {
        forall j | 0 <= j < |t| ensures key(s[0]) <= key(t[j]) {
          assert t[j] in multiset(t);
          if t[j] != x {
            assert t[j] in multiset(s[1..]);
            var k :| 0 <= k < |s[1..]| && s[1..][k] == t[j];
            assert s[k + 1] == t[j];
          }
        }
      }
      SortedCons(s[0], t, key);
      [s[0]] + t
  }

  /** Putting a key no larger than any other in front keeps a sequence sorted. */
  lemma SortedCons<T>(x: T, s: seq<T>, key: T -> int)
    requires SortedBy(s, key)
    requires forall j :: 0 <= j < |s| ==> key(x) <= key(s[j])
    ensures SortedBy([x] + s, key)
  {
    forall i, j | 0 <= i < j < |[x] + s| ensures key(([x] + s)[i]) <= key(([x] + s)[j]) {
      assert ([x] + s)[j] == s[j - 1];
      if i > 0 {
        assert ([x] + s)[i] == s[i - 1];
      }
    }
  }

  /**
    A sort by `key`: the result is a permutation of `s` whose keys never decrease.
    The model sorts stably, but nothing in the model depends on how ties are broken.
   */
  function SortBy<T(==)>(s: seq<T>, key: T -> int): (r: seq<T>)
    ensures SortedBy(r, key)
    ensures multiset(r) == multiset(s)
  {
    if |s| == 0 then []
    else
      assert s == [s[0]] + s[1..];
      Insert(s[0], SortBy(s[1..], key), key)
  }

  /** A sequence without repetitions holds each value at most once. */
  lemma {:induction false} DistinctCount<T>(s: seq<T>, x: T)
    requires forall j, k :: 0 <= j < k < |s| ==> s[j] != s[k]
    ensures multiset(s)[x] <= 1
  {
    if |s| > 0 {
      assert s == [s[0]] + s[1..];
      DistinctCount(s[1..], x);
      if s[0] == x {
        assert x !in s[1..];
      }
    }
  }

  /** A value at two positions is held at least twice. */
  lemma RepeatCount<T>(s: seq<T>, j: int, k: int)
    requires 0 <= j < k < |s| && s[j] == s[k]
    ensures multiset(s)[s[j]] >= 2
  {
    assert s == s[..k] + s[k..];
    assert s[j] in s[..k];
    assert s[k] in s[k..];
  }

  /** Reordering keeps keys pairwise distinct. */
  lemma PermutationKeepsKeysDistinct<T, K>(a: seq<T>, b: seq<T>, key: T -> K)
    requires multiset(a) == multiset(b)
    requires forall j, k :: 0 <= j < k < |a| ==> key(a[j]) != key(a[k])
    ensures forall j, k :: 0 <= j < k < |b| ==> key(b[j]) != key(b[k])
  {
    forall j, k | 0 <= j < k < |b| ensures key(b[j]) != key(b[k]) {
      assert b[j] in multiset(a) && b[k] in multiset(a);
      var ja :| 0 <= ja < |a| && a[ja] == b[j];
      var ka :| 0 <= ka < |a| && a[ka] == b[k];
      if key(b[j]) == key(b[k]) {
        assert ja == ka;
        RepeatCount(b, j, k);
        DistinctCount(a, b[j]);
        assert false;
      }
    }
  }

  /** Strings strictly increasing in Python's order: sorted and free of duplicates. */
  ghost predicate StrictlyIncreasing(s: seq<string>) {
    forall i, j :: 0 <= i < j < |s| ==> LexLess(s[i], s[j])
  }

  /** Strictly increasing strings are pairwise distinct. */
  lemma StrictlyIncreasingDistinct(s: seq<string>)
    requires StrictlyIncreasing(s)
    ensures forall j, k :: 0 <= j < k < |s| ==> s[j] != s[k]
  {
    forall j, k | 0 <= j < k < |s| ensures s[j] != s[k] {
      LexLessIrreflexive(s[j]);
    }
  }

  function Elems(s: seq<string>): set<string> {
    set i | 0 <= i < |s| :: s[i]
  }

  /** Adds `x` to a strictly increasing sequence, keeping it strictly increasing. */
  function InsertUnique(x: string, s: seq<string>): (r: seq<string>)
    requires StrictlyIncreasing(s)
    ensures StrictlyIncreasing(r)
    ensures Elems(r) == Elems(s) + {x}
  {
    if |s| == 0 then
      ElemsSingleton(x);
      [x]
    else if x == s[0] then
      HeadInElems(s);
      s
    else if LexLess(x, s[0]) then
      assert StrictlyIncreasing([x] + s) by {
        forall j | 0 < j < |s| {
          LexLessTransitive(x, s[0], s[j]);
        }
      }
      ElemsConcat([x], s);
      ElemsSingleton(x);
      [x] + s
    else
      LexLessTotal(x, s[0]);
      var t := InsertUnique(x, s[1..]);
      assert s == [s[0]] + s[1..];
      ElemsConcat([s[0]], s[1..]);
      ElemsSingleton(s[0]);
      assert forall j :: 0 <= j < |t| ==> LexLess(s[0], t[j]) by {
        forall j | 0 <= j < |t| ensures LexLess(s[0], t[j]) {
          assert t[j] in Elems(t);
        }
      }
      ElemsConcat([s[0]], t);
      [s[0]] + t
  }

  lemma ElemsConcat(a: seq<string>, b: seq<string>)
    ensures Elems(a + b) == Elems(a) + Elems(b)
  {
    forall x ensures x in Elems(a + b) <==> x in Elems(a) || x in Elems(b) {
      if x in Elems(a + b) {
        var k :| 0 <= k < |a + b| && (a + b)[k] == x;
        if k < |a| {
          assert a[k] == x;
        } else {
          assert b[k - |a|] == x;
        }
      }
      if x in Elems(a) {
        var k :| 0 <= k < |a| && a[k] == x;
        assert (a + b)[k] == x;
      }
      if x in Elems(b) {
        var k :| 0 <= k < |b| && b[k] == x;
        assert (a + b)[|a| + k] == x;
      }
    }
  }

  /** A sequence without repetitions has as many distinct elements as entries. */
  lemma {:induction false} DistinctCard(s: seq<string>)
    requires forall j, k :: 0 <= j < k < |s| ==> s[j] != s[k]
    ensures |Elems(s)| == |s|
  {
    if |s| > 0 {
      assert s == [s[0]] + s[1..];
      ElemsConcat([s[0]], s[1..]);
      ElemsSingleton(s[0]);
      assert s[0] !in Elems(s[1..]);
      DistinctCard(s[1..]);
    }
  }

  lemma ElemsSingleton(x: string)
    ensures Elems([x]) == {x}
  {
    HeadInElems([x]);
  }

  lemma HeadInElems(s: seq<string>)
    ensures |s| > 0 ==> s[0] in Elems(s)
  {
  }

  /** `sorted(set(xs))`: the distinct strings of `xs` in increasing order. */
  function SortedSet(xs: seq<string>): (r: seq<string>)
    ensures StrictlyIncreasing(r)
    ensures Elems(r) == Elems(xs)
  {
    if |xs| == 0 then []
    else
      assert Elems(xs) == Elems(xs[..|xs| - 1]) + {xs[|xs| - 1]};
      InsertUnique(xs[|xs| - 1], SortedSet(xs[..|xs| - 1]))
  }

  /**
    A finite set has exactly one strictly increasing enumeration, so `SortedSet`
    is `sorted(set(xs))` whatever order or repetition `xs` has.
   */
  lemma {:induction false} StrictlyIncreasingUnique(a: seq<string>, b: seq<string>)
    requires StrictlyIncreasing(a) && StrictlyIncreasing(b)
    requires Elems(a) == Elems(b)
    ensures a == b
    decreases |a|
  {
    if |a| == 0 {
      HeadInElems(b);
    } else {
      assert a[0] in Elems(b);
      assert |b| > 0;
      assert b[0] in Elems(a);
      if a[0] != b[0] {
        var i :| 0 <= i < |b| && b[i] == a[0];
        var j :| 0 <= j < |a| && a[j] == b[0];
        LexLessAsymmetric(a[0], a[j]);
      }
      TailElems(a);
      TailElems(b);
      StrictlyIncreasingUnique(a[1..], b[1..]);
      assert a == [a[0]] + a[1..] && b == [b[0]] + b[1..];
    }
  }

  lemma TailElems(a: seq<string>)
    requires StrictlyIncreasing(a) && |a| > 0
    ensures Elems(a[1..]) == Elems(a) - {a[0]}
  {
    LexLessIrreflexive(a[0]);
    assert forall j :: 0 < j < |a| ==> a[j] != a[0];
    assert Elems(a) == {a[0]} + Elems(a[1..]);
  }
}
