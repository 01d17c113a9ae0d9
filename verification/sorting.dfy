/**
 Sorting by a string key in Go's string order. `SortBy` is one stable
 choice, an insertion sort, while Go's `sort.Sort` is not stable. Once no
 two different elements share a key, every sorted permutation of the same
 elements is the same sequence (`SortedUnique`), so the choice does not
 show. The signer sorts twice with this: `x-amz-*` pairs by key alone and
 query strings by the whole string.
 */
module Sorting {
  import opened Strings

  /** Every element's key is at most the key of every later element. */
  predicate SortedBy<T>(s: seq<T>, key: T -> string) {
    forall i, j :: 0 <= i < j < |s| ==> LessEq(key(s[i]), key(s[j]))
  }

  /** Keys strictly increase along `s`. */
  predicate StrictlySortedBy<T>(s: seq<T>, key: T -> string) {
    forall i, j :: 0 <= i < j < |s| ==> Less(key(s[i]), key(s[j]))
  }

  /** No two positions of `s` carry the same key. */
  predicate DistinctKeys<T>(s: seq<T>, key: T -> string) {
    forall i, j :: 0 <= i < |s| && 0 <= j < |s| && i != j ==> key(s[i]) != key(s[j])
  }

  /** The identity key: sorting by it compares whole strings. */
  function Self(s: string): string {
    s
  }

  /** Puts `x` in front of the first element whose key is not smaller. */
  function Insert<T>(x: T, s: seq<T>, key: T -> string): seq<T>
    decreases |s|
  {
    if |s| == 0 then [x]
    else if LessEq(key(x), key(s[0])) then [x] + s
    else [s[0]] + Insert(x, s[1..], key)
  }

  /** Inserting adds `x` and nothing else. */
  lemma {:induction false} InsertPermutes<T>(x: T, s: seq<T>, key: T -> string)
    ensures multiset(Insert(x, s, key)) == multiset(s) + multiset{x}
    decreases |s|
  {
    if |s| > 0 && !LessEq(key(x), key(s[0])) {
      InsertPermutes(x, s[1..], key);
      assert s == [s[0]] + s[1..];
    }
  }

  /** Inserting into a sorted sequence keeps it sorted. */
  lemma {:induction false} InsertKeepsSorted<T>(x: T, s: seq<T>, key: T -> string)
    requires SortedBy(s, key)
    ensures SortedBy(Insert(x, s, key), key)
    decreases |s|
  {
    if |s| > 0 {
      if LessEq(key(x), key(s[0])) {
        InsertFrontSorted(x, s, key);
      } else {
        SortedTail(s, key);
        InsertKeepsSorted(x, s[1..], key);
        InsertPermutes(x, s[1..], key);
        InsertBehindSorted(x, s, Insert(x, s[1..], key), key);
      }
    }
  }

  lemma InsertFrontSorted<T>(x: T, s: seq<T>, key: T -> string)
    requires SortedBy(s, key) && |s| > 0 && LessEq(key(x), key(s[0]))
    ensures SortedBy([x] + s, key)
  {
    forall j | 0 <= j < |s|
      ensures LessEq(key(x), key(s[j]))
    {
      if j > 0 {
        LessEqTransitive(key(x), key(s[0]), key(s[j]));
      }
    }
  }

  lemma InsertBehindSorted<T>(x: T, s: seq<T>, rest: seq<T>, key: T -> string)
    requires SortedBy(s, key) && |s| > 0 && !LessEq(key(x), key(s[0]))
    requires SortedBy(rest, key) && multiset(rest) == multiset(s[1..]) + multiset{x}
    ensures SortedBy([s[0]] + rest, key)
  {
    LessTotal(key(x), key(s[0]));
    forall j | 0 <= j < |rest|
      ensures LessEq(key(s[0]), key(rest[j]))
    {
      assert rest[j] in multiset(rest);
      if rest[j] != x {
        assert rest[j] in s[1..];
        var k :| 0 <= k < |s[1..]| && s[1..][k] == rest[j];
        assert s[k + 1] == rest[j];
      } else {
        LessAsymmetric(key(s[0]), key(x));
      }
    }
  }

  /** Insertion sort by key. */
  function SortBy<T>(s: seq<T>, key: T -> string): seq<T>
    decreases |s|
  {
    if |s| == 0 then [] else Insert(s[0], SortBy(s[1..], key), key)
  }

  /** Sorting rearranges: every element is kept, as often as it occurs. */
  lemma {:induction false} SortByPermutes<T>(s: seq<T>, key: T -> string)
    ensures multiset(SortBy(s, key)) == multiset(s)
    decreases |s|
  {
    if |s| > 0 {
      SortByPermutes(s[1..], key);
      InsertPermutes(s[0], SortBy(s[1..], key), key);
      assert s == [s[0]] + s[1..];
    }
  }

  /** Sorting puts the keys in ascending order. */
  lemma {:induction false} SortBySorted<T>(s: seq<T>, key: T -> string)
    ensures SortedBy(SortBy(s, key), key)
    decreases |s|
  {
    if |s| > 0 {
      SortBySorted(s[1..], key);
      InsertKeepsSorted(s[0], SortBy(s[1..], key), key);
    }
  }

  /** Sorting keeps the length. */
  lemma SortByLength<T>(s: seq<T>, key: T -> string)
    ensures |SortBy(s, key)| == |s|
  {
    SortByPermutes(s, key);
    assert |SortBy(s, key)| == |multiset(SortBy(s, key))|;
  }

  /** Sorting keeps exactly the elements of `s`. */
  lemma SortByMembers<T>(s: seq<T>, key: T -> string, x: T)
    ensures x in SortBy(s, key) <==> x in s
  {
    SortByPermutes(s, key);
    assert x in SortBy(s, key) <==> x in multiset(SortBy(s, key));
    assert x in s <==> x in multiset(s);
  }

  /** Sorting two rearrangements of the same elements gives the same
      sequence when no two different elements share a key, so which sorted
      arrangement a sort algorithm picks does not matter. */
  lemma SortByCanonical<T>(a: seq<T>, b: seq<T>, key: T -> string)
    requires multiset(a) == multiset(b)
    requires KeyInjective(a, key)
    ensures SortBy(a, key) == SortBy(b, key)
  {
    SortByPermutes(a, key);
    SortByPermutes(b, key);
    SortBySorted(a, key);
    SortBySorted(b, key);
    forall x, y | x in SortBy(a, key) && y in SortBy(a, key) && key(x) == key(y)
      ensures x == y
    {
      SortByMembers(a, key, x);
      SortByMembers(a, key, y);
    }
    SortedUnique(SortBy(a, key), SortBy(b, key), key);
  }

  lemma MultisetWithoutAt<T>(s: seq<T>, j: int)
    requires 0 <= j < |s|
    ensures multiset(s[..j] + s[j + 1..]) == multiset(s) - multiset{s[j]}
  {
    assert s == s[..j] + [s[j]] + s[j + 1..];
  }

  /** The tail of a sorted sequence is sorted. */
  lemma SortedTail<T>(s: seq<T>, key: T -> string)
    requires SortedBy(s, key) && |s| > 0
    ensures SortedBy(s[1..], key)
  {
    forall i, j | 0 <= i < j < |s| - 1
      ensures LessEq(key(s[1..][i]), key(s[1..][j]))
    {
      assert s[1..][i] == s[i + 1] && s[1..][j] == s[j + 1];
    }
  }

  /** The head of a sorted sequence has the least key. */
  lemma SortedHeadLeast<T>(s: seq<T>, key: T -> string, i: int)
    requires SortedBy(s, key) && 0 <= i < |s|
    ensures LessEq(key(s[0]), key(s[i]))
  {
    if i == 0 {
      LessIrreflexive(key(s[0]));
    }
  }

  /** Equal keys only ever belong to equal elements of `s`. */
  ghost predicate KeyInjective<T>(s: seq<T>, key: T -> string) {
    forall x, y :: x in s && y in s && key(x) == key(y) ==> x == y
  }

  lemma SortedSameHead<T>(a: seq<T>, b: seq<T>, key: T -> string)
    requires SortedBy(a, key) && SortedBy(b, key)
    requires multiset(a) == multiset(b) && |a| > 0
    requires KeyInjective(a, key)
    ensures |b| > 0 && a[0] == b[0]
  {
    assert a[0] in multiset(b);
    var j :| 0 <= j < |b| && b[j] == a[0];
    assert b[0] in multiset(a);
    var i :| 0 <= i < |a| && a[i] == b[0];
    SortedHeadLeast(a, key, i);
    SortedHeadLeast(b, key, j);
    LessEqAntisymmetric(key(a[0]), key(b[0]));
  }

  lemma MultisetTail<T>(s: seq<T>)
    requires |s| > 0
    ensures multiset(s[1..]) == multiset(s) - multiset{s[0]}
  {
    assert s == [s[0]] + s[1..];
  }

  lemma KeyInjectiveTail<T>(a: seq<T>, key: T -> string)
    requires KeyInjective(a, key) && |a| > 0
    ensures KeyInjective(a[1..], key)
  {
    forall x, y | x in a[1..] && y in a[1..] && key(x) == key(y)
      ensures x == y
    {
      assert x in a && y in a;
    }
  }

  /** Two sorted arrangements of the same elements coincide when equal keys
      only ever belong to equal elements. */
  lemma {:induction false} SortedUnique<T>(a: seq<T>, b: seq<T>, key: T -> string)
    requires SortedBy(a, key) && SortedBy(b, key)
    requires multiset(a) == multiset(b)
    requires KeyInjective(a, key)
    ensures a == b
    decreases |a|
  {
    if |a| == 0 {
      assert |multiset(b)| == 0;
    } else {
      SortedSameHead(a, b, key);
      SortedUniqueStep(a, b, key);
      SortedUnique(a[1..], b[1..], key);
      SameHeadAndTail(a, b);
    }
  }

  /** Equal heads of two sorted arrangements leave sorted arrangements of the
      same elements behind. */
  lemma SortedUniqueStep<T>(a: seq<T>, b: seq<T>, key: T -> string)
    requires SortedBy(a, key) && SortedBy(b, key)
    requires multiset(a) == multiset(b)
    requires KeyInjective(a, key)
    requires |a| > 0 && |b| > 0 && a[0] == b[0]
    ensures SortedBy(a[1..], key) && SortedBy(b[1..], key)
    ensures multiset(a[1..]) == multiset(b[1..])
    ensures KeyInjective(a[1..], key)
  {
    MultisetTail(a);
    MultisetTail(b);
    KeyInjectiveTail(a, key);
    SortedTail(a, key);
    SortedTail(b, key);
  }

  lemma SameHeadAndTail<T>(a: seq<T>, b: seq<T>)
    requires |a| > 0 && |b| > 0 && a[0] == b[0] && a[1..] == b[1..]
    ensures a == b
  {
    assert a == [a[0]] + a[1..];
    assert b == [b[0]] + b[1..];
  }

  /** A sorted sequence with pairwise different keys is strictly sorted. */
  lemma SortedDistinctIsStrict<T>(s: seq<T>, key: T -> string)
    requires SortedBy(s, key) && DistinctKeys(s, key)
    ensures StrictlySortedBy(s, key)
  {
    forall i, j | 0 <= i < j < |s|
      ensures Less(key(s[i]), key(s[j]))
    {
      LessTotal(key(s[i]), key(s[j]));
    }
  }

  /** Rearranging a sequence keeps its keys pairwise different. */
  lemma {:induction false} PermutationKeepsDistinctKeys<T>(a: seq<T>, b: seq<T>, key: T -> string)
    requires multiset(a) == multiset(b) && DistinctKeys(a, key)
    ensures DistinctKeys(b, key)
    decreases |a|
  {
    if |a| > 0 {
      var x := a[0];
      assert x in multiset(b);
      var j :| 0 <= j < |b| && b[j] == x;
      var b' := b[..j] + b[j + 1..];
      MultisetTail(a);
      MultisetWithoutAt(b, j);
      DistinctTail(a, key);
      PermutationKeepsDistinctKeys(a[1..], b', key);
      forall y | y in b'
        ensures key(y) != key(x)
      {
        assert y in multiset(a[1..]);
        var k :| 0 <= k < |a[1..]| && a[1..][k] == y;
        assert a[k + 1] == y;
      }
      DistinctReinsert(b, j, key);
    }
  }

  lemma DistinctTail<T>(s: seq<T>, key: T -> string)
    requires DistinctKeys(s, key) && |s| > 0
    ensures DistinctKeys(s[1..], key)
  {
    forall i, k | 0 <= i < |s| - 1 && 0 <= k < |s| - 1 && i != k
      ensures key(s[1..][i]) != key(s[1..][k])
    {
      assert s[1..][i] == s[i + 1] && s[1..][k] == s[k + 1];
    }
  }

  /** Putting back at position `j` an element whose key no other element has. */
  lemma DistinctReinsert<T>(b: seq<T>, j: int, key: T -> string)
    requires 0 <= j < |b|
    requires DistinctKeys(b[..j] + b[j + 1..], key)
    requires forall y :: y in b[..j] + b[j + 1..] ==> key(y) != key(b[j])
    ensures DistinctKeys(b, key)
  {
    var b' := b[..j] + b[j + 1..];
    forall i, k | 0 <= i < |b| && 0 <= k < |b| && i != k
      ensures key(b[i]) != key(b[k])
    {
      if i != j && k != j {
        var i' := if i < j then i else i - 1;
        var k' := if k < j then k else k - 1;
        assert b'[i'] == b[i] && b'[k'] == b[k];
      } else if i == j {
        var k' := if k < j then k else k - 1;
        assert b'[k'] == b[k];
      } else {
        var i' := if i < j then i else i - 1;
        assert b'[i'] == b[i];
      }
    }
  }
}
