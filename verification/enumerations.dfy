/**
 Go's `for k, v := range m` visits the keys of `m` in an unspecified order.
 The model makes that order an explicit sequence of keys and proves that
 what the signer collects along it, as a multiset, does not depend on the
 order chosen.
 */
module Enumerations {
  import opened Sorting

  /** No key is listed twice. */
  predicate NoDup(order: seq<string>) {
    forall i, j :: 0 <= i < j < |order| ==> order[i] != order[j]
  }

  /** `order` is one possible visiting order of a map with key set `keys`:
      each key exactly once, nothing else. */
  predicate Enumerates(order: seq<string>, keys: set<string>) {
    && NoDup(order)
    && (forall k :: k in order ==> k in keys)
    && (forall k :: k in keys ==> k in order)
  }

  /** The concatenation of what `f` yields for each key, in visiting order. */
  function FlatMap<T>(order: seq<string>, f: string -> seq<T>): seq<T>
    decreases |order|
  {
    if |order| == 0 then [] else f(order[0]) + FlatMap(order[1..], f)
  }

  lemma {:induction false} FlatMapAppend<T>(a: seq<string>, b: seq<string>, f: string -> seq<T>)
    ensures FlatMap(a + b, f) == FlatMap(a, f) + FlatMap(b, f)
    decreases |a|
  {
    if |a| == 0 {
      assert a + b == b;
    } else {
      assert (a + b)[0] == a[0];
      assert (a + b)[1..] == a[1..] + b;
      FlatMapAppend(a[1..], b, f);
    }
  }

  /** Visiting one more key appends what that key yields. */
  lemma FlatMapSnoc<T>(a: seq<string>, k: string, f: string -> seq<T>)
    ensures FlatMap(a + [k], f) == FlatMap(a, f) + f(k)
  {
    FlatMapAppend(a, [k], f);
    assert FlatMap([k], f) == f(k) + FlatMap([k][1..], f);
    assert f(k) + [] == f(k);
  }

  /** An element is collected exactly when some visited key yields it. */
  lemma {:induction false} FlatMapMembership<T>(order: seq<string>, f: string -> seq<T>, y: T)
    ensures y in FlatMap(order, f) <==> exists i :: 0 <= i < |order| && y in f(order[i])
    decreases |order|
  {
    if |order| > 0 {
      FlatMapMembership(order[1..], f, y);
      if y in FlatMap(order[1..], f) {
        var i :| 0 <= i < |order[1..]| && y in f(order[1..][i]);
        assert order[1..][i] == order[i + 1];
      }
      if exists i :: 0 <= i < |order| && y in f(order[i]) {
        var i :| 0 <= i < |order| && y in f(order[i]);
        if i > 0 {
          assert order[1..][i - 1] == order[i];
        }
      }
    }
  }

  /** A key occurs in a duplicate-free order once if at all. */
  lemma {:induction false} NoDupCount(a: seq<string>, k: string)
    requires NoDup(a)
    ensures multiset(a)[k] == if k in a then 1 else 0
    decreases |a|
  {
    if |a| > 0 {
      assert a == [a[0]] + a[1..];
      assert NoDup(a[1..]) by {
        forall i, j | 0 <= i < j < |a[1..]|
          ensures a[1..][i] != a[1..][j]
        {
          assert a[1..][i] == a[i + 1] && a[1..][j] == a[j + 1];
        }
      }
      assert a[0] !in a[1..] by {
        forall i | 0 <= i < |a[1..]|
          ensures a[1..][i] != a[0]
        {
          assert a[1..][i] == a[i + 1];
        }
      }
      NoDupCount(a[1..], k);
      assert multiset(a) == multiset{a[0]} + multiset(a[1..]);
    }
  }

  /** Two visiting orders of the same keys are rearrangements of each other. */
  lemma EnumerationsArePermutations(a: seq<string>, b: seq<string>, keys: set<string>)
    requires Enumerates(a, keys) && Enumerates(b, keys)
    ensures multiset(a) == multiset(b)
  {
    forall k
      ensures multiset(a)[k] == multiset(b)[k]
    {
      NoDupCount(a, k);
      NoDupCount(b, k);
    }
  }

  /** Taking the key at position `j` out of the order takes out what it yields. */
  lemma FlatMapWithoutAt<T>(b: seq<string>, j: int, f: string -> seq<T>)
    requires 0 <= j < |b|
    ensures multiset(FlatMap(b, f)) == multiset(f(b[j])) + multiset(FlatMap(b[..j] + b[j + 1..], f))
  {
    assert b == b[..j] + ([b[j]] + b[j + 1..]);
    FlatMapAppend(b[..j], [b[j]] + b[j + 1..], f);
    FlatMapAppend([b[j]], b[j + 1..], f);
    FlatMapAppend(b[..j], b[j + 1..], f);
    assert FlatMap([b[j]], f) == f(b[j]) + FlatMap([b[j]][1..], f);
  }

  /** What is collected along a visiting order, counted with multiplicity,
      does not depend on the order. */
  lemma {:induction false} FlatMapPermutation<T>(a: seq<string>, b: seq<string>, f: string -> seq<T>)
    requires multiset(a) == multiset(b)
    ensures multiset(FlatMap(a, f)) == multiset(FlatMap(b, f))
    decreases |a|
  {
    if |a| == 0 {
      assert |multiset(b)| == 0;
    } else {
      assert a[0] in multiset(b);
      var j :| 0 <= j < |b| && b[j] == a[0];
      MultisetWithoutAt(a, 0);
      MultisetWithoutAt(b, j);
      assert a[..0] + a[1..] == a[1..];
      FlatMapPermutation(a[1..], b[..j] + b[j + 1..], f);
      FlatMapWithoutAt(b, j, f);
    }
  }

  /** Some key of a non-empty key set. */
  ghost function Pick(keys: set<string>): string
    requires keys != {}
  {
    var k :| k in keys; k
  }

  /** What the keys of `keys` yield, counted with multiplicity, without
      reference to any visiting order. */
  ghost function Gathered<T>(keys: set<string>, f: string -> seq<T>): multiset<T>
    decreases keys
  {
    if keys == {} then multiset{} else multiset(f(Pick(keys))) + Gathered(keys - {Pick(keys)}, f)
  }

  /** Any key, not only the picked one, can be taken out first. */
  lemma {:induction false} GatheredRemove<T>(keys: set<string>, f: string -> seq<T>, k: string)
    requires k in keys
    ensures Gathered(keys, f) == multiset(f(k)) + Gathered(keys - {k}, f)
    decreases keys
  {
    var c := Pick(keys);
    if c != k {
      GatheredRemove(keys - {c}, f, k);
      GatheredRemove(keys - {k}, f, c);
      assert keys - {c} - {k} == keys - {k} - {c};
    }
  }

  /** Along any visiting order, the loop collects exactly what the keys
      yield, each element as often as the keys yield it. */
  lemma {:induction false} FlatMapGathered<T>(order: seq<string>, keys: set<string>, f: string -> seq<T>)
    requires Enumerates(order, keys)
    ensures multiset(FlatMap(order, f)) == Gathered(keys, f)
    decreases |order|
  {
    if |order| == 0 {
      assert forall k :: k !in keys;
    } else {
      var rest := order[1..];
      assert order == [order[0]] + rest;
      assert NoDup(rest) by {
        forall i, j | 0 <= i < j < |rest|
          ensures rest[i] != rest[j]
        {
          assert rest[i] == order[i + 1] && rest[j] == order[j + 1];
        }
      }
      forall k | k in rest
        ensures k in keys - {order[0]}
      {
        var i :| 0 <= i < |rest| && rest[i] == k;
        assert order[i + 1] == k;
      }
      FlatMapGathered(rest, keys - {order[0]}, f);
      GatheredRemove(keys, f, order[0]);
    }
  }

  /** The keys of `order` that lie in `s`, in the same order. */
  function Keep(order: seq<string>, s: set<string>): seq<string>
    decreases |order|
  {
    if |order| == 0 then []
    else (if order[0] in s then [order[0]] else []) + Keep(order[1..], s)
  }

  lemma {:induction false} KeepMembership(order: seq<string>, s: set<string>, k: string)
    ensures k in Keep(order, s) <==> k in order && k in s
    decreases |order|
  {
    if |order| > 0 {
      KeepMembership(order[1..], s, k);
      assert order == [order[0]] + order[1..];
    }
  }

  lemma {:induction false} KeepNoDup(order: seq<string>, s: set<string>)
    requires NoDup(order)
    ensures NoDup(Keep(order, s))
    decreases |order|
  {
    if |order| > 0 {
      assert NoDup(order[1..]) by {
        forall i, j | 0 <= i < j < |order[1..]|
          ensures order[1..][i] != order[1..][j]
        {
          assert order[1..][i] == order[i + 1] && order[1..][j] == order[j + 1];
        }
      }
      KeepNoDup(order[1..], s);
      var rest := Keep(order[1..], s);
      if order[0] in s {
        forall i | 0 <= i < |rest|
          ensures rest[i] != order[0]
        {
          assert rest[i] in rest;
          KeepMembership(order[1..], s, rest[i]);
          var j :| 0 <= j < |order[1..]| && order[1..][j] == rest[i];
          assert order[j + 1] == rest[i];
        }
        var r := [order[0]] + rest;
        forall i, j | 0 <= i < j < |r|
          ensures r[i] != r[j]
        {
          assert r[j] == rest[j - 1];
          if i > 0 {
            assert r[i] == rest[i - 1];
          }
        }
      } else {
        assert [] + rest == rest;
      }
    }
  }

  /** Keeping the keys of `s` from a visiting order of `keys` gives a
      visiting order of the keys in both. */
  lemma KeepEnumerates(order: seq<string>, keys: set<string>, s: set<string>)
    requires Enumerates(order, keys)
    ensures Enumerates(Keep(order, s), keys * s)
  {
    KeepNoDup(order, s);
    forall k
      ensures k in Keep(order, s) <==> k in keys * s
    {
      KeepMembership(order, s, k);
    }
  }

  /** Keys that yield nothing can be skipped. */
  lemma {:induction false} FlatMapKeep<T>(order: seq<string>, s: set<string>, f: string -> seq<T>)
    requires forall k :: k !in s ==> f(k) == []
    ensures FlatMap(Keep(order, s), f) == FlatMap(order, f)
    decreases |order|
  {
    if |order| > 0 {
      FlatMapKeep(order[1..], s, f);
      var head := if order[0] in s then [order[0]] else [];
      FlatMapAppend(head, Keep(order[1..], s), f);
      if order[0] in s {
        assert FlatMap(head, f) == f(order[0]) + FlatMap(head[1..], f);
      }
    }
  }

  /** Functions that agree on every visited key collect the same. */
  lemma {:induction false} FlatMapCongruent<T>(order: seq<string>, f: string -> seq<T>, g: string -> seq<T>)
    requires forall i :: 0 <= i < |order| ==> f(order[i]) == g(order[i])
    ensures FlatMap(order, f) == FlatMap(order, g)
    decreases |order|
  {
    if |order| > 0 {
      FlatMapCongruent(order[1..], f, g);
      assert f(order[0]) == g(order[0]);
    }
  }
}
