/**
 What the header loop of `sign` gathers, stated without reference to the
 order in which Go visits the header map. The statements hold when the
 lower-cased header names are pairwise different: with two names that fold
 to the same key, the last one visited would win, and `sort.Sort` would
 order their `x-amz-*` pairs arbitrarily.
 */
module HeaderScan {
  import opened Strings
  import opened Sorting
  import opened Enumerations
  import opened S3Sign

  /** No two header names fold to the same lower-case name. */
  ghost predicate DistinctLower(h: Multimap) {
    forall a, b :: a in h && b in h && Lower(a) == Lower(b) ==> a == b
  }

  /** The headers whose first value `sign` reads. */
  predicate IsSlotName(name: string) {
    name == "content-md5" || name == "content-type" || name == "date"
  }

  /** Every header whose first value `sign` reads has one. */
  ghost predicate SlotValuesPresent(h: Multimap) {
    forall k :: k in h && IsSlotName(Lower(k)) ==> |h[k]| > 0
  }

  /** Some header name lower-cases to `name`. */
  ghost predicate HasHeader(h: Multimap, name: string) {
    exists k :: k in h && Lower(k) == name
  }

  /** The first value of the header whose name lower-cases to `name`, or the
      empty string when there is none. */
  ghost function FirstValue(h: Multimap, name: string): string {
    if HasHeader(h, name) then
      var k :| k in h && Lower(k) == name;
      if |h[k]| > 0 then h[k][0] else ""
    else ""
  }

  /** The date slot as the signature needs it: empty once `x-amz-date` is
      sent, whatever the order of the headers. */
  ghost function DateSlot(h: Multimap): string {
    if HasHeader(h, "x-amz-date") then "" else FirstValue(h, "date")
  }

  /** What the header `k` contributes to the `x-amz-*` pairs. */
  function AmzEntry(h: Multimap): string -> seq<AmzKv> {
    k => if k in h && IsAmzName(Lower(k)) then [AmzKv(Lower(k), Join(h[k], ","))] else []
  }

  /** Some header name lower-cases to an `x-amz-` name. */
  ghost predicate HasAmzHeader(h: Multimap) {
    exists k :: k in h && IsAmzName(Lower(k))
  }

  /** `kv` is the pair of one `x-amz-*` header: lower-cased name, all values
      joined by commas. */
  ghost predicate IsAmzPair(h: Multimap, kv: AmzKv) {
    exists k :: k in h && IsAmzName(Lower(k)) && kv == AmzKv(Lower(k), Join(h[k], ","))
  }

  // ---------------------------------------------------------------------
  // The loop invariant, over the headers visited so far.

  ghost predicate AllIn(h: Multimap, o: seq<string>) {
    forall i :: 0 <= i < |o| ==> o[i] in h
  }

  ghost predicate Visited(o: seq<string>, name: string) {
    exists i :: 0 <= i < |o| && Lower(o[i]) == name
  }

  /** `slot` holds the first value of the visited header named `name`, or is
      empty if none was visited. */
  ghost predicate Tracks(h: Multimap, o: seq<string>, name: string, slot: string)
    requires AllIn(h, o)
  {
    && (forall i :: 0 <= i < |o| && Lower(o[i]) == name ==> |h[o[i]]| > 0 && slot == h[o[i]][0])
    && (!Visited(o, name) ==> slot == "")
  }

  ghost predicate ScanInvariant(h: Multimap, o: seq<string>, s: HeaderSlots)
    requires AllIn(h, o)
  {
    && Tracks(h, o, "content-md5", s.md5)
    && Tracks(h, o, "content-type", s.ctype)
    && (s.xamzDate <==> Visited(o, "x-amz-date"))
    && (if Visited(o, "x-amz-date") then s.date == "" else Tracks(h, o, "date", s.date))
    && s.amz == FlatMap(o, AmzEntry(h))
  }

  lemma SlotNamesAreNotAmz(k: string)
    requires IsSlotName(k)
    ensures !IsAmzName(k)
  {
    assert k[0] != 'x';
  }

  lemma VisitedSnoc(o: seq<string>, k: string, name: string)
    ensures Visited(o + [k], name) <==> Visited(o, name) || Lower(k) == name
  {
    if Visited(o, name) {
      var i :| 0 <= i < |o| && Lower(o[i]) == name;
      assert (o + [k])[i] == o[i];
    }
    if Visited(o + [k], name) && Lower(k) != name {
      var i :| 0 <= i < |o + [k]| && Lower((o + [k])[i]) == name;
      assert (o + [k])[i] == o[i];
    }
    assert (o + [k])[|o|] == k;
  }

  /** A slot the new header does not concern keeps tracking. */
  lemma TracksSnocOther(h: Multimap, o: seq<string>, k: string, name: string, slot: string)
    requires AllIn(h, o) && k in h && Lower(k) != name
    requires Tracks(h, o, name, slot)
    ensures AllIn(h, o + [k]) && Tracks(h, o + [k], name, slot)
  {
    VisitedSnoc(o, k, name);
    forall i | 0 <= i < |o + [k]| && Lower((o + [k])[i]) == name
      ensures |h[(o + [k])[i]]| > 0 && slot == h[(o + [k])[i]][0]
    {
      assert i < |o| && (o + [k])[i] == o[i];
    }
  }

  /** The slot the new header concerns now holds its first value. */
  lemma TracksSnocSame(h: Multimap, o: seq<string>, k: string, name: string)
    requires AllIn(h, o) && k in h && Lower(k) == name && |h[k]| > 0
    requires forall i :: 0 <= i < |o| ==> Lower(o[i]) != Lower(k)
    ensures AllIn(h, o + [k]) && Tracks(h, o + [k], name, h[k][0])
  {
    VisitedSnoc(o, k, name);
    forall i | 0 <= i < |o + [k]| && Lower((o + [k])[i]) == name
      ensures |h[(o + [k])[i]]| > 0 && h[k][0] == h[(o + [k])[i]][0]
    {
      assert (o + [k])[|o|] == k;
    }
  }

  /** One turn of the loop keeps the invariant. */
  lemma ScanStep(h: Multimap, o: seq<string>, k: string, s: HeaderSlots)
    requires AllIn(h, o) && k in h && SlotValuesPresent(h)
    requires forall i :: 0 <= i < |o| ==> Lower(o[i]) != Lower(k)
    requires ScanInvariant(h, o, s)
    ensures AllIn(h, o + [k])
    ensures ScanHeader(s, k, h[k]).Done?
    ensures ScanInvariant(h, o + [k], ScanHeader(s, k, h[k]).value)
  {
    var o' := o + [k];
    var n := Lower(k);
    var s' := ScanHeader(s, k, h[k]).value;
    assert AllIn(h, o');
    VisitedSnoc(o, k, "content-md5");
    VisitedSnoc(o, k, "content-type");
    VisitedSnoc(o, k, "date");
    VisitedSnoc(o, k, "x-amz-date");
    FlatMapSnoc(o, k, AmzEntry(h));
    if IsSlotName(n) {
      SlotNamesAreNotAmz(n);
      assert AmzEntry(h)(k) == [];
    }
    if n != "content-md5" {
      TracksSnocOther(h, o, k, "content-md5", s.md5);
    } else {
      TracksSnocSame(h, o, k, "content-md5");
    }
    if n != "content-type" {
      TracksSnocOther(h, o, k, "content-type", s.ctype);
    } else {
      TracksSnocSame(h, o, k, "content-type");
    }
    if !Visited(o, "x-amz-date") {
      if n != "date" {
        TracksSnocOther(h, o, k, "date", s.date);
      } else {
        TracksSnocSame(h, o, k, "date");
      }
    }
  }

  /** The loop never panics when every slot header has a value, and its
      state satisfies the invariant after any prefix of the visiting order. */
  lemma {:induction false} ScanHeadersInvariant(h: Multimap, o: seq<string>)
    requires AllIn(h, o) && NoDup(o) && DistinctLower(h) && SlotValuesPresent(h)
    ensures ScanHeaders(h, o).Done?
    ensures ScanInvariant(h, o, ScanHeaders(h, o).value)
    decreases |o|
  {
    if |o| > 0 {
      var p := o[..|o| - 1];
      var k := o[|o| - 1];
      assert o == p + [k];
      assert NoDup(p);
      ScanHeadersInvariant(h, p);
      forall i | 0 <= i < |p|
        ensures Lower(p[i]) != Lower(k)
      {
        assert p[i] == o[i] && o[i] != k;
      }
      ScanStep(h, p, k, ScanHeaders(h, p).value);
    }
  }

  /** The loop reads only first values, so it never panics when every slot
      header has a value, whether or not names collide after lower-casing. */
  lemma {:induction false} ScanHeadersDone(h: Multimap, o: seq<string>)
    requires AllIn(h, o) && SlotValuesPresent(h)
    ensures ScanHeaders(h, o).Done?
    decreases |o|
  {
    if |o| > 0 {
      var p := o[..|o| - 1];
      assert AllIn(h, p);
      ScanHeadersDone(h, p);
    }
  }

  /** A name is visited by a full visiting order exactly when the map holds it. */
  lemma VisitedIffHasHeader(h: Multimap, o: seq<string>, name: string)
    requires Enumerates(o, h.Keys)
    ensures Visited(o, name) <==> HasHeader(h, name)
  {
    if HasHeader(h, name) {
      var k :| k in h && Lower(k) == name;
      assert k in o;
      var i :| 0 <= i < |o| && o[i] == k;
    }
    if Visited(o, name) {
      var i :| 0 <= i < |o| && Lower(o[i]) == name;
      assert o[i] in o;
    }
  }

  /** After the whole loop a tracked slot holds `FirstValue`. */
  lemma TracksFirstValue(h: Multimap, o: seq<string>, name: string, slot: string)
    requires Enumerates(o, h.Keys) && AllIn(h, o) && DistinctLower(h)
    requires Tracks(h, o, name, slot)
    ensures slot == FirstValue(h, name)
  {
    VisitedIffHasHeader(h, o, name);
    if HasHeader(h, name) {
      var k :| k in h && Lower(k) == name;
      assert FirstValue(h, name) == h[k][0] by {
        forall k' | k' in h && Lower(k') == name
          ensures k' == k
        {
        }
        assert k in o;
        var i :| 0 <= i < |o| && o[i] == k;
      }
      assert k in o;
      var i :| 0 <= i < |o| && o[i] == k;
    }
  }

  /** The header loop, run over any visiting order of the whole header map:
      no panic, the content-md5 and content-type slots hold the first value of
      their header, the date slot is empty when `x-amz-date` is sent and holds
      the first `date` value otherwise, and the `x-amz-*` pairs are the
      visited `x-amz-*` headers in visiting order. */
  lemma HeaderScanResult(h: Multimap, o: seq<string>)
    requires Enumerates(o, h.Keys) && DistinctLower(h) && SlotValuesPresent(h)
    ensures AllIn(h, o)
    ensures ScanHeaders(h, o).Done?
    ensures ScanHeaders(h, o).value.md5 == FirstValue(h, "content-md5")
    ensures ScanHeaders(h, o).value.ctype == FirstValue(h, "content-type")
    ensures ScanHeaders(h, o).value.date == DateSlot(h)
    ensures ScanHeaders(h, o).value.xamzDate == HasHeader(h, "x-amz-date")
    ensures ScanHeaders(h, o).value.amz == FlatMap(o, AmzEntry(h))
  {
    assert AllIn(h, o);
    ScanHeadersInvariant(h, o);
    var s := ScanHeaders(h, o).value;
    TracksFirstValue(h, o, "content-md5", s.md5);
    TracksFirstValue(h, o, "content-type", s.ctype);
    VisitedIffHasHeader(h, o, "x-amz-date");
    if !HasHeader(h, "x-amz-date") {
      TracksFirstValue(h, o, "date", s.date);
    }
  }

  // ---------------------------------------------------------------------
  // The `x-amz-*` pairs.

  /** Each collected pair has the lower-cased name of a visited header as key. */
  lemma AmzEntryKeys(h: Multimap, o: seq<string>, kv: AmzKv)
    requires kv in FlatMap(o, AmzEntry(h))
    ensures exists i :: 0 <= i < |o| && o[i] in h && IsAmzName(Lower(o[i])) && kv == AmzKv(Lower(o[i]), Join(h[o[i]], ","))
  {
    FlatMapMembership(o, AmzEntry(h), kv);
  }

  /** Different visited headers give pairs with different keys. */
  lemma {:induction false} AmzKeysDistinct(h: Multimap, o: seq<string>)
    requires AllIn(h, o) && NoDup(o) && DistinctLower(h)
    ensures DistinctKeys(FlatMap(o, AmzEntry(h)), KvKey)
    decreases |o|
  {
    if |o| > 0 {
      var rest := FlatMap(o[1..], AmzEntry(h));
      assert NoDup(o[1..]) by {
        forall i, j | 0 <= i < j < |o[1..]|
          ensures o[1..][i] != o[1..][j]
        {
          assert o[1..][i] == o[i + 1] && o[1..][j] == o[j + 1];
        }
      }
      AmzKeysDistinct(h, o[1..]);
      var head := AmzEntry(h)(o[0]);
      if |head| == 1 {
        forall y | y in rest
          ensures KvKey(y) != KvKey(head[0])
        {
          AmzEntryKeys(h, o[1..], y);
          var i :| 0 <= i < |o[1..]| && o[1..][i] in h && y == AmzKv(Lower(o[1..][i]), Join(h[o[1..][i]], ","));
          assert o[1..][i] == o[i + 1] && o[i + 1] != o[0];
        }
        var b := head + rest;
        assert b[..0] + b[1..] == rest;
        DistinctReinsert(b, 0, KvKey);
      }
    }
  }

  /** Over the whole header map, the collected pairs are exactly the
      `x-amz-*` pairs of the headers. */
  lemma AmzMembership(h: Multimap, o: seq<string>, kv: AmzKv)
    requires Enumerates(o, h.Keys)
    ensures kv in FlatMap(o, AmzEntry(h)) <==> IsAmzPair(h, kv)
  {
    FlatMapMembership(o, AmzEntry(h), kv);
    if IsAmzPair(h, kv) {
      var k :| k in h && IsAmzName(Lower(k)) && kv == AmzKv(Lower(k), Join(h[k], ","));
      assert k in o;
      var i :| 0 <= i < |o| && o[i] == k;
      assert kv in AmzEntry(h)(o[i]);
    }
  }

  /** No pair is collected exactly when no header is an `x-amz-` header. */
  lemma AmzEmptyIff(h: Multimap, o: seq<string>)
    requires Enumerates(o, h.Keys)
    ensures |FlatMap(o, AmzEntry(h))| == 0 <==> !HasAmzHeader(h)
  {
    var amz := FlatMap(o, AmzEntry(h));
    if |amz| > 0 {
      AmzMembership(h, o, amz[0]);
    }
    if HasAmzHeader(h) {
      var k :| k in h && IsAmzName(Lower(k));
      AmzMembership(h, o, AmzKv(Lower(k), Join(h[k], ",")));
    }
  }
}
