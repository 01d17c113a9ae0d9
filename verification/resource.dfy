/**
 The canonical resource: which query parameters enter it, how, and in what
 order; and that neither the visiting order of the parameter map nor any
 parameter outside the signed list changes it.
 */
module Resource {
  import opened Strings
  import opened Sorting
  import opened Enumerations
  import opened S3Sign

  /** `e` is the rendering of one value of one signed parameter. */
  ghost predicate IsSignedEntry(params: Multimap, e: string) {
    exists k, i :: k in params && k in ParamsToSign && 0 <= i < |params[k]| && e == RenderParam(k, params[k][i])
  }

  /** `p` and `q` hold the same signed parameters with the same values. */
  ghost predicate SameSignedParams(p: Multimap, q: Multimap) {
    forall k :: k in ParamsToSign ==> (k in p <==> k in q) && (k in p ==> p[k] == q[k])
  }

  lemma RenderValuesMembership(k: string, vs: seq<string>, e: string)
    ensures e in RenderValues(k, vs) <==> exists i :: 0 <= i < |vs| && e == RenderParam(k, vs[i])
  {
    if e in RenderValues(k, vs) {
      var i :| 0 <= i < |RenderValues(k, vs)| && RenderValues(k, vs)[i] == e;
    }
    if exists i :: 0 <= i < |vs| && e == RenderParam(k, vs[i]) {
      var i :| 0 <= i < |vs| && e == RenderParam(k, vs[i]);
      assert RenderValues(k, vs)[i] == e;
    }
  }

  /** The collected entries are the renderings of the values of the signed
      parameters, and nothing else. */
  lemma ScanParamsMembership(params: Multimap, order: seq<string>, e: string)
    requires Enumerates(order, params.Keys)
    ensures e in ScanParams(params, order) <==> IsSignedEntry(params, e)
  {
    var f := SignedEntries(params);
    FlatMapMembership(order, f, e);
    if e in ScanParams(params, order) {
      var j :| 0 <= j < |order| && e in f(order[j]);
      RenderValuesMembership(order[j], params[order[j]], e);
    }
    if IsSignedEntry(params, e) {
      var k, i :| k in params && k in ParamsToSign && 0 <= i < |params[k]| && e == RenderParam(k, params[k][i]);
      RenderValuesMembership(k, params[k], e);
      assert k in order;
      var j :| 0 <= j < |order| && order[j] == k;
      assert e in f(order[j]);
    }
  }

  /** The collected entries, counted with multiplicity, depend only on the
      signed parameters: not on the visiting order, and not on any other
      parameter. */
  lemma ScanParamsSignedOnly(p: Multimap, q: Multimap, op: seq<string>, oq: seq<string>)
    requires Enumerates(op, p.Keys) && Enumerates(oq, q.Keys)
    requires SameSignedParams(p, q)
    ensures multiset(ScanParams(p, op)) == multiset(ScanParams(q, oq))
  {
    var fp := SignedEntries(p);
    var fq := SignedEntries(q);
    var signedP := p.Keys * ParamsToSign;
    var signedQ := q.Keys * ParamsToSign;
    assert signedP == signedQ;
    forall k | k !in signedP
      ensures fp(k) == []
    {
    }
    forall k | k !in signedQ
      ensures fq(k) == []
    {
    }
    FlatMapKeep(op, signedP, fp);
    FlatMapKeep(oq, signedQ, fq);
    KeepEnumerates(op, p.Keys, ParamsToSign);
    KeepEnumerates(oq, q.Keys, ParamsToSign);
    var kp := Keep(op, ParamsToSign);
    var kq := Keep(oq, ParamsToSign);
    // Keeping the signed parameter names is keeping the signed keys present.
    assert Keep(op, signedP) == kp by { KeepSameOnKeys(op, signedP, ParamsToSign, p.Keys); }
    assert Keep(oq, signedQ) == kq by { KeepSameOnKeys(oq, signedQ, ParamsToSign, q.Keys); }
    EnumerationsArePermutations(kp, kq, signedP);
    FlatMapPermutation(kp, kq, fp);
    forall i | 0 <= i < |kq|
      ensures fp(kq[i]) == fq(kq[i])
    {
      assert kq[i] in kq;
    }
    FlatMapCongruent(kq, fp, fq);
  }

  /** Filtering by two sets that agree on the listed keys gives the same result. */
  lemma {:induction false} KeepSameOnKeys(order: seq<string>, s: set<string>, t: set<string>, keys: set<string>)
    requires forall i :: 0 <= i < |order| ==> order[i] in keys
    requires s == keys * t
    ensures Keep(order, s) == Keep(order, t)
    decreases |order|
  {
    if |order| > 0 {
      KeepSameOnKeys(order[1..], s, t, keys);
    }
  }

  /** The canonical resource: the path unchanged when no signed parameter has
      a value, otherwise the path, `?`, and the entries sorted as whole
      strings and joined by `&`; the entries are exactly the renderings of
      the signed parameters' values, `k` for an empty value and `k=v`
      otherwise, one for every value, so a repeated value is repeated. */
  lemma ResourceLayout(path: string, params: Multimap, order: seq<string>)
    requires Enumerates(order, params.Keys)
    ensures multiset(SortBy(ScanParams(params, order), Self)) == Gathered(params.Keys, SignedEntries(params))
    ensures var entries := SortBy(ScanParams(params, order), Self);
      && SortedBy(entries, Self)
      && (forall e :: e in entries <==> IsSignedEntry(params, e))
      && (|entries| == 0 <==> forall k :: k in params && k in ParamsToSign ==> |params[k]| == 0)
      && CanonicalResource(path, ScanParams(params, order))
         == if |entries| == 0 then path else path + "?" + Join(entries, "&")
  {
    var scanned := ScanParams(params, order);
    var entries := SortBy(scanned, Self);
    SortByPermutes(scanned, Self);
    FlatMapGathered(order, params.Keys, SignedEntries(params));
    SortBySorted(scanned, Self);
    SortByLength(scanned, Self);
    forall e
      ensures e in entries <==> IsSignedEntry(params, e)
    {
      SortByMembers(scanned, Self, e);
      ScanParamsMembership(params, order, e);
    }
    if |entries| > 0 {
      assert entries[0] in entries;
      var k, i :| k in params && k in ParamsToSign && 0 <= i < |params[k]| && entries[0] == RenderParam(k, params[k][i]);
    }
    if exists k :: k in params && k in ParamsToSign && |params[k]| > 0 {
      var k :| k in params && k in ParamsToSign && |params[k]| > 0;
      assert IsSignedEntry(params, RenderParam(k, params[k][0]));
    }
  }

  /** Each signed value is rendered once: a sub-resource sent twice without
      a value is signed twice. */
  lemma RepeatedValueRepeats(path: string)
    ensures CanonicalResource(path, ScanParams(map["acl" := ["", ""]], ["acl"])) == path + "?acl&acl"
  {
    var params := map["acl" := ["", ""]];
    assert "acl" in ParamsToSign;
    assert RenderValues("acl", params["acl"]) == ["acl", "acl"];
    assert ScanParams(params, ["acl"]) == ["acl", "acl"];
    assert SortBy(["acl", "acl"], Self) == ["acl", "acl"] by {
      LessIrreflexive("acl");
    }
  }

  /** The canonical resource is the same for every visiting order of the
      parameters and whatever unsigned parameters (such as the added
      `AWSAccessKeyId`) are present. */
  lemma ResourceSignedOnly(path: string, p: Multimap, q: Multimap, op: seq<string>, oq: seq<string>)
    requires Enumerates(op, p.Keys) && Enumerates(oq, q.Keys)
    requires SameSignedParams(p, q)
    ensures CanonicalResource(path, ScanParams(p, op)) == CanonicalResource(path, ScanParams(q, oq))
  {
    var a := ScanParams(p, op);
    var b := ScanParams(q, oq);
    ScanParamsSignedOnly(p, q, op, oq);
    assert |a| == |multiset(a)| == |multiset(b)| == |b|;
    SortByCanonical(a, b, Self);
  }

  /** Query-string authentication adds a parameter that is not signed. */
  lemma AccessKeyNotSigned(auth: Auth, params: Multimap)
    ensures SameSignedParams(params, WithAccessKey(auth, params))
  {
  }
}
