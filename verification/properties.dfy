/**
 Properties of `sign` as a whole: the `x-amz-*` block, the layout of the
 string-to-sign, where the signature lands, that nothing depends on the
 order Go visits the maps in, the anonymous case, and when `sign` panics.
 */
module SignProperties {
  import opened Strings
  import opened Sorting
  import opened Enumerations
  import opened S3Sign
  import opened HeaderScan
  import opened Resource

  // ---------------------------------------------------------------------
  // The `x-amz-*` block.

  /** The `x-amz-*` block is empty exactly when no header name lower-cases to
      an `x-amz-` name; otherwise it is the sorted `key:value` lines joined by
      newlines, with a newline after the last one as well. */
  lemma AmzBlockLayout(h: Multimap, o: seq<string>)
    requires Enumerates(o, h.Keys)
    ensures AmzBlock(FlatMap(o, AmzEntry(h))) == "" <==> !HasAmzHeader(h)
    ensures HasAmzHeader(h) ==>
      AmzBlock(FlatMap(o, AmzEntry(h))) == Join(AmzLines(SortBy(FlatMap(o, AmzEntry(h)), KvKey)), "\n") + "\n"
  {
    AmzEmptyIff(h, o);
  }

  /** The block's pairs are exactly those of the `x-amz-*` headers: the
      lower-cased name with all of that header's values joined by commas. */
  lemma AmzBlockPairs(h: Multimap, o: seq<string>, kv: AmzKv)
    requires Enumerates(o, h.Keys)
    ensures kv in SortBy(FlatMap(o, AmzEntry(h)), KvKey) <==> IsAmzPair(h, kv)
  {
    SortByMembers(FlatMap(o, AmzEntry(h)), KvKey, kv);
    AmzMembership(h, o, kv);
  }

  /** The block's keys strictly ascend, ordered by the key alone. */
  lemma AmzBlockAscending(h: Multimap, o: seq<string>)
    requires Enumerates(o, h.Keys) && DistinctLower(h)
    ensures StrictlySortedBy(SortBy(FlatMap(o, AmzEntry(h)), KvKey), KvKey)
  {
    var amz := FlatMap(o, AmzEntry(h));
    var kvs := SortBy(amz, KvKey);
    assert AllIn(h, o);
    AmzKeysDistinct(h, o);
    SortByPermutes(amz, KvKey);
    SortBySorted(amz, KvKey);
    PermutationKeepsDistinctKeys(amz, kvs, KvKey);
    SortedDistinctIsStrict(kvs, KvKey);
  }

  /** The `x-amz-*` block is the same for every visiting order of the headers. */
  lemma AmzBlockOrderFree(h: Multimap, o1: seq<string>, o2: seq<string>)
    requires Enumerates(o1, h.Keys) && Enumerates(o2, h.Keys) && DistinctLower(h)
    ensures AmzBlock(FlatMap(o1, AmzEntry(h))) == AmzBlock(FlatMap(o2, AmzEntry(h)))
  {
    var a := FlatMap(o1, AmzEntry(h));
    var b := FlatMap(o2, AmzEntry(h));
    EnumerationsArePermutations(o1, o2, h.Keys);
    FlatMapPermutation(o1, o2, AmzEntry(h));
    assert |a| == |multiset(a)| == |multiset(b)| == |b|;
    assert AllIn(h, o1);
    AmzKeysDistinct(h, o1);
    forall x, y | x in a && y in a && KvKey(x) == KvKey(y)
      ensures x == y
    {
      var i :| 0 <= i < |a| && a[i] == x;
      var j :| 0 <= j < |a| && a[j] == y;
    }
    SortByCanonical(a, b, KvKey);
  }

  /** Two elements with ascending keys sort the same way whichever comes first. */
  lemma SortPair<T>(x: T, y: T, key: T -> string)
    requires Less(key(x), key(y))
    ensures SortBy([y, x], key) == [x, y]
  {
    LessAsymmetric(key(x), key(y));
    assert SortedBy([x, y], key);
    assert multiset([y, x]) == multiset([x, y]);
    SortByPermutes([y, x], key);
    SortBySorted([y, x], key);
    SortedUnique(SortBy([y, x], key), [x, y], key);
  }

  /** Two `x-amz-*` headers with ascending keys give a block of two lines,
      in key order, whichever was visited first. */
  lemma AmzBlockOfPair(x: AmzKv, y: AmzKv)
    requires Less(KvKey(x), KvKey(y))
    ensures AmzBlock([y, x]) == AmzLine(x) + "\n" + AmzLine(y) + "\n"
  {
    SortPair(x, y, KvKey);
    var lines := AmzLines([x, y]);
    assert lines == [AmzLine(x), AmzLine(y)];
    assert lines[1..] == [AmzLine(y)];
    assert Join(lines[1..], "\n") == AmzLine(y);
    assert Join(lines, "\n") == AmzLine(x) + "\n" + AmzLine(y);
    assert AmzBlock([y, x]) == Join(lines, "\n") + "\n";
  }

  /** A key sorts before the same key extended by `ext`, but when `ext`
      starts with a character below `:` (such as `-`), its `key:value` line
      sorts after the extended key's line. The block follows the key order,
      whichever header was visited first. */
  lemma ExtendedKeyOrder(k: string, ext: string, v: string, w: string)
    requires |ext| > 0 && ext[0] < ':'
    ensures Less(KvKey(AmzKv(k, v)), KvKey(AmzKv(k + ext, w)))
    ensures Less(AmzLine(AmzKv(k + ext, w)), AmzLine(AmzKv(k, v)))
    ensures AmzBlock([AmzKv(k + ext, w), AmzKv(k, v)])
         == AmzLine(AmzKv(k, v)) + "\n" + AmzLine(AmzKv(k + ext, w)) + "\n"
  {
    assert k == k + "";
    LessCommonPrefix(k, "", ext);
    assert AmzLine(AmzKv(k, v)) == k + (":" + v);
    assert AmzLine(AmzKv(k + ext, w)) == k + (ext + ":" + w);
    LessCommonPrefix(k, ext + ":" + w, ":" + v);
    AmzBlockOfPair(AmzKv(k, v), AmzKv(k + ext, w));
  }

  const CopySource := AmzKv("x-amz-copy-source", "/a/b")
  const CopySourceRange := AmzKv("x-amz-copy-source-range", "bytes=0-1")

  /** `x-amz-copy-source` sorts before `x-amz-copy-source-range` by key, while
      their `key:value` lines sort the other way round; the block lists
      `x-amz-copy-source` first. */
  lemma CopySourceKeyOrder()
    ensures Less(KvKey(CopySource), KvKey(CopySourceRange))
    ensures Less(AmzLine(CopySourceRange), AmzLine(CopySource))
    ensures AmzBlock([CopySourceRange, CopySource])
         == AmzLine(CopySource) + "\n" + AmzLine(CopySourceRange) + "\n"
  {
    assert CopySourceRange == AmzKv(CopySource.key + "-range", CopySourceRange.value);
    ExtendedKeyOrder(CopySource.key, "-range", CopySource.value, CopySourceRange.value);
  }

  // ---------------------------------------------------------------------
  // The string-to-sign.

  /** The string-to-sign reads back line by line: when method, MD5, content
      type and date hold no newline, its first four lines are exactly those,
      and what follows the fourth newline is the `x-amz-*` block directly
      followed by the resource. */
  lemma PayloadLines(httpMethod: string, md5: string, ctype: string, date: string, xamz: string, resource: string)
    requires '\n' !in httpMethod && '\n' !in md5 && '\n' !in ctype && '\n' !in date
    ensures var c1 := CutLine(Payload(httpMethod, md5, ctype, date, xamz, resource));
      var c2 := CutLine(c1.1);
      var c3 := CutLine(c2.1);
      var c4 := CutLine(c3.1);
      c1.0 == httpMethod && c2.0 == md5 && c3.0 == ctype && c4.0 == date && c4.1 == xamz + resource
  {
    var tail4 := xamz + resource;
    var tail3 := date + "\n" + tail4;
    var tail2 := ctype + "\n" + tail3;
    var tail1 := md5 + "\n" + tail2;
    assert Payload(httpMethod, md5, ctype, date, xamz, resource) == httpMethod + "\n" + tail1;
    CutLineAfterLine(httpMethod, tail1);
    CutLineAfterLine(md5, tail2);
    CutLineAfterLine(ctype, tail3);
    CutLineAfterLine(date, tail4);
  }

  /** The date that is signed: the first `Expires` value in query-string
      authentication, the header date slot otherwise. */
  ghost function SignedDate(params: Multimap, h: Multimap): string {
    if ExpiresParam in params && |params[ExpiresParam]| > 0 then params[ExpiresParam][0] else DateSlot(h)
  }

  /** The string-to-sign from well-formed headers `h` (which already hold
      the security token): the method, the first content-md5 and
      content-type values, the signed date, the `x-amz-*` block and the
      canonical resource, with the separators of `Payload`. */
  lemma StringToSignContents(
    auth: Auth, httpMethod: string, path: string, params: Multimap, h: Multimap,
    ho: seq<string>, po: seq<string>)
    requires Enumerates(ho, h.Keys) && DistinctLower(h) && SlotValuesPresent(h)
    requires ExpiresParam in params ==> |params[ExpiresParam]| > 0
    ensures forall i :: 0 <= i < |ho| ==> ho[i] in h
    ensures StringToSign(auth, httpMethod, path, params, h, ho, po)
      == Done(Payload(httpMethod, FirstValue(h, "content-md5"), FirstValue(h, "content-type"),
                      SignedDate(params, h), AmzBlock(FlatMap(ho, AmzEntry(h))),
                      CanonicalResource(path, ScanParams(WithAccessKey(auth, params), po))))
  {
    HeaderScanResult(h, ho);
  }

  // ---------------------------------------------------------------------
  // Sign.

  /** Headers for which the header loop gathers the same slots whatever the
      visiting order: names stay distinct after lower-casing, and every
      header whose first value is read has one. */
  ghost predicate WellFormed(auth: Auth, headers: Multimap) {
    && DistinctLower(WithToken(auth, headers))
    && SlotValuesPresent(WithToken(auth, headers))
  }

  /** The string-to-sign does not depend on the order in which Go visits
      the header and parameter maps. */
  lemma StringToSignOrderIndependent(
    auth: Auth, httpMethod: string, path: string, params: Multimap, h: Multimap,
    ho1: seq<string>, po1: seq<string>, ho2: seq<string>, po2: seq<string>)
    requires Enumerates(ho1, h.Keys) && Enumerates(ho2, h.Keys)
    requires Enumerates(po1, WithAccessKey(auth, params).Keys) && Enumerates(po2, WithAccessKey(auth, params).Keys)
    requires DistinctLower(h) && SlotValuesPresent(h)
    ensures StringToSign(auth, httpMethod, path, params, h, ho1, po1)
         == StringToSign(auth, httpMethod, path, params, h, ho2, po2)
  {
    if ExpiresParam in params && |params[ExpiresParam]| == 0 {
      // A valueless `Expires` panics after the header loop, in every order.
      ScanHeadersDone(h, ho1);
      ScanHeadersDone(h, ho2);
    } else {
      var p := WithAccessKey(auth, params);
      StringToSignContents(auth, httpMethod, path, params, h, ho1, po1);
      StringToSignContents(auth, httpMethod, path, params, h, ho2, po2);
      AmzBlockOrderFree(h, ho1, ho2);
      ResourceSignedOnly(path, p, p, po1, po2);
    }
  }

  /** The result of `sign` does not depend on the order in which Go visits
      the header and parameter maps. */
  lemma SignOrderIndependent(
    auth: Auth, httpMethod: string, path: string, params: Multimap, headers: Multimap,
    ho1: seq<string>, po1: seq<string>, ho2: seq<string>, po2: seq<string>,
    sig: (string, string) -> string)
    requires Enumerates(ho1, WithToken(auth, headers).Keys) && Enumerates(po1, WithAccessKey(auth, params).Keys)
    requires Enumerates(ho2, WithToken(auth, headers).Keys) && Enumerates(po2, WithAccessKey(auth, params).Keys)
    requires WellFormed(auth, headers)
    ensures Sign(auth, httpMethod, path, params, headers, ho1, po1, sig)
         == Sign(auth, httpMethod, path, params, headers, ho2, po2, sig)
  {
    if auth.secretKey != "" {
      StringToSignOrderIndependent(auth, httpMethod, path, params, WithToken(auth, headers), ho1, po1, ho2, po2);
    }
  }

  /** With an empty secret key nothing is signed: the parameters are
      unchanged, and the headers change at most by the security token, set
      to the credential's token exactly when that is non-empty. */
  lemma AnonymousRequest(
    auth: Auth, httpMethod: string, path: string, params: Multimap, headers: Multimap,
    ho: seq<string>, po: seq<string>, sig: (string, string) -> string)
    requires Enumerates(ho, WithToken(auth, headers).Keys) && Enumerates(po, WithAccessKey(auth, params).Keys)
    requires auth.secretKey == ""
    ensures var r := Sign(auth, httpMethod, path, params, headers, ho, po, sig);
      && r.Done?
      && r.value.params == params
      && SameExcept(headers, r.value.headers, {SecurityTokenHeader})
      && (auth.token != "" ==> r.value.headers[SecurityTokenHeader] == [auth.token])
      && (auth.token == "" ==> r.value.headers == headers)
  {
  }

  /** Query-string authentication: with an `Expires` parameter
      `AWSAccessKeyId` is set to the access key, `Signature` to the signature
      of the string-to-sign, and the headers get nothing beyond the security
      token. */
  lemma SignWithExpires(
    auth: Auth, httpMethod: string, path: string, params: Multimap, headers: Multimap,
    ho: seq<string>, po: seq<string>, sig: (string, string) -> string)
    requires Enumerates(ho, WithToken(auth, headers).Keys) && Enumerates(po, WithAccessKey(auth, params).Keys)
    requires auth.secretKey != "" && SlotValuesPresent(WithToken(auth, headers))
    requires ExpiresParam in params && |params[ExpiresParam]| > 0
    ensures Sign(auth, httpMethod, path, params, headers, ho, po, sig).Done?
    ensures Sign(auth, httpMethod, path, params, headers, ho, po, sig).value.params[AccessKeyParam]
         == [auth.accessKey]
    ensures Sign(auth, httpMethod, path, params, headers, ho, po, sig).value.params[SignatureParam]
         == [sig(auth.secretKey, StringToSign(auth, httpMethod, path, params, WithToken(auth, headers), ho, po).value)]
    ensures Sign(auth, httpMethod, path, params, headers, ho, po, sig).value.headers == WithToken(auth, headers)
  {
    ScanHeadersDone(WithToken(auth, headers), ho);
  }

  /** Header authentication: without `Expires`, `Authorization` is set to
      `AWS <access key>:<signature>`, the parameters are unchanged, and the
      headers are otherwise those with the security token added. */
  lemma SignWithoutExpires(
    auth: Auth, httpMethod: string, path: string, params: Multimap, headers: Multimap,
    ho: seq<string>, po: seq<string>, sig: (string, string) -> string)
    requires Enumerates(ho, WithToken(auth, headers).Keys) && Enumerates(po, WithAccessKey(auth, params).Keys)
    requires auth.secretKey != "" && SlotValuesPresent(WithToken(auth, headers))
    requires ExpiresParam !in params
    ensures Sign(auth, httpMethod, path, params, headers, ho, po, sig).Done?
    ensures Sign(auth, httpMethod, path, params, headers, ho, po, sig).value.headers[AuthorizationHeader]
         == ["AWS " + auth.accessKey + ":"
             + sig(auth.secretKey, StringToSign(auth, httpMethod, path, params, WithToken(auth, headers), ho, po).value)]
    ensures Sign(auth, httpMethod, path, params, headers, ho, po, sig).value.params == params
    ensures Sign(auth, httpMethod, path, params, headers, ho, po, sig).value.headers
         == WithToken(auth, headers)[AuthorizationHeader := ["AWS " + auth.accessKey + ":"
             + sig(auth.secretKey, StringToSign(auth, httpMethod, path, params, WithToken(auth, headers), ho, po).value)]]
  {
    ScanHeadersDone(WithToken(auth, headers), ho);
  }

  /** A session token is signed: its header enters the `x-amz-*` block as
      the line `x-amz-security-token:<token>`. */
  lemma TokenIsSigned(auth: Auth, headers: Multimap, ho: seq<string>)
    requires auth.token != ""
    requires Enumerates(ho, WithToken(auth, headers).Keys)
    ensures AmzLine(AmzKv(SecurityTokenHeader, auth.token))
      in AmzLines(SortBy(FlatMap(ho, AmzEntry(WithToken(auth, headers))), KvKey))
  {
    var h := WithToken(auth, headers);
    LowerOfLowerCase(SecurityTokenHeader);
    assert IsAmzName(Lower(SecurityTokenHeader));
    assert Join(h[SecurityTokenHeader], ",") == auth.token;
    var kv := AmzKv(SecurityTokenHeader, auth.token);
    assert IsAmzPair(h, kv);
    AmzBlockPairs(h, ho, kv);
    var kvs := SortBy(FlatMap(ho, AmzEntry(h)), KvKey);
    var i :| 0 <= i < |kvs| && kvs[i] == kv;
    assert AmzLines(kvs)[i] == AmzLine(kv);
  }


  // ---------------------------------------------------------------------
  // Panics.

  /** The `x-amz-date` flag records exactly whether an `x-amz-date` header
      has been visited, and once it is raised the date slot stays empty:
      a date header visited later is skipped. No header needs values here. */
  lemma {:induction false} XamzDateClearsDate(h: Multimap, o: seq<string>)
    requires AllIn(h, o)
    ensures ScanHeaders(h, o).Done? ==>
      && (ScanHeaders(h, o).value.xamzDate <==> Visited(o, "x-amz-date"))
      && (ScanHeaders(h, o).value.xamzDate ==> ScanHeaders(h, o).value.date == "")
    decreases |o|
  {
    if |o| > 0 {
      var p := o[..|o| - 1];
      var k := o[|o| - 1];
      assert o == p + [k];
      XamzDateClearsDate(h, p);
      VisitedSnoc(p, k, "x-amz-date");
    }
  }

  /** The header loop panics, whatever the visiting order, on a content-md5
      or content-type header without values, and on a date header without
      values when no `x-amz-date` header is sent. */
  lemma {:induction false} ValuelessSlotPanics(h: Multimap, o: seq<string>, k: string)
    requires AllIn(h, o) && k in o && k in h && |h[k]| == 0
    requires Lower(k) == "content-md5" || Lower(k) == "content-type"
          || (Lower(k) == "date" && !Visited(o, "x-amz-date"))
    ensures ScanHeaders(h, o) == Panic
    decreases |o|
  {
    var p := o[..|o| - 1];
    var last := o[|o| - 1];
    assert o == p + [last];
    VisitedSnoc(p, last, "x-amz-date");
    if last != k {
      assert k in p;
      ValuelessSlotPanics(h, p, k);
    } else {
      XamzDateClearsDate(h, p);
    }
  }

  /** Query-string authentication with an `Expires` parameter that has no
      value panics once a secret key is given. */
  lemma ValuelessExpiresPanics(
    auth: Auth, httpMethod: string, path: string, params: Multimap, headers: Multimap,
    ho: seq<string>, po: seq<string>, sig: (string, string) -> string)
    requires Enumerates(ho, WithToken(auth, headers).Keys) && Enumerates(po, WithAccessKey(auth, params).Keys)
    requires auth.secretKey != "" && ExpiresParam in params && |params[ExpiresParam]| == 0
    ensures Sign(auth, httpMethod, path, params, headers, ho, po, sig) == Panic
  {
  }

  /** Whether a valueless date header panics depends on the visiting order
      when `x-amz-date` is also sent: visited first, the date header is read;
      visited after `x-amz-date`, it is skipped. */
  lemma DatePanicDependsOnOrder()
    ensures var h := map["Date" := [], "x-amz-date" := ["20120216T203047Z"]];
      && ScanHeaders(h, ["Date", "x-amz-date"]) == Panic
      && ScanHeaders(h, ["x-amz-date", "Date"]).Done?
  {
    var h := map["Date" := [], "x-amz-date" := ["20120216T203047Z"]];
    assert Lower("Date") == "date";
    LowerOfLowerCase("x-amz-date");
    assert IsAmzName("x-amz-date");
    assert ["Date", "x-amz-date"][..1] == ["Date"];
    assert ["x-amz-date", "Date"][..1] == ["x-amz-date"];
    assert ["Date"][..0] == [] && ["x-amz-date"][..0] == [];
  }
}
