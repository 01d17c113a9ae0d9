# S3 request signing (AWS Signature Version 2), modelled in Dafny

This project models `sign` from the goamz S3 client (`s3/sign.go`). `sign`
signs an S3 REST request in place, given:

- a credential (access key, secret key, optional session token);
- the HTTP method and the canonical path;
- the request's multi-valued query parameters and headers.

What `sign` does, in order:

- It adds the `x-amz-security-token` header when the credential has a token.
- It stops there when the secret key is empty, so anonymous requests stay unsigned.
- It reads the first `content-md5`, `content-type` and `date` header values.
- It collects every `x-amz-*` header as `key:value` (values joined by commas) and sorts them by key alone.
- An `x-amz-date` header suppresses the `date` header.
- An `Expires` parameter selects query-string authentication. Its first value becomes the signed date, and `AWSAccessKeyId` is added.
- It builds the canonical resource from the whitelisted sub-resource parameters. These are rendered as `k` or `k=v`, never encoded, sorted as whole strings and joined by `&`.
- It assembles the newline-separated string-to-sign.
- It writes the signature into the `Signature` parameter (query-string mode) or into the `Authorization` header as `AWS <access key>:<signature>`.

The model is functional: `S3Sign.Sign` maps the request to the updated maps,
or to `Panic` where Go would index `v[0]` of an empty value list.

Two parts of `sign` come from outside it and are parameters of the model:

- The order in which Go's `range` visits each map is unspecified. It is a sequence of the map's keys (`Enumerates`).
- `base64(HMAC-SHA1(secret, payload))` is a function parameter `sig`, and nothing is assumed about it.

The central results are:

- The signed request does not depend on either visiting order (`SignProperties.SignOrderIndependent`), provided that:
  - header names stay distinct after lower-casing, since `sort.Sort` is not stable on equal keys;
  - the headers whose first value is read actually have values.

  A valueless `Expires` parameter needs no proviso, because it panics in every order.
- Signing succeeds, and the signature lands in `Signature` or `Authorization`, whenever the headers whose first value is read have values and `Expires`, if sent, has one. Name collisions after lower-casing do not matter for this.
- The `x-amz-*` block and the canonical resource have exactly the layout the signature scheme prescribes.
- Only four keys are ever written.

Modules, following the structure of `sign`:

- `Strings`: Go's byte-wise string order, ASCII lower-casing, `strings.Join` and line splitting.
- `Sorting`: an insertion sort standing for `sort.Sort`. Sorted permutations with distinct keys are unique, which is why an unstable sort is harmless here.
- `Enumerations`: map visiting orders, and the concatenation of per-key contributions along an order.
- `S3Sign`: the data model and `sign` itself.
- `HeaderScan`: the header loop, its invariant and its result.
- `Resource`: the parameter loop and the canonical resource.
- `SignProperties`: the properties of `sign` as a whole.

## Model

| member | source | states |
|---|---|---|
| S3Sign.WithToken | s3/sign.go:60-62 | Adds the security-token header. Its contract is `SignProperties.AnonymousRequest` and `SignProperties.TokenIsSigned`: the header is `[token]` exactly when the token is non-empty, and it is signed |
| S3Sign.ScanHeader | s3/sign.go:70-93 | One turn of the header loop. Its contract is `HeaderScan.ScanHeadersInvariant`, through the one-step lemma `HeaderScan.ScanStep` |
| S3Sign.ScanHeaders | s3/sign.go:69-94 | The header loop along a visiting order. Its contracts are `HeaderScan.ScanHeadersDone`, `HeaderScan.ScanHeadersInvariant` and `HeaderScan.HeaderScanResult` |
| S3Sign.AmzBlock | s3/sign.go:95-101 | The `x-amz-*` block. Its contracts are `SignProperties.AmzBlockLayout`, `AmzBlockPairs`, `AmzBlockAscending` and `AmzBlockOrderFree` |
| S3Sign.WithAccessKey | s3/sign.go:104-109 | Adds `AWSAccessKeyId` when `Expires` is sent. Its contracts are `Resource.AccessKeyNotSigned` and `SignProperties.SignWithExpires` |
| S3Sign.ScanParams | s3/sign.go:111-123 | The parameter loop. Its contracts are `Resource.ScanParamsMembership`, `Resource.ScanParamsSignedOnly` and the multiplicity clause of `Resource.ResourceLayout` |
| S3Sign.CanonicalResource | s3/sign.go:124-127 | The path with the sorted sub-resources. Its contracts are `Resource.ResourceLayout` and `Resource.ResourceSignedOnly` |
| S3Sign.Payload | s3/sign.go:129 | The newline-separated string-to-sign. Its contract is `SignProperties.PayloadLines` |
| S3Sign.StringToSign | s3/sign.go:69-129 | Everything between the anonymous check and the HMAC. Its contracts are `SignProperties.StringToSignContents` and `SignProperties.StringToSignOrderIndependent` |
| Sorting.SortBy | s3/sign.go:96 | The sort standing for `sort.Sort` and `sort.StringSlice.Sort` (line 125). Its contracts are `Sorting.SortBySorted`, `SortByPermutes` and `SortByCanonical` |
| Strings.Lower | s3/sign.go:70 | `strings.ToLower` on ASCII letters. Its contracts are `Strings.LowerHasNoUpper`, `Strings.LowerLetters`, `Strings.LowerIdempotent` and `Strings.LowerOfLowerCase` |
| Strings.LowerHasNoUpper | s3/sign.go:70 | Lower-casing keeps the length and leaves no upper-case ASCII letter |
| Strings.LowerLetters | s3/sign.go:70 | Each upper-case ASCII letter becomes its lower-case letter (32 code points up), and every other character is kept |
| Strings.LowerIdempotent | s3/sign.go:70 | Lower-casing an already lower-cased name changes nothing |
| Strings.LowerOfLowerCase | s3/sign.go:70 | A name without upper-case ASCII letters is its own lower-case form |
| Strings.Less | s3/sign.go:49-51 | Go's `<` on strings, used by `amzKvSlice.Less` and by `sort.StringSlice` (line 125). Its contracts are `Strings.LessIrreflexive`, `LessTransitive`, `LessTotal` and `LessCommonPrefix`, which make it a strict total order |
| Strings.LessIrreflexive | s3/sign.go:50 | No string is smaller than itself |
| Strings.HasPrefix | s3/sign.go:81 | `strings.HasPrefix`. Its contract is `Strings.HasPrefixConcat` |
| Strings.HasPrefixConcat | s3/sign.go:81 | A string has a prefix exactly when it is that prefix followed by the rest |
| S3Sign.IsAmzName | s3/sign.go:81 | The `x-amz-` prefix test. Its contracts are `HeaderScan.SlotNamesAreNotAmz` (no slot header is an `x-amz-` header, so the switch cases of lines 72-79 never reach line 81) and `HeaderScan.AmzMembership` |
| HeaderScan.SlotNamesAreNotAmz | s3/sign.go:71-81 | `content-md5`, `content-type` and `date` do not start with `x-amz-` |
| Strings.Join | s3/sign.go:82 | `strings.Join`, also used at lines 100 and 126. Its contracts are `Strings.JoinAppend` and the layouts in `SignProperties.AmzBlockLayout` and `Resource.ResourceLayout` |
| Strings.JoinAppend | s3/sign.go:82 | Joining two non-empty lists of parts is joining each and putting the separator between the results |
| S3Sign.KvKey | s3/sign.go:49-51 | The pair's key, the only thing `amzKvSlice.Less` compares. Its contracts are `SignProperties.AmzBlockAscending`, `SignProperties.ExtendedKeyOrder` and `SignProperties.CopySourceKeyOrder` |
| S3Sign.AmzLine | s3/sign.go:98 | The `key:value` line. Its contracts are `SignProperties.AmzBlockLayout`, `SignProperties.AmzBlockOfPair` and `SignProperties.TokenIsSigned` |
| S3Sign.RenderParam | s3/sign.go:114-120 | `k` for an empty value, `k=v` otherwise. Its contracts are `Resource.RenderValuesMembership`, `Resource.ScanParamsMembership` and `Resource.RepeatedValueRepeats` |
| S3Sign.RenderValues | s3/sign.go:114-121 | One rendering per value of a parameter. Its contract is `Resource.RenderValuesMembership` |
| Resource.RenderValuesMembership | s3/sign.go:114-121 | A string is among a parameter's renderings exactly when it renders one of its values |
| S3Sign.Sign | s3/sign.go:54-145 | Whenever `sign` returns, the parameters differ from the input only at `AWSAccessKeyId` and `Signature`. The headers differ only at `x-amz-security-token` and `Authorization`. No other key is added, and a panic is only possible with a non-empty secret key |
| SignProperties.AnonymousRequest | s3/sign.go:59-67 | With an empty secret key `sign` returns normally with the parameters unchanged. The headers change only by `x-amz-security-token`, set to `[token]` exactly when the token is non-empty. No `Authorization` or `Signature` is written |
| Strings.LessTotal | s3/sign.go:49-51 | The key order is total: of two distinct strings one is smaller |
| Strings.LessTransitive | s3/sign.go:50 | The key order is transitive |
| Strings.LessCommonPrefix | s3/sign.go:83-86 | A common prefix does not affect the order. This is why a key sorts before every longer key it begins |
| Sorting.SortBySorted | s3/sign.go:96 | Sorting puts the keys in ascending order |
| Sorting.SortByPermutes | s3/sign.go:125 | Sorting keeps every element, as often as it occurs, and adds none |
| Sorting.SortedUnique | s3/sign.go:125 | Two sorted permutations of the same elements are equal when no two different elements share a key |
| Sorting.SortByCanonical | s3/sign.go:95-96 | Rearrangements of the same elements sort to the same sequence when no two different elements share a key. So the choices an unstable sort makes do not show in the result |
| Sorting.PermutationKeepsDistinctKeys | s3/sign.go:95-96 | Rearranging elements keeps their keys pairwise distinct |
| Sorting.SortedDistinctIsStrict | s3/sign.go:95-96 | A sorted sequence with distinct keys is strictly ascending |
| Enumerations.EnumerationsArePermutations | s3/sign.go:69 | Any two visiting orders of a map's keys are rearrangements of each other |
| Enumerations.FlatMapPermutation | s3/sign.go:112 | What a loop collects along a visiting order is, counted with multiplicity, the same for every order |
| Enumerations.FlatMapGathered | s3/sign.go:112-123 | Along any visiting order a loop collects, with multiplicity, exactly what the keys yield. The reference `Gathered` takes the keys out of a set one by one, in no particular order |
| Enumerations.FlatMapMembership | s3/sign.go:112-123 | An element is collected exactly when some visited key yields it |
| HeaderScan.ScanHeadersInvariant | s3/sign.go:69-94 | The header loop keeps its invariant after every visited header, and never panics when the slot headers have values and the names are distinct after lower-casing. The invariant: each slot holds the first value of the visited header of that name; the date slot is empty once `x-amz-date` is seen; the pairs are those of the visited `x-amz-*` headers |
| HeaderScan.ScanStep | s3/sign.go:70-93 | One turn of the header loop on a name not yet visited after lower-casing keeps the invariant and does not panic when slot headers have values |
| HeaderScan.ScanHeadersDone | s3/sign.go:69-94 | The header loop never panics when every content-md5, content-type and date header has a value. Header names may collide after lower-casing |
| HeaderScan.HeaderScanResult | s3/sign.go:69-94 | After all headers: MD5 and content type are the first values of those headers (empty if absent). The date is empty when `x-amz-date` is present, otherwise the first `date` value. The flag records whether `x-amz-date` is present. The pairs are one per `x-amz-*` header in visiting order |
| HeaderScan.AmzMembership | s3/sign.go:81-87 | A pair is collected exactly when it is the lower-cased name of an `x-amz-*` header with all its values joined by commas |
| HeaderScan.AmzKeysDistinct | s3/sign.go:70-87 | The collected pairs have pairwise distinct keys when header names stay distinct after lower-casing |
| HeaderScan.AmzEmptyIff | s3/sign.go:81-95 | No pair is collected exactly when no header name lower-cases to an `x-amz-` name |
| SignProperties.AmzBlockLayout | s3/sign.go:95-100 | The `x-amz-*` block is empty exactly when there is no `x-amz-*` header. Otherwise it is the sorted `key:value` lines joined by newlines, plus a trailing newline |
| SignProperties.AmzBlockPairs | s3/sign.go:81-87 | The block's pairs are exactly those of the `x-amz-*` headers: the lower-cased name and all of that header's values joined by commas |
| SignProperties.AmzBlockAscending | s3/sign.go:95-96 | The block's keys are strictly ascending, ordered by the key alone, when header names stay distinct after lower-casing |
| SignProperties.AmzBlockOrderFree | s3/sign.go:69-100 | The `x-amz-*` block is the same for every visiting order of the headers when header names stay distinct after lower-casing |
| SignProperties.AmzBlockOfPair | s3/sign.go:95-100 | Two `x-amz-*` pairs with ascending keys give a two-line block in key order, whichever was visited first |
| SignProperties.ExtendedKeyOrder | s3/sign.go:83-86 | A key sorts before the same key extended by a suffix starting below `:` (such as `-range`), while their `key:value` lines sort the other way round. The block lists the shorter key first |
| SignProperties.CopySourceKeyOrder | s3/sign.go:83-87 | `x-amz-copy-source` sorts before `x-amz-copy-source-range` by key, but their `key:value` lines sort the other way round. The block lists `x-amz-copy-source` first |
| Resource.ScanParamsMembership | s3/sign.go:112-123 | The parameter loop collects exactly the renderings, `k` or `k=v`, of values of whitelisted parameters |
| Resource.ScanParamsSignedOnly | s3/sign.go:19-40 | What the parameter loop collects, with multiplicity, depends only on the whitelisted parameters. It depends neither on the visiting order nor on any other parameter |
| Resource.ResourceLayout | s3/sign.go:112-127 | The canonical resource is the path alone when no whitelisted parameter has a value. Otherwise it is the path, `?`, and the renderings sorted as whole strings and joined by `&`. The renderings are exactly those of the whitelisted values, one for every value, so each occurs as often as the order-free `Gathered` yields it |
| Resource.RepeatedValueRepeats | s3/sign.go:114-121 | A sub-resource sent twice without a value, `acl=["",""]`, is signed as `?acl&acl` |
| Resource.ResourceSignedOnly | s3/sign.go:124-127 | The canonical resource is the same for every visiting order and whatever non-whitelisted parameters are present |
| Resource.AccessKeyNotSigned | s3/sign.go:108 | Adding `AWSAccessKeyId` leaves the whitelisted parameters as they were |
| SignProperties.PayloadLines | s3/sign.go:129 | When method, MD5, content type and date hold no newline, the string-to-sign splits back into method, MD5, content type and date as its first four lines. The rest is the `x-amz-*` block immediately followed by the resource |
| SignProperties.StringToSignContents | s3/sign.go:69-129 | For well-formed headers the string-to-sign holds: the method; the first MD5 and content-type values; the signed date (first `Expires` value, else the date slot); the `x-amz-*` block; the canonical resource |
| SignProperties.StringToSignOrderIndependent | s3/sign.go:69-129 | The string-to-sign is the same for any two visiting orders of the headers and of the parameters |
| SignProperties.SignOrderIndependent | s3/sign.go:69-139 | The result of `sign` is the same for any two visiting orders of the headers and of the parameters |
| SignProperties.SignWithExpires | s3/sign.go:103-136 | With a valued `Expires` and valued slot headers, signing succeeds even if header names collide after lower-casing: `AWSAccessKeyId` is the access key, `Signature` is the signature of the string-to-sign, and the headers get nothing beyond the token |
| SignProperties.SignWithoutExpires | s3/sign.go:137-138 | Without `Expires` and with valued slot headers, signing succeeds even if header names collide after lower-casing: `Authorization` is `AWS <access key>:<signature of the string-to-sign>`, the parameters are unchanged, and every other header is as the security-token step (line 61) left it |
| SignProperties.TokenIsSigned | s3/sign.go:60-62 | A session token's header enters the `x-amz-*` block as the line `x-amz-security-token:<token>` |
| SignProperties.XamzDateClearsDate | s3/sign.go:76-91 | Whatever the visiting order, the flag is raised exactly when an `x-amz-date` header has been visited, and the date slot is then empty |
| SignProperties.ValuelessSlotPanics | s3/sign.go:72-79 | The header loop panics on a valueless content-md5 or content-type header, and on a valueless date header when no `x-amz-date` header is present |
| SignProperties.ValuelessExpiresPanics | s3/sign.go:104-107 | An `Expires` parameter with no value makes signing panic |
| SignProperties.DatePanicDependsOnOrder | s3/sign.go:76-79 | A valueless `Date` header together with `x-amz-date` panics when `Date` is visited first and not when it is visited second |

## Left out

- HMAC-SHA1 and base64 (`s3/sign.go:130-133`) are the parameter `sig`. The properties concern which string is signed and where the result lands, not digest values.
- Debug logging (`s3/sign.go:141-144`) is output only and changes nothing.
- Go's map visiting order is not chosen by the model. Every order is a parameter, and the order-independence lemmas cover all of them.
- On a panic, Go has already added the security-token header to the caller's map. The model returns `Panic` without that partially updated map.
- `strings.ToLower` is modelled on ASCII letters only. Non-ASCII case mappings are not modelled.
- String order: Go compares UTF-8 bytes. The model compares characters (Unicode scalar values) lexicographically, which gives the same order for valid UTF-8 strings. Go strings holding arbitrary bytes are not modelled.
- `aws.Auth` is a three-field datatype. The rest of that package is not part of this model.
- The MTurk signer and its test are not part of this model. The test only checks a concrete HMAC-SHA1 output.
- A nil `headers` or `params` map (a panic on write in Go) is not modelled, because maps here are values.
- HeaderScan.HeaderScanResult: requires that the slot headers have values and that names stay distinct after lower-casing. The remaining cases are covered by `SignProperties.ValuelessSlotPanics`, `SignProperties.XamzDateClearsDate` and `SignProperties.DatePanicDependsOnOrder`.
- SignProperties.StringToSignOrderIndependent: requires the same well-formedness of the headers.
- SignProperties.SignOrderIndependent: requires the same well-formedness. Without it, the result can depend on the visiting order, as `SignProperties.DatePanicDependsOnOrder` shows.
- When two `x-amz-` header names collide after lower-casing, `Sorting.SortBy` keeps their pairs in visiting order (it is stable). Go's `sort.Sort` need not, so for such headers the model fixes one of the orders Go may produce.
- Determinism and idempotence are not stated separately. `Sign` is a function, so equal inputs give equal results.
