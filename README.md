# queryParams: the redirect query parser of the simple service provider tests

The integration tests of the simple SAML service provider follow the redirect their requests
receive. They read the `SAMLRequest` or `SAMLResponse` parameter out of the `Location` header
with the static helper `queryParams(URI)`. That helper:

- takes the query component `getQuery()` returns;
- splits it with `String.split("&")`;
- cuts each segment at its first `=` with `indexOf` and `substring`;
- decodes the key and the value separately with `UriUtils.decode`;
- puts each pair into a `LinkedHashMap`, so a repeated key keeps its first position and takes its
  last value.

There is no error handling. A null query, a segment without `=` and a malformed escape all end
the call with an exception.

The model has five modules:

- `Wrappers`: `Option` and `Result`.
- `Strings`: the three `java.lang.String` operations used.
  - `IndexOf` and `Substring`.
  - `Split`, with the default limit 0. A string without the separator splits into itself, so `""`
    gives `[""]`. Otherwise the fields lose their trailing empty strings, so `"&"` gives `[]` and
    `"a=1&"` gives `["a=1"]`. Leading and middle empty fields are kept.
- `UriDecoding`: `UriUtils.decode` as percent-decoding (section 2.1 of RFC 3986).
  - `%HH` stands for the octet it spells.
  - A `%` without two hexadecimal digits after it is an error.
  - `Encode` is the inverse used to state the round trip.
- `OrderedMaps`: the map as its entry list in iteration order.
  - `Update` is `LinkedHashMap.put`: a present key is overwritten in place, and a new key is
    appended.
  - The class `LinkedMap` holds that list as a field, which `Put` reassigns.
- `QueryString`:
  - the exceptions as a datatype `Error`;
  - the functional meaning `ParseQuery`;
  - the loop `QueryParams`, proved to compute `ParseQuery` exactly, on success and on every
    failure.

The input of the model is the value of `getQuery()`. `None` stands for null. As in the source, the
text `getQuery()` returns is decoded once more by `UriUtils.decode`.

## Model

| member | source | states |
|---|---|---|
| QueryString.QueryParams | samples/boot/simple-service-provider/src/test/java/org/springframework/security/samples/SimpleServiceProviderBootTest.java:379-391 | The loop that fills a fresh map with one put per segment returns exactly `ParseQuery(query)`: the same map on success, and the exception of the first failing segment otherwise. |
| QueryString.ReadPair | samples/boot/simple-service-provider/src/test/java/org/springframework/security/samples/SimpleServiceProviderBootTest.java:384-388 | One pass of the loop body (indexOf, then substring and decode for the key, then for the value) yields exactly the pair or the exception `SplitPair` specifies. |
| QueryString.ParseQuery | samples/boot/simple-service-provider/src/test/java/org/springframework/security/samples/SimpleServiceProviderBootTest.java:381-389 | A null query fails with NullQuery. The empty query fails at substring(0, -1). Any result has unique keys and no more entries than split("&") has segments. |
| QueryString.Cut | samples/boot/simple-service-provider/src/test/java/org/springframework/security/samples/SimpleServiceProviderBootTest.java:386-387 | substring succeeds exactly when 0 <= begin <= end <= length and yields the characters between; otherwise it fails with StringIndexOutOfBoundsException carrying the text and bounds. |
| QueryString.DecodeText | samples/boot/simple-service-provider/src/test/java/org/springframework/security/samples/SimpleServiceProviderBootTest.java:386-387 | decode fails with IllegalArgumentException exactly when some "%" lacks two hexadecimal digits after it, and returns text without "%" unchanged. |
| QueryString.SplitPair | samples/boot/simple-service-provider/src/test/java/org/springframework/security/samples/SimpleServiceProviderBootTest.java:384-386 | A segment without "=" fails with the exception of substring(0, -1); the success case is SplitPairAtFirstEquals. |
| QueryString.SplitPairAtFirstEquals | samples/boot/simple-service-provider/src/test/java/org/springframework/security/samples/SimpleServiceProviderBootTest.java:384-388 | For a key without "=", `k=v` is cut after `k`: the pair is (decode k, decode v) with every later "=" kept in v. A malformed key escape fails before the value is looked at. |
| QueryString.PaddingSurvives | samples/boot/simple-service-provider/src/test/java/org/springframework/security/samples/SimpleServiceProviderBootTest.java:384-388 | Unescaped key and value come back unchanged, base64 "=" padding included. |
| QueryString.EscapesDecodedAfterCut | samples/boot/simple-service-provider/src/test/java/org/springframework/security/samples/SimpleServiceProviderBootTest.java:386-387 | Decoding happens after the cut: `k%3D=v%26w` gives key `k=` and value `v&w`. |
| QueryString.EscapedEqualsDecodes | samples/boot/simple-service-provider/src/test/java/org/springframework/security/samples/SimpleServiceProviderBootTest.java:386 | `k%3D` decodes to `k=`. |
| QueryString.EscapedAmpersandDecodes | samples/boot/simple-service-provider/src/test/java/org/springframework/security/samples/SimpleServiceProviderBootTest.java:387 | `v%26w` decodes to `v&w`. |
| QueryString.SamlRequestPair | samples/boot/simple-service-provider/src/test/java/org/springframework/security/samples/SimpleServiceProviderBootTest.java:250-251 | The segment `SAMLRequest=fZJN==` yields key SAMLRequest with the padded value `fZJN==`. |
| QueryString.RelayStatePair | samples/boot/simple-service-provider/src/test/java/org/springframework/security/samples/SimpleServiceProviderBootTest.java:384-388 | The segment `RelayState=x` yields (RelayState, x). |
| QueryString.SimplePairs | samples/boot/simple-service-provider/src/test/java/org/springframework/security/samples/SimpleServiceProviderBootTest.java:384-388 | The segment `a=1` yields (a, 1). |
| QueryString.DecodeAll | samples/boot/simple-service-provider/src/test/java/org/springframework/security/samples/SimpleServiceProviderBootTest.java:383-389 | On success, one pair per segment, each the one that segment yields. On failure, the error comes from a segment all of whose predecessors succeed. |
| QueryString.DecodeAllStops | samples/boot/simple-service-provider/src/test/java/org/springframework/security/samples/SimpleServiceProviderBootTest.java:383-389 | The first failing segment decides the exception of the whole loop. |
| QueryString.DecodeAllStep | samples/boot/simple-service-provider/src/test/java/org/springframework/security/samples/SimpleServiceProviderBootTest.java:383-389 | One more succeeding segment extends the decoded pairs by its pair and the map by exactly one put. |
| QueryString.DecodeAllOfPairs | samples/boot/simple-service-provider/src/test/java/org/springframework/security/samples/SimpleServiceProviderBootTest.java:383-389 | Segments that each yield their pair make the loop yield exactly those pairs. |
| QueryString.Collect | samples/boot/simple-service-provider/src/test/java/org/springframework/security/samples/SimpleServiceProviderBootTest.java:380-389 | The map after putting the pairs in turn has unique keys, at most one entry per pair, and exactly the keys of the pairs. |
| QueryString.CollectLastWins | samples/boot/simple-service-provider/src/test/java/org/springframework/security/samples/SimpleServiceProviderBootTest.java:385-388 | Every key holds the value of its last occurrence among the pairs. |
| QueryString.CollectFirstOrder | samples/boot/simple-service-provider/src/test/java/org/springframework/security/samples/SimpleServiceProviderBootTest.java:380-385 | Keys are ordered by their first occurrence; a later duplicate does not move a key. |
| QueryString.FirstIndexOfInit | samples/boot/simple-service-provider/src/test/java/org/springframework/security/samples/SimpleServiceProviderBootTest.java:380-385 | A key present before the last pair keeps its first position when that pair is added. |
| QueryString.FirstIndex | samples/boot/simple-service-provider/src/test/java/org/springframework/security/samples/SimpleServiceProviderBootTest.java:380 | Position of the first occurrence of a key: it holds the key and no earlier position does. |
| QueryString.LastIndex | samples/boot/simple-service-provider/src/test/java/org/springframework/security/samples/SimpleServiceProviderBootTest.java:385 | Position of the last occurrence of a key: it holds the key and no later position does. |
| QueryString.FirstIndexIs | samples/boot/simple-service-provider/src/test/java/org/springframework/security/samples/SimpleServiceProviderBootTest.java:380 | A position holding the key with no earlier occurrence is the first index. |
| QueryString.LastIndexIs | samples/boot/simple-service-provider/src/test/java/org/springframework/security/samples/SimpleServiceProviderBootTest.java:385 | A position holding the key with no later occurrence is the last index. |
| QueryString.ParseQueryFailsAt | samples/boot/simple-service-provider/src/test/java/org/springframework/security/samples/SimpleServiceProviderBootTest.java:382-389 | A query whose first failing segment is i fails with the exception of segment i. |
| QueryString.MissingEqualsFails | samples/boot/simple-service-provider/src/test/java/org/springframework/security/samples/SimpleServiceProviderBootTest.java:384-386 | Any segment without "=" makes the whole query fail. |
| QueryString.QueryLastWins | samples/boot/simple-service-provider/src/test/java/org/springframework/security/samples/SimpleServiceProviderBootTest.java:382-389 | When every segment yields a pair, the query succeeds. get(k) is present exactly when some segment has key k, and then it holds the value of the last such segment. |
| QueryString.QueryFirstOrder | samples/boot/simple-service-provider/src/test/java/org/springframework/security/samples/SimpleServiceProviderBootTest.java:380-389 | The keys of such a query appear in the order of their first segment. |
| QueryString.Segment | samples/boot/simple-service-provider/src/test/java/org/springframework/security/samples/SimpleServiceProviderBootTest.java:384-388 | A percent-encoded `key=value` segment is non-empty, holds no "&", and reads back as its pair. |
| QueryString.ParseOfBuildQuery | samples/boot/simple-service-provider/src/test/java/org/springframework/security/samples/SimpleServiceProviderBootTest.java:379-391 | A query written from a non-empty list of percent-encoded ASCII parameters reads back as the map those parameters put in turn. |
| QueryString.ParseOfSegments | samples/boot/simple-service-provider/src/test/java/org/springframework/security/samples/SimpleServiceProviderBootTest.java:382-389 | A query whose segments each yield their pair reads as those pairs put in turn. |
| QueryString.RawSegment | samples/boot/simple-service-provider/src/test/java/org/springframework/security/samples/SimpleServiceProviderBootTest.java:384-388 | A raw `key=value` segment (no "%", no "&", key without "=") is non-empty, holds no "&", and reads back as its pair. |
| QueryString.ParseOfRawQuery | samples/boot/simple-service-provider/src/test/java/org/springframework/security/samples/SimpleServiceProviderBootTest.java:357-360 | A redirect query of raw parameters whose values may carry "=" padding reads back as the map those parameters put in turn, values intact. |
| QueryString.DuplicateKeyCollect | samples/boot/simple-service-provider/src/test/java/org/springframework/security/samples/SimpleServiceProviderBootTest.java:380-388 | Putting a=1, b=2, a=3 leaves a=3 first and b=2 second. |
| QueryString.InnerEmptySegmentFails | samples/boot/simple-service-provider/src/test/java/org/springframework/security/samples/SimpleServiceProviderBootTest.java:382-386 | `a=1&&b=2` fails: the middle empty segment has no "=". |
| QueryString.TrailingSeparatorQuery | samples/boot/simple-service-provider/src/test/java/org/springframework/security/samples/SimpleServiceProviderBootTest.java:382-388 | `a=1&` reads as the single entry a=1. |
| QueryString.LoneSeparatorQuery | samples/boot/simple-service-provider/src/test/java/org/springframework/security/samples/SimpleServiceProviderBootTest.java:382-383 | `&` has no segments and reads as the empty map. The empty query, by contrast, fails. |
| QueryString.TrailingSeparatorIgnored | samples/boot/simple-service-provider/src/test/java/org/springframework/security/samples/SimpleServiceProviderBootTest.java:382 | For every non-empty query, appending "&" does not change the result. |
| Strings.IndexOf | samples/boot/simple-service-provider/src/test/java/org/springframework/security/samples/SimpleServiceProviderBootTest.java:384 | -1 exactly when the character is absent; otherwise a position holding it with none before. |
| Strings.IndexOfAfter | samples/boot/simple-service-provider/src/test/java/org/springframework/security/samples/SimpleServiceProviderBootTest.java:384 | In `a + c + b` with c not in a, the first c is at \|a\|. |
| Strings.Substring | samples/boot/simple-service-provider/src/test/java/org/springframework/security/samples/SimpleServiceProviderBootTest.java:386-387 | Defined exactly when 0 <= begin <= end <= length (otherwise StringIndexOutOfBoundsException), with the characters between. |
| Strings.Fields | samples/boot/simple-service-provider/src/test/java/org/springframework/security/samples/SimpleServiceProviderBootTest.java:382 | At least one field; no field holds the separator; joining the fields gives the string back. |
| Strings.FieldsCons | samples/boot/simple-service-provider/src/test/java/org/springframework/security/samples/SimpleServiceProviderBootTest.java:382 | The text before the first separator, followed by the fields of the rest, joins back to the string. |
| Strings.JoinCons | samples/boot/simple-service-provider/src/test/java/org/springframework/security/samples/SimpleServiceProviderBootTest.java:382 | Joining one part in front of a non-empty list puts one separator after it. |
| Strings.JoinSnoc | samples/boot/simple-service-provider/src/test/java/org/springframework/security/samples/SimpleServiceProviderBootTest.java:382 | Joining one part after a non-empty list puts one separator before it. |
| Strings.FieldsOfJoin | samples/boot/simple-service-provider/src/test/java/org/springframework/security/samples/SimpleServiceProviderBootTest.java:382 | Fields undoes Join for separator-free parts. |
| Strings.DropTrailingEmpty | samples/boot/simple-service-provider/src/test/java/org/springframework/security/samples/SimpleServiceProviderBootTest.java:382 | The result is a prefix ending in a non-empty string (or empty), and everything dropped is empty. |
| Strings.Split | samples/boot/simple-service-provider/src/test/java/org/springframework/security/samples/SimpleServiceProviderBootTest.java:382 | No segment holds "&". "" splits into [""]. A non-empty string splits into its fields minus trailing empty ones. |
| Strings.SplitOfJoin | samples/boot/simple-service-provider/src/test/java/org/springframework/security/samples/SimpleServiceProviderBootTest.java:382 | Non-empty separator-free parts, joined and split again, come back unchanged. |
| Strings.SplitTrailing | samples/boot/simple-service-provider/src/test/java/org/springframework/security/samples/SimpleServiceProviderBootTest.java:382 | A final separator on a non-empty string is dropped. |
| Strings.SplitEmpty | samples/boot/simple-service-provider/src/test/java/org/springframework/security/samples/SimpleServiceProviderBootTest.java:382 | `""` splits into one empty segment. |
| Strings.SplitOnlySeparator | samples/boot/simple-service-provider/src/test/java/org/springframework/security/samples/SimpleServiceProviderBootTest.java:382 | `"&"` splits into no segments. |
| Strings.SplitTrailingSeparator | samples/boot/simple-service-provider/src/test/java/org/springframework/security/samples/SimpleServiceProviderBootTest.java:382 | `"a=1&"` splits into `["a=1"]`. |
| Strings.SplitInnerEmpty | samples/boot/simple-service-provider/src/test/java/org/springframework/security/samples/SimpleServiceProviderBootTest.java:382 | Middle and leading empty segments are kept: `a=1&&b=2` gives three segments, and `&a=1` gives two. |
| UriDecoding.Decode | samples/boot/simple-service-provider/src/test/java/org/springframework/security/samples/SimpleServiceProviderBootTest.java:386-387 | Fails only on text containing "%"; the decoded text is never longer than the input. Its exact failure condition is DecodeFailsExactly. |
| UriDecoding.DecodeFailsExactly | samples/boot/simple-service-provider/src/test/java/org/springframework/security/samples/SimpleServiceProviderBootTest.java:386-387 | Decoding fails exactly when some "%" is not followed by two hexadecimal digits (IllegalArgumentException); every other text decodes. |
| UriDecoding.MalformedShift | samples/boot/simple-service-provider/src/test/java/org/springframework/security/samples/SimpleServiceProviderBootTest.java:386-387 | Skipping a prefix that holds no malformed escape keeps exactly the malformed escapes after it. |
| UriDecoding.DecodeUnescaped | samples/boot/simple-service-provider/src/test/java/org/springframework/security/samples/SimpleServiceProviderBootTest.java:386-387 | Text without "%" decodes to itself. |
| UriDecoding.DecodeOfEncode | samples/boot/simple-service-provider/src/test/java/org/springframework/security/samples/SimpleServiceProviderBootTest.java:386-387 | Decoding undoes percent-encoding for every ASCII text, where the UTF-8 reading of the decoded octets changes nothing. |
| UriDecoding.DecodeExamples | samples/boot/simple-service-provider/src/test/java/org/springframework/security/samples/SimpleServiceProviderBootTest.java:386-387 | `%`, `a%4` and `%G0` are rejected; `%3D%3d` decodes to `==` in either case; "+" is left alone. |
| UriDecoding.EncodeChar | samples/boot/simple-service-provider/src/test/java/org/springframework/security/samples/SimpleServiceProviderBootTest.java:386-387 | An unreserved character stays itself. Any other becomes `%HH`, whose octet is that character. |
| UriDecoding.Encode | samples/boot/simple-service-provider/src/test/java/org/springframework/security/samples/SimpleServiceProviderBootTest.java:386-387 | The output holds only unreserved characters and "%", so no "&" or "=" of its own. |
| UriDecoding.IsHexDigit | samples/boot/simple-service-provider/src/test/java/org/springframework/security/samples/SimpleServiceProviderBootTest.java:386-387 | The characters Character.digit(c, 16) accepts, restricted to ASCII: 0-9, a-f, A-F. |
| UriDecoding.HexValue | samples/boot/simple-service-provider/src/test/java/org/springframework/security/samples/SimpleServiceProviderBootTest.java:386-387 | The value of a hexadecimal digit is below 16; HexValueOfDigit and HexDigit tie it to the digit it reads. |
| UriDecoding.HexValueOfDigit | samples/boot/simple-service-provider/src/test/java/org/springframework/security/samples/SimpleServiceProviderBootTest.java:386-387 | Digits are read case-insensitively: each is the upper-case digit of its value or that digit in lower case. |
| UriDecoding.HexDigit | samples/boot/simple-service-provider/src/test/java/org/springframework/security/samples/SimpleServiceProviderBootTest.java:386-387 | The digit produced is a hexadecimal digit whose value is the one given. |
| UriDecoding.Octet | samples/boot/simple-service-provider/src/test/java/org/springframework/security/samples/SimpleServiceProviderBootTest.java:386-387 | `%HH` stands for the character with code 16·H + H, below 256. |
| OrderedMaps.Keys | samples/boot/simple-service-provider/src/test/java/org/springframework/security/samples/SimpleServiceProviderBootTest.java:380 | The keys in iteration order: one per entry, at the same position. |
| OrderedMaps.Update | samples/boot/simple-service-provider/src/test/java/org/springframework/security/samples/SimpleServiceProviderBootTest.java:385 | LinkedHashMap.put on the entry list. Its properties are UpdateKeys (a present key keeps its place, a new key goes last), UpdateUnique (no key twice) and LookupUpdate (get returns the new value for k and the old one for every other key). |
| OrderedMaps.Lookup | samples/boot/simple-service-provider/src/test/java/org/springframework/security/samples/SimpleServiceProviderBootTest.java:251 | get(k) is present exactly when k is a key, and its value is stored with k. |
| OrderedMaps.UpdateKeys | samples/boot/simple-service-provider/src/test/java/org/springframework/security/samples/SimpleServiceProviderBootTest.java:385 | put leaves the key order unchanged for a present key and appends a new key last. |
| OrderedMaps.UpdateUnique | samples/boot/simple-service-provider/src/test/java/org/springframework/security/samples/SimpleServiceProviderBootTest.java:385 | put never stores a key twice. |
| OrderedMaps.KeysCons | samples/boot/simple-service-provider/src/test/java/org/springframework/security/samples/SimpleServiceProviderBootTest.java:380 | The keys of an entry in front of a list are its key in front of the list's keys. |
| OrderedMaps.LookupUpdate | samples/boot/simple-service-provider/src/test/java/org/springframework/security/samples/SimpleServiceProviderBootTest.java:385 | After put(k, v), get(k) is v and every other key reads as before. |
| OrderedMaps.LinkedMap.constructor | samples/boot/simple-service-provider/src/test/java/org/springframework/security/samples/SimpleServiceProviderBootTest.java:380 | A new LinkedHashMap is empty. |
| OrderedMaps.LinkedMap.Put | samples/boot/simple-service-provider/src/test/java/org/springframework/security/samples/SimpleServiceProviderBootTest.java:385 | put replaces the entries by `Update` of the old entries and keeps the keys unique. |
| OrderedMaps.LinkedMap.Get | samples/boot/simple-service-provider/src/test/java/org/springframework/security/samples/SimpleServiceProviderBootTest.java:360 | get on the object agrees with `Lookup` on its entries. |

## Left out

- The `@Test` methods, `setUp` and `reset`. They drive the service provider over HTTP through a Spring application context, and their behaviour lives in code this model does not include.
- `SamlTransformer` (XML, DEFLATE, base64), signing, the key store and the `Clock`. They are foreign library code, cryptography and wall-clock time.
- `java.net.URI` parsing. The model takes the value `getQuery()` returns: `None` for null, otherwise the text.
- UriUtils.decode's byte handling on text that holds a "%". There the source converts every character to bytes, keeping only the low byte of characters above 255, and reads the result as UTF-8. Multi-byte escapes then become one character, and lone octets 0x80-0xFF become U+FFFD: `%E9` gives U+FFFD and `é%41` gives U+FFFD followed by `A`. The model maps each `%HH` to the character with that code and keeps every other character. It agrees with the source on text without "%" (both return it unchanged), and on ASCII text whose escapes all spell octets below 0x80, such as the encoding of ASCII text; this is why the encoding round trips require the text given to `Encode` to be ASCII.
- UriUtils.decode's use of `Character.digit`, which also accepts non-ASCII digits. The model accepts only ASCII hexadecimal digits.
- UriDecoding.Decode: its own contract states only a necessary condition for failure and a length bound. The exact failure condition is DecodeFailsExactly; the decoded value is given by DecodeUnescaped, DecodeOfEncode and DecodeExamples.
- The hashing inside `LinkedHashMap`. The model keeps only its observable behaviour: iteration order, replacement on a repeated key, and lookup.
- The Java result is a `Map` object. The model returns its entry list in iteration order, which is the same data.
- QueryParams: an exception is a `Failure` return value. There is no stack unwinding, and the partly filled map allocated before the exception is not observable.
