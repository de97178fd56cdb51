/**
 * queryParams(URI): reads the query component of a redirect's Location into an
 * insertion-ordered map. The query is split on "&"; each segment is cut at its
 * first "="; key and value are percent-decoded separately and put into a
 * LinkedHashMap, a repeated key overwriting the earlier value in place.
 *
 * ParseQuery is the functional meaning; QueryParams is the loop, proved to
 * compute it.
 */
module QueryString {
  import opened Wrappers
  import opened Strings
  import opened UriDecoding
  import opened OrderedMaps

  /** The exceptions that end queryParams. */
  datatype Error =
    | NullQuery                                               // getQuery() returned null: NullPointerException at split
    | SubstringOutOfRange(text: string, begin: int, end: int) // StringIndexOutOfBoundsException from substring
    | MalformedEscape(text: string)                           // IllegalArgumentException from UriUtils.decode

  /** substring, with Java's exception as a Failure. */
  function Cut(s: string, begin: int, end: int): (r: Result<string, Error>)
    ensures r.Success? <==> 0 <= begin <= end <= |s|
    ensures r.Success? ==> |r.value| == end - begin && forall k :: 0 <= k < |r.value| ==> r.value[k] == s[begin + k]
    ensures r.Failure? ==> r.error == SubstringOutOfRange(s, begin, end)
  {
    match Substring(s, begin, end)
    case None => Failure(SubstringOutOfRange(s, begin, end))
    case Some(t) => Success(t)
  }

  /** UriUtils.decode, with Java's exception as a Failure. */
  function DecodeText(s: string): (r: Result<string, Error>)
    ensures r.Failure? <==> exists i :: 0 <= i < |s| && IsMalformedEscapeAt(s, i)
    ensures r.Failure? ==> r.error == MalformedEscape(s)
    ensures '%' !in s ==> r == Success(s)
  {
    DecodeFailsExactly(s);
    assert '%' !in s ==> Decode(s) == Some(s) by {
      if '%' !in s {
        DecodeUnescaped(s);
      }
    }
    match Decode(s)
    case None => Failure(MalformedEscape(s))
    case Some(t) => Success(t)
  }

  /**
   * The body of the loop for one segment, in Java's evaluation order: indexOf,
   * substring(0, idx), decode, substring(idx + 1), decode.
   */
  function SplitPair(segment: string): (r: Result<Pair, Error>)
    ensures '=' !in segment ==> r == Failure(SubstringOutOfRange(segment, 0, -1))
  {
    var idx := IndexOf(segment, '=');
    var rawKey :- Cut(segment, 0, idx);
    var key :- DecodeText(rawKey);
    var rawValue :- Cut(segment, idx + 1, |segment|);
    var value :- DecodeText(rawValue);
    Success((key, value))
  }

  /**
   * A segment is cut at its first "=": the key is the decoded text before it,
   * the value the decoded text after it, further "=" characters included.
   */
  lemma SplitPairAtFirstEquals(k: string, v: string)
    requires '=' !in k
    ensures Decode(k).None? ==> SplitPair(k + ['='] + v) == Failure(MalformedEscape(k))
    ensures Decode(k).Some? && Decode(v).None? ==> SplitPair(k + ['='] + v) == Failure(MalformedEscape(v))
    ensures Decode(k).Some? && Decode(v).Some? ==> SplitPair(k + ['='] + v) == Success((Decode(k).value, Decode(v).value))
  {
    var s := k + ['='] + v;
    IndexOfAfter(k, '=', v);
    assert s[0..|k|] == k;
    assert s[|k| + 1..|s|] == v;
    assert Cut(s, 0, |k|) == Success(k);
    assert Cut(s, |k| + 1, |s|) == Success(v);
  }

  /** Base64 padding in a value survives: only the first "=" separates. */
  lemma PaddingSurvives(k: string, v: string)
    requires '=' !in k && '%' !in k && '%' !in v
    ensures SplitPair(k + ['='] + v) == Success((k, v))
  {
    SplitPairAtFirstEquals(k, v);
    DecodeUnescaped(k);
    DecodeUnescaped(v);
  }

  /**
   * The loop over all segments, without the map: either every segment yields
   * its pair, or the first segment that fails decides the exception.
   */
  function DecodeAll(segments: seq<string>): (r: Result<seq<Pair>, Error>)
    ensures r.Success? ==> |r.value| == |segments|
    ensures r.Success? ==> forall i :: 0 <= i < |segments| ==> SplitPair(segments[i]) == Success(r.value[i])
    ensures r.Failure? ==> exists i :: 0 <= i < |segments| && SplitPair(segments[i]) == Failure(r.error) && forall j :: 0 <= j < i ==> SplitPair(segments[j]).Success?
  {
    if segments == [] then Success([])
    else
      var n := |segments| - 1;
      var init := segments[..n];
      assert forall i :: 0 <= i < n ==> init[i] == segments[i];
      var done :- DecodeAll(init);
      var p :- SplitPair(segments[n]);
      Success(done + [p])
  }

  /** A failing segment after succeeding ones decides the exception of the whole loop. */
  lemma DecodeAllStops(segments: seq<string>, i: nat)
    requires i < |segments|
    requires forall j :: 0 <= j < i ==> SplitPair(segments[j]).Success?
    requires SplitPair(segments[i]).Failure?
    ensures DecodeAll(segments) == Failure(SplitPair(segments[i]).error)
  {
    var r := DecodeAll(segments);
    assert r.Failure?;
    var i' :| 0 <= i' < |segments| && SplitPair(segments[i']) == Failure(r.error) && forall j :: 0 <= j < i' ==> SplitPair(segments[j]).Success?;
    assert i' == i;
  }

  /** One more succeeding segment extends both the decoded pairs and the map by one put. */
  lemma DecodeAllStep(segments: seq<string>, i: nat, decoded: seq<Pair>, p: Pair)
    requires i < |segments|
    requires DecodeAll(segments[..i]) == Success(decoded)
    requires SplitPair(segments[i]) == Success(p)
    ensures DecodeAll(segments[..i + 1]) == Success(decoded + [p])
    ensures Collect(decoded + [p]) == Update(Collect(decoded), p.0, p.1)
  {
    assert segments[..i + 1][..i] == segments[..i] && segments[..i + 1][i] == segments[i];
    assert (decoded + [p])[..|decoded|] == decoded;
  }

  /** The map the loop leaves behind: each pair put in turn into an empty LinkedHashMap. */
  function Collect(pairs: seq<Pair>): (m: seq<Pair>)
    ensures UniqueKeys(m)
    ensures |m| <= |pairs|
    ensures forall k :: k in Keys(m) <==> k in Keys(pairs)
  {
    if pairs == [] then []
    else
      var n := |pairs| - 1;
      assert Keys(pairs) == Keys(pairs[..n]) + [pairs[n].0];
      UpdateKeys(Collect(pairs[..n]), pairs[n].0, pairs[n].1);
      UpdateUnique(Collect(pairs[..n]), pairs[n].0, pairs[n].1);
      Update(Collect(pairs[..n]), pairs[n].0, pairs[n].1)
  }

  /** Position of the first occurrence of k in ks. */
  function FirstIndex(ks: seq<string>, k: string): (i: nat)
    requires k in ks
    ensures i < |ks| && ks[i] == k
    ensures forall t :: 0 <= t < i ==> ks[t] != k
  {
    if ks[0] == k then 0 else 1 + FirstIndex(ks[1..], k)
  }

  /** Position of the last occurrence of k in ks. */
  function LastIndex(ks: seq<string>, k: string): (i: nat)
    requires k in ks
    ensures i < |ks| && ks[i] == k
    ensures forall t :: i < t < |ks| ==> ks[t] != k
  {
    var n := |ks| - 1;
    if ks[n] == k then n
    else
      assert k in ks[..n] by {
        var t :| 0 <= t < |ks| && ks[t] == k;
        assert ks[..n][t] == k;
      }
      LastIndex(ks[..n], k)
  }

  lemma FirstIndexIs(ks: seq<string>, k: string, i: nat)
    requires i < |ks| && ks[i] == k
    requires forall t :: 0 <= t < i ==> ks[t] != k
    ensures FirstIndex(ks, k) == i
  {
  }

  lemma LastIndexIs(ks: seq<string>, k: string, i: nat)
    requires i < |ks| && ks[i] == k
    requires forall t :: i < t < |ks| ==> ks[t] != k
    ensures LastIndex(ks, k) == i
  {
  }

  /** A later duplicate overwrites: every key holds the value of its last occurrence. */
  lemma {:induction false} CollectLastWins(pairs: seq<Pair>, k: string)
    requires k in Keys(pairs)
    ensures Lookup(Collect(pairs), k) == Some(pairs[LastIndex(Keys(pairs), k)].1)
  {
    var n := |pairs| - 1;
    var init := pairs[..n];
    var last := pairs[n];
    var ks := Keys(pairs);
    assert Collect(pairs) == Update(Collect(init), last.0, last.1);
    LookupUpdate(Collect(init), last.0, last.1, k);
    if last.0 == k {
      LastIndexIs(ks, k, n);
    } else {
      var i := LastIndex(ks, k);
      assert init[i] == pairs[i];
      assert Keys(init)[i] == k;
      CollectLastWins(init, k);
      var j := LastIndex(Keys(init), k);
      assert init[j] == pairs[j];
      forall t | j < t < |ks| ensures ks[t] != k {
        if t < n {
          assert Keys(init)[t] == ks[t];
        }
      }
      LastIndexIs(ks, k, j);
    }
  }

  /**
   * Keys keep the order of their first occurrence: a later duplicate does not
   * move a key.
   */
  lemma {:induction false} CollectFirstOrder(pairs: seq<Pair>)
    ensures var ks, order := Keys(pairs), Keys(Collect(pairs));
      forall a, b :: 0 <= a < b < |order| ==> FirstIndex(ks, order[a]) < FirstIndex(ks, order[b])
  {
    if pairs != [] {
      var n := |pairs| - 1;
      var init := pairs[..n];
      var last := pairs[n];
      var ks := Keys(pairs);
      var before := Keys(Collect(init));
      var order := Keys(Collect(pairs));
      assert Collect(pairs) == Update(Collect(init), last.0, last.1);
      CollectFirstOrder(init);
      UpdateKeys(Collect(init), last.0, last.1);
      assert order == if last.0 in before then before else before + [last.0];
      forall a, b | 0 <= a < b < |order|
        ensures FirstIndex(ks, order[a]) < FirstIndex(ks, order[b])
      {
        assert order[a] == before[a] && before[a] in before;
        FirstIndexOfInit(pairs, order[a]);
        if b < |before| {
          assert order[b] == before[b] && before[b] in before;
          FirstIndexOfInit(pairs, order[b]);
        } else {
          assert order[b] == last.0 && last.0 !in Keys(init);
          forall t | 0 <= t < n ensures ks[t] != last.0 {
            assert init[t] == pairs[t];
            assert Keys(init)[t] == ks[t];
          }
          FirstIndexIs(ks, last.0, n);
        }
      }
    }
  }

  /** A key already present before the last pair keeps its first position. */
  lemma FirstIndexOfInit(pairs: seq<Pair>, k: string)
    requires pairs != [] && k in Keys(pairs[..|pairs| - 1])
    ensures FirstIndex(Keys(pairs), k) == FirstIndex(Keys(pairs[..|pairs| - 1]), k)
  {
    var init := pairs[..|pairs| - 1];
    var i := FirstIndex(Keys(init), k);
    assert init[i] == pairs[i];
    forall t | 0 <= t < i ensures Keys(pairs)[t] != k {
      assert init[t] == pairs[t];
    }
    FirstIndexIs(Keys(pairs), k, i);
  }

  /**
   * queryParams on the value of getQuery(): null fails at split, otherwise
   * every segment of split("&") is decoded and put in turn.
   */
  function ParseQuery(query: Option<string>): (r: Result<seq<Pair>, Error>)
    ensures query.None? ==> r == Failure(NullQuery)
    ensures query == Some("") ==> r == Failure(SubstringOutOfRange("", 0, -1))
    ensures r.Success? ==> query.Some? && UniqueKeys(r.value) && |r.value| <= |Split(query.value, '&')|
  {
    match query
    case None => Failure(NullQuery)
    case Some(q) =>
      var pairs :- DecodeAll(Split(q, '&'));
      Success(Collect(pairs))
  }

  /**
   * The query fails exactly when some segment fails, and then with the
   * exception of the first failing segment.
   */
  lemma ParseQueryFailsAt(q: string, i: nat)
    requires i < |Split(q, '&')|
    requires forall j :: 0 <= j < i ==> SplitPair(Split(q, '&')[j]).Success?
    requires SplitPair(Split(q, '&')[i]).Failure?
    ensures ParseQuery(Some(q)) == Failure(SplitPair(Split(q, '&')[i]).error)
  {
    DecodeAllStops(Split(q, '&'), i);
  }

  /** A segment without "=" anywhere in the query makes it fail. */
  lemma {:induction false} MissingEqualsFails(q: string, i: nat)
    requires i < |Split(q, '&')| && '=' !in Split(q, '&')[i]
    ensures ParseQuery(Some(q)).Failure?
  {
  }

  /**
   * The result of a query whose segments all yield pairs: a key is present
   * exactly when some segment yields it, and it holds the value of the last
   * such segment.
   */
  lemma QueryLastWins(q: string, pairs: seq<Pair>, k: string)
    requires DecodeAll(Split(q, '&')) == Success(pairs)
    ensures ParseQuery(Some(q)).Success?
    ensures Lookup(ParseQuery(Some(q)).value, k).Some? <==> k in Keys(pairs)
    ensures k in Keys(pairs) ==> Lookup(ParseQuery(Some(q)).value, k) == Some(pairs[LastIndex(Keys(pairs), k)].1)
  {
    if k in Keys(pairs) {
      CollectLastWins(pairs, k);
    }
  }

  /** The keys of such a query appear in the order of their first segment. */
  lemma QueryFirstOrder(q: string, pairs: seq<Pair>)
    requires DecodeAll(Split(q, '&')) == Success(pairs)
    ensures ParseQuery(Some(q)).Success?
    ensures var order := Keys(ParseQuery(Some(q)).value);
      forall a, b :: 0 <= a < b < |order| ==> FirstIndex(Keys(pairs), order[a]) < FirstIndex(Keys(pairs), order[b])
  {
    assert ParseQuery(Some(q)) == Success(Collect(pairs));
    CollectFirstOrder(pairs);
  }

  /** Segments that each yield their pair make the whole loop yield those pairs. */
  lemma DecodeAllOfPairs(segments: seq<string>, ps: seq<Pair>)
    requires |segments| == |ps|
    requires forall i :: 0 <= i < |segments| ==> SplitPair(segments[i]) == Success(ps[i])
    ensures DecodeAll(segments) == Success(ps)
  {
    var r := DecodeAll(segments);
    assert r.Success?;
    assert r.value == ps;
  }

  /** One parameter as a redirect writes it: encoded key, "=", encoded value. */
  function Segment(p: Pair): (s: string)
    requires IsAscii(p.0) && IsAscii(p.1)
    ensures s != "" && '&' !in s
    ensures SplitPair(s) == Success(p)
  {
    var k, v := Encode(p.0), Encode(p.1);
    var s := k + ['='] + v;
    assert s[|k|] == '=';
    assert '&' !in k && '&' !in v && '=' !in k;
    DecodeOfEncode(p.0);
    DecodeOfEncode(p.1);
    SplitPairAtFirstEquals(k, v);
    s
  }

  /** A query string written from a list of parameters, joined with "&". */
  function BuildQuery(ps: seq<Pair>): string
    requires forall i :: 0 <= i < |ps| ==> IsAscii(ps[i].0) && IsAscii(ps[i].1)
  {
    Join(seq(|ps|, i requires 0 <= i < |ps| => Segment(ps[i])), '&')
  }

  /**
   * Reading back a query written from a non-empty list of parameters puts
   * each parameter in turn: the map a LinkedHashMap would hold after those puts.
   */
  lemma ParseOfBuildQuery(ps: seq<Pair>)
    requires |ps| >= 1
    requires forall i :: 0 <= i < |ps| ==> IsAscii(ps[i].0) && IsAscii(ps[i].1)
    ensures ParseQuery(Some(BuildQuery(ps))) == Success(Collect(ps))
  {
    var segs := seq(|ps|, i requires 0 <= i < |ps| => Segment(ps[i]));
    SplitOfJoin(segs, '&');
    DecodeAllOfPairs(segs, ps);
  }

  /** A query whose segments each yield their pair reads as those pairs put in turn. */
  lemma ParseOfSegments(q: string, ps: seq<Pair>)
    requires |Split(q, '&')| == |ps|
    requires forall i :: 0 <= i < |ps| ==> SplitPair(Split(q, '&')[i]) == Success(ps[i])
    ensures ParseQuery(Some(q)) == Success(Collect(ps))
  {
    DecodeAllOfPairs(Split(q, '&'), ps);
  }

  /**
   * A query written raw, as the redirects of the tests carry SAMLRequest,
   * SAMLResponse and RelayState: keys without "=", nothing escaped, no "&".
   * Its values may hold any number of "=", such as base64 padding.
   */
  predicate IsRawParameter(p: Pair) {
    '=' !in p.0 && '%' !in p.0 && '&' !in p.0 && '%' !in p.1 && '&' !in p.1
  }

  /** One raw parameter as "key=value". */
  function RawSegment(p: Pair): (s: string)
    requires IsRawParameter(p)
    ensures s != "" && '&' !in s
    ensures SplitPair(s) == Success(p)
  {
    var s := p.0 + ['='] + p.1;
    assert s[|p.0|] == '=';
    PaddingSurvives(p.0, p.1);
    s
  }

  /** A raw query reads back as its parameters put in turn, padding intact. */
  lemma ParseOfRawQuery(ps: seq<Pair>)
    requires |ps| >= 1
    requires forall i :: 0 <= i < |ps| ==> IsRawParameter(ps[i])
    ensures ParseQuery(Some(Join(seq(|ps|, i requires 0 <= i < |ps| => RawSegment(ps[i])), '&'))) == Success(Collect(ps))
  {
    var segs := seq(|ps|, i requires 0 <= i < |ps| => RawSegment(ps[i]));
    SplitOfJoin(segs, '&');
    DecodeAllOfPairs(segs, ps);
  }

  /** The base64 padding of a SAMLRequest stays in its value. */
  lemma SamlRequestPair()
    ensures SplitPair("SAMLRequest=fZJN==") == Success(("SAMLRequest", "fZJN=="))
  {
    assert "SAMLRequest=fZJN==" == "SAMLRequest" + ['='] + "fZJN==";
    PaddingSurvives("SAMLRequest", "fZJN==");
  }

  /** A plain parameter such as a RelayState. */
  lemma RelayStatePair()
    ensures SplitPair("RelayState=x") == Success(("RelayState", "x"))
  {
    assert "RelayState=x" == "RelayState" + ['='] + "x";
    PaddingSurvives("RelayState", "x");
  }

  /** A repeated key keeps its first place and takes its last value. */
  lemma DuplicateKeyCollect()
    ensures Collect([("a", "1"), ("b", "2"), ("a", "3")]) == [("a", "3"), ("b", "2")]
  {
    var ps := [("a", "1"), ("b", "2"), ("a", "3")];
    assert ps[..1] == [ps[0]] && [ps[0]][..0] == [];
    assert Collect([ps[0]]) == [ps[0]];
    assert ps[..2] == [ps[0], ps[1]] && [ps[0], ps[1]][..1] == [ps[0]];
    assert [ps[0]][1..] == [];
    assert "a"[0] != "b"[0];
    assert Update([ps[0]], "b", "2") == [ps[0]] + [ps[1]];
    assert Collect(ps[..2]) == [ps[0], ps[1]];
    assert [ps[0], ps[1]][1..] == [ps[1]];
    assert Update([ps[0], ps[1]], "a", "3") == [("a", "3")] + [ps[1]];
  }

  /**
   * Decoding comes after the cut: an escaped "=" in the key and an escaped "&"
   * in the value are plain characters of the result, not separators.
   */
  lemma EscapesDecodedAfterCut(segment: string)
    // the literal is bound to a parameter so the verifier unfolds it only where the proof asks
    requires segment == "k%3D=v%26w"
    ensures SplitPair(segment) == Success(("k=", "v&w"))
  {
    var k, v := "k%3D", "v%26w";
    assert segment == k + ['='] + v;
    EscapedEqualsDecodes(k);
    EscapedAmpersandDecodes(v);
    SplitPairAtFirstEquals(k, v);
  }

  /** "%3D" is an escaped "=". */
  lemma EscapedEqualsDecodes(k: string)
    // the literal is bound to a parameter so the verifier unfolds it only where the proof asks
    requires k == "k%3D"
    ensures Decode(k) == Some("k=")
  {
    var e := "%3D";
    assert k[0] == 'k' && k[1..] == e;
    assert e[0] == '%' && IsHexDigit(e[1]) && IsHexDigit(e[2]) && e[3..] == [];
    assert Decode(e[3..]) == Some([]);
    assert e[1] == '3' && e[2] == 'D' && Octet('3', 'D') == '=';
    assert [Octet(e[1], e[2])] + [] == "=";
    assert Decode(e) == Some("=");
    assert ['k'] + "=" == "k=";
  }

  /** "%26" is an escaped "&". */
  lemma EscapedAmpersandDecodes(v: string)
    // the literal is bound to a parameter so the verifier unfolds it only where the proof asks
    requires v == "v%26w"
    ensures Decode(v) == Some("v&w")
  {
    var e := "%26w";
    assert v[0] == 'v' && v[1..] == e;
    assert e[0] == '%' && IsHexDigit(e[1]) && IsHexDigit(e[2]) && e[3..] == "w";
    DecodeUnescaped("w");
    assert e[1] == '2' && e[2] == '6' && Octet('2', '6') == '&';
    assert [Octet(e[1], e[2])] + "w" == "&w";
    assert Decode(e) == Some("&w");
    assert ['v'] + "&w" == "v&w";
  }

  /** The plain segment of the trailing-separator example. */
  lemma SimplePairs()
    ensures SplitPair("a=1") == Success(("a", "1"))
  {
    assert "a=1" == "a" + ['='] + "1";
    PaddingSurvives("a", "1");
  }

  /** An empty segment between two "&" makes the query fail at substring(0, -1). */
  lemma InnerEmptySegmentFails(q: string)
    // the literal is bound to a parameter so the verifier unfolds it only where the proof asks
    requires q == "a=1&&b=2"
    ensures ParseQuery(Some(q)).Failure?
  {
    SplitInnerEmpty();
    MissingEqualsFails(q, 1);
  }

  /** A final "&" adds nothing: "a=1&" reads as "a=1". */
  lemma TrailingSeparatorQuery(q: string)
    // the literal is bound to a parameter so the verifier unfolds it only where the proof asks
    requires q == "a=1&"
    ensures ParseQuery(Some(q)) == Success([("a", "1")])
  {
    SplitTrailingSeparator();
    SimplePairs();
    ParseOfSegments(q, [("a", "1")]);
  }

  /** A lone "&" has no segments at all and reads as the empty map, unlike "". */
  lemma LoneSeparatorQuery(q: string)
    // the literal is bound to a parameter so the verifier unfolds it only where the proof asks
    requires q == "&"
    ensures ParseQuery(Some(q)) == Success([])
    ensures ParseQuery(Some("")).Failure?
  {
    SplitOnlySeparator();
    ParseOfSegments(q, []);
  }

  /** Appending "&" to a non-empty query never changes what it reads as. */
  lemma TrailingSeparatorIgnored(q: string)
    requires q != ""
    ensures ParseQuery(Some(q + ['&'])) == ParseQuery(Some(q))
  {
    SplitTrailing(q, '&');
  }

  /**
   * One pass of the loop body up to the put: idx = pair.indexOf("="), then the
   * two substring and decode calls, any of which may throw.
   */
  method ReadPair(pair: string) returns (r: Result<Pair, Error>)
    ensures r == SplitPair(pair)
  {
    var idx := IndexOf(pair, '=');
    var rawKey := Substring(pair, 0, idx);
    if rawKey.None? {
      return Failure(SubstringOutOfRange(pair, 0, idx));
    }
    var key := Decode(rawKey.value);
    if key.None? {
      return Failure(MalformedEscape(rawKey.value));
    }
    var rawValue := Substring(pair, idx + 1, |pair|);
    if rawValue.None? {
      return Failure(SubstringOutOfRange(pair, idx + 1, |pair|));
    }
    var value := Decode(rawValue.value);
    if value.None? {
      return Failure(MalformedEscape(rawValue.value));
    }
    return Success((key.value, value.value));
  }

  /** queryParams(URI): the loop of the source, filling a LinkedMap in place. */
  method QueryParams(query: Option<string>) returns (result: Result<seq<Pair>, Error>)
    ensures result == ParseQuery(query)
  {
    var queryPairs := new LinkedMap();
    if query.None? {
      return Failure(NullQuery);
    }
    var pairs := Split(query.value, '&');
    ghost var decoded: seq<Pair> := [];
    for i := 0 to |pairs|
      invariant queryPairs.Valid()
      invariant DecodeAll(pairs[..i]) == Success(decoded)
      invariant queryPairs.entries == Collect(decoded)
    {
      var entry := ReadPair(pairs[i]);
      if entry.Failure? {
        forall j | 0 <= j < i ensures SplitPair(pairs[j]).Success? {
          assert pairs[..i][j] == pairs[j];
        }
        DecodeAllStops(pairs, i);
        return Failure(entry.error);
      }
      DecodeAllStep(pairs, i, decoded, entry.value);
      queryPairs.Put(entry.value.0, entry.value.1);
      decoded := decoded + [entry.value];
    }
    assert pairs[..|pairs|] == pairs;
    return Success(queryPairs.entries);
  }
}
