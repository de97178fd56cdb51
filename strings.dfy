/**
 * The three java.lang.String operations that queryParams relies on:
 * indexOf(char), substring(begin, end) and split(regex) for a regex that is a
 * single literal character.
 */
module Strings {
  import opened Wrappers

  /** String.indexOf: the position of the first occurrence of c, or -1. */
  function IndexOf(s: string, c: char): (i: int)
    ensures -1 <= i < |s|
    ensures i == -1 <==> c !in s
    ensures 0 <= i ==> s[i] == c && c !in s[..i]
    decreases |s|
  {
    if s == [] then -1
    else if s[0] == c then 0
    else
      var j := IndexOf(s[1..], c);
      assert s == [s[0]] + s[1..];
      if j == -1 then -1
      else
        assert s[..j + 1] == [s[0]] + s[1..][..j];
        j + 1
  }

  /** The first occurrence of c in a + [c] + b is the one right after a, when a has none. */
  lemma IndexOfAfter(a: string, c: char, b: string)
    requires c !in a
    ensures IndexOf(a + [c] + b, c) == |a|
  {
    var s := a + [c] + b;
    var i := IndexOf(s, c);
    assert s[|a|] == c;
    assert forall k :: 0 <= k < |a| ==> s[k] == a[k];
  }

  /**
   * String.substring(begin, end): defined exactly when 0 <= begin <= end <= length;
   * None stands for the StringIndexOutOfBoundsException Java throws otherwise.
   */
  function Substring(s: string, begin: int, end: int): (r: Option<string>)
    ensures r.Some? <==> 0 <= begin <= end <= |s|
    ensures r.Some? ==> |r.value| == end - begin && forall k :: 0 <= k < |r.value| ==> r.value[k] == s[begin + k]
  {
    if 0 <= begin <= end <= |s| then Some(s[begin..end]) else None
  }

  /** The inverse of Fields: the parts glued together with sep between neighbours. */
  function Join(parts: seq<string>, sep: char): string
  {
    if parts == [] then ""
    else if |parts| == 1 then parts[0]
    else parts[0] + [sep] + Join(parts[1..], sep)
  }

  /**
   * Every field between occurrences of sep, empty ones included; a string with
   * n separators has n + 1 fields.
   */
  function Fields(s: string, sep: char): (parts: seq<string>)
    ensures |parts| >= 1
    ensures forall i :: 0 <= i < |parts| ==> sep !in parts[i]
    ensures Join(parts, sep) == s
    decreases |s|
  {
    var i := IndexOf(s, sep);
    if i == -1 then [s]
    else
      var head, tail := s[..i], s[i + 1..];
      var rest := Fields(tail, sep);
      FieldsCons(s, sep, head, tail, rest);
      [head] + rest
  }

  /** One field in front of the fields of the text after the first separator. */
  lemma FieldsCons(s: string, sep: char, head: string, tail: string, rest: seq<string>)
    requires IndexOf(s, sep) == |head| && head == s[..|head|] && tail == s[|head| + 1..]
    requires |rest| >= 1 && Join(rest, sep) == tail
    requires forall i :: 0 <= i < |rest| ==> sep !in rest[i]
    ensures Join([head] + rest, sep) == s
    ensures forall i :: 0 <= i < |[head] + rest| ==> sep !in ([head] + rest)[i]
  {
    JoinCons(head, rest, sep);
    assert s == head + [sep] + tail;
  }

  /** Joining a part in front of a non-empty list puts one separator after it. */
  lemma JoinCons(head: string, rest: seq<string>, sep: char)
    requires |rest| >= 1
    ensures Join([head] + rest, sep) == head + [sep] + Join(rest, sep)
  {
    assert ([head] + rest)[1..] == rest;
  }

  /** Splitting a joined list of separator-free parts gives the parts back. */
  lemma {:induction false} FieldsOfJoin(parts: seq<string>, sep: char)
    requires |parts| >= 1
    requires forall i :: 0 <= i < |parts| ==> sep !in parts[i]
    ensures Fields(Join(parts, sep), sep) == parts
  {
    if |parts| > 1 {
      var head, tail := parts[0], parts[1..];
      var rest := Join(tail, sep);
      var s := head + [sep] + rest;
      assert parts == [head] + tail;
      JoinCons(head, tail, sep);
      IndexOfAfter(head, sep, rest);
      assert s[..|head|] == head;
      assert s[|head| + 1..] == rest;
      FieldsOfJoin(tail, sep);
    }
  }

  /**
   * The longest prefix of parts that does not end in an empty string: what
   * String.split with the default limit does to the fields it found.
   */
  function DropTrailingEmpty(parts: seq<string>): (r: seq<string>)
    ensures r <= parts
    ensures r == [] || r[|r| - 1] != ""
    ensures forall i :: |r| <= i < |parts| ==> parts[i] == ""
  {
    if parts != [] && parts[|parts| - 1] == "" then DropTrailingEmpty(parts[..|parts| - 1])
    else parts
  }

  /**
   * String.split(regex) with the default limit 0, for a regex that matches the
   * single character sep: a string without sep splits into itself (so "" gives
   * [""]), otherwise the fields lose their trailing empty strings.
   */
  function Split(s: string, sep: char): (parts: seq<string>)
    ensures forall i :: 0 <= i < |parts| ==> sep !in parts[i]
    ensures s == "" ==> parts == [""]
    ensures s != "" ==> parts == DropTrailingEmpty(Fields(s, sep))
  {
    if sep !in s then [s] else DropTrailingEmpty(Fields(s, sep))
  }

  /** Non-empty, separator-free parts survive a join followed by a split. */
  lemma SplitOfJoin(parts: seq<string>, sep: char)
    requires |parts| >= 1
    requires forall i :: 0 <= i < |parts| ==> parts[i] != "" && sep !in parts[i]
    ensures Split(Join(parts, sep), sep) == parts
  {
    var s := Join(parts, sep);
    assert |parts| > 1 ==> s == parts[0] + [sep] + Join(parts[1..], sep);
    assert s != "" by {
      assert |parts| == 1 ==> s == parts[0];
      assert |parts[0]| > 0;
    }
    FieldsOfJoin(parts, sep);
    var r := DropTrailingEmpty(parts);
    assert parts[|parts| - 1] != "";
  }

  /** Joining one more part appends a separator and that part. */
  lemma {:induction false} JoinSnoc(parts: seq<string>, x: string, sep: char)
    requires |parts| >= 1
    ensures Join(parts + [x], sep) == Join(parts, sep) + [sep] + x
  {
    var all := parts + [x];
    assert all[1..] == parts[1..] + [x];
    if |parts| > 1 {
      JoinSnoc(parts[1..], x, sep);
    } else {
      assert all[1..] == [x];
    }
  }

  /** A final separator on a non-empty string is dropped by split. */
  lemma SplitTrailing(s: string, sep: char)
    requires s != ""
    ensures Split(s + [sep], sep) == Split(s, sep)
  {
    var parts := Fields(s, sep);
    JoinSnoc(parts, "", sep);
    assert Join(parts + [""], sep) == s + [sep];
    FieldsOfJoin(parts + [""], sep);
    assert (parts + [""])[..|parts|] == parts;
  }

  /** Without a separator a string split is itself, the empty string included. */
  lemma SplitEmpty()
    ensures Split("", '&') == [""]
  {
  }

  /** A query made only of a separator splits into no segments at all. */
  lemma SplitOnlySeparator()
    ensures Split("&", '&') == []
  {
    var parts := ["", ""];
    assert parts[1..] == [""];
    assert Join(parts, '&') == "&";
    FieldsOfJoin(parts, '&');
    assert DropTrailingEmpty(parts) == DropTrailingEmpty([""]);
  }

  /** A final separator is dropped. */
  lemma SplitTrailingSeparator()
    ensures Split("a=1&", '&') == ["a=1"]
  {
    var parts := ["a=1", ""];
    assert parts[1..] == [""];
    assert Join(parts, '&') == "a=1&";
    FieldsOfJoin(parts, '&');
    assert parts[..1] == ["a=1"];
  }

  /** An empty segment between two separators is kept, and so is a leading one. */
  lemma SplitInnerEmpty()
    ensures Split("a=1&&b=2", '&') == ["a=1", "", "b=2"]
    ensures Split("&a=1", '&') == ["", "a=1"]
  {
    var parts := ["a=1", "", "b=2"];
    assert parts[1..] == ["", "b=2"];
    assert parts[1..][1..] == ["b=2"];
    assert Join(parts, '&') == "a=1&&b=2";
    FieldsOfJoin(parts, '&');
    var lead := ["", "a=1"];
    assert lead[1..] == ["a=1"];
    assert Join(lead, '&') == "&a=1";
    FieldsOfJoin(lead, '&');
  }
}
