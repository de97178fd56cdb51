/**
 * Percent-decoding as UriUtils.decode performs it on each half of a query
 * parameter: "%" followed by two hexadecimal digits stands for the octet they
 * spell (section 2.1 of RFC 3986); every other character stands for itself; a
 * "%" without two hexadecimal digits after it is an error (Java's
 * IllegalArgumentException, here None).
 */
module UriDecoding {
  import opened Wrappers

  /** The characters Character.digit(c, 16) accepts, ASCII only. */
  predicate IsHexDigit(c: char) {
    '0' <= c <= '9' || 'a' <= c <= 'f' || 'A' <= c <= 'F'
  }

  /** Character.digit(c, 16) on an ASCII hexadecimal digit. */
  function HexValue(c: char): (v: nat)
    requires IsHexDigit(c)
    ensures v < 16
  {
    if '0' <= c <= '9' then c as int - '0' as int
    else if 'a' <= c <= 'f' then c as int - 'a' as int + 10
    else c as int - 'A' as int + 10
  }

  /** The upper-case digit that section 2.1 of RFC 3986 recommends producers use. */
  function HexDigit(v: nat): (c: char)
    requires v < 16
    ensures IsHexDigit(c) && HexValue(c) == v
  {
    if v < 10 then ('0' as int + v) as char else ('A' as int + v - 10) as char
  }

  /**
   * Digits are read case-insensitively: every hexadecimal digit is the
   * upper-case digit of its value, or that digit's lower-case form.
   */
  lemma HexValueOfDigit(c: char)
    requires IsHexDigit(c)
    ensures !('a' <= c <= 'f') ==> HexDigit(HexValue(c)) == c
    ensures 'a' <= c <= 'f' ==> HexDigit(HexValue(c)) == (c as int - 32) as char
  {
  }

  /** The character whose code is the octet spelled by two hexadecimal digits. */
  function Octet(hi: char, lo: char): (c: char)
    requires IsHexDigit(hi) && IsHexDigit(lo)
    ensures c as int == 16 * HexValue(hi) + HexValue(lo) < 256
  {
    (16 * HexValue(hi) + HexValue(lo)) as char
  }

  /** The unreserved characters of section 2.3 of RFC 3986. */
  predicate IsUnreserved(c: char) {
    'a' <= c <= 'z' || 'A' <= c <= 'Z' || '0' <= c <= '9' || c == '-' || c == '.' || c == '_' || c == '~'
  }

  /**
   * Every character of s is ASCII. Encoding such text escapes only octets
   * below 0x80, so the octets decoded from it are the characters of the text
   * themselves, with nothing for a UTF-8 reading to change.
   */
  predicate IsAscii(s: string) {
    forall i :: 0 <= i < |s| ==> s[i] as int < 128
  }

  /**
   * UriUtils.decode: scans left to right, replacing each "%HH" by its octet;
   * None when some "%" is not followed by two hexadecimal digits.
   */
  function Decode(s: string): (r: Option<string>)
    ensures r.None? ==> '%' in s
    ensures r.Some? ==> |r.value| <= |s|
    decreases |s|
  {
    if s == [] then Some([])
    else if s[0] != '%' then
      match Decode(s[1..])
      case None => None
      case Some(rest) => Some([s[0]] + rest)
    else if 3 <= |s| && IsHexDigit(s[1]) && IsHexDigit(s[2]) then
      match Decode(s[3..])
      case None => None
      case Some(rest) => Some([Octet(s[1], s[2])] + rest)
    else None
  }

  /** Text without "%" decodes to itself. */
  lemma {:induction false} DecodeUnescaped(s: string)
    requires '%' !in s
    ensures Decode(s) == Some(s)
  {
    if s != [] {
      assert '%' !in s[1..];
      DecodeUnescaped(s[1..]);
      assert s == [s[0]] + s[1..];
    }
  }

  /** A "%" at position i that is not followed by two hexadecimal digits. */
  predicate IsMalformedEscapeAt(s: string, i: nat)
    requires i < |s|
  {
    s[i] == '%' && !(i + 2 < |s| && IsHexDigit(s[i + 1]) && IsHexDigit(s[i + 2]))
  }

  /** Decode fails exactly when some "%" lacks two hexadecimal digits after it. */
  lemma {:induction false} DecodeFailsExactly(s: string)
    ensures Decode(s).None? <==> exists i :: 0 <= i < |s| && IsMalformedEscapeAt(s, i)
    decreases |s|
  {
    if s == [] {
    } else if s[0] != '%' {
      DecodeFailsExactly(s[1..]);
      MalformedShift(s, 1);
    } else if 3 <= |s| && IsHexDigit(s[1]) && IsHexDigit(s[2]) {
      DecodeFailsExactly(s[3..]);
      MalformedShift(s, 3);
      assert !IsMalformedEscapeAt(s, 0) && s[1] != '%' && s[2] != '%';
    } else {
      assert IsMalformedEscapeAt(s, 0);
    }
  }

  /**
   * Dropping the first d characters, none of them a malformed escape, keeps
   * exactly the malformed escapes after them.
   */
  lemma MalformedShift(s: string, d: nat)
    requires 1 <= d <= |s|
    requires forall i :: 0 <= i < d ==> !IsMalformedEscapeAt(s, i)
    ensures (exists i :: 0 <= i < |s[d..]| && IsMalformedEscapeAt(s[d..], i))
        <==> (exists i :: 0 <= i < |s| && IsMalformedEscapeAt(s, i))
  {
    var t := s[d..];
    forall i | 0 <= i < |t|
      ensures IsMalformedEscapeAt(t, i) <==> IsMalformedEscapeAt(s, i + d)
    {
      assert t[i] == s[i + d];
      if i + 2 < |t| {
        assert t[i + 1] == s[i + d + 1] && t[i + 2] == s[i + d + 2];
      }
    }
    if exists i :: 0 <= i < |s| && IsMalformedEscapeAt(s, i) {
      var i :| 0 <= i < |s| && IsMalformedEscapeAt(s, i);
      assert i >= d;
      assert IsMalformedEscapeAt(t, i - d);
    }
  }

  /** One character as its encoding writes it: itself if unreserved, else "%HH". */
  function EncodeChar(c: char): (r: string)
    requires c as int < 256
    ensures IsUnreserved(c) ==> r == [c]
    ensures !IsUnreserved(c) ==> |r| == 3 && r[0] == '%' && IsHexDigit(r[1]) && IsHexDigit(r[2]) && Octet(r[1], r[2]) == c
  {
    if IsUnreserved(c) then [c] else ['%', HexDigit(c as int / 16), HexDigit(c as int % 16)]
  }

  /**
   * Percent-encoding of ASCII text, escaping every character that is not
   * unreserved; the output holds no "&", "=" or "+" of its own.
   */
  function Encode(s: string): (r: string)
    requires IsAscii(s)
    ensures forall i :: 0 <= i < |r| ==> r[i] == '%' || IsUnreserved(r[i])
  {
    if s == [] then [] else EncodeChar(s[0]) + Encode(s[1..])
  }

  /** Decode undoes Encode. */
  lemma {:induction false} DecodeOfEncode(s: string)
    requires IsAscii(s)
    ensures Decode(Encode(s)) == Some(s)
  {
    if s != [] {
      var head := EncodeChar(s[0]);
      var tail := Encode(s[1..]);
      DecodeOfEncode(s[1..]);
      var e := head + tail;
      assert Encode(s) == e;
      if IsUnreserved(s[0]) {
        assert e[0] == s[0] && e[1..] == tail;
      } else {
        assert e[0] == '%' && e[1] == head[1] && e[2] == head[2] && e[3..] == tail;
      }
      assert s == [s[0]] + s[1..];
    }
  }

  /** The malformed escapes UriUtils.decode rejects, and two well-formed ones. */
  lemma DecodeExamples()
    ensures Decode("%") == None
    ensures Decode("a%4") == None
    ensures Decode("%G0") == None
    ensures Decode("%3D%3d") == Some("==")
    ensures Decode("a+b") == Some("a+b")
  {
    assert "a%4"[1..] == "%4";
    assert Decode("%4") == None;
    assert Octet('3', 'D') == '=';
    assert Octet('3', 'd') == '=';
    assert "%3d"[3..] == "" && "%3d"[1] == '3' && "%3d"[2] == 'd';
    assert Decode("") == Some("");
    assert [Octet('3', 'd')] + "" == "=";
    assert Decode("%3d") == Some("=");
    assert "%3D%3d"[1] == '3' && "%3D%3d"[2] == 'D';
    assert [Octet('3', 'D')] + "=" == "==";
    assert "%3D%3d"[3..] == "%3d";
    DecodeUnescaped("a+b");
  }
}
