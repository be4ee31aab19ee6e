/**
 * Percent-encoding of text for URLs.
 *
 * Two encoders of the system share one rule and differ in one byte:
 * Rust's `urlencoding::encode` and Python's `urllib.parse.quote_plus`
 * (used by `urlencode`) both take the UTF-8 bytes of the text, keep the
 * unreserved characters of section 2.3 of RFC 3986 (ALPHA, DIGIT, `-`,
 * `.`, `_`, `~`) and write every other byte as `%` and two upper-case hex
 * digits; `quote_plus` alone writes the space as `+`.
 */
module PercentEncoding {
  import opened Wrappers
  import Utf8

  type Byte = Utf8.Byte

  const SPACE: Byte := 0x20

  /** The unreserved characters of section 2.3 of RFC 3986. */
  predicate IsUnreservedChar(c: char) {
    'A' <= c <= 'Z' || 'a' <= c <= 'z' || '0' <= c <= '9' || c == '-' || c == '.' || c == '_' || c == '~'
  }

  predicate IsUnreserved(b: Byte) {
    b < 0x80 && IsUnreservedChar(b as char)
  }

  predicate IsUpperHexDigit(c: char) {
    '0' <= c <= '9' || 'A' <= c <= 'F'
  }

  predicate IsHexDigit(c: char) {
    IsUpperHexDigit(c) || 'a' <= c <= 'f'
  }

  function HexValue(c: char): (d: int)
    requires IsHexDigit(c)
    ensures 0 <= d < 16
  {
    if '0' <= c <= '9' then c as int - '0' as int
    else if 'A' <= c <= 'F' then c as int - 'A' as int + 10
    else c as int - 'a' as int + 10
  }

  /** The upper-case hex digit of a value below sixteen. */
  function HexDigit(d: int): (c: char)
    requires 0 <= d < 16
    ensures IsUpperHexDigit(c) && HexValue(c) == d
  {
    if d < 10 then ('0' as int + d) as char else ('A' as int + d - 10) as char
  }

  /** How one byte appears in the output. */
  function EncodeByte(b: Byte, spaceAsPlus: bool): string {
    if IsUnreserved(b) then [b as char]
    else if spaceAsPlus && b == SPACE then "+"
    else ['%', HexDigit(b / 16), HexDigit(b % 16)]
  }

  /**
   * Canonical encoded text: unreserved characters, `+` when spaces are
   * written as `+`, and `%` with two upper-case hex digits for a byte that
   * has no shorter form.
   */
  predicate Canonical(t: string, spaceAsPlus: bool)
    decreases |t|
  {
    if t == [] then true
    else if IsUnreservedChar(t[0]) || (spaceAsPlus && t[0] == '+') then Canonical(t[1..], spaceAsPlus)
    else
      && t[0] == '%' && |t| >= 3 && IsUpperHexDigit(t[1]) && IsUpperHexDigit(t[2])
      && var b := HexValue(t[1]) * 16 + HexValue(t[2]);
      && !IsUnreserved(b) && !(spaceAsPlus && b == SPACE)
      && Canonical(t[3..], spaceAsPlus)
  }

  /** The characters that can appear in encoded text. */
  predicate IsEncodedChar(c: char, spaceAsPlus: bool) {
    IsUnreservedChar(c) || c == '%' || (spaceAsPlus && c == '+')
  }

  /** The encoding of a byte string: its bytes' encodings, in order. */
  function EncodeBytes(bs: seq<Byte>, spaceAsPlus: bool): string
    decreases |bs|
  {
    if bs == [] then [] else EncodeByte(bs[0], spaceAsPlus) + EncodeBytes(bs[1..], spaceAsPlus)
  }

  /**
   * Rust's `urlencoding::encode`: canonical text that decodes back to `s`,
   * and `s` itself when it needs no escape.
   */
  function EncodeComponent(s: string): (t: string)
    ensures Canonical(t, false)
    ensures DecodeComponent(t) == Some(s)
    ensures AllUnreserved(s) ==> t == s
  {
    EncodedIsCanonical(Utf8.Encode(s), false);
    DecodeEncodeBytes(Utf8.Encode(s), false);
    Utf8.DecodeEncode(s);
    if AllUnreserved(s) then
      EncodeUnreserved(s, false);
      EncodeBytes(Utf8.Encode(s), false)
    else
      EncodeBytes(Utf8.Encode(s), false)
  }

  /**
   * Python's `urllib.parse.quote_plus` with no extra safe characters, as
   * `urlencode` calls it: canonical text in the plus form, and `s` itself
   * when it needs no escape.
   */
  function QuotePlus(s: string): (t: string)
    ensures forall i :: 0 <= i < |t| ==> IsEncodedChar(t[i], true)
  {
    EncodedIsCanonical(Utf8.Encode(s), true);
    CanonicalChars(EncodeBytes(Utf8.Encode(s), true), true);
    EncodeBytes(Utf8.Encode(s), true)
  }

  function Prepend(b: Byte, r: Option<seq<Byte>>): Option<seq<Byte>> {
    match r
    case None => None
    case Some(bs) => Some([b] + bs)
  }

  /**
   * The bytes that encoded text stands for; None when the text holds a
   * character that is neither unreserved nor an escape (or `+` in the
   * space-as-plus form), or a `%` without two hex digits after it.
   */
  function DecodeBytes(t: string, plusAsSpace: bool): Option<seq<Byte>>
    decreases |t|
  {
    if t == [] then Some([])
    else if t[0] == '%' then
      if |t| >= 3 && IsHexDigit(t[1]) && IsHexDigit(t[2])
      then Prepend(HexValue(t[1]) * 16 + HexValue(t[2]), DecodeBytes(t[3..], plusAsSpace))
      else None
    else if plusAsSpace && t[0] == '+' then Prepend(SPACE, DecodeBytes(t[1..], plusAsSpace))
    else if IsUnreservedChar(t[0]) then Prepend(t[0] as int, DecodeBytes(t[1..], plusAsSpace))
    else None
  }

  /** The inverse of EncodeComponent: percent-decoding followed by UTF-8 decoding. */
  function DecodeComponent(t: string): Option<string> {
    match DecodeBytes(t, false)
    case None => None
    case Some(bs) => Utf8.Decode(bs)
  }

  /** The inverse of QuotePlus, as `urllib.parse.unquote_plus` on well-formed input. */
  function UnquotePlus(t: string): Option<string> {
    match DecodeBytes(t, true)
    case None => None
    case Some(bs) => Utf8.Decode(bs)
  }

  /** Encoded text is canonical: only unreserved characters, `+` in the plus form, and upper-case escapes of other bytes. */
  lemma {:induction false} EncodedIsCanonical(bs: seq<Byte>, spaceAsPlus: bool)
    ensures Canonical(EncodeBytes(bs, spaceAsPlus), spaceAsPlus)
    decreases |bs|
  {
    if bs != [] {
      var head, tail := EncodeByte(bs[0], spaceAsPlus), EncodeBytes(bs[1..], spaceAsPlus);
      EncodedIsCanonical(bs[1..], spaceAsPlus);
      assert (head + tail)[|head|..] == tail;
    }
  }

  /** Canonical text contains only unreserved characters, `%` and, in the plus form, `+`. */
  lemma {:induction false} CanonicalChars(t: string, spaceAsPlus: bool)
    requires Canonical(t, spaceAsPlus)
    ensures forall i :: 0 <= i < |t| ==> IsEncodedChar(t[i], spaceAsPlus)
    decreases |t|
  {
    if t == [] {
    } else if IsUnreservedChar(t[0]) || (spaceAsPlus && t[0] == '+') {
      CanonicalChars(t[1..], spaceAsPlus);
      assert forall i :: 1 <= i < |t| ==> t[i] == t[1..][i - 1];
    } else {
      CanonicalChars(t[3..], spaceAsPlus);
      assert forall i :: 3 <= i < |t| ==> t[i] == t[3..][i - 3];
    }
  }

  /** Decoding an encoded byte string gives the bytes back. */
  lemma {:induction false} DecodeEncodeBytes(bs: seq<Byte>, spaceAsPlus: bool)
    ensures DecodeBytes(EncodeBytes(bs, spaceAsPlus), spaceAsPlus) == Some(bs)
    decreases |bs|
  {
    if bs != [] {
      var b := bs[0];
      var head, tail := EncodeByte(b, spaceAsPlus), EncodeBytes(bs[1..], spaceAsPlus);
      var t := head + tail;
      assert EncodeBytes(bs, spaceAsPlus) == t;
      assert t[|head|..] == tail;
      DecodeEncodeBytes(bs[1..], spaceAsPlus);
      if IsUnreserved(b) {
        assert t[0] == b as char;
      } else if spaceAsPlus && b == SPACE {
        assert t[0] == '+';
      } else {
        assert t[0] == '%' && t[1] == HexDigit(b / 16) && t[2] == HexDigit(b % 16);
      }
      assert [b] + bs[1..] == bs;
    }
  }

  lemma HexDigitOfValue(c: char)
    requires IsUpperHexDigit(c)
    ensures HexDigit(HexValue(c)) == c
  {
  }

  /** The first unit of canonical text (one character, or an escape of three) is the encoding of one byte. */
  lemma FirstUnit(t: string, spaceAsPlus: bool) returns (b: Byte, k: nat)
    requires t != [] && Canonical(t, spaceAsPlus)
    ensures k == (if t[0] == '%' then 3 else 1) && k <= |t|
    ensures EncodeByte(b, spaceAsPlus) == t[..k] && Canonical(t[k..], spaceAsPlus)
    ensures DecodeBytes(t, spaceAsPlus) == Prepend(b, DecodeBytes(t[k..], spaceAsPlus))
  {
    if t[0] == '%' {
      k := 3;
      b := HexValue(t[1]) * 16 + HexValue(t[2]);
      HexDigitOfValue(t[1]);
      HexDigitOfValue(t[2]);
      assert b / 16 == HexValue(t[1]) && b % 16 == HexValue(t[2]);
      assert t[..3] == ['%', t[1], t[2]];
    } else if IsUnreservedChar(t[0]) {
      k := 1;
      b := t[0] as int;
      assert t[..1] == [t[0]];
    } else {
      k := 1;
      b := SPACE;
      assert t[..1] == "+";
    }
  }

  /** Re-encoding what canonical text decodes to gives the same text: encoding is onto canonical text. */
  lemma {:induction false} EncodeDecodeBytes(t: string, spaceAsPlus: bool)
    requires Canonical(t, spaceAsPlus)
    ensures DecodeBytes(t, spaceAsPlus).Some?
    ensures EncodeBytes(DecodeBytes(t, spaceAsPlus).value, spaceAsPlus) == t
    decreases |t|
  {
    if t != [] {
      var b, k := FirstUnit(t, spaceAsPlus);
      EncodeDecodeBytes(t[k..], spaceAsPlus);
      var rest := DecodeBytes(t[k..], spaceAsPlus).value;
      var bs := [b] + rest;
      assert bs[0] == b && bs[1..] == rest;
      assert t[..k] + t[k..] == t;
    }
  }

  /** Python's encoder round-trips: unquoting `quote_plus(s)` gives `s`. */
  lemma UnquoteQuotePlus(s: string)
    ensures UnquotePlus(QuotePlus(s)) == Some(s)
  {
    DecodeEncodeBytes(Utf8.Encode(s), true);
    Utf8.DecodeEncode(s);
  }

  /** Encoded text never holds the delimiters of a query string, so it can stand as a key or a value. */
  lemma EncodedHasNoDelimiters(s: string, spaceAsPlus: bool)
    ensures '&' !in EncodeBytes(Utf8.Encode(s), spaceAsPlus)
    ensures '=' !in EncodeBytes(Utf8.Encode(s), spaceAsPlus)
  {
    var t := EncodeBytes(Utf8.Encode(s), spaceAsPlus);
    EncodedIsCanonical(Utf8.Encode(s), spaceAsPlus);
    CanonicalHasNoDelimiters(t, spaceAsPlus);
  }

  lemma CanonicalHasNoDelimiters(t: string, spaceAsPlus: bool)
    requires Canonical(t, spaceAsPlus)
    ensures '&' !in t && '=' !in t
  {
    CanonicalChars(t, spaceAsPlus);
    assert !IsEncodedChar('&', spaceAsPlus) && !IsEncodedChar('=', spaceAsPlus);
  }

  /** The encoding of a concatenation is the concatenation of the encodings. */
  lemma {:induction false} EncodeBytesAppend(a: seq<Byte>, b: seq<Byte>, spaceAsPlus: bool)
    ensures EncodeBytes(a + b, spaceAsPlus) == EncodeBytes(a, spaceAsPlus) + EncodeBytes(b, spaceAsPlus)
    decreases |a|
  {
    if a == [] {
      assert a + b == b;
    } else {
      assert (a + b)[0] == a[0] && (a + b)[1..] == a[1..] + b;
      EncodeBytesAppend(a[1..], b, spaceAsPlus);
    }
  }

  lemma EncodeTextAppend(a: string, b: string, spaceAsPlus: bool)
    ensures EncodeBytes(Utf8.Encode(a + b), spaceAsPlus)
         == EncodeBytes(Utf8.Encode(a), spaceAsPlus) + EncodeBytes(Utf8.Encode(b), spaceAsPlus)
  {
    Utf8.EncodeAppend(a, b);
    EncodeBytesAppend(Utf8.Encode(a), Utf8.Encode(b), spaceAsPlus);
  }

  /** Text made of unreserved characters only is its own encoding, in both forms. */
  lemma {:induction false} EncodeUnreserved(s: string, spaceAsPlus: bool)
    requires forall i :: 0 <= i < |s| ==> IsUnreservedChar(s[i])
    ensures EncodeBytes(Utf8.Encode(s), spaceAsPlus) == s
    decreases |s|
  {
    if s != [] {
      EncodeUnreserved(s[1..], spaceAsPlus);
      EncodeTextAppend([s[0]], s[1..], spaceAsPlus);
      assert [s[0]] + s[1..] == s;
      assert Utf8.Encode([s[0]]) == [s[0] as int];
    }
  }

  /** A single ASCII character outside the unreserved set, in either form, except the space of the plus form. */
  lemma EncodeReservedAscii(c: char, spaceAsPlus: bool)
    requires c as int < 0x80 && !IsUnreservedChar(c) && c != ' '
    ensures EncodeBytes(Utf8.Encode([c]), spaceAsPlus) == ['%', HexDigit(c as int / 16), HexDigit(c as int % 16)]
  {
    assert Utf8.Encode([c]) == [c as int];
  }

  /** Encodings of two pieces combine into the encoding of the whole. */
  lemma EncodePieces(a: string, ea: string, b: string, eb: string, spaceAsPlus: bool)
    requires EncodeBytes(Utf8.Encode(a), spaceAsPlus) == ea && EncodeBytes(Utf8.Encode(b), spaceAsPlus) == eb
    ensures EncodeBytes(Utf8.Encode(a + b), spaceAsPlus) == ea + eb
  {
    EncodeTextAppend(a, b, spaceAsPlus);
  }

  predicate AllUnreserved(s: string) {
    forall i :: 0 <= i < |s| ==> IsUnreservedChar(s[i])
  }

  /** The separators of a URL: a colon and slashes are always escaped. */
  lemma EncodeUrlSeparators(spaceAsPlus: bool)
    ensures EncodeBytes(Utf8.Encode("://"), spaceAsPlus) == "%3A%2F%2F"
    ensures EncodeBytes(Utf8.Encode("/"), spaceAsPlus) == "%2F"
  {
    EncodeReservedAscii(':', spaceAsPlus);
    EncodeReservedAscii('/', spaceAsPlus);
    EncodeTextAppend(":", "/", spaceAsPlus);
    EncodeTextAppend(":/", "/", spaceAsPlus);
  }

  /**
   * A URL `scheme://host/path` whose scheme, host and path need no escapes:
   * only the colon and the slashes are escaped, in either form.
   */
  lemma EncodeSimpleUrl(scheme: string, host: string, path: string, spaceAsPlus: bool)
    requires AllUnreserved(scheme) && AllUnreserved(host) && AllUnreserved(path)
    ensures EncodeBytes(Utf8.Encode(scheme + "://" + host + "/" + path), spaceAsPlus)
         == scheme + "%3A%2F%2F" + host + "%2F" + path
  {
    EncodeUnreserved(scheme, spaceAsPlus);
    EncodeUnreserved(host, spaceAsPlus);
    EncodeUnreserved(path, spaceAsPlus);
    EncodeUrlSeparators(spaceAsPlus);
    var sep, slash, esep, eslash := "://", "/", "%3A%2F%2F", "%2F";
    EncodePieces(scheme, scheme, sep, esep, spaceAsPlus);
    EncodePieces(scheme + sep, scheme + esep, host, host, spaceAsPlus);
    EncodePieces(scheme + sep + host, scheme + esep + host, slash, eslash, spaceAsPlus);
    EncodePieces(scheme + sep + host + slash, scheme + esep + host + eslash, path, path, spaceAsPlus);
  }
  /** `urlencoding::encode` on the default redirect URI `http://localhost/`, as the Rust unit test expects it. */
  lemma EncodeComponentExample()
    ensures EncodeComponent("http" + "://" + "localhost" + "/") == "http" + "%3A%2F%2F" + "localhost" + "%2F"
  {
    EncodeSimpleUrl("http", "localhost", "", false);
    assert "http" + "://" + "localhost" + "/" + "" == "http" + "://" + "localhost" + "/";
  }
}
