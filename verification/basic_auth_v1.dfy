/**
 * The Basic-Auth header pipeline of BasicAuth: strip the "Basic " scheme, decode
 * the base64 text to UTF-8, split the result into email and password at the first
 * ':'. The three steps are the same, word for word, in
 * 0x01-Basic_authentication/api/v1/auth/basic_auth.py and
 * 0x02-Session_authentication/api/v1/auth/basic_auth.py, so they are modelled once.
 * A missing argument (None) is Option's None; Python's isinstance checks have no
 * counterpart because every argument here is a string or None.
 */
module BasicAuthV1 {
  import opened Wrappers
  import Base64
  import Utf8

  /** The scheme prefix, matched case-sensitively and including its single space. */
  const Scheme: string := "Basic "

  /** extract_base64_authorization_header: the text after the scheme prefix. */
  function ExtractBase64AuthorizationHeader(header: Option<string>): (r: Option<string>)
    ensures r.Some? <==> header.Some? && Scheme <= header.value
    ensures r.Some? ==> header.value == Scheme + r.value
  {
    if header.None? then None
    else if !(Scheme <= header.value) then None
    else Some(header.value[|Scheme|..])
  }

  /**
   * decode_base64_authorization_header: base64-decode, then decode the bytes as
   * UTF-8; every failure of either step, caught in the source, gives None.
   * On success the text's UTF-8 encoding is exactly the decoded bytes.
   */
  function DecodeBase64AuthorizationHeader(encoded: Option<string>): (r: Option<string>)
    ensures r.Some? ==> encoded.Some? && Base64.Decode(encoded.value) == Some(Utf8.Encode(r.value))
  {
    if encoded.None? then None
    else match Base64.Decode(encoded.value)
      case None => None
      case Some(bytes) =>
        match Utf8.Decode(bytes)
        case None => None
        case Some(text) =>
          Utf8.EncodeDecode(bytes, text);
          Some(text)
  }

  /** Position of the first ':' in a text, if any. */
  function ColonIndex(s: string): (r: Option<nat>)
    ensures r.Some? <==> ':' in s
    ensures r.Some? ==> r.value < |s| && s[r.value] == ':' && ':' !in s[..r.value]
    decreases |s|
  {
    if s == [] then None
    else if s[0] == ':' then Some(0)
    else match ColonIndex(s[1..])
      case None => None
      case Some(i) =>
        assert s[..i + 1] == [s[0]] + s[1..][..i];
        Some(i + 1)
  }

  /**
   * extract_user_credentials: split(':', 1). The email is the text before the
   * first ':', the password everything after it, further colons included.
   */
  function ExtractUserCredentials(decoded: Option<string>): (r: (Option<string>, Option<string>))
    ensures decoded.None? || ':' !in decoded.value ==> r == (None, None)
    ensures decoded.Some? && ':' in decoded.value ==>
      r.0.Some? && r.1.Some? && ':' !in r.0.value && decoded.value == r.0.value + ":" + r.1.value
  {
    if decoded.None? then (None, None)
    else match ColonIndex(decoded.value)
      case None => (None, None)
      case Some(i) =>
        var s := decoded.value;
        assert s == s[..i] + ":" + s[i + 1..];
        (Some(s[..i]), Some(s[i + 1..]))
  }

  /** Putting "Basic " in front of any text and extracting gives the text back. */
  lemma ExtractAfterScheme(s: string)
    ensures ExtractBase64AuthorizationHeader(Some(Scheme + s)) == Some(s)
  {
  }

  /** The scheme match is case-sensitive: a lower-case "basic " prefix is refused. */
  lemma LowerCaseSchemeRefused(s: string)
    ensures ExtractBase64AuthorizationHeader(Some("basic " + s)) == None
  {
    assert ("basic " + s)[0] != Scheme[0];
  }

  /** Decoding the base64 encoding of the UTF-8 bytes of any text gives back the text. */
  lemma DecodeEncodedText(t: string)
    ensures DecodeBase64AuthorizationHeader(Some(Base64.Encode(Utf8.Encode(t)))) == Some(t)
  {
    Base64.DecodeEncode(Utf8.Encode(t));
    DecodeSucceeds(Base64.Encode(Utf8.Encode(t)), t);
  }

  /**
   * Any text the base64 decoder accepts, canonical or not, whose bytes are the UTF-8
   * encoding of a text gives that text.
   */
  lemma DecodeSucceeds(s: string, t: string)
    requires Base64.Decode(s) == Some(Utf8.Encode(t))
    ensures DecodeBase64AuthorizationHeader(Some(s)) == Some(t)
  {
    Utf8.DecodeEncode(t);
  }

  /** A line break inside the header text is skipped: "YWJj\n" gives "abc". */
  lemma LineBreakSkipped()
    ensures DecodeBase64AuthorizationHeader(Some("YWJj\n")) == Some("abc")
  {
    Base64.DecodeSkipsForeignCharacter("YWJj", '\n', "");
    assert "YWJj" + ['\n'] + "" == "YWJj\n";
    assert "YWJj" + "" == "YWJj";
    AbcEncoded();
    DecodeEncodedText("abc");
  }

  lemma AbcEncoded()
    ensures Base64.Encode(Utf8.Encode("abc")) == "YWJj"
  {
    AbcBytes();
    var b := Utf8.Encode("abc");
    Base64.EncodeBlock(b);
    assert 97 / 4 == 24 && 97 % 4 * 16 + 98 / 16 == 22;
    assert 98 % 16 * 4 + 99 / 64 == 9 && 99 % 64 == 35;
    assert Base64.CharOf(24) == 'Y' && Base64.CharOf(22) == 'W';
    assert Base64.CharOf(9) == 'J' && Base64.CharOf(35) == 'j';
  }

  lemma AbcBytes()
    ensures Utf8.Encode("abc") == [97, 98, 99]
  {
    assert Utf8.Encode("c") == [99];
    assert Utf8.Encode("bc") == [98, 99];
  }

  /** Malformed base64 is refused. */
  lemma MalformedBase64Refused(s: string)
    requires Base64.Decode(s) == None
    ensures DecodeBase64AuthorizationHeader(Some(s)) == None
  {
  }

  /** Bytes that are not UTF-8 are refused: "/w==" is well-formed base64 for the single byte 0xFF. */
  lemma NonUtf8Refused()
    ensures Base64.Decode("/w==") == Some([0xFF])
    ensures DecodeBase64AuthorizationHeader(Some("/w==")) == None
  {
    Base64.ScanFour(Base64.Start, '/', 'w', '=', '=');
    var d1 := Base64.Step(Base64.Start, '/');
    assert d1 == Base64.Decoder(1, 63, 0, [], false);
    var d2 := Base64.Step(d1, 'w');
    assert d2 == Base64.Decoder(2, 0, 0, [0xFF], false);
    assert Base64.IsAscii("/w==");
    assert Utf8.DecodeFirst([0xFF]) == None;
  }

  /** A text "e:p" whose e has no ':' splits into exactly e and p, whatever p holds. */
  lemma SplitRecoversPair(e: string, p: string)
    requires ':' !in e
    ensures ExtractUserCredentials(Some(e + ":" + p)) == (Some(e), Some(p))
  {
    var s := e + ":" + p;
    assert s[|e|] == ':';
    var (e', p') := ExtractUserCredentials(Some(s));
    var x, y := e'.value, p'.value;
    assert x == s[..|x|] == e;
    assert y == s[|x| + 1..] == p;
  }
}
