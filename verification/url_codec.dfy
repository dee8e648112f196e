/** The URL-to-filename codec: `validate_and_sanitize_url`,
    `encode_url_to_filename` and `decode_filename_to_url`.

    A URL is validated, turned into its bytes, base64url-encoded and stripped
    of its '=' padding; decoding re-adds the padding the length calls for and
    inverts the transform. URLs are ASCII text, so a URL's bytes are its
    character codes. The URL validator (`validators.url`) is a parameter. */
module UrlCodec {
  import opened Failures
  import opened Base64Url

  /** Every character is a seven-bit code. */
  predicate IsAscii(s: string) {
    forall i | 0 <= i < |s| :: s[i] as int < 128
  }

  /** The bytes of ASCII text (its UTF-8 encoding). */
  function AsciiBytes(s: string): (bs: seq<Byte>)
    requires IsAscii(s)
    ensures |bs| == |s|
    ensures forall i | 0 <= i < |s| :: bs[i] == s[i] as int
  {
    seq(|s|, i requires 0 <= i < |s| => s[i] as int)
  }

  const NotAscii: string := "'utf-8' codec can't decode byte"

  /** The text of a byte sequence that holds only seven-bit codes; any other
      byte is reported as a decoding error. The text's bytes are the input. */
  function AsciiText(bs: seq<Byte>): (r: Result<string>)
    ensures r.Success? <==> forall i | 0 <= i < |bs| :: bs[i] < 128
    ensures r.Success? ==> IsAscii(r.value) && AsciiBytes(r.value) == bs
    ensures r.Failure? ==> r.error == ValueError(NotAscii)
  {
    if forall i | 0 <= i < |bs| :: bs[i] < 128 then
      Success(seq(|bs|, i requires 0 <= i < |bs| => bs[i] as char))
    else
      Failure(ValueError(NotAscii))
  }

  /** Returns the URL itself when the validator accepts it and `None` when it
      rejects it; the rejection is not an exception here, so the caller picks
      the failure policy. */
  function ValidateAndSanitizeUrl(url: string, isUrl: string -> bool): (r: Option<string>)
    ensures r.Some? <==> isUrl(url)
    ensures r.Some? ==> r.value == url
  {
    if isUrl(url) then Some(url) else None
  }

  const InvalidUrl: string := "Provided URL is invalid"

  /** A URL the validator rejects raises `ValueError("Provided URL is
      invalid")`; an accepted URL becomes a padding-free base64url name of
      ceil(4n/3) characters, all from the filename-safe alphabet. No name
      has a length one more than a multiple of four. */
  function EncodeUrlToFilename(url: string, isUrl: string -> bool): (r: Result<string>)
    requires isUrl(url) ==> IsAscii(url)
    ensures r.Failure? <==> !isUrl(url)
    ensures r.Failure? ==> r.error == ValueError(InvalidUrl)
    ensures r.Success? ==> PadChar !in r.value
    ensures r.Success? ==> |r.value| == (4 * |url| + 2) / 3
    ensures r.Success? ==> |r.value| % 4 != 1
    ensures r.Success? ==> forall i | 0 <= i < |r.value| :: IsAlphabetChar(r.value[i])
  {
    match ValidateAndSanitizeUrl(url, isUrl)
    case None => Failure(ValueError(InvalidUrl))
    case Some(sanitized) =>
      var bs := AsciiBytes(sanitized);
      StrippedEncodingIsBody(bs);
      BodyLengthNotOneModFour(|bs|);
      Success(RStrip(StdEncode(bs), PadChar))
  }

  /** Re-pads `name` by its length modulo four, decodes it and reads the
      bytes back as text. A name of length one more than a multiple of four,
      which leaves a single character in its last group, is rejected. */
  function DecodeFilenameToUrl(name: string): (r: Result<string>)
    ensures |name| % 4 == 1 ==> r.Failure?
    ensures r.Success? ==> IsAscii(r.value)
  {
    RestoredOneModFourRejected(name);
    var bytes :- StdDecode(name + Repeat(PadChar, RestoredPadLength(|name|)));
    AsciiText(bytes)
  }

  /** Decoding undoes encoding: every URL the validator accepts comes back
      unchanged from its filename. */
  lemma RoundTrip(url: string, isUrl: string -> bool)
    requires IsAscii(url) && isUrl(url)
    ensures EncodeUrlToFilename(url, isUrl).Success?
    ensures DecodeFilenameToUrl(EncodeUrlToFilename(url, isUrl).value) == Success(url)
  {
    var bs := AsciiBytes(url);
    var name := EncodeUrlToFilename(url, isUrl).value;
    StrippedEncodingIsBody(bs);
    assert name == EncodeBody(bs);
    RestoredPaddingMatches(|bs|);
    assert name + Repeat(PadChar, RestoredPadLength(|name|)) == StdEncode(bs);
    StdRoundTrip(bs);
    var text := AsciiText(bs);
    assert text.Success?;
    assert text.value == url;
  }

  /** Distinct accepted URLs get distinct filenames. */
  lemma EncodeInjective(u1: string, u2: string, isUrl: string -> bool)
    requires IsAscii(u1) && isUrl(u1)
    requires IsAscii(u2) && isUrl(u2)
    ensures u1 != u2 ==> EncodeUrlToFilename(u1, isUrl) != EncodeUrlToFilename(u2, isUrl)
  {
    RoundTrip(u1, isUrl);
    RoundTrip(u2, isUrl);
  }

  /** The URL of the codec's unit tests, its ASCII bytes, and the filename
      they decode. */
  const ExampleUrl: string := "https://example.com"
  const ExampleBytes: seq<Byte> := [104, 116, 116, 112, 115, 58, 47, 47, 101, 120, 97, 109, 112, 108, 101, 46, 99, 111, 109]
  const ExampleName: string := "aHR0cHM6Ly9leGFtcGxlLmNvbQ"

  /** The example URL is ASCII text with the bytes listed above. */
  lemma ExampleBytesOfUrl()
    ensures IsAscii(ExampleUrl) && AsciiBytes(ExampleUrl) == ExampleBytes
  {
    assert forall i | 0 <= i < |ExampleUrl| :: ExampleUrl[i] as int == ExampleBytes[i];
  }

  /** The last three groups and the final byte of the example URL. */
  lemma ExampleTailGroups()
    ensures EncodeTriple(120, 97, 109) == "eGFt"
    ensures EncodeTriple(112, 108, 101) == "cGxl"
    ensures EncodeTriple(46, 99, 111) == "LmNv"
    ensures EncodeBody([109]) == "bQ"
  {
    assert EncodeChar(30) == 'e' && EncodeChar(6) == 'G' && EncodeChar(5) == 'F' && EncodeChar(45) == 't';
    assert EncodeChar(28) == 'c' && EncodeChar(6) == 'G' && EncodeChar(49) == 'x' && EncodeChar(37) == 'l';
    assert EncodeChar(11) == 'L' && EncodeChar(38) == 'm' && EncodeChar(13) == 'N' && EncodeChar(47) == 'v';
    assert EncodeChar(27) == 'b' && EncodeChar(16) == 'Q';
  }

  /** The last fourteen characters of the example filename, regrouped. */
  lemma ExampleTailText()
    ensures ExampleName[12..] == "eGFt" + ("cGxl" + ("LmNv" + "bQ"))
  {
  }

  /** The last ten bytes of the example URL encode to the last fourteen
      characters of the example filename. */
  lemma ExampleTail()
    ensures EncodeBody(ExampleBytes[9..]) == ExampleName[12..]
  {
    var u3: seq<Byte> := [109];
    var u2 := [46, 99, 111] + u3;
    var u1 := [112, 108, 101] + u2;
    assert ExampleBytes[9..] == [120, 97, 109] + u1;
    ExampleTailGroups();
    BodyCons(46, 99, 111, u3);
    BodyCons(112, 108, 101, u2);
    BodyCons(120, 97, 109, u1);
    ExampleTailText();
  }

  /** The first three groups of the example URL. */
  lemma ExampleHeadGroups()
    ensures EncodeTriple(104, 116, 116) == "aHR0"
    ensures EncodeTriple(112, 115, 58) == "cHM6"
    ensures EncodeTriple(47, 47, 101) == "Ly9l"
  {
    assert EncodeChar(26) == 'a' && EncodeChar(7) == 'H' && EncodeChar(17) == 'R' && EncodeChar(52) == '0';
    assert EncodeChar(28) == 'c' && EncodeChar(7) == 'H' && EncodeChar(12) == 'M' && EncodeChar(58) == '6';
    assert EncodeChar(11) == 'L' && EncodeChar(50) == 'y' && EncodeChar(61) == '9' && EncodeChar(37) == 'l';
  }

  /** The first twelve characters of the example filename, regrouped. */
  lemma ExampleHeadText(tail: string)
    ensures "aHR0" + ("cHM6" + ("Ly9l" + tail)) == "aHR0cHM6Ly9l" + tail
    ensures ExampleName == "aHR0cHM6Ly9l" + ExampleName[12..]
  {
    assert "aHR0" + "cHM6" + "Ly9l" == "aHR0cHM6Ly9l";
    assert ExampleName[..12] == "aHR0cHM6Ly9l";
    assert ExampleName == ExampleName[..12] + ExampleName[12..];
  }

  /** The bytes of the example URL encode to the example filename. */
  lemma ExampleBody()
    ensures EncodeBody(ExampleBytes) == ExampleName
  {
    var t3 := ExampleBytes[9..];
    var t2 := [47, 47, 101] + t3;
    var t1 := [112, 115, 58] + t2;
    assert ExampleBytes == [104, 116, 116] + t1;
    ExampleTail();
    ExampleHeadGroups();
    BodyCons(47, 47, 101, t3);
    BodyCons(112, 115, 58, t2);
    BodyCons(104, 116, 116, t1);
    ExampleHeadText(EncodeBody(t3));
  }

  /** The URL the codec's unit tests encode yields the filename they decode,
      so that decoding is an instance of `RoundTrip`. */
  lemma ExampleVector(isUrl: string -> bool)
    requires isUrl(ExampleUrl)
    ensures EncodeUrlToFilename(ExampleUrl, isUrl) == Success(ExampleName)
    ensures DecodeFilenameToUrl(ExampleName) == Success(ExampleUrl)
  {
    ExampleBytesOfUrl();
    ExampleBody();
    StrippedEncodingIsBody(ExampleBytes);
    RoundTrip(ExampleUrl, isUrl);
  }
}
