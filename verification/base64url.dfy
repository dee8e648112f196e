/** Base64 with the URL- and filename-safe alphabet of section 5 of RFC 4648
    ('-' and '_' in place of '+' and '/'), over byte sequences.

    `StdEncode` and `StdDecode` are the padded transforms of section 4 of
    RFC 4648. `StdEncode` is Python's `urlsafe_b64encode`; `StdDecode` is a
    strict form of `urlsafe_b64decode` that rejects some texts Python's
    non-strict decoder accepts (see `StdDecode`);
    `EncodeBody` is the padding-free text, and `RStrip` is Python's
    `str.rstrip` for one character, which the filename codec uses to drop
    the '=' padding of section 3.2. */
module Base64Url {
  import opened Failures

  /** An octet. */
  type Byte = x: int | 0 <= x < 256

  /** A six-bit group: the value of one character of the alphabet. */
  type Sextet = x: int | 0 <= x < 64

  /** The padding character of section 3.2 of RFC 4648. */
  const PadChar: char := '='

  /** The character for a six-bit value, per Table 2 of RFC 4648. */
  function EncodeChar(v: Sextet): (c: char)
    ensures c != PadChar
  {
    if v < 26 then ('A' as int + v) as char
    else if v < 52 then ('a' as int + (v - 26)) as char
    else if v < 62 then ('0' as int + (v - 52)) as char
    else if v == 62 then '-'
    else '_'
  }

  /** The value of an alphabet character; `None` for any other character,
      the padding character included. */
  function DecodeChar(c: char): (r: Option<Sextet>)
    ensures r.Some? ==> EncodeChar(r.value) == c
    ensures c == PadChar ==> r.None?
  {
    if 'A' <= c <= 'Z' then Some(c as int - 'A' as int)
    else if 'a' <= c <= 'z' then Some(c as int - 'a' as int + 26)
    else if '0' <= c <= '9' then Some(c as int - '0' as int + 52)
    else if c == '-' then Some(62)
    else if c == '_' then Some(63)
    else None
  }

  /** Every six-bit value is recovered from its character. */
  lemma CharRoundTrip(v: Sextet)
    ensures DecodeChar(EncodeChar(v)) == Some(v)
  {
  }

  predicate IsAlphabetChar(c: char) {
    DecodeChar(c).Some?
  }

  /** Three bytes as four characters. */
  function EncodeTriple(a: Byte, b: Byte, c: Byte): string {
    [EncodeChar(a / 4), EncodeChar((a % 4) * 16 + b / 16), EncodeChar((b % 16) * 4 + c / 64), EncodeChar(c % 64)]
  }

  /** A final two bytes as three characters (the fourth would be padding). */
  function EncodePair(a: Byte, b: Byte): string {
    [EncodeChar(a / 4), EncodeChar((a % 4) * 16 + b / 16), EncodeChar((b % 16) * 4)]
  }

  /** A final single byte as two characters (the last two would be padding). */
  function EncodeSingle(a: Byte): string {
    [EncodeChar(a / 4), EncodeChar((a % 4) * 16)]
  }

  /** The base64url text of `bs` without padding: ceil(4n/3) characters, all
      from the alphabet. */
  function EncodeBody(bs: seq<Byte>): (s: string)
    ensures |s| == (4 * |bs| + 2) / 3
    ensures forall i | 0 <= i < |s| :: IsAlphabetChar(s[i])
    decreases |bs|
  {
    if |bs| == 0 then ""
    else if |bs| == 1 then EncodeSingle(bs[0])
    else if |bs| == 2 then EncodePair(bs[0], bs[1])
    else EncodeTriple(bs[0], bs[1], bs[2]) + EncodeBody(bs[3..])
  }

  /** Encoding peels off three bytes at a time. */
  lemma BodyCons(a: Byte, b: Byte, c: Byte, rest: seq<Byte>)
    ensures EncodeBody([a, b, c] + rest) == EncodeTriple(a, b, c) + EncodeBody(rest)
  {
    assert ([a, b, c] + rest)[3..] == rest;
  }

  /** `k` copies of `c`. */
  function Repeat(c: char, k: nat): (s: string)
    ensures |s| == k
    ensures forall i | 0 <= i < k :: s[i] == c
  {
    seq(k, _ => c)
  }

  /** How many padding characters the padded encoding of `n` bytes ends with. */
  function PadLength(n: nat): nat {
    (3 - n % 3) % 3
  }

  /** The padded encoding (Python's `urlsafe_b64encode`): a multiple of four
      characters, the body followed by zero, one or two '='. */
  function StdEncode(bs: seq<Byte>): string {
    EncodeBody(bs) + Repeat(PadChar, PadLength(|bs|))
  }

  /** Three more bytes need the same padding. */
  lemma PadLengthShift(n: nat)
    ensures PadLength(n + 3) == PadLength(n)
  {
    assert (n + 3) % 3 == n % 3;
  }

  /** Python's `s.rstrip(c)`: the longest prefix of `s` that does not end in
      `c` and after which `s` holds only `c`. */
  function RStrip(s: string, c: char): (r: string)
    ensures |r| <= |s| && r == s[..|r|]
    ensures forall i | |r| <= i < |s| :: s[i] == c
    ensures |r| == 0 || r[|r| - 1] != c
    decreases |s|
  {
    if |s| > 0 && s[|s| - 1] == c then RStrip(s[..|s| - 1], c) else s
  }

  /** Stripping a run of `c` from text that does not end in `c` gives the text
      back: `RStrip` removes exactly what was appended. */
  lemma {:induction false} RStripAppended(t: string, c: char, k: nat)
    requires |t| == 0 || t[|t| - 1] != c
    ensures RStrip(t + Repeat(c, k), c) == t
    decreases k
  {
    var s := t + Repeat(c, k);
    if k == 0 {
      assert s == t;
    } else {
      assert s[|s| - 1] == c;
      assert s[..|s| - 1] == t + Repeat(c, k - 1);
      RStripAppended(t, c, k - 1);
    }
  }

  /** The padded encoding of `bs` with its padding stripped is exactly the
      body: no '=' is left, and nothing else is removed. */
  lemma StrippedEncodingIsBody(bs: seq<Byte>)
    ensures RStrip(StdEncode(bs), PadChar) == EncodeBody(bs)
  {
    var t := EncodeBody(bs);
    if |t| > 0 {
      assert IsAlphabetChar(t[|t| - 1]);
    }
    RStripAppended(t, PadChar, PadLength(|bs|));
  }

  /** Decodes one four-character group of a padded encoding: four alphabet
      characters give three bytes, "xxx=" two, "xx==" one; anything else is
      rejected. Low-order bits left over before the padding are ignored, as
      Python's non-strict decoder ignores them. */
  function DecodeQuad(q: string): (r: Option<seq<Byte>>)
    requires |q| == 4
    ensures r.Some? ==> 1 <= |r.value| <= 3
    ensures r.Some? && |r.value| == 3 ==> forall i | 0 <= i < 4 :: IsAlphabetChar(q[i])
  {
    var c0, c1, c2, c3 := DecodeChar(q[0]), DecodeChar(q[1]), DecodeChar(q[2]), DecodeChar(q[3]);
    if c0.None? || c1.None? then None
    else if q[2] == PadChar && q[3] == PadChar then
      Some([c0.value * 4 + c1.value / 16])
    else if c2.None? then None
    else if q[3] == PadChar then
      Some([c0.value * 4 + c1.value / 16, (c1.value % 16) * 16 + c2.value / 4])
    else if c3.None? then None
    else
      Some([c0.value * 4 + c1.value / 16, (c1.value % 16) * 16 + c2.value / 4, (c2.value % 4) * 64 + c3.value])
  }

  const IncorrectPadding: string := "Incorrect padding"
  const InvalidCharacters: string := "Invalid base64-encoded string"

  /** The padded decoding, a strict form of Python's `urlsafe_b64decode`:
      whole groups of four characters, padding only in the last group; a
      shorter group left at the end is incorrect padding. Every three bytes
      decoded take four characters. Python's non-strict decoder also accepts
      '+' and '/', skips other characters outside the alphabet and skips an
      '=' that starts a group (so "====" decodes to nothing there); this
      decoder rejects all of those. */
  function StdDecode(s: string): (r: Result<seq<Byte>>)
    ensures r.Success? ==> 4 * |r.value| <= 3 * |s|
    decreases |s|
  {
    if |s| == 0 then Success([])
    else if |s| < 4 then Failure(ValueError(IncorrectPadding))
    else
      match DecodeQuad(s[..4])
      case None => Failure(ValueError(InvalidCharacters))
      case Some(head) =>
        if |s| > 4 && |head| < 3 then Failure(ValueError(InvalidCharacters))
        else
          var tail :- StdDecode(s[4..]);
          Success(head + tail)
  }

  /** A six-bit value built from high and low parts splits back into them. */
  lemma SplitSextet(hi: int, lo: int, k: int)
    requires k == 4 || k == 16
    requires 0 <= lo < k
    ensures (hi * k + lo) / k == hi && (hi * k + lo) % k == lo
  {
  }

  /** Three bytes come back from their four characters. */
  lemma TripleRoundTrip(a: Byte, b: Byte, c: Byte)
    ensures DecodeQuad(EncodeTriple(a, b, c)) == Some([a, b, c])
  {
    SplitSextet(a % 4, b / 16, 16);
    SplitSextet(b % 16, c / 64, 4);
    CharRoundTrip(a / 4);
    CharRoundTrip((a % 4) * 16 + b / 16);
    CharRoundTrip((b % 16) * 4 + c / 64);
    CharRoundTrip(c % 64);
  }

  /** A final pair comes back from its three characters and one '='. */
  lemma PairRoundTrip(a: Byte, b: Byte)
    ensures DecodeQuad(EncodePair(a, b) + [PadChar]) == Some([a, b])
  {
    SplitSextet(a % 4, b / 16, 16);
    SplitSextet(b % 16, 0, 4);
    CharRoundTrip(a / 4);
    CharRoundTrip((a % 4) * 16 + b / 16);
    CharRoundTrip((b % 16) * 4);
  }

  /** A final byte comes back from its two characters and two '='. */
  lemma SingleRoundTrip(a: Byte)
    ensures DecodeQuad(EncodeSingle(a) + [PadChar, PadChar]) == Some([a])
  {
    CharRoundTrip(a / 4);
    CharRoundTrip((a % 4) * 16);
  }

  /** The encoding of a lone byte, padded, decodes to that byte. */
  lemma DecodeFinalSingle(a: Byte)
    ensures StdDecode(EncodeSingle(a) + [PadChar, PadChar]) == Success([a])
  {
    var s := EncodeSingle(a) + [PadChar, PadChar];
    SingleRoundTrip(a);
    assert s[..4] == s;
    assert StdDecode(s[4..]) == Success([]);
    assert [a] + [] == [a];
  }

  /** The encoding of a final pair, padded, decodes to that pair. */
  lemma DecodeFinalPair(a: Byte, b: Byte)
    ensures StdDecode(EncodePair(a, b) + [PadChar]) == Success([a, b])
  {
    var s := EncodePair(a, b) + [PadChar];
    PairRoundTrip(a, b);
    assert s[..4] == s;
    assert StdDecode(s[4..]) == Success([]);
    assert [a, b] + [] == [a, b];
  }

  /** A group of four alphabet characters in front of any decodable text
      contributes its three bytes in front of that text's bytes. */
  lemma DecodeGroupThenRest(a: Byte, b: Byte, c: Byte, t: string, rest: seq<Byte>)
    requires StdDecode(t) == Success(rest)
    ensures StdDecode(EncodeTriple(a, b, c) + t) == Success([a, b, c] + rest)
  {
    TripleRoundTrip(a, b, c);
    DecodeQuadThenRest(EncodeTriple(a, b, c), [a, b, c], t, rest);
  }

  /** A full group followed by decodable text decodes to the group's bytes
      followed by the text's bytes. */
  lemma DecodeQuadThenRest(q: string, head: seq<Byte>, t: string, rest: seq<Byte>)
    requires |q| == 4 && DecodeQuad(q) == Some(head) && |head| == 3
    requires StdDecode(t) == Success(rest)
    ensures StdDecode(q + t) == Success(head + rest)
  {
    var s := q + t;
    assert s[..4] == q;
    assert s[4..] == t;
  }

  /** The padded encoding of one or two bytes is their group plus padding. */
  lemma StdEncodeFinal(bs: seq<Byte>)
    requires 1 <= |bs| <= 2
    ensures |bs| == 1 ==> StdEncode(bs) == EncodeSingle(bs[0]) + [PadChar, PadChar]
    ensures |bs| == 2 ==> StdEncode(bs) == EncodePair(bs[0], bs[1]) + [PadChar]
  {
    if |bs| == 1 {
      assert Repeat(PadChar, PadLength(1)) == [PadChar, PadChar];
    } else {
      assert Repeat(PadChar, PadLength(2)) == [PadChar];
    }
  }

  /** The padded encoding of three or more bytes starts with the group of the
      first three. */
  lemma StdEncodeCons(bs: seq<Byte>)
    requires |bs| >= 3
    ensures StdEncode(bs) == EncodeTriple(bs[0], bs[1], bs[2]) + StdEncode(bs[3..])
  {
    PadLengthShift(|bs| - 3);
    assert EncodeBody(bs) == EncodeTriple(bs[0], bs[1], bs[2]) + EncodeBody(bs[3..]);
  }

  /** Round trip for the empty sequence and a final one or two bytes. */
  lemma StdRoundTripShort(bs: seq<Byte>)
    requires |bs| <= 2
    ensures StdDecode(StdEncode(bs)) == Success(bs)
  {
    if |bs| == 0 {
      assert StdEncode(bs) == "";
    } else if |bs| == 1 {
      StdEncodeFinal(bs);
      DecodeFinalSingle(bs[0]);
      assert bs == [bs[0]];
    } else {
      StdEncodeFinal(bs);
      DecodeFinalPair(bs[0], bs[1]);
      assert bs == [bs[0], bs[1]];
    }
  }

  /** Round trip for three more bytes in front of bytes that round-trip. */
  lemma StdRoundTripStep(bs: seq<Byte>)
    requires |bs| >= 3
    requires StdDecode(StdEncode(bs[3..])) == Success(bs[3..])
    ensures StdDecode(StdEncode(bs)) == Success(bs)
  {
    var rest := bs[3..];
    StdEncodeCons(bs);
    DecodeGroupThenRest(bs[0], bs[1], bs[2], StdEncode(rest), rest);
    assert bs == [bs[0], bs[1], bs[2]] + rest;
  }

  /** The padded decoding inverts the padded encoding. */
  lemma {:induction false} StdRoundTrip(bs: seq<Byte>)
    ensures StdDecode(StdEncode(bs)) == Success(bs)
    decreases |bs|
  {
    if |bs| <= 2 {
      StdRoundTripShort(bs);
    } else {
      StdRoundTrip(bs[3..]);
      StdRoundTripStep(bs);
    }
  }

  /** A padded text whose third-to-last character is '=' is rejected: no
      group can hold three '='. */
  lemma {:induction false} TriplePadRejected(s: string)
    requires |s| >= 3
    requires s[|s| - 3] == PadChar
    ensures StdDecode(s).Failure?
    decreases |s|
  {
    if |s| < 4 {
    } else if |s| == 4 {
      assert s[..4][1] == PadChar;
    } else if DecodeQuad(s[..4]).Some? && |DecodeQuad(s[..4]).value| == 3 && |s| >= 7 {
      var t := s[4..];
      assert t[|t| - 3] == PadChar;
      TriplePadRejected(t);
    }
  }

  /** How many '=' the filename decoder appends to restore the padding of a
      text of `n` characters. */
  function RestoredPadLength(n: nat): nat {
    (4 - n % 4) % 4
  }

  /** A re-padded name of length one more than a multiple of four ends in
      three '=', which the decoder rejects. */
  lemma RestoredOneModFourRejected(name: string)
    ensures |name| % 4 == 1 ==> StdDecode(name + Repeat(PadChar, RestoredPadLength(|name|))).Failure?
  {
    if |name| % 4 == 1 {
      var padded := name + Repeat(PadChar, RestoredPadLength(|name|));
      assert padded[|padded| - 3] == PadChar;
      TriplePadRejected(padded);
    }
  }

  /** The unpadded encoding never has a length one more than a multiple of
      four. */
  lemma BodyLengthNotOneModFour(n: nat)
    ensures (4 * n + 2) / 3 % 4 != 1
  {
    var q, r := n / 3, n % 3;
    assert n == 3 * q + r;
    if r == 0 {
      assert (4 * n + 2) / 3 == 4 * q;
    } else if r == 1 {
      assert (4 * n + 2) / 3 == 4 * q + 2;
    } else {
      assert (4 * n + 2) / 3 == 4 * q + 3;
    }
  }

  /** Re-padding by length restores exactly the padding the encoder produced. */
  lemma RestoredPaddingMatches(n: nat)
    ensures RestoredPadLength((4 * n + 2) / 3) == PadLength(n)
  {
    var q, r := n / 3, n % 3;
    assert n == 3 * q + r;
    if r == 0 {
      assert (4 * n + 2) / 3 == 4 * q;
    } else if r == 1 {
      assert (4 * n + 2) / 3 == 4 * q + 2;
    } else {
      assert (4 * n + 2) / 3 == 4 * q + 3;
    }
  }
}
