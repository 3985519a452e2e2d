/** The text of the MJPEG stream: the `multipart/x-mixed-replace` content
    type, the boundary delimiter between parts (section 5.1.1 of RFC 2046)
    and the per-part header carrying the image length, formatted by
    `snprintf` into a 64-byte buffer. Image bytes are carried as characters
    of the same code. */
module Multipart {
  import opened Common

  const PartBoundary: string := "_--FRAME--"
  const ContentTypePrefix: string := "multipart/x-mixed-replace;boundary="
  const StreamContentType: string := ContentTypePrefix + PartBoundary

  /** The delimiter sent after every image: CRLF, two hyphens, the
      boundary, CRLF. */
  const StreamBoundary: string := "\r\n--" + PartBoundary + "\r\n"

  const HeaderPrefix: string := "Content-Type: image/jpeg\r\nContent-Length: "
  const HeaderSuffix: string := "\r\n\r\n"

  /** Size of the stack buffer the part header is formatted into. */
  const HeaderBufferSize: nat := 64

  // ---------------------------------------------------------------------
  // Decimal numerals (the `%u` conversion)
  // ---------------------------------------------------------------------

  predicate IsDigit(ch: char) {
    '0' <= ch <= '9'
  }

  function DigitChar(d: int): (ch: char)
    requires 0 <= d < 10
    ensures IsDigit(ch)
  {
    ['0', '1', '2', '3', '4', '5', '6', '7', '8', '9'][d]
  }

  function DigitValue(ch: char): (d: int)
    requires IsDigit(ch)
    ensures 0 <= d < 10
  {
    ch as int - '0' as int
  }

  lemma DigitRoundTrip(d: int)
    requires 0 <= d < 10
    ensures DigitValue(DigitChar(d)) == d
  {
  }

  predicate AllDigits(s: string) {
    forall i :: 0 <= i < |s| ==> IsDigit(s[i])
  }

  /** `%u`: the shortest decimal numeral of `n`, most significant digit
      first. */
  function Decimal(n: nat): (s: string)
    ensures 1 <= |s| && AllDigits(s)
    ensures |s| > 1 ==> s[0] != '0'
  {
    if n < 10 then [DigitChar(n)] else Decimal(n / 10) + [DigitChar(n % 10)]
  }

  /** Reading a numeral back, as a client reading `Content-Length` does. */
  function ParseDecimal(s: string): nat
    requires AllDigits(s)
  {
    if |s| == 0 then 0 else 10 * ParseDecimal(s[..|s| - 1]) + DigitValue(s[|s| - 1])
  }

  lemma {:induction false} DecimalRoundTrip(n: nat)
    ensures ParseDecimal(Decimal(n)) == n
  {
    var s := Decimal(n);
    if n < 10 {
      DigitRoundTrip(n);
      assert s[..0] == [];
    } else {
      DecimalRoundTrip(n / 10);
      DigitRoundTrip(n % 10);
      assert s[..|s| - 1] == Decimal(n / 10);
    }
  }

  function Pow10(k: nat): (p: nat)
    ensures p >= 1
  {
    if k == 0 then 1 else 10 * Pow10(k - 1)
  }

  /** A number below 10^k has at most k digits. */
  lemma {:induction false} DecimalLength(n: nat, k: nat)
    requires 1 <= k && n < Pow10(k)
    ensures |Decimal(n)| <= k
  {
    if n >= 10 {
      assert k >= 2;
      assert n / 10 < Pow10(k - 1);
      DecimalLength(n / 10, k - 1);
    }
  }

  // ---------------------------------------------------------------------
  // The part header
  // ---------------------------------------------------------------------

  /** The header preceding each image of `len` bytes. */
  function PartHeader(len: nat): string {
    HeaderPrefix + Decimal(len) + HeaderSuffix
  }

  /** The header opens with the content type and ends with the blank line
      that closes it, and the `Content-Length` digits between them read
      back as `len`. */
  lemma PartHeaderAnnouncesLength(len: nat)
    ensures var h := PartHeader(len);
      |h| >= |HeaderPrefix| + |HeaderSuffix| && h[..|HeaderPrefix|] == HeaderPrefix
      && h[|h| - |HeaderSuffix|..] == HeaderSuffix
      && AllDigits(h[|HeaderPrefix|..|h| - |HeaderSuffix|])
      && ParseDecimal(h[|HeaderPrefix|..|h| - |HeaderSuffix|]) == len
  {
    DecimalRoundTrip(len);
    var h := PartHeader(len);
    assert h[|HeaderPrefix|..|h| - |HeaderSuffix|] == Decimal(len);
  }

  /** `snprintf(buf, size, …)` with the full formatted text `text`: the
      buffer receives at most `size - 1` characters and the call returns
      the length the text would have had. */
  datatype Formatted = Formatted(stored: string, returned: nat)

  function Snprintf(size: nat, text: string): (f: Formatted)
    requires size >= 1
    ensures |f.stored| <= size - 1
    ensures f.stored <= text
    ensures f.returned == |text|
    ensures |text| < size ==> f.stored == text
  {
    Formatted(if |text| < size then text else text[..size - 1], |text|)
  }

  /** Every image length representable in the 32-bit `size_t` of the
      target gives a header that fits the 64-byte buffer, so the length the
      handler sends is the length of the complete header it stored. */
  lemma PartHeaderFits(len: nat)
    requires len < 0x1_0000_0000
    ensures |PartHeader(len)| <= 56 < HeaderBufferSize
    ensures Snprintf(HeaderBufferSize, PartHeader(len)) == Formatted(PartHeader(len), |PartHeader(len)|)
  {
    assert Pow10(10) == 10000000000;
    DecimalLength(len, 10);
    assert |HeaderPrefix| == 42;
  }

  /** Reads the digits at the front of `s`. */
  function DigitPrefix(s: string): (n: nat)
    ensures n <= |s|
    ensures AllDigits(s[..n])
    ensures n < |s| ==> !IsDigit(s[n])
  {
    if |s| == 0 || !IsDigit(s[0]) then 0
    else
      var k := DigitPrefix(s[1..]);
      assert s[..1 + k] == [s[0]] + s[1..][..k];
      1 + k
  }

  lemma {:induction false} DigitPrefixOfNumeral(d: string, rest: string)
    requires AllDigits(d)
    requires |rest| > 0 && !IsDigit(rest[0])
    ensures DigitPrefix(d + rest) == |d|
  {
    if |d| > 0 {
      assert (d + rest)[1..] == d[1..] + rest;
      DigitPrefixOfNumeral(d[1..], rest);
    } else {
      assert d + rest == rest;
    }
  }

  /** Splits one part off the front of a stream: its header, exactly
      `Content-Length` bytes of image, and the delimiter. Returns the image
      and the remainder of the stream. */
  function ParsePart(s: string): Option<(string, string)> {
    if |s| < |HeaderPrefix| || s[..|HeaderPrefix|] != HeaderPrefix then None
    else
      var t := s[|HeaderPrefix|..];
      var k := DigitPrefix(t);
      if k == 0 then None
      else
        var u := t[k..];
        if |u| < |HeaderSuffix| || u[..|HeaderSuffix|] != HeaderSuffix then None
        else
          var n := ParseDecimal(t[..k]);
          var v := u[|HeaderSuffix|..];
          if |v| < n + |StreamBoundary| || v[n..n + |StreamBoundary|] != StreamBoundary then None
          else Some((v[..n], v[n + |StreamBoundary|..]))
  }

  /** One part as the stream handler sends it. */
  function Part(image: string): string {
    PartHeader(|image|) + image + StreamBoundary
  }

  /** The stream is self-delimiting: a receiver reading the header, then
      `Content-Length` bytes, then the delimiter recovers the image exactly,
      whatever bytes the image contains. */
  lemma PartRoundTrip(image: string, rest: string)
    ensures ParsePart(Part(image) + rest) == Some((image, rest))
  {
    PartHeaderParses(image, rest);
    var v := image + (StreamBoundary + rest);
    assert v[..|image|] == image;
    assert v[|image|..|image| + |StreamBoundary|] == StreamBoundary;
    assert v[|image| + |StreamBoundary|..] == rest;
  }

  /** The header of a part reads back: the prefix, a numeral of the image
      length, and the blank line, leaving the image and what follows it. */
  lemma PartHeaderParses(image: string, rest: string)
    ensures var s := Part(image) + rest;
      |s| >= |HeaderPrefix| && s[..|HeaderPrefix|] == HeaderPrefix
      && var t := s[|HeaderPrefix|..];
         var k := DigitPrefix(t);
         k == |Decimal(|image|)| && k > 0
         && ParseDecimal(t[..k]) == |image|
         && |t[k..]| >= |HeaderSuffix| && t[k..][..|HeaderSuffix|] == HeaderSuffix
         && t[k..][|HeaderSuffix|..] == image + (StreamBoundary + rest)
  {
    var s := Part(image) + rest;
    var d := Decimal(|image|);
    assert s == HeaderPrefix + (d + (HeaderSuffix + (image + (StreamBoundary + rest))));
    var t := s[|HeaderPrefix|..];
    assert t == d + (HeaderSuffix + (image + (StreamBoundary + rest)));
    DigitPrefixOfNumeral(d, HeaderSuffix + (image + (StreamBoundary + rest)));
    assert t[..|d|] == d;
    DecimalRoundTrip(|image|);
    assert t[|d|..] == HeaderSuffix + (image + (StreamBoundary + rest));
  }

  /** The stream of a sequence of images. */
  function Stream(images: seq<string>): string
    decreases |images|
  {
    if |images| == 0 then [] else Part(images[0]) + Stream(images[1..])
  }

  /** Splits a whole stream into images; `None` if it is malformed. */
  function ParseStream(s: string): Option<seq<string>>
    decreases |s|
  {
    if |s| == 0 then Some([])
    else match ParsePart(s)
      case None => None
      case Some((image, rest)) =>
        if |rest| >= |s| then None
        else match ParseStream(rest)
          case None => None
          case Some(images) => Some([image] + images)
  }

  /** A stream that starts with a well-formed part parses as that part's
      image followed by the images of the remainder. */
  lemma ParseStreamStep(image: string, rest: string)
    ensures ParseStream(Part(image) + rest) ==
      match ParseStream(rest) case None => None case Some(images) => Some([image] + images)
  {
    PartRoundTrip(image, rest);
    assert |Part(image)| > 0;
  }

  /** Every sequence of images is recovered from the stream. */
  lemma {:induction false} StreamRoundTrip(images: seq<string>)
    ensures ParseStream(Stream(images)) == Some(images)
    decreases |images|
  {
    if |images| > 0 {
      StreamRoundTrip(images[1..]);
      ParseStreamStep(images[0], Stream(images[1..]));
      assert [images[0]] + images[1..] == images;
    }
  }

  // ---------------------------------------------------------------------
  // The boundary and the content type (RFC 2046, section 5.1.1)
  // ---------------------------------------------------------------------

  /** The characters RFC 2046 allows in a boundary. */
  predicate IsBChar(ch: char) {
    ('0' <= ch <= '9') || ('a' <= ch <= 'z') || ('A' <= ch <= 'Z') ||
    ch in "'()+_,-./:=? "
  }

  /** A boundary of 1 to 70 allowed characters not ending in a space. */
  predicate ValidBoundary(b: string) {
    1 <= |b| <= 70 && (forall i :: 0 <= i < |b| ==> IsBChar(b[i])) && b[|b| - 1] != ' '
  }

  /** The boundary parameter announced by a content type of this form. */
  function BoundaryParameter(ct: string): Option<string> {
    if |ct| >= |ContentTypePrefix| && ct[..|ContentTypePrefix|] == ContentTypePrefix
    then Some(ct[|ContentTypePrefix|..]) else None
  }

  /** The delimiter the handlers send is the one the announced content
      type tells the client to look for, and the boundary is well formed. */
  lemma ContentTypeMatchesDelimiter()
    ensures BoundaryParameter(StreamContentType) == Some(PartBoundary)
    ensures StreamBoundary == "\r\n--" + BoundaryParameter(StreamContentType).value + "\r\n"
    ensures ValidBoundary(PartBoundary)
  {
    assert StreamContentType[..|ContentTypePrefix|] == ContentTypePrefix;
    assert StreamContentType[|ContentTypePrefix|..] == PartBoundary;
  }

  /** `pat` occurs in `s` starting at position `i`. */
  predicate OccursAt(s: string, pat: string, i: int) {
    0 <= i && i + |pat| <= |s| && s[i..i + |pat|] == pat
  }

  /** No part header contains the delimiter, so the header of one part can
      never be taken for the end of the previous one. */
  lemma HeaderHasNoDelimiter(len: nat)
    ensures forall i :: !OccursAt(PartHeader(len), StreamBoundary, i)
  {
    var h := PartHeader(len);
    var d := Decimal(len);
    assert h == HeaderPrefix + d + HeaderSuffix;
    assert StreamBoundary[4] == '_';
    assert '_' !in HeaderPrefix && '_' !in HeaderSuffix;
    forall i | 0 <= i && i + |StreamBoundary| <= |h|
      ensures !OccursAt(h, StreamBoundary, i)
    {
      // The delimiter holds '_' at position 4; no header character is '_'
      // (the suffix is too short to hold that position).
      var j := i + 4;
      assert h[i..i + |StreamBoundary|][4] == h[j];
      if j < |HeaderPrefix| {
        assert h[j] == HeaderPrefix[j];
      } else {
        assert h[j] == d[j - |HeaderPrefix|];
      }
      assert h[j] != '_';
    }
  }
}
