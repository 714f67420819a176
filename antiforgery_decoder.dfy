/**
  Recovering an ASP.NET virtual application path from the name of an
  antiforgery cookie (aspnet_antiforgery_decoder.py).

  The cookie name ends in `_` followed by the application path in Microsoft's
  "URL token" form of Base64: `=` padding removed and usually replaced by one
  digit giving the number of `=`, with `-` in place of `+`. The extractor takes
  the text after the last `_`; the decoder rebuilds the padding, swaps the
  alphabet back and Base64-decodes; the pipeline run by `main` composes the two
  and flags a path that does not start with `/`.
*/
module AntiforgeryDecoder {
  import opened Common
  import Base64
  import Utf8

  /** The three ways an invocation can fail. */
  datatype Error =
    | InvalidFormat(cookie: string)  // the cookie name holds no encoded path
    | BadBase64                      // the rebuilt string is not valid Base64
    | BadUtf8                        // the decoded octets are not UTF-8 text

  // ---------------------------------------------------------------------------
  // extract_encoded_apppath
  // ---------------------------------------------------------------------------

  /**
    Python's `s.rpartition(sep)` for a one-character separator: the text before
    the last `sep`, the separator itself and the text after it; or `("", "", s)`
    when `s` holds no `sep`.
  */
  function RPartition(s: string, sep: char): (r: (string, string, string))
    ensures r.1 == [] ==> r.0 == [] && r.2 == s && sep !in s
    ensures r.1 != [] ==> r.1 == [sep] && s == r.0 + r.1 + r.2 && sep !in r.2
    decreases |s|
  {
    if s == [] then ([], [], [])
    else if s[|s| - 1] == sep then (s[..|s| - 1], [sep], [])
    else
      var (before, found, after) := RPartition(s[..|s| - 1], sep);
      assert s == s[..|s| - 1] + [s[|s| - 1]];
      if found == [] then ([], [], s) else (before, found, after + [s[|s| - 1]])
  }

  /**
    The encoded application path: the text after the last `_` of the cookie
    name, which must start with `L`.
  */
  function ExtractEncodedAppPath(cookie: string): (r: Result<string, Error>)
    ensures r.Ok? ==> |r.value| > 0 && r.value[0] == 'L' && '_' !in r.value
    ensures r.Ok? ==> |r.value| < |cookie| && cookie == cookie[..|cookie| - |r.value| - 1] + "_" + r.value
    ensures r.Err? ==> r.error == InvalidFormat(cookie)
  {
    var (_, sep, encodedAppPath) := RPartition(cookie, '_');
    if sep != [] && |encodedAppPath| > 0 && encodedAppPath[0] == 'L' then
      assert cookie[..|cookie| - |encodedAppPath| - 1] == RPartition(cookie, '_').0;
      Ok(encodedAppPath)
    else
      Err(InvalidFormat(cookie))
  }

  /** An occurrence of `s[j]` after position `i`. */
  lemma LaterIndexIn(s: string, i: nat, j: nat)
    requires i < |s| && j < |s|
    ensures i < j ==> s[j] in s[i + 1..]
  {
    if i < j {
      assert s[i + 1..][j - i - 1] == s[j];
    }
  }

  /** `rpartition` splits at the last separator, whatever comes before it. */
  lemma RPartitionAtLast(before: string, sep: char, after: string)
    requires sep !in after
    ensures RPartition(before + [sep] + after, sep) == (before, [sep], after)
  {
    var s := before + [sep] + after;
    var r := RPartition(s, sep);
    assert s[|before|] == sep;
    var i, j := |before|, |r.0|;
    assert s == r.0 + r.1 + r.2;
    assert s[i + 1..] == after && s[j + 1..] == r.2;
    LaterIndexIn(s, i, j);
    LaterIndexIn(s, j, i);
    assert i == j;
    assert r.0 == s[..i] == before;
  }

  /** `seg` is the text after the last `_` of `cookie`, and `_` occurs in `cookie`. */
  ghost predicate IsLastSegment(cookie: string, seg: string) {
    exists i | 0 <= i < |cookie| :: cookie[i] == '_' && seg == cookie[i + 1..] && '_' !in seg
  }

  /** A successful extraction returns the text after the last `_`, which starts with `L`. */
  lemma ExtractionGivesLastSegment(cookie: string)
    requires ExtractEncodedAppPath(cookie).Ok?
    ensures IsLastSegment(cookie, ExtractEncodedAppPath(cookie).value)
  {
    var seg := ExtractEncodedAppPath(cookie).value;
    var i := |cookie| - |seg| - 1;
    assert cookie[i] == '_' && cookie[i + 1..] == seg;
  }

  /** The text after the last `_`, when it starts with `L`, is what is extracted. */
  lemma LastSegmentIsExtracted(cookie: string, seg: string)
    requires IsLastSegment(cookie, seg) && |seg| > 0 && seg[0] == 'L'
    ensures ExtractEncodedAppPath(cookie) == Ok(seg)
  {
    var i :| 0 <= i < |cookie| && cookie[i] == '_' && seg == cookie[i + 1..] && '_' !in seg;
    assert cookie == cookie[..i] + ['_'] + seg;
    RPartitionAtLast(cookie[..i], '_', seg);
  }

  /**
    Extraction succeeds with `seg` exactly when `seg` is the text after the last
    `_` of the cookie and starts with `L`.
  */
  lemma ExtractionIsLastSegment(cookie: string, seg: string)
    ensures ExtractEncodedAppPath(cookie) == Ok(seg)
        <==> IsLastSegment(cookie, seg) && |seg| > 0 && seg[0] == 'L'
  {
    if ExtractEncodedAppPath(cookie) == Ok(seg) {
      ExtractionGivesLastSegment(cookie);
    }
    if IsLastSegment(cookie, seg) && |seg| > 0 && seg[0] == 'L' {
      LastSegmentIsExtracted(cookie, seg);
    }
  }

  /** A cookie name with no `_` holds no encoded path. */
  lemma NoUnderscoreRejected(cookie: string)
    requires '_' !in cookie
    ensures ExtractEncodedAppPath(cookie) == Err(InvalidFormat(cookie))
  {
  }

  /**
    A cookie name whose text after the last `_` does not start with `L` (or is
    empty) holds no encoded path.
  */
  lemma SegmentWithoutMarkerRejected(before: string, after: string)
    requires '_' !in after
    requires after == [] || after[0] != 'L'
    ensures ExtractEncodedAppPath(before + "_" + after) == Err(InvalidFormat(before + "_" + after))
  {
    RPartitionAtLast(before, '_', after);
  }

  /** Whatever precedes the last `_`, the segment after it is what is extracted. */
  lemma ExtractAfterLastUnderscore(before: string, seg: string)
    requires '_' !in seg && |seg| > 0 && seg[0] == 'L'
    ensures ExtractEncodedAppPath(before + "_" + seg) == Ok(seg)
  {
    RPartitionAtLast(before, '_', seg);
  }

  // ---------------------------------------------------------------------------
  // decode_aspnet_antiforgery_cookie_apppath
  // ---------------------------------------------------------------------------

  /**
    The number of `=` that bring a string of `n` characters to a multiple of
    four: Python's `(4 - n) % 4`, whose floored remainder agrees with Dafny's
    Euclidean one because the divisor is positive.
  */
  function PadLen(n: nat): (k: nat)
    ensures k < 4 && (n + k) % 4 == 0
  {
    (4 - n) % 4
  }

  /** `str.isdigit()` on one character, restricted to ASCII. */
  predicate IsAsciiDigit(c: char) {
    '0' <= c <= '9'
  }

  /** `int()` of one ASCII digit. */
  function DigitValue(c: char): (v: nat)
    requires IsAsciiDigit(c)
    ensures v <= 9 && ('0' as int + v) as char == c
  {
    c as int - '0' as int
  }

  /**
    The heuristic of the decoder: the last character is a digit equal to the
    padding the rest of the string needs, or `4` where it needs none.
  */
  predicate EndsWithPadMarker(s: string)
    requires |s| > 0
    ensures EndsWithPadMarker(s) <==>
      IsAsciiDigit(s[|s| - 1]) && DigitValue(s[|s| - 1]) <= 4 && (|s| - 1 + DigitValue(s[|s| - 1])) % 4 == 0
  {
    var last := s[|s| - 1];
    IsAsciiDigit(last) &&
    var given, calculated := DigitValue(last), PadLen(|s| - 1);
    given == calculated || (calculated == 0 && given == 4)
  }

  /** The characters of the input that are kept as Base64 data. */
  function Payload(s: string): (p: string)
    requires |s| > 0
    ensures |p| == |s| || (|p| == |s| - 1 && IsAsciiDigit(s[|s| - 1]))
    ensures |p| == |s| - 1 <==>
      IsAsciiDigit(s[|s| - 1]) && DigitValue(s[|s| - 1]) <= 4 && (|s| - 1 + DigitValue(s[|s| - 1])) % 4 == 0
    ensures p == s[..|p|]
  {
    if EndsWithPadMarker(s) then s[..|s| - 1] else s
  }

  /**
    The input with its padding rebuilt: the marker digit, if the heuristic
    takes the last character for one, is replaced by that many `=`; otherwise
    the whole input is padded with `=` to a multiple of four.
  */
  function Padded(s: string): (r: string)
    requires |s| > 0
    ensures |r| % 4 == 0
    ensures |Payload(s)| <= |r| < |Payload(s)| + 4
    ensures r[..|Payload(s)|] == Payload(s)
    ensures forall i | |Payload(s)| <= i < |r| :: r[i] == '='
  {
    if EndsWithPadMarker(s) then
      s[..|s| - 1] + Repeat('=', PadLen(|s| - 1))
    else
      s + Repeat('=', PadLen(|s|))
  }

  /** Python's `s.replace(from, to)` for one-character `from` and `to`. */
  function ReplaceChar(s: string, from: char, to: char): (r: string)
    ensures |r| == |s|
    ensures forall i | 0 <= i < |s| :: r[i] == (if s[i] == from then to else s[i])
  {
    if s == [] then [] else ReplaceChar(s[..|s| - 1], from, to) + [if s[|s| - 1] == from then to else s[|s| - 1]]
  }

  /** `encoded.replace('-', '+').replace('/', '_')`, as the decoder writes it. */
  function SwapAlphabet(s: string): (r: string)
    ensures |r| == |s|
    ensures forall i | 0 <= i < |s| ::
      r[i] == (if s[i] == '-' then '+' else if s[i] == '/' then '_' else s[i])
    ensures '-' !in r && '/' !in r
  {
    ReplaceChar(ReplaceChar(s, '-', '+'), '/', '_')
  }

  /**
    The decoded application path, as UTF-8 octets. Python indexes the last
    character first, so the empty string is outside the decoder's domain.
  */
  function DecodeAppPath(encodedAppPath: string): (r: Result<seq<byte>, Error>)
    requires |encodedAppPath| > 0
    ensures r.Ok? ==> Utf8.IsWellFormed(r.value)
    ensures r.Err? ==> r.error == BadBase64 || r.error == BadUtf8
  {
    match Base64.Decode(SwapAlphabet(Padded(encodedAppPath)))
    case None => Err(BadBase64)
    case Some(octets) => if Utf8.IsWellFormed(octets) then Ok(octets) else Err(BadUtf8)
  }

  // ---------------------------------------------------------------------------
  // The alphabet swap the comment of the decoder describes
  // ---------------------------------------------------------------------------

  /** The inverse of Microsoft's substitution: `-` back to `+` and `_` back to `/`. */
  function SwapAlphabetIntended(s: string): (r: string)
    ensures |r| == |s|
    ensures forall i | 0 <= i < |s| ::
      r[i] == (if s[i] == '-' then '+' else if s[i] == '_' then '/' else s[i])
    ensures '-' !in r && '_' !in r
  {
    ReplaceChar(ReplaceChar(s, '-', '+'), '_', '/')
  }

  /** The decoder with the intended alphabet swap. */
  function DecodeAppPathIntended(encodedAppPath: string): (r: Result<seq<byte>, Error>)
    requires |encodedAppPath| > 0
    ensures r.Ok? ==> Utf8.IsWellFormed(r.value)
    ensures r.Err? ==> r.error == BadBase64 || r.error == BadUtf8
  {
    match Base64.Decode(SwapAlphabetIntended(Padded(encodedAppPath)))
    case None => Err(BadBase64)
    case Some(octets) => if Utf8.IsWellFormed(octets) then Ok(octets) else Err(BadUtf8)
  }

  // ---------------------------------------------------------------------------
  // The composition in main
  // ---------------------------------------------------------------------------

  /** What `main` reports: the decoded path and whether it prints the warning. */
  datatype Report = Report(appPath: seq<byte>, warning: bool)

  /** The decoded text starts with `/` (a one-octet character in UTF-8). */
  predicate StartsWithSlash(path: seq<byte>)
    ensures StartsWithSlash(path) ==> Utf8.CharLength(path) == 1
  {
    |path| > 0 && path[0] == '/' as int
  }

  /** Extract, then decode, then decide on the warning. */
  function DecodeCookieName(cookie: string): (r: Result<Report, Error>)
    ensures r.Ok? ==> Utf8.IsWellFormed(r.value.appPath)
    ensures r.Ok? ==> (r.value.warning <==> !StartsWithSlash(r.value.appPath))
    ensures r.Err? && r.error.InvalidFormat? ==> r.error.cookie == cookie
  {
    var encodedAppPath :- ExtractEncodedAppPath(cookie);
    var appPath :- DecodeAppPath(encodedAppPath);
    Ok(Report(appPath, !StartsWithSlash(appPath)))
  }

  /** The same pipeline with the decoder that swaps `_` back to `/`. */
  function DecodeCookieNameIntended(cookie: string): (r: Result<Report, Error>)
    ensures r.Ok? ==> Utf8.IsWellFormed(r.value.appPath)
    ensures r.Ok? ==> (r.value.warning <==> !StartsWithSlash(r.value.appPath))
    ensures r.Err? && r.error.InvalidFormat? ==> r.error.cookie == cookie
  {
    var encodedAppPath :- ExtractEncodedAppPath(cookie);
    var appPath :- DecodeAppPathIntended(encodedAppPath);
    Ok(Report(appPath, !StartsWithSlash(appPath)))
  }
}
