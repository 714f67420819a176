/**
  What the decoder of aspnet_antiforgery_decoder.py promises: the shape of the
  rebuilt padding, the inputs it rejects, and the round trip against
  Microsoft's URL-token encoder, with and without the pad-count digit.
*/
module AntiforgeryProperties {
  import opened Common
  import Base64
  import Utf8
  import opened AntiforgeryDecoder

  // ---------------------------------------------------------------------------
  // Rebuilding the padding
  // ---------------------------------------------------------------------------

  /**
    What the digit means: a last digit taken as a marker is the number of `=`
    it stands for, with `4` standing for none.
  */
  lemma DigitCountsPads(s: string)
    requires |s| > 0 && EndsWithPadMarker(s)
    ensures Padded(s) == s[..|s| - 1] + Repeat('=', DigitValue(s[|s| - 1]) % 4)
  {
  }

  /** What is appended is `=` only, and never a whole quantum of it. */
  lemma PaddingIsShort(s: string)
    requires |s| > 0
    ensures 0 <= |Padded(s)| - |Payload(s)| <= 3
    ensures |Payload(s)| % 4 == 0 ==> Padded(s) == Payload(s)
  {
  }

  // ---------------------------------------------------------------------------
  // Inputs the decoder rejects
  // ---------------------------------------------------------------------------

  /**
    A character that is neither a Base64 character nor `-` (and so also `/`,
    which the swap turns into `_`) makes the decoding fail.
  */
  lemma ForeignCharacterRejected(s: string, i: nat)
    requires i < |s|
    requires s[i] != '-' && s[i] != '='
    requires !Base64.IsAlphabetChar(s[i]) || s[i] == '/'
    ensures DecodeAppPath(s) == Err(BadBase64)
  {
    var p := Padded(s);
    var swapped := SwapAlphabet(p);
    assert i < |Payload(s)|;
    assert p[i] == Payload(s)[i] == s[i];
    assert !Base64.IsAlphabetChar(swapped[i]) && swapped[i] != Base64.Pad;
  }

  /**
    A payload one character longer than a multiple of four cannot be Base64:
    it would need three `=`. This happens to an input of length `4k + 1` whose
    last character is not `0` or `4`, and to one of length `4k + 2` ending in `3`.
  */
  lemma ThreePadsRejected(s: string)
    requires (|s| % 4 == 1 && s[|s| - 1] != '0' && s[|s| - 1] != '4') || (|s| % 4 == 2 && s[|s| - 1] == '3')
    ensures DecodeAppPath(s) == Err(BadBase64)
  {
    var p := Padded(s);
    assert |Payload(s)| % 4 == 1;
    assert |p| == |Payload(s)| + 3;
    var swapped := SwapAlphabet(p);
    assert swapped[|p| - 3] == Base64.Pad;
  }

  // ---------------------------------------------------------------------------
  // Microsoft's URL-token encoder, the decoder's partner
  // ---------------------------------------------------------------------------

  /** How the encoder ends its output: no digit, the count of `=` removed, or that count with `4` for none. */
  datatype PadMarker = Omitted | CountDigit | FourWhenNone

  function DigitChar(k: nat): (c: char)
    requires k <= 9
    ensures IsAsciiDigit(c) && DigitValue(c) == k
  {
    ('0' as int + k) as char
  }

  /** Each character of `t` is the URL-token form of the Base64 character at the same place in `standard`. */
  predicate IsTokenFormOf(t: string, standard: string) {
    |t| <= |standard| &&
    forall i | 0 <= i < |t| ::
      Base64.IsAlphabetChar(standard[i]) &&
      t[i] == (if standard[i] == '+' then '-' else if standard[i] == '/' then '_' else standard[i])
  }

  /** Standard Base64 without its `=` padding and with `+` as `-` and `/` as `_`. */
  function TokenBody(octets: seq<byte>): (t: string)
    ensures |t| == |Base64.Encode(octets)| - Base64.EncodedPadCount(|octets|)
    ensures IsTokenFormOf(t, Base64.Encode(octets))
  {
    var standard := Base64.Encode(octets);
    ReplaceChar(ReplaceChar(standard[..|standard| - Base64.EncodedPadCount(|octets|)], '+', '-'), '/', '_')
  }

  /** Where the Base64 text has no `+` and no `/`, the token body is that text without its padding. */
  lemma TokenBodyWithoutSpecials(octets: seq<byte>)
    requires '+' !in Base64.Encode(octets) && '/' !in Base64.Encode(octets)
    ensures TokenBody(octets) == Base64.Encode(octets)[..|TokenBody(octets)|]
  {
  }

  /** The URL token for `octets`, ended as `marker` says. */
  function UrlTokenEncode(octets: seq<byte>, marker: PadMarker): (t: string)
    ensures forall i | 0 <= i < |t| :: t[i] != '=' && t[i] != '+' && t[i] != '/'
  {
    var pads := Base64.EncodedPadCount(|octets|);
    match marker
    case Omitted => TokenBody(octets)
    case CountDigit => TokenBody(octets) + [DigitChar(pads)]
    case FourWhenNone => TokenBody(octets) + [DigitChar(if pads == 0 then 4 else pads)]
  }

  /** `(4 - n) % 4` undoes taking `p < 4` characters from a multiple of four. */
  lemma PadLenBelowMultiple(g: nat, p: nat)
    requires p < 4 && p <= 4 * g
    ensures PadLen(4 * g - p) == p
  {
    var k := PadLen(4 * g - p);
    assert (4 * g - p + k) % 4 == 0;
    assert (k - p) % 4 == 0;
  }

  /** The padding the decoder computes for a token body is the padding the encoder removed. */
  lemma BodyPadLen(octets: seq<byte>)
    ensures PadLen(|TokenBody(octets)|) == Base64.EncodedPadCount(|octets|)
  {
    var groups := (|octets| + 2) / 3;
    assert |Base64.Encode(octets)| == 4 * groups;
    PadLenBelowMultiple(groups, Base64.EncodedPadCount(|octets|));
  }

  /** The swap leaves the appended `=` alone. */
  lemma SwapAlphabetAppendPads(t: string, k: nat)
    ensures SwapAlphabet(t + Repeat('=', k)) == SwapAlphabet(t) + Repeat('=', k)
  {
    var l, r := SwapAlphabet(t + Repeat('=', k)), SwapAlphabet(t) + Repeat('=', k);
    assert |l| == |r|;
    forall i | 0 <= i < |l|
      ensures l[i] == r[i]
    {
      if i < |t| {
        assert (t + Repeat('=', k))[i] == t[i];
      } else {
        assert (t + Repeat('=', k))[i] == '=';
      }
    }
  }

  /** The intended swap leaves the appended `=` alone. */
  lemma IntendedSwapAppendPads(t: string, k: nat)
    ensures SwapAlphabetIntended(t + Repeat('=', k)) == SwapAlphabetIntended(t) + Repeat('=', k)
  {
    var l, r := SwapAlphabetIntended(t + Repeat('=', k)), SwapAlphabetIntended(t) + Repeat('=', k);
    assert |l| == |r|;
    forall i | 0 <= i < |l|
      ensures l[i] == r[i]
    {
      if i < |t| {
        assert (t + Repeat('=', k))[i] == t[i];
      } else {
        assert (t + Repeat('=', k))[i] == '=';
      }
    }
  }

  /** The swap as written undoes the token form where the Base64 text has no `/`. */
  lemma SwapUndoesTokenForm(t: string, standard: string)
    requires IsTokenFormOf(t, standard)
    requires forall i | 0 <= i < |t| :: standard[i] != '/'
    ensures SwapAlphabet(t) == standard[..|t|]
  {
  }

  /** The intended swap undoes the token form everywhere. */
  lemma IntendedSwapUndoesTokenForm(t: string, standard: string)
    requires IsTokenFormOf(t, standard)
    ensures SwapAlphabetIntended(t) == standard[..|t|]
  {
  }

  /** Standard Base64 is the token body's characters followed by the padding. */
  lemma StandardIsBodyAndPads(octets: seq<byte>)
    ensures Base64.Encode(octets)
         == Base64.Encode(octets)[..|TokenBody(octets)|] + Repeat('=', Base64.EncodedPadCount(|octets|))
  {
    var standard := Base64.Encode(octets);
    var n := |TokenBody(octets)|;
    assert Base64.EndsInPads(standard, Base64.EncodedPadCount(|octets|));
    assert standard == standard[..n] + standard[n..];
    assert standard[n..] == Repeat('=', Base64.EncodedPadCount(|octets|));
  }

  /** The string the decoder hands to Base64, for a token whose body is followed by the right padding. */
  lemma SwapRestoresStandard(octets: seq<byte>)
    requires '/' !in Base64.Encode(octets)
    ensures SwapAlphabet(TokenBody(octets) + Repeat('=', Base64.EncodedPadCount(|octets|))) == Base64.Encode(octets)
  {
    var body := TokenBody(octets);
    SwapAlphabetAppendPads(body, Base64.EncodedPadCount(|octets|));
    SwapUndoesTokenForm(body, Base64.Encode(octets));
    StandardIsBodyAndPads(octets);
  }

  /** The same for the decoder with the intended swap, for every octet string. */
  lemma IntendedSwapRestoresStandard(octets: seq<byte>)
    ensures SwapAlphabetIntended(TokenBody(octets) + Repeat('=', Base64.EncodedPadCount(|octets|))) == Base64.Encode(octets)
  {
    var body := TokenBody(octets);
    IntendedSwapAppendPads(body, Base64.EncodedPadCount(|octets|));
    IntendedSwapUndoesTokenForm(body, Base64.Encode(octets));
    StandardIsBodyAndPads(octets);
  }

  /** A token that ends in its pad-count digit gets exactly its padding back. */
  lemma MarkedTokenPadded(octets: seq<byte>, marker: PadMarker)
    requires marker != Omitted
    ensures Padded(UrlTokenEncode(octets, marker)) == TokenBody(octets) + Repeat('=', Base64.EncodedPadCount(|octets|))
  {
    var t := UrlTokenEncode(octets, marker);
    BodyPadLen(octets);
    assert t[..|t| - 1] == TokenBody(octets);
    assert EndsWithPadMarker(t);
  }

  /**
    The round trip: decoding a URL token that carries its pad-count digit gives
    back the encoded octets, when their Base64 form has no `/` (which the
    decoder, as written, does not restore).
  */
  lemma MarkedRoundTrip(octets: seq<byte>, marker: PadMarker)
    requires marker != Omitted
    requires '/' !in Base64.Encode(octets)
    ensures DecodeAppPath(UrlTokenEncode(octets, marker))
         == if Utf8.IsWellFormed(octets) then Ok(octets) else Err(BadUtf8)
  {
    MarkedTokenPadded(octets, marker);
    SwapRestoresStandard(octets);
    Base64.DecodeEncode(octets);
  }

  /**
    The round trip without the digit holds unless the token happens to end in
    a digit that the heuristic takes for a pad count.
  */
  lemma UnmarkedRoundTrip(octets: seq<byte>)
    requires |octets| > 0
    requires '/' !in Base64.Encode(octets)
    requires !EndsWithPadMarker(UrlTokenEncode(octets, Omitted))
    ensures DecodeAppPath(UrlTokenEncode(octets, Omitted))
         == if Utf8.IsWellFormed(octets) then Ok(octets) else Err(BadUtf8)
  {
    BodyPadLen(octets);
    SwapRestoresStandard(octets);
    Base64.DecodeEncode(octets);
  }

  /**
    The ambiguity of the heuristic: "ab5" encodes to the token `YWI1` without a
    digit, and the decoder reads its last character as a pad count.
  */
  lemma UnmarkedDigitTakenForMarker()
    ensures UrlTokenEncode([97, 98, 53], Omitted) == "YWI1"
    ensures DecodeAppPath("YWI1") == Ok([97, 98])
  {
    EncodeAb5();
    TokenBodyWithoutSpecials([97, 98, 53]);
    PaddedYWI1();
    SwapAlphabetIdentity("YWI=");
    EncodeAb();
    DecodesTo("YWI=", [97, 98]);
    AbIsWellFormed();
  }

  // ---------------------------------------------------------------------------
  // The alphabet swap as written and as intended
  // ---------------------------------------------------------------------------

  /**
    As written, the decoder turns `/` into `_` instead of `_` into `/`, so the
    token of "ab?" (standard Base64 `YWI/`) is rejected, while the intended
    decoder gives "ab?" back.
  */
  lemma SlashInEncodingRejected()
    ensures UrlTokenEncode([97, 98, 63], CountDigit) == "YWI_0"
    ensures DecodeAppPath("YWI_0") == Err(BadBase64)
    ensures DecodeAppPathIntended("YWI_0") == Ok([97, 98, 63])
  {
    EncodeAbQuestion();
    var body := TokenBody([97, 98, 63]);
    assert |body| == 4;
    assert body == "YWI_" by {
      forall i | 0 <= i < 4 ensures body[i] == "YWI_"[i] {
        assert "YWI/"[i] == Base64.Encode([97, 98, 63])[i];
      }
    }
    assert UrlTokenEncode([97, 98, 63], CountDigit) == "YWI_0";
    ForeignCharacterRejected("YWI_0", 3);
    IntendedRoundTrip([97, 98, 63], CountDigit);
    AbQuestionIsWellFormed();
  }

  /** With the intended swap, every token with its pad-count digit decodes to the encoded octets. */
  lemma IntendedRoundTrip(octets: seq<byte>, marker: PadMarker)
    requires marker != Omitted
    ensures DecodeAppPathIntended(UrlTokenEncode(octets, marker))
         == if Utf8.IsWellFormed(octets) then Ok(octets) else Err(BadUtf8)
  {
    MarkedTokenPadded(octets, marker);
    IntendedSwapRestoresStandard(octets);
    Base64.DecodeEncode(octets);
  }

  /** Whatever the decoder as written accepts, the intended decoder decodes the same way. */
  lemma IntendedAgreesWhenAsWrittenSucceeds(s: string)
    requires |s| > 0 && DecodeAppPath(s).Ok?
    ensures DecodeAppPathIntended(s) == DecodeAppPath(s)
  {
    var p := Padded(s);
    var swapped := SwapAlphabet(p);
    assert Base64.PaddedAlphabet(swapped);
    forall i | 0 <= i < |p|
      ensures SwapAlphabetIntended(p)[i] == swapped[i]
    {
      assert Base64.IsAlphabetChar(swapped[i]) || swapped[i] == Base64.Pad;
    }
    assert SwapAlphabetIntended(p) == swapped;
  }

  // ---------------------------------------------------------------------------
  // The pipeline of main
  // ---------------------------------------------------------------------------

  /**
    The warning never turns a result into a failure: the pipeline fails exactly
    when extraction or decoding fails, and otherwise reports the decoded path.
  */
  lemma WarningIsNotAnError(cookie: string)
    ensures DecodeCookieName(cookie).Ok?
        <==> ExtractEncodedAppPath(cookie).Ok? && DecodeAppPath(ExtractEncodedAppPath(cookie).value).Ok?
    ensures DecodeCookieName(cookie).Ok? ==>
      DecodeCookieName(cookie).value.appPath == DecodeAppPath(ExtractEncodedAppPath(cookie).value).value
  {
  }

  /** A token whose Base64 text has no `/` holds no `_`, so it survives the split at the last `_`. */
  lemma TokenHasNoUnderscore(octets: seq<byte>, marker: PadMarker)
    requires '/' !in Base64.Encode(octets)
    ensures '_' !in UrlTokenEncode(octets, marker)
  {
    var t, body := UrlTokenEncode(octets, marker), TokenBody(octets);
    forall i | 0 <= i < |t|
      ensures t[i] != '_'
    {
      if i < |body| {
        assert t[i] == body[i];
        assert Base64.Encode(octets)[i] != '/';
      }
    }
  }

  /** A token starts with the first character of the Base64 text, unless that is `+` or `/`. */
  lemma TokenStart(octets: seq<byte>, marker: PadMarker)
    requires |octets| > 0
    requires Base64.Encode(octets)[0] != '+' && Base64.Encode(octets)[0] != '/'
    ensures |UrlTokenEncode(octets, marker)| > 0
    ensures UrlTokenEncode(octets, marker)[0] == Base64.Encode(octets)[0]
  {
    var standard, body := Base64.Encode(octets), TokenBody(octets);
    assert |body| > 0;
    assert IsTokenFormOf(body, standard);
    assert body[0] == standard[0];
    assert UrlTokenEncode(octets, marker)[0] == body[0];
  }

  /**
    End to end: a cookie name `prefix_token`, where the token encodes a
    well-formed path with its pad-count digit, reports that path, with the
    warning exactly when it does not start with `/`.
  */
  lemma CookieRoundTrip(prefix: string, octets: seq<byte>, marker: PadMarker)
    requires marker != Omitted
    requires |octets| > 0 && Base64.Encode(octets)[0] == 'L'
    requires '/' !in Base64.Encode(octets)
    requires Utf8.IsWellFormed(octets)
    ensures DecodeCookieName(prefix + "_" + UrlTokenEncode(octets, marker))
         == Ok(Report(octets, !StartsWithSlash(octets)))
  {
    var t := UrlTokenEncode(octets, marker);
    TokenStart(octets, marker);
    TokenHasNoUnderscore(octets, marker);
    ExtractAfterLastUnderscore(prefix, t);
    MarkedRoundTrip(octets, marker);
  }

  /** The two swaps differ only on `_` and `/`. */
  lemma SwapsAgreeOffUnderscoreAndSlash(s: string)
    requires '_' !in s && '/' !in s
    ensures SwapAlphabet(s) == SwapAlphabetIntended(s)
  {
  }

  /**
    The extractor already cuts the cookie name at its last `_`, so the two
    pipelines differ only on a name whose extracted segment holds `/`.
  */
  lemma PipelineUnaffectedBySwap(cookie: string)
    requires ExtractEncodedAppPath(cookie).Ok?
    requires '/' !in ExtractEncodedAppPath(cookie).value
    ensures DecodeCookieNameIntended(cookie) == DecodeCookieName(cookie)
  {
    var seg := ExtractEncodedAppPath(cookie).value;
    var p := Padded(seg);
    forall i | 0 <= i < |p|
      ensures p[i] != '_' && p[i] != '/'
    {
      if i < |Payload(seg)| {
        assert p[i] == Payload(seg)[i] == seg[i];
      }
    }
    SwapsAgreeOffUnderscoreAndSlash(p);
  }

  /** Whatever the pipeline as written reports, the corrected pipeline reports too. */
  lemma CorrectedPipelineAgrees(cookie: string)
    requires DecodeCookieName(cookie).Ok?
    ensures DecodeCookieNameIntended(cookie) == DecodeCookieName(cookie)
  {
    IntendedAgreesWhenAsWrittenSucceeds(ExtractEncodedAppPath(cookie).value);
  }

  // ---------------------------------------------------------------------------
  // Concrete cases
  // ---------------------------------------------------------------------------

  /** The swap changes nothing in a string without `-` and `/`. */
  lemma SwapAlphabetIdentity(s: string)
    requires '-' !in s && '/' !in s
    ensures SwapAlphabet(s) == s
  {
  }

  /** A string decodes as Base64 to the octets it is the encoding of. */
  lemma DecodesTo(s: string, octets: seq<byte>)
    requires Base64.Encode(octets) == s
    ensures Base64.Decode(s) == Some(octets)
  {
    Base64.DecodeEncode(octets);
  }

  /** "/foo/bar" as octets. */
  const FooBar: seq<byte> := [47, 102, 111, 111, 47, 98, 97, 114]

  lemma EncodeFooBar()
    ensures Base64.Encode(FooBar) == "L2Zvby9iYXI="
  {
    QuantumL2Zv();
    QuantumBy9i();
    QuantumYXI();
    assert FooBar[3..] == [111, 47, 98, 97, 114];
    assert FooBar[3..][3..] == [97, 114];
    assert Base64.Encode([97, 114]) == "YXI=";
    assert Base64.Encode(FooBar[3..]) == "by9iYXI=";
  }

  lemma QuantumL2Zv() ensures Base64.QuantumOf3(47, 102, 111) == "L2Zv" {}
  lemma QuantumBy9i() ensures Base64.QuantumOf3(111, 47, 98) == "by9i" {}
  lemma QuantumYXI() ensures Base64.QuantumOf2(97, 114) == "YXI=" {}
  lemma EncodeAb() ensures Base64.Encode([97, 98]) == "YWI=" {}
  lemma EncodeAb5() ensures Base64.Encode([97, 98, 53]) == "YWI1" {}
  lemma EncodeAbQuestion() ensures Base64.Encode([97, 98, 63]) == "YWI/" {}
  lemma EncodeContinuationOctet() ensures Base64.Encode([0x80]) == "gA==" {}
  lemma EncodeDotX() ensures Base64.Encode([46, 120]) == "Lng=" {}

  lemma PaddedYWI1() ensures Padded("YWI1") == "YWI=" {}
  lemma PaddedWithoutMarker() ensures Padded("L2Zvby9iYXI") == "L2Zvby9iYXI=" {}
  lemma PaddedWithMarker() ensures Padded("L2Zvby9iYXI1") == "L2Zvby9iYXI=" {}
  lemma PaddedGA2() ensures Padded("gA2") == "gA==" {}
  lemma PaddedLng1() ensures Padded("Lng1") == "Lng=" {}

  lemma FooBarIsWellFormed() ensures Utf8.IsWellFormed(FooBar) { Utf8.AsciiIsWellFormed(FooBar); }
  lemma AbIsWellFormed() ensures Utf8.IsWellFormed([97, 98]) { Utf8.AsciiIsWellFormed([97, 98]); }
  lemma AbQuestionIsWellFormed() ensures Utf8.IsWellFormed([97, 98, 63]) { Utf8.AsciiIsWellFormed([97, 98, 63]); }
  lemma DotXIsWellFormed() ensures Utf8.IsWellFormed([46, 120]) { Utf8.AsciiIsWellFormed([46, 120]); }

  /** Without a marker, `L2Zvby9iYXI` gets one `=` and decodes to "/foo/bar". */
  lemma FooBarWithoutMarker()
    ensures DecodeAppPath("L2Zvby9iYXI") == Ok(FooBar)
  {
    PaddedWithoutMarker();
    SwapAlphabetIdentity("L2Zvby9iYXI=");
    EncodeFooBar();
    DecodesTo("L2Zvby9iYXI=", FooBar);
    FooBarIsWellFormed();
  }

  /** With the marker `1`, `L2Zvby9iYXI1` decodes to "/foo/bar" as well. */
  lemma FooBarWithMarker()
    ensures DecodeAppPath("L2Zvby9iYXI1") == Ok(FooBar)
  {
    PaddedWithMarker();
    SwapAlphabetIdentity("L2Zvby9iYXI=");
    EncodeFooBar();
    DecodesTo("L2Zvby9iYXI=", FooBar);
    FooBarIsWellFormed();
  }

  /** `L!!!!` holds characters outside the alphabet. */
  lemma ExclamationMarksRejected()
    ensures DecodeAppPath("L!!!!") == Err(BadBase64)
  {
    ForeignCharacterRejected("L!!!!", 1);
  }

  /** The lone octet 0x80 (token `gA2`) is valid Base64 but not UTF-8. */
  lemma ContinuationOctetRejected()
    ensures DecodeAppPath("gA2") == Err(BadUtf8)
  {
    PaddedGA2();
    SwapAlphabetIdentity("gA==");
    EncodeContinuationOctet();
    DecodesTo("gA==", [0x80]);
  }

  /** Cookie names without `_`, or whose last segment does not start with `L`, are rejected. */
  lemma MalformedCookieNames()
    ensures ExtractEncodedAppPath("nounderscorehere") == Err(InvalidFormat("nounderscorehere"))
    ensures ExtractEncodedAppPath("cookie_Xabc") == Err(InvalidFormat("cookie_Xabc"))
    ensures ExtractEncodedAppPath("cookie_") == Err(InvalidFormat("cookie_"))
  {
    NoUnderscoreRejected("nounderscorehere");
    SegmentWithoutMarkerRejected("cookie", "Xabc");
    assert "cookie" + "_" + "Xabc" == "cookie_Xabc";
    SegmentWithoutMarkerRejected("cookie", "");
    assert "cookie" + "_" + "" == "cookie_";
  }

  /** The path ".x" (token `Lng1`) is reported, with the warning. */
  lemma NonSlashPathWarns()
    ensures DecodeCookieName("__RequestVerificationToken_Lng1") == Ok(Report([46, 120], true))
  {
    ExtractAfterLastUnderscore("__RequestVerificationToken", "Lng1");
    assert "__RequestVerificationToken" + "_" + "Lng1" == "__RequestVerificationToken_Lng1";
    PaddedLng1();
    SwapAlphabetIdentity("Lng=");
    EncodeDotX();
    DecodesTo("Lng=", [46, 120]);
    DotXIsWellFormed();
  }
}
