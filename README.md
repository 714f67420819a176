# ASP.NET antiforgery cookie name decoder, in Dafny

A model of `aspnet_antiforgery_decoder.py`. The tool recovers an ASP.NET
virtual application path from the name of an antiforgery cookie, such as
`__RequestVerificationToken_L2Zvby9iYXI1`. The path sits after the last `_`
of the name. It is written in Microsoft's "URL token" form of Base64:

- the `=` padding is removed, and usually replaced by one digit that gives
  the number of `=`;
- `+` is written as `-`;
- `/` is written as `_`.

The model has three parts:

- **Extractor.** `ExtractEncodedAppPath` takes the text after the last `_`.
  It demands that the text start with `L`.
- **Decoder.** `DecodeAppPath` rebuilds the padding with the program's digit
  heuristic. It then applies the program's alphabet swap, decodes the result
  as Base64 (RFC 4648, section 4) and requires the octets to be well-formed
  UTF-8 (RFC 3629, section 4).
- **Pipeline.** `DecodeCookieName` runs the extractor and then the decoder,
  as `main` does, and says whether `main` prints its warning. The warning is
  printed when the path does not start with `/`.

Each failure is a value of `AntiforgeryDecoder.Error`:

- `InvalidFormat`: the cookie name holds no encoded path;
- `BadBase64`: the padded string is not Base64;
- `BadUtf8`: the decoded octets are not UTF-8 text.

The Python exceptions are modelled by these values.

Files:

- `common.dfy`: octets, `Option`, `Result`, and `Repeat` (Python's `c * n`).
- `base64.dfy`: the Base64 alphabet, the decoder, and the encoder that is its
  partner. Includes the proof that decoding undoes encoding.
- `utf8.dfy`: the well-formedness grammar of RFC 3629.
- `antiforgery_decoder.dfy`: the extractor, the decoder as written, the
  decoder with the intended alphabet swap, and the pipeline of `main`.
- `antiforgery_properties.dfy`: what the decoder promises.
  - The shape of the rebuilt padding.
  - The inputs the decoder rejects.
  - Round trips against Microsoft's URL-token encoder (`UrlTokenEncode`),
    with and without the pad-count digit.
  - The alphabet-swap finding.
  - Concrete cases.

## Model

| member | source | states |
|---|---|---|
| Common.Repeat | aspnet_antiforgery_decoder.py:33 | `"=" * n`: the result has length `n` and every character is `=` |
| Base64.CharOf | aspnet_antiforgery_decoder.py:42 | every value of Table 1 of RFC 4648 maps to a character of the Base64 alphabet |
| Base64.ValueOf | aspnet_antiforgery_decoder.py:42 | the value read from an alphabet character maps back to that same character |
| Base64.ValueOfCharOf | aspnet_antiforgery_decoder.py:42 | reading the character of a value gives the value back |
| Base64.OctetsSextetsOctets | aspnet_antiforgery_decoder.py:42 | cutting three octets into four sextets and joining them again gives the octets back |
| Base64.DecodeQuantum | aspnet_antiforgery_decoder.py:42 | a decoded quantum gives 1 to 3 octets; it is alphabet characters followed by exactly as many `=` as octets are missing from 3; `=` is allowed only in the last quantum |
| Base64.DecodeQuanta | aspnet_antiforgery_decoder.py:42 | success means the string is alphabet characters followed by 0 to 2 `=`, one for each octet missing from three per four characters; all-alphabet input always decodes, to three octets per four characters |
| Base64.Decode | aspnet_antiforgery_decoder.py:42 | `b64decode` as strict RFC 4648: success needs a length that is a multiple of 4 and alphabet characters followed by at most two `=` (so `AB=C` is rejected), one `=` for each octet fewer; any string of alphabet characters whose length is a multiple of 4 decodes |
| Base64.EncodedPadCount | aspnet_antiforgery_decoder.py:42 | the number of `=` in the encoding of `n` octets is below 3 and brings `n` to a multiple of 3 |
| Base64.Encode | aspnet_antiforgery_decoder.py:42 | the partner encoding: `4 * ceil(n / 3)` characters, ending in exactly the right number of `=` |
| Base64.DecodeEncode | aspnet_antiforgery_decoder.py:42 | decoding the encoding of any octet string gives that octet string back |
| Utf8.CharLength | aspnet_antiforgery_decoder.py:42 | the character at the head of the octets (RFC 3629, section 4) is at most 4 octets and fits in the input; it is one octet exactly when the first octet is below 0x80; its later octets are all continuation octets; a leading continuation octet starts no character (length 0) |
| Utf8.AsciiIsWellFormed | aspnet_antiforgery_decoder.py:42 | octets below 0x80 always form valid UTF-8, so `.decode("utf-8")` accepts an ASCII path |
| AntiforgeryDecoder.RPartition | aspnet_antiforgery_decoder.py:48 | `rpartition('_')`: without a separator the result is `("", "", s)`; otherwise the three parts put together give `s` back and the part after the separator holds no separator |
| AntiforgeryDecoder.RPartitionAtLast | aspnet_antiforgery_decoder.py:48 | `rpartition` splits at the last separator, whatever precedes it |
| AntiforgeryDecoder.ExtractEncodedAppPath | aspnet_antiforgery_decoder.py:45-52 | a result is non-empty, starts with `L`, holds no `_`, and is the suffix of the cookie after a `_`; a failure is `InvalidFormat` carrying the cookie |
| AntiforgeryDecoder.ExtractionGivesLastSegment | aspnet_antiforgery_decoder.py:48-50 | a successful extraction returns the text after the last `_` |
| AntiforgeryDecoder.LastSegmentIsExtracted | aspnet_antiforgery_decoder.py:48-50 | the text after the last `_` is extracted when it starts with `L` |
| AntiforgeryDecoder.ExtractionIsLastSegment | aspnet_antiforgery_decoder.py:48-52 | extraction succeeds with `seg` if and only if `seg` is the text after the last `_` and starts with `L` |
| AntiforgeryDecoder.NoUnderscoreRejected | aspnet_antiforgery_decoder.py:48-52 | a cookie name without `_` is rejected with `InvalidFormat` |
| AntiforgeryDecoder.SegmentWithoutMarkerRejected | aspnet_antiforgery_decoder.py:49-52 | a name whose last segment is empty or does not start with `L` is rejected with `InvalidFormat`; this includes a name ending in `_` |
| AntiforgeryDecoder.ExtractAfterLastUnderscore | aspnet_antiforgery_decoder.py:48-50 | for any prefix, `prefix_seg` yields `seg` when `seg` starts with `L` and holds no `_` |
| AntiforgeryDecoder.PadLen | aspnet_antiforgery_decoder.py:30 | `(4 - n) % 4` is below 4 and brings `n` to a multiple of 4 |
| AntiforgeryDecoder.DigitValue | aspnet_antiforgery_decoder.py:27-29 | `isdigit()` and `int()` on an ASCII digit: the value is at most 9 and is the digit written back |
| AntiforgeryDecoder.EndsWithPadMarker | aspnet_antiforgery_decoder.py:27-31 | the marker test: the last character is a marker exactly when it is an ASCII digit of at most 4 and the rest plus that many `=` is a multiple of four |
| AntiforgeryDecoder.Payload | aspnet_antiforgery_decoder.py:27-39 | the data part is the input itself, or the input without its last character when it is a digit; the digit is dropped exactly when it is an ASCII digit of at most 4 that brings the rest to a multiple of four, and any other last character stays as data |
| AntiforgeryDecoder.Padded | aspnet_antiforgery_decoder.py:26-39 | the padded string's length is a multiple of 4; it is the payload followed by 0–3 `=` and nothing else |
| AntiforgeryDecoder.ReplaceChar | aspnet_antiforgery_decoder.py:41 | `str.replace` on one character: same length, and each occurrence of `from` is replaced while every other character is kept |
| AntiforgeryDecoder.SwapAlphabet | aspnet_antiforgery_decoder.py:41 | the swap as written: `-` becomes `+`, `/` becomes `_`, every other character is kept, and neither `-` nor `/` remains |
| AntiforgeryDecoder.DecodeAppPath | aspnet_antiforgery_decoder.py:18-42 | a decoded path is well-formed UTF-8; a failure is `BadBase64` or `BadUtf8` |
| AntiforgeryDecoder.SwapAlphabetIntended | aspnet_antiforgery_decoder.py:21-23 | the inverse of the substitution the comment describes: `-` becomes `+`, `_` becomes `/`, and neither remains |
| AntiforgeryDecoder.DecodeAppPathIntended | aspnet_antiforgery_decoder.py:18-42 | the decoder with the corrected swap: a decoded path is well-formed UTF-8; a failure is `BadBase64` or `BadUtf8` |
| AntiforgeryDecoder.StartsWithSlash | aspnet_antiforgery_decoder.py:74 | the warning test `startswith("/")` on the octets: a path that starts with the octet of `/` starts with the whole one-octet character `/` |
| AntiforgeryDecoder.DecodeCookieName | aspnet_antiforgery_decoder.py:72-76 | a reported path is well-formed UTF-8; the warning is raised if and only if the path does not start with `/`; a format failure carries the cookie |
| AntiforgeryDecoder.DecodeCookieNameIntended | aspnet_antiforgery_decoder.py:72-76 | the pipeline with the corrected decoder: a reported path is well-formed UTF-8; the warning is raised if and only if the path does not start with `/`; a format failure carries the cookie |
| AntiforgeryProperties.DigitCountsPads | aspnet_antiforgery_decoder.py:27-33 | a last digit taken as a marker is replaced by as many `=` as it counts, with `4` standing for none |
| AntiforgeryProperties.PaddingIsShort | aspnet_antiforgery_decoder.py:30-39 | 0 to 3 `=` are appended, and none to a payload whose length is a multiple of 4 |
| AntiforgeryProperties.ForeignCharacterRejected | aspnet_antiforgery_decoder.py:41-42 | a character outside the Base64 alphabet that is neither `-` nor `=` makes decoding fail with `BadBase64`; so does `/`, which the swap turns into `_` |
| AntiforgeryProperties.ThreePadsRejected | aspnet_antiforgery_decoder.py:27-42 | a payload of length 4k+1 would need three `=` and is rejected with `BadBase64`; this covers length 4k+1 without a trailing `0`/`4` and length 4k+2 ending in `3` |
| AntiforgeryProperties.DigitChar | aspnet_antiforgery_decoder.py:29 | the digit written for `k` is an ASCII digit that `int()` reads back as `k` |
| AntiforgeryProperties.TokenBody | aspnet_antiforgery_decoder.py:21-23 | the encoder's body is the standard Base64 without its `=`, with `+` as `-` and `/` as `_` |
| AntiforgeryProperties.UrlTokenEncode | aspnet_antiforgery_decoder.py:21-25 | a URL token (with the digit, with `4` for none, or without a digit) contains no `=`, `+` or `/` |
| AntiforgeryProperties.TokenBodyWithoutSpecials | aspnet_antiforgery_decoder.py:21-23 | without `+` and `/`, the token body is a prefix of the Base64 text |
| AntiforgeryProperties.BodyPadLen | aspnet_antiforgery_decoder.py:30 | the padding the decoder computes for a token body is exactly the padding the encoder removed |
| AntiforgeryProperties.SwapRestoresStandard | aspnet_antiforgery_decoder.py:41 | the swap as written restores the standard Base64 text from a padded token body whose Base64 text has no `/` |
| AntiforgeryProperties.IntendedSwapRestoresStandard | aspnet_antiforgery_decoder.py:21-23 | the intended swap restores the standard Base64 text from every padded token body |
| AntiforgeryProperties.MarkedTokenPadded | aspnet_antiforgery_decoder.py:27-33 | a token ending in its pad-count digit (or `4` for none) is padded back to body plus exactly the removed `=` |
| AntiforgeryProperties.MarkedRoundTrip | aspnet_antiforgery_decoder.py:18-42 | decoding a token with its digit gives the encoded octets back, or `BadUtf8` when they are not UTF-8; this needs a Base64 text without `/` |
| AntiforgeryProperties.UnmarkedRoundTrip | aspnet_antiforgery_decoder.py:25-42 | the same round trip without the digit, unless the token's last character looks like a pad count |
| AntiforgeryProperties.UnmarkedDigitTakenForMarker | aspnet_antiforgery_decoder.py:27-33 | the heuristic's ambiguity: "ab5" encodes without a digit to `YWI1`, which decodes to "ab" |
| AntiforgeryProperties.SlashInEncodingRejected | aspnet_antiforgery_decoder.py:41 | the token `YWI_0` of "ab?" is rejected as written, but the intended decoder returns "ab?" |
| AntiforgeryProperties.IntendedRoundTrip | aspnet_antiforgery_decoder.py:18-42 | with the intended swap, every token with its digit decodes to the encoded octets, or `BadUtf8` when they are not UTF-8 |
| AntiforgeryProperties.IntendedAgreesWhenAsWrittenSucceeds | aspnet_antiforgery_decoder.py:41 | whenever the decoder as written succeeds, the intended decoder gives the same result |
| AntiforgeryProperties.WarningIsNotAnError | aspnet_antiforgery_decoder.py:72-76 | the pipeline succeeds exactly when extraction and decoding both succeed, and reports the decoded path; the warning never causes a failure |
| AntiforgeryProperties.TokenHasNoUnderscore | aspnet_antiforgery_decoder.py:48 | a token whose Base64 text has no `/` holds no `_`, so the split at the last `_` leaves it whole |
| AntiforgeryProperties.TokenStart | aspnet_antiforgery_decoder.py:49 | a token starts with the first Base64 character when that character is not `+` or `/` |
| AntiforgeryProperties.CookieRoundTrip | aspnet_antiforgery_decoder.py:72-76 | `prefix_token` reports the encoded path, with the warning exactly when the path does not start with `/`; the token starts with `L`, has no `/` in its Base64 text and carries its digit |
| AntiforgeryProperties.SwapsAgreeOffUnderscoreAndSlash | aspnet_antiforgery_decoder.py:41 | the swap as written and the intended swap agree on every string without `_` and `/` |
| AntiforgeryProperties.PipelineUnaffectedBySwap | aspnet_antiforgery_decoder.py:48-50 | the extracted segment never holds `_`, so both pipelines give the same result unless that segment holds `/` |
| AntiforgeryProperties.CorrectedPipelineAgrees | aspnet_antiforgery_decoder.py:72-76 | whenever the pipeline as written succeeds, the corrected pipeline gives the same report |
| AntiforgeryProperties.SwapAlphabetIdentity | aspnet_antiforgery_decoder.py:41 | the swap leaves a string without `-` and `/` unchanged |
| AntiforgeryProperties.FooBarWithoutMarker | aspnet_antiforgery_decoder.py:35-42 | `L2Zvby9iYXI` (no digit) decodes to "/foo/bar" |
| AntiforgeryProperties.FooBarWithMarker | aspnet_antiforgery_decoder.py:27-33 | `L2Zvby9iYXI1` (digit `1`) decodes to "/foo/bar" |
| AntiforgeryProperties.ExclamationMarksRejected | aspnet_antiforgery_decoder.py:42 | `L!!!!` is rejected with `BadBase64` |
| AntiforgeryProperties.ContinuationOctetRejected | aspnet_antiforgery_decoder.py:42 | `gA2` decodes to the single octet 0x80 as Base64, and is rejected with `BadUtf8` |
| AntiforgeryProperties.MalformedCookieNames | aspnet_antiforgery_decoder.py:48-52 | names without `_`, with a last segment not starting with `L`, or ending in `_` are rejected |
| AntiforgeryProperties.NonSlashPathWarns | aspnet_antiforgery_decoder.py:72-75 | `__RequestVerificationToken_Lng1` reports the path ".x" with the warning |

## Left out

- The command line is not modelled. This covers the banner, `argparse` and the two `print` calls of `main` (lines 55-80). The pipeline returns the path and the warning flag instead.
- Base64.Decode: Python's `b64decode` without `validate=True` is lenient. It silently discards characters outside the alphabet, and it handles stray `=` in intricate ways. The model is a strict RFC 4648 decoder that rejects those inputs. So `ForeignCharacterRejected` and `ExclamationMarksRejected` describe the strict decoder. Like Python, the model ignores the unused low bits of the last character before the padding.
- AntiforgeryDecoder.DecodeAppPath: returns the decoded octets together with a UTF-8 well-formedness predicate. The octets are not converted to a text string of code points.
- AntiforgeryDecoder.DecodeAppPath: requires a non-empty input. In Python, `encoded_apppath[-1]` raises `IndexError` on the empty string. The extractor never passes an empty string.
- AntiforgeryDecoder.EndsWithPadMarker: only ASCII `0`-`9` count as digits. Python's `str.isdigit()` and `int()` also accept other Unicode decimal digits, which the model treats as data. `str.isdigit()` is also true for digits that are not decimal, such as `²`; on those, `int()` raises `ValueError`, while the model treats the character as data and fails with `BadBase64`.
- Python's exception classes (`ValueError`, `binascii.Error`, `UnicodeDecodeError`, `IndexError`) are not modelled. They become the three values of `Error`, or the precondition above.
- AntiforgeryDecoder.StartsWithSlash: tests the first octet of the path. Because `/` is a one-octet character and the path is well-formed UTF-8, this agrees with `str.startswith("/")`.

## Findings

| source | as written | input that shows it | evidently intended | confidence | as-written member | corrected member |
|---|---|---|---|---|---|---|
| aspnet_antiforgery_decoder.py:41 | replaces `/` with `_`, which leaves the token's `_` in place | the octets of "ab?" (standard Base64 `YWI/`) have the token `YWI_0`; the decoder rejects it | `replace('_', '/')`, which undoes Microsoft's substitution as the comment on lines 21-23 describes | not executed | AntiforgeryProperties.SlashInEncodingRejected | AntiforgeryProperties.IntendedRoundTrip |

The corrected decoder is `AntiforgeryDecoder.DecodeAppPathIntended`, and the
corrected pipeline is `AntiforgeryDecoder.DecodeCookieNameIntended`.

- `AntiforgeryProperties.IntendedAgreesWhenAsWrittenSucceeds` and
  `AntiforgeryProperties.CorrectedPipelineAgrees` show that the correction
  changes no successful result.
- `DecodeCookieName` keeps the decoder as written, because that is what `main`
  runs. `MarkedRoundTrip` states its round trip wherever the Base64 text has
  no `/`.
- Through `main`, the defect is mostly hidden. The extractor already splits
  the name at its last `_`, so a token holding `_` is cut before decoding
  (`PipelineUnaffectedBySwap`). The defect shows fully when the decoder is
  called on a token directly.
