/**
  The standard Base64 encoding of RFC 4648, section 4: the alphabet of Table 1,
  with `=` padding of the final quantum. The decoder here is strict: it accepts
  only alphabet characters, with at most two `=` at the very end of a string
  whose length is a multiple of four. Like Python's decoder, it ignores the
  unused low bits of the last character before padding.
*/
module Base64 {
  import opened Common

  /** The six bits one Base64 character stands for. */
  type sextet = v: int | 0 <= v < 64

  const Pad: char := '='

  /** The 64 characters of Table 1 of RFC 4648. */
  predicate IsAlphabetChar(c: char) {
    'A' <= c <= 'Z' || 'a' <= c <= 'z' || '0' <= c <= '9' || c == '+' || c == '/'
  }

  /** Every character of `s` is one of the 64 of Table 1. */
  predicate AllAlphabet(s: string) {
    forall i | 0 <= i < |s| :: IsAlphabetChar(s[i])
  }

  /**
    Every character of `s` is of Table 1, except that the last one or two may
    be the pad character.
  */
  predicate PaddedAlphabet(s: string) {
    forall i | 0 <= i < |s| :: IsAlphabetChar(s[i]) || (s[i] == Pad && |s| - 2 <= i)
  }

  /** The character Table 1 assigns to value `v`. */
  function CharOf(v: sextet): (c: char)
    ensures IsAlphabetChar(c)
  {
    if v < 26 then ('A' as int + v) as char
    else if v < 52 then ('a' as int + (v - 26)) as char
    else if v < 62 then ('0' as int + (v - 52)) as char
    else if v == 62 then '+'
    else '/'
  }

  /** The value Table 1 assigns to character `c`. */
  function ValueOf(c: char): (v: sextet)
    requires IsAlphabetChar(c)
    ensures CharOf(v) == c
  {
    if 'A' <= c <= 'Z' then c as int - 'A' as int
    else if 'a' <= c <= 'z' then c as int - 'a' as int + 26
    else if '0' <= c <= '9' then c as int - '0' as int + 52
    else if c == '+' then 62
    else 63
  }

  lemma ValueOfCharOf(v: sextet)
    ensures ValueOf(CharOf(v)) == v
  {
  }

  // The 24-bit group of a quantum, cut into octets and into sextets.

  function FirstOctet(a: sextet, b: sextet): (o: byte) { a * 4 + b / 16 }
  function SecondOctet(b: sextet, c: sextet): (o: byte) { (b % 16) * 16 + c / 4 }
  function ThirdOctet(c: sextet, d: sextet): (o: byte) { (c % 4) * 64 + d }

  function FirstSextet(x: byte): (v: sextet) { x / 4 }
  function SecondSextet(x: byte, y: byte): (v: sextet) { (x % 4) * 16 + y / 16 }
  function ThirdSextet(y: byte, z: byte): (v: sextet) { (y % 16) * 4 + z / 64 }
  function FourthSextet(z: byte): (v: sextet) { z % 64 }

  /** Cutting octets into sextets and joining them again gives the octets back. */
  lemma OctetsSextetsOctets(x: byte, y: byte, z: byte)
    ensures FirstOctet(FirstSextet(x), SecondSextet(x, y)) == x
    ensures SecondOctet(SecondSextet(x, y), ThirdSextet(y, z)) == y
    ensures ThirdOctet(ThirdSextet(y, z), FourthSextet(z)) == z
  {
    assert SecondSextet(x, y) / 16 == x % 4;
    assert SecondSextet(x, y) % 16 == y / 16;
    assert ThirdSextet(y, z) / 4 == y % 16;
    assert ThirdSextet(y, z) % 4 == z / 64;
  }

  /**
    The octets of one quantum of four characters, or None when the quantum is
    malformed. Padding is allowed only in the last quantum of the input.
  */
  function DecodeQuantum(q: string, isLast: bool): (r: Option<seq<byte>>)
    requires |q| == 4
    ensures r.Some? ==> IsAlphabetChar(q[0]) && IsAlphabetChar(q[1])
    ensures r.Some? ==> (IsAlphabetChar(q[2]) || (isLast && q[2] == Pad))
    ensures r.Some? ==> (IsAlphabetChar(q[3]) || (isLast && q[3] == Pad))
    ensures r.Some? ==> |r.value| == (if q[2] == Pad then 1 else if q[3] == Pad then 2 else 3)
    ensures r.Some? ==> 1 <= |r.value| <= 3 && (isLast || |r.value| == 3) && EndsInPads(q, 3 - |r.value|)
  {
    if !IsAlphabetChar(q[0]) || !IsAlphabetChar(q[1]) then None
    else
      var a, b := ValueOf(q[0]), ValueOf(q[1]);
      if IsAlphabetChar(q[2]) && IsAlphabetChar(q[3]) then
        var c, d := ValueOf(q[2]), ValueOf(q[3]);
        Some([FirstOctet(a, b), SecondOctet(b, c), ThirdOctet(c, d)])
      else if isLast && IsAlphabetChar(q[2]) && q[3] == Pad then
        Some([FirstOctet(a, b), SecondOctet(b, ValueOf(q[2]))])
      else if isLast && q[2] == Pad && q[3] == Pad then
        Some([FirstOctet(a, b)])
      else
        None
  }

  /** Decodes a string of whole quanta, left to right. */
  function DecodeQuanta(s: string): (r: Option<seq<byte>>)
    requires |s| % 4 == 0
    ensures r.Some? ==> PaddedAlphabet(s)
    ensures r.Some? ==> |s| / 4 * 3 - 2 <= |r.value| <= |s| / 4 * 3 && EndsInPads(s, |s| / 4 * 3 - |r.value|)
    ensures AllAlphabet(s) ==> r.Some? && |r.value| == |s| / 4 * 3
    decreases |s|
  {
    if s == [] then Some([])
    else
      var q, rest := s[..4], s[4..];
      assert forall i | 0 <= i < 4 :: q[i] == s[i];
      assert forall i | 4 <= i < |s| :: rest[i - 4] == s[i];
      assert AllAlphabet(s) ==> AllAlphabet(q) && AllAlphabet(rest);
      match DecodeQuantum(q, |s| == 4)
      case None => None
      case Some(head) =>
        match DecodeQuanta(rest)
        case None => None
        case Some(tail) =>
          assert s == q + rest;
          assert rest != [] ==> EndsInPads(q + rest, |rest| / 4 * 3 - |tail|) by {
            if rest != [] {
              EndsInPadsAppend(q, rest, |rest| / 4 * 3 - |tail|);
            }
          }
          Some(head + tail)
  }

  /** Base64 decoding (RFC 4648, section 4); None when `s` is not valid Base64. */
  function Decode(s: string): (r: Option<seq<byte>>)
    ensures r.Some? ==> |s| % 4 == 0
    ensures r.Some? ==> PaddedAlphabet(s)
    ensures r.Some? ==> |s| / 4 * 3 - 2 <= |r.value| <= |s| / 4 * 3 && EndsInPads(s, |s| / 4 * 3 - |r.value|)
    ensures |s| % 4 == 0 && AllAlphabet(s) ==> r.Some? && |r.value| == |s| / 4 * 3
  {
    if |s| % 4 != 0 then None else DecodeQuanta(s)
  }

  /** How many `=` end the encoding of `n` octets. */
  function EncodedPadCount(n: nat): (k: nat)
    ensures k < 3
    ensures (n + k) % 3 == 0
  {
    (3 - n % 3) % 3
  }

  /** `s` is alphabet characters followed by exactly `k` pad characters. */
  predicate EndsInPads(s: string, k: nat) {
    k <= |s| && forall i | 0 <= i < |s| :: if i < |s| - k then IsAlphabetChar(s[i]) else s[i] == Pad
  }

  lemma EndsInPadsAppend(q: string, rest: string, k: nat)
    requires EndsInPads(q, 0) && EndsInPads(rest, k)
    ensures EndsInPads(q + rest, k)
  {
    var s := q + rest;
    forall i | 0 <= i < |s|
      ensures if i < |s| - k then IsAlphabetChar(s[i]) else s[i] == Pad
    {
      if i < |q| {
        assert s[i] == q[i];
      } else {
        assert s[i] == rest[i - |q|];
      }
    }
  }

  // The quanta that encode a final group of one or two octets and a full group of three.

  function QuantumOf1(x: byte): (q: string)
    ensures |q| == 4 && EndsInPads(q, 2)
  {
    [CharOf(FirstSextet(x)), CharOf(SecondSextet(x, 0)), Pad, Pad]
  }

  function QuantumOf2(x: byte, y: byte): (q: string)
    ensures |q| == 4 && EndsInPads(q, 1)
  {
    [CharOf(FirstSextet(x)), CharOf(SecondSextet(x, y)), CharOf(ThirdSextet(y, 0)), Pad]
  }

  function QuantumOf3(x: byte, y: byte, z: byte): (q: string)
    ensures |q| == 4 && EndsInPads(q, 0)
  {
    [CharOf(FirstSextet(x)), CharOf(SecondSextet(x, y)), CharOf(ThirdSextet(y, z)), CharOf(FourthSextet(z))]
  }

  lemma DecodeQuantumOf1(x: byte)
    ensures DecodeQuantum(QuantumOf1(x), true) == Some([x])
  {
    var q, a, b := QuantumOf1(x), FirstSextet(x), SecondSextet(x, 0);
    assert |q| == 4;
    assert !IsAlphabetChar(q[2]);
    ValueOfCharOf(a);
    ValueOfCharOf(b);
    assert ValueOf(q[0]) == a && ValueOf(q[1]) == b;
    assert DecodeQuantum(q, true) == Some([FirstOctet(a, b)]);
    OctetsSextetsOctets(x, 0, 0);
  }

  lemma DecodeQuantumOf2(x: byte, y: byte)
    ensures DecodeQuantum(QuantumOf2(x, y), true) == Some([x, y])
  {
    OctetsSextetsOctets(x, y, 0);
    ValueOfCharOf(FirstSextet(x));
    ValueOfCharOf(SecondSextet(x, y));
    ValueOfCharOf(ThirdSextet(y, 0));
  }

  lemma DecodeQuantumOf3(x: byte, y: byte, z: byte, isLast: bool)
    ensures DecodeQuantum(QuantumOf3(x, y, z), isLast) == Some([x, y, z])
  {
    OctetsSextetsOctets(x, y, z);
    ValueOfCharOf(FirstSextet(x));
    ValueOfCharOf(SecondSextet(x, y));
    ValueOfCharOf(ThirdSextet(y, z));
    ValueOfCharOf(FourthSextet(z));
  }

  /** Base64 encoding (RFC 4648, section 4), with `=` padding. */
  function Encode(b: seq<byte>): (s: string)
    ensures |s| == (|b| + 2) / 3 * 4
    ensures EndsInPads(s, EncodedPadCount(|b|))
  {
    if |b| == 0 then []
    else if |b| == 1 then QuantumOf1(b[0])
    else if |b| == 2 then QuantumOf2(b[0], b[1])
    else
      var q, rest := QuantumOf3(b[0], b[1], b[2]), Encode(b[3..]);
      assert EncodedPadCount(|b| - 3) == EncodedPadCount(|b|);
      EndsInPadsAppend(q, rest, EncodedPadCount(|b|));
      q + rest
  }

  /** A well-formed quantum followed by well-formed quanta decodes piecewise. */
  lemma DecodeQuantaCons(q: string, rest: string, head: seq<byte>, tail: seq<byte>)
    requires |q| == 4 && |rest| % 4 == 0
    requires DecodeQuantum(q, rest == []) == Some(head)
    requires DecodeQuanta(rest) == Some(tail)
    ensures DecodeQuanta(q + rest) == Some(head + tail)
  {
    var s := q + rest;
    assert s[..4] == q && s[4..] == rest;
  }

  /** Decoding undoes encoding, for every octet string. */
  lemma {:induction false} DecodeEncode(b: seq<byte>)
    ensures Decode(Encode(b)) == Some(b)
  {
    var s := Encode(b);
    var groups := (|b| + 2) / 3;
    assert |s| == groups * 4;
    assert |s| % 4 == 0;
    if |b| == 0 {
    } else if |b| == 1 {
      assert s == QuantumOf1(b[0]) + [] && b == [b[0]] + [];
      DecodeQuantumOf1(b[0]);
      DecodeQuantaCons(QuantumOf1(b[0]), [], [b[0]], []);
    } else if |b| == 2 {
      assert s == QuantumOf2(b[0], b[1]) + [] && b == [b[0], b[1]] + [];
      DecodeQuantumOf2(b[0], b[1]);
      DecodeQuantaCons(QuantumOf2(b[0], b[1]), [], [b[0], b[1]], []);
    } else {
      assert b == [b[0], b[1], b[2]] + b[3..];
      var rest := Encode(b[3..]);
      assert s == QuantumOf3(b[0], b[1], b[2]) + rest;
      DecodeEncode(b[3..]);
      DecodeQuantumOf3(b[0], b[1], b[2], rest == []);
      DecodeQuantaCons(QuantumOf3(b[0], b[1], b[2]), rest, [b[0], b[1], b[2]], b[3..]);
    }
  }
}
