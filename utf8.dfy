/**
  Well-formed UTF-8 octet sequences, after the grammar of section 4 of RFC 3629
  (which excludes overlong forms, surrogates and code points above U+10FFFF).
  This is the condition under which Python's `bytes.decode("utf-8")` succeeds.
*/
module Utf8 {
  import opened Common

  /** UTF8-tail of RFC 3629: a continuation octet. */
  predicate IsTail(x: byte) {
    0x80 <= x <= 0xBF
  }

  /**
    The number of octets of the well-formed character that starts `b`, or 0
    when `b` does not start with one.
  */
  function CharLength(b: seq<byte>): (k: nat)
    ensures k <= |b| && k <= 4
    ensures |b| > 0 ==> (k == 1 <==> b[0] < 0x80)
    ensures k > 1 ==> forall j | 1 <= j < k :: IsTail(b[j])
    ensures |b| > 0 && IsTail(b[0]) ==> k == 0
  {
    if |b| == 0 then 0
    else
      var x := b[0];
      if x <= 0x7F then 1
      else if 0xC2 <= x <= 0xDF then
        if |b| >= 2 && IsTail(b[1]) then 2 else 0
      else if x == 0xE0 then
        if |b| >= 3 && 0xA0 <= b[1] <= 0xBF && IsTail(b[2]) then 3 else 0
      else if 0xE1 <= x <= 0xEC || 0xEE <= x <= 0xEF then
        if |b| >= 3 && IsTail(b[1]) && IsTail(b[2]) then 3 else 0
      else if x == 0xED then
        if |b| >= 3 && 0x80 <= b[1] <= 0x9F && IsTail(b[2]) then 3 else 0
      else if x == 0xF0 then
        if |b| >= 4 && 0x90 <= b[1] <= 0xBF && IsTail(b[2]) && IsTail(b[3]) then 4 else 0
      else if 0xF1 <= x <= 0xF3 then
        if |b| >= 4 && IsTail(b[1]) && IsTail(b[2]) && IsTail(b[3]) then 4 else 0
      else if x == 0xF4 then
        if |b| >= 4 && 0x80 <= b[1] <= 0x8F && IsTail(b[2]) && IsTail(b[3]) then 4 else 0
      else 0
  }

  /** `b` is a sequence of well-formed UTF-8 characters (UTF8-octets of RFC 3629). */
  predicate IsWellFormed(b: seq<byte>)
    decreases |b|
  {
    b == [] || (CharLength(b) > 0 && IsWellFormed(b[CharLength(b)..]))
  }

  /** Octets below 0x80 are one-octet characters, so ASCII text is well-formed UTF-8. */
  lemma {:induction false} AsciiIsWellFormed(b: seq<byte>)
    requires forall i | 0 <= i < |b| :: b[i] < 0x80
    ensures IsWellFormed(b)
    decreases |b|
  {
    if b != [] {
      assert CharLength(b) == 1;
      AsciiIsWellFormed(b[1..]);
    }
  }
}
