/**
  Strict UTF-8 validity, the test `bytes.decode()` applies before it returns
  text: the well-formed byte sequences of Table 3-7 of the Unicode Standard
  (no overlong forms, no surrogates, nothing above U+10FFFF).
 */
module Utf8 {
  import opened Bytes

  predicate IsAscii(b: byte) {
    b < 0x80
  }

  predicate InRange(b: byte, lo: byte, hi: byte) {
    lo <= b <= hi
  }

  /** The first byte `s[0]` starts a well-formed sequence of `n` bytes. */
  predicate WellFormedAt(s: seq<byte>, n: nat)
    requires 0 < |s|
  {
    var b := s[0];
    if n == 1 then
      IsAscii(b)
    else if n == 2 then
      |s| >= 2 && InRange(b, 0xC2, 0xDF) && InRange(s[1], 0x80, 0xBF)
    else if n == 3 then
      && |s| >= 3
      && InRange(s[2], 0x80, 0xBF)
      && (|| (b == 0xE0 && InRange(s[1], 0xA0, 0xBF))
          || (InRange(b, 0xE1, 0xEC) && InRange(s[1], 0x80, 0xBF))
          || (b == 0xED && InRange(s[1], 0x80, 0x9F))
          || (InRange(b, 0xEE, 0xEF) && InRange(s[1], 0x80, 0xBF)))
    else if n == 4 then
      && |s| >= 4
      && InRange(s[2], 0x80, 0xBF)
      && InRange(s[3], 0x80, 0xBF)
      && (|| (b == 0xF0 && InRange(s[1], 0x90, 0xBF))
          || (InRange(b, 0xF1, 0xF3) && InRange(s[1], 0x80, 0xBF))
          || (b == 0xF4 && InRange(s[1], 0x80, 0x8F)))
    else
      false
  }

  /** `s` decodes as UTF-8 without error. */
  predicate IsValid(s: seq<byte>)
    decreases |s|
  {
    if |s| == 0 then
      true
    else if WellFormedAt(s, 1) then
      IsValid(s[1..])
    else if WellFormedAt(s, 2) then
      IsValid(s[2..])
    else if WellFormedAt(s, 3) then
      IsValid(s[3..])
    else
      WellFormedAt(s, 4) && IsValid(s[4..])
  }

  /** An all-ASCII byte string, such as a user name in a plain ASCII log, always decodes. */
  lemma {:induction false} AsciiIsValid(s: seq<byte>)
    requires forall i :: 0 <= i < |s| ==> IsAscii(s[i])
    ensures IsValid(s)
    decreases |s|
  {
    if |s| > 0 {
      assert forall i :: 0 <= i < |s[1..]| ==> s[1..][i] == s[i + 1];
      AsciiIsValid(s[1..]);
    }
  }

  /** Bytes that start with a continuation byte do not decode. */
  lemma StrayContinuationInvalid(s: seq<byte>)
    requires 0 < |s| && InRange(s[0], 0x80, 0xBF)
    ensures !IsValid(s)
  {
  }

  /** Bytes 0xC0, 0xC1 and 0xF5..0xFF never occur in UTF-8. */
  lemma ForbiddenLeadInvalid(s: seq<byte>)
    requires 0 < |s| && (s[0] == 0xC0 || s[0] == 0xC1 || s[0] >= 0xF5)
    ensures !IsValid(s)
  {
  }

  /** The UTF-8 encoding of a surrogate code point (ED A0..BF ..) is rejected. */
  lemma SurrogateInvalid(s: seq<byte>)
    requires 3 <= |s| && s[0] == 0xED && InRange(s[1], 0xA0, 0xBF)
    ensures !IsValid(s)
  {
  }

  /** A Unicode scalar value: a code point that is not a surrogate. */
  predicate IsScalar(cp: nat) {
    cp < 0x11_0000 && !(0xD800 <= cp <= 0xDFFF)
  }

  /** A continuation byte carrying six bits. */
  function Cont(bits: nat): (b: byte)
    ensures InRange(b, 0x80, 0xBF)
  {
    (0x80 + bits % 64) as byte
  }

  /** The UTF-8 encoding of one scalar value, as `str.encode()` writes it. */
  function Encode(cp: nat): (r: seq<byte>)
    requires IsScalar(cp)
    ensures 1 <= |r| <= 4
  {
    if cp < 0x80 then [cp as byte]
    else if cp < 0x800 then [(0xC0 + cp / 64) as byte, Cont(cp)]
    else if cp < 0x1_0000 then [(0xE0 + cp / 4096) as byte, Cont(cp / 64), Cont(cp)]
    else [(0xF0 + cp / 262144) as byte, Cont(cp / 4096), Cont(cp / 64), Cont(cp)]
  }

  /** The encoding of a scalar value is one well-formed sequence, of its own length. */
  lemma EncodeWellFormed(cp: nat, rest: seq<byte>)
    requires IsScalar(cp)
    ensures WellFormedAt(Encode(cp) + rest, |Encode(cp)|)
  {
    if 0x800 <= cp < 0x1_0000 {
      ThreeByteWellFormed(cp, rest);
    } else if 0x1_0000 <= cp {
      FourByteWellFormed(cp, rest);
    }
  }

  /** U+0800..U+FFFF: the lead byte E0 needs a second byte A0..BF, ED one of 80..9F. */
  lemma ThreeByteWellFormed(cp: nat, rest: seq<byte>)
    requires IsScalar(cp) && 0x800 <= cp < 0x1_0000
    ensures WellFormedAt(Encode(cp) + rest, 3)
  {
    var s := Encode(cp) + rest;
    var hi := cp / 64 % 64;
    assert s[1] == Cont(cp / 64) && s[1] as int == 0x80 + hi;
    if cp < 0x1000 {
      assert s[0] == 0xE0 && hi >= 32;
    } else if cp < 0xD000 {
      assert InRange(s[0], 0xE1, 0xEC);
    } else if cp < 0xE000 {
      assert s[0] == 0xED && hi < 32;
    } else {
      assert InRange(s[0], 0xEE, 0xEF);
    }
  }

  /** U+10000..U+10FFFF: the lead byte F0 needs a second byte 90..BF, F4 one of 80..8F. */
  lemma FourByteWellFormed(cp: nat, rest: seq<byte>)
    requires IsScalar(cp) && 0x1_0000 <= cp
    ensures WellFormedAt(Encode(cp) + rest, 4)
  {
    var s := Encode(cp) + rest;
    var hi := cp / 4096 % 64;
    assert s[1] == Cont(cp / 4096) && s[1] as int == 0x80 + hi;
    if cp < 0x4_0000 {
      assert s[0] == 0xF0 && hi >= 16;
    } else if cp < 0x10_0000 {
      assert InRange(s[0], 0xF1, 0xF3);
    } else {
      assert s[0] == 0xF4 && hi < 16;
    }
  }

  /** The sequences of different lengths exclude each other: a lead byte fixes the length. */
  lemma WellFormedLength(s: seq<byte>, m: nat, n: nat)
    requires 0 < |s| && WellFormedAt(s, m) && WellFormedAt(s, n)
    ensures m == n
  {
  }

  /** A well-formed sequence followed by valid bytes is valid. */
  lemma ValidAfter(s: seq<byte>, n: nat)
    requires 0 < |s| && WellFormedAt(s, n) && IsValid(s[n..])
    ensures IsValid(s)
  {
    if n != 1 { assert !WellFormedAt(s, 1); }
    if n != 2 { assert !WellFormedAt(s, 2); }
    if n != 3 { assert !WellFormedAt(s, 3); }
  }

  /** The encoding of code points, one after the other. */
  function EncodeAll(cps: seq<nat>): seq<byte>
    requires forall i :: 0 <= i < |cps| ==> IsScalar(cps[i])
  {
    if |cps| == 0 then [] else Encode(cps[0]) + EncodeAll(cps[1..])
  }

  /** Every text encodes to bytes that `.decode()` accepts. */
  lemma {:induction false} EncodeAllValid(cps: seq<nat>)
    requires forall i :: 0 <= i < |cps| ==> IsScalar(cps[i])
    ensures IsValid(EncodeAll(cps))
  {
    if |cps| > 0 {
      var e := Encode(cps[0]);
      var rest := EncodeAll(cps[1..]);
      EncodeAllValid(cps[1..]);
      EncodeWellFormed(cps[0], rest);
      assert (e + rest)[|e|..] == rest;
      ValidAfter(e + rest, |e|);
    }
  }
}
