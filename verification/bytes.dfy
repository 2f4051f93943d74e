/**
  Bytes and the character classes of a Python `bytes` regular expression.

  In a bytes pattern `\d` is an ASCII digit, `\s` is one of the six ASCII
  whitespace bytes (space, tab, line feed, vertical tab, form feed, carriage
  return) and `.` is any byte except line feed.
 */
module Bytes {

  newtype byte = b: int | 0 <= b < 256

  const TAB: byte := 9
  const NL: byte := 10
  const CR: byte := 13
  const SP: byte := 32
  const DQUOTE: byte := 34
  const HASH: byte := 35
  const DASH: byte := 45
  const DOT: byte := 46
  const COLON: byte := 58

  /** `\d` */
  predicate IsDigit(b: byte) {
    48 <= b <= 57
  }

  /** `\s` */
  predicate IsSpace(b: byte) {
    b == SP || 9 <= b <= 13
  }

  /** `\S` */
  predicate IsNotSpace(b: byte) {
    !IsSpace(b)
  }

  /** `.` without the DOTALL flag */
  predicate IsAnyByte(b: byte) {
    b != NL
  }

  /** `[\d.]` */
  predicate IsAddrByte(b: byte) {
    IsDigit(b) || b == DOT
  }

  /** The byte classes the pattern repeats with `+?`. */
  datatype Class = Digit | AddrByte | NonSpace | AnyByte

  predicate In(p: Class, b: byte) {
    match p
    case Digit => IsDigit(b)
    case AddrByte => IsAddrByte(b)
    case NonSpace => IsNotSpace(b)
    case AnyByte => IsAnyByte(b)
  }

  /** Every byte of `s` belongs to the class `p`. */
  predicate All(s: seq<byte>, p: Class) {
    forall i :: 0 <= i < |s| ==> In(p, s[i])
  }

  /** Every byte of `s[i..j]` belongs to the class `p`, stated by position. */
  predicate AllIn(s: seq<byte>, i: nat, j: nat, p: Class)
    requires i <= j <= |s|
  {
    forall m :: i <= m < j ==> In(p, s[m])
  }

  /** The positional and the slice form say the same thing. */
  lemma AllInSlice(s: seq<byte>, i: nat, j: nat, p: Class)
    requires i <= j <= |s|
    ensures AllIn(s, i, j, p) <==> All(s[i..j], p)
  {
    assert forall m :: 0 <= m < j - i ==> s[i..j][m] == s[i + m];
  }

  /**
    The end of the maximal run of bytes of class `p` that starts at `i`:
    every byte in between is in the class and the byte at the end is not
    (or the end is the end of `s`).
   */
  function RunEnd(s: seq<byte>, i: nat, p: Class): (j: nat)
    requires i <= |s|
    ensures i <= j <= |s|
    ensures AllIn(s, i, j, p)
    ensures j == |s| || !In(p, s[j])
    decreases |s| - i
  {
    if i < |s| && In(p, s[i]) then RunEnd(s, i + 1, p) else i
  }

  /** A run is maximal in exactly one place, so `RunEnd` is the only end that qualifies. */
  lemma RunEndUnique(s: seq<byte>, i: nat, j: nat, p: Class)
    requires i <= j <= |s|
    requires AllIn(s, i, j, p)
    requires j == |s| || !In(p, s[j])
    ensures RunEnd(s, i, p) == j
  {
  }

  /** A run stops no later than the first byte outside its class. */
  lemma {:induction false} RunEndStops(s: seq<byte>, i: nat, j: nat, p: Class)
    requires i <= j < |s| && !In(p, s[j])
    ensures RunEnd(s, i, p) <= j
    decreases j - i
  {
    if i < j && In(p, s[i]) {
      RunEndStops(s, i + 1, j, p);
    }
  }
}
