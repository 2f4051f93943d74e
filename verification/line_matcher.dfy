/**
  The log-line regex of userViewCounter.py as a structural matcher.

  Only the request field `".+?"` ever backtracks: every other lazy run is
  followed by a byte it cannot contain (a space after digits, after
  `[\d.]`), so it stops in exactly one place. The user field `(.+?)\s`
  stops at the first whitespace byte after its first byte. The matcher
  therefore reads the fixed head, then tries closing-quote positions from
  left to right, and takes the first one after which the tail matches.

  Every stage reads the part of the line that the previous stages left, so
  each stage's result is stated about that suffix alone.
 */
module LineMatcher {
  import opened Wrappers
  import opened Bytes
  import opened LogPattern

  /**
    A lazy run `p+?` followed by a space, read from the start of `x`: the
    position of that space. The run cannot contain a space, so it ends where
    the maximal run ends or not at all.
   */
  function RunThenSpace(x: seq<byte>, p: Class): (r: Option<nat>)
    requires !In(p, SP)
    ensures r.Some? ==> 0 < r.value < |x| && AllIn(x, 0, r.value, p) && x[r.value] == SP
  {
    var j := RunEnd(x, 0, p);
    if j == 0 || j == |x| || x[j] != SP then None else Some(j)
  }

  /** What `RunThenSpace` finds is a non-empty field of class `p` ended by a space. */
  lemma RunThenSpaceSplit(x: seq<byte>, p: Class)
    requires !In(p, SP) && RunThenSpace(x, p).Some?
    ensures var j := RunThenSpace(x, p).value;
      |x[..j]| > 0 && All(x[..j], p) && x == Then(x[..j], SP, x[j + 1..])
  {
    var j := RunThenSpace(x, p).value;
    AllInSlice(x, 0, j, p);
    ThenCut(x, x[..j], SP, x[j + 1..]);
  }

  /** A non-empty field of class `p` ended by a space is exactly what `RunThenSpace` finds. */
  lemma RunThenSpaceField(x: seq<byte>, f: seq<byte>, rest: seq<byte>, p: Class)
    requires !In(p, SP) && |f| > 0 && All(f, p) && x == Then(f, SP, rest)
    ensures RunThenSpace(x, p) == Some(|f|) && x[..|f|] == f && x[|f| + 1..] == rest
  {
    ThenCut(x, f, SP, rest);
    AllInSlice(x, 0, |f|, p);
    RunEndUnique(x, 0, |f|, p);
  }

  /**
    The user field `(.+?)\s` read from the start of `x`: the position of the
    whitespace byte that ends it. The first byte is any byte but a line feed;
    after it the lazy run stops at the first whitespace byte.
   */
  function UserEnd(x: seq<byte>): (r: Option<nat>)
    ensures r.Some? ==> 0 < r.value < |x| && x[0] != NL
    ensures r.Some? ==> AllIn(x, 1, r.value, NonSpace) && IsSpace(x[r.value])
  {
    if |x| == 0 || x[0] == NL then None
    else
      var e := RunEnd(x, 1, NonSpace);
      if e == |x| then None else Some(e)
  }

  /** The user field cut by `UserEnd` is a line-feed-free byte followed by non-whitespace bytes. */
  lemma UserFieldShape(x: seq<byte>, e: nat)
    requires UserEnd(x) == Some(e)
    ensures All(x[..e], AnyByte) && All(x[..e][1..], NonSpace)
  {
    assert x[..e][1..] == x[1..e];
    AllInSlice(x, 1, e, NonSpace);
  }

  /** The lazy user field ends no later than any whitespace byte after its first byte. */
  lemma UserEndFirst(x: seq<byte>, user: seq<byte>, sep: byte, rest: seq<byte>)
    requires |user| > 0 && All(user, AnyByte) && IsSpace(sep)
    requires x == Then(user, sep, rest)
    ensures UserEnd(x).Some? && UserEnd(x).value <= |user|
  {
    ThenCut(x, user, sep, rest);
    assert x[0] == user[0];
    RunEndStops(x, 1, |user|, NonSpace);
  }

  /** `(?P<username>.+?)\s` after the status and the address; the rest of the line is left over. */
  function MatchUser(status: seq<byte>, addr: seq<byte>, x: seq<byte>): Option<Tail> {
    match UserEnd(x)
    case None => None
    case Some(e) => Some(Tail(status, addr, x[..e], x[e], x[e + 1..]))
  }

  /** `[\d.]+? ` after the status, then the user field. */
  function MatchAddr(status: seq<byte>, x: seq<byte>): Option<Tail> {
    match RunThenSpace(x, AddrByte)
    case None => None
    case Some(a) => MatchUser(status, x[..a], x[a + 1..])
  }

  /** `\d+? [\d.]+? (?P<username>.+?)\s`: the fields after the closing quote and its space. */
  function MatchTail(x: seq<byte>): Option<Tail> {
    match RunThenSpace(x, Digit)
    case None => None
    case Some(s) => MatchAddr(x[..s], x[s + 1..])
  }

  lemma MatchUserSound(status: seq<byte>, addr: seq<byte>, x: seq<byte>)
    requires MatchUser(status, addr, x).Some?
    ensures var t := MatchUser(status, addr, x).value;
      && t.status == status && t.addr == addr
      && |t.user| > 0 && All(t.user, AnyByte) && All(t.user[1..], NonSpace) && IsSpace(t.sep)
      && Then(t.user, t.sep, t.rest) == x
  {
    var e := UserEnd(x).value;
    UserFieldShape(x, e);
    ThenCut(x, x[..e], x[e], x[e + 1..]);
  }

  lemma MatchAddrSound(status: seq<byte>, x: seq<byte>)
    requires MatchAddr(status, x).Some?
    ensures var t := MatchAddr(status, x).value;
      && t.status == status && |t.addr| > 0 && All(t.addr, AddrByte)
      && |t.user| > 0 && All(t.user, AnyByte) && All(t.user[1..], NonSpace) && IsSpace(t.sep)
      && Then(t.addr, SP, Then(t.user, t.sep, t.rest)) == x
  {
    var a := RunThenSpace(x, AddrByte).value;
    RunThenSpaceSplit(x, AddrByte);
    MatchUserSound(status, x[..a], x[a + 1..]);
  }

  /**
    A tail found by `MatchTail` is well formed and spells out exactly the text
    it was read from; its user field is one byte followed by non-whitespace.
   */
  lemma MatchTailSound(x: seq<byte>)
    requires MatchTail(x).Some?
    ensures TailWellFormed(MatchTail(x).value) && TailText(MatchTail(x).value) == x
    ensures All(MatchTail(x).value.user[1..], NonSpace)
  {
    var s := RunThenSpace(x, Digit).value;
    RunThenSpaceSplit(x, Digit);
    MatchAddrSound(x[..s], x[s + 1..]);
  }

  lemma MatchUserFirst(status: seq<byte>, addr: seq<byte>, x: seq<byte>, t: Tail)
    requires |t.user| > 0 && All(t.user, AnyByte) && IsSpace(t.sep)
    requires x == Then(t.user, t.sep, t.rest)
    ensures MatchUser(status, addr, x).Some?
    ensures |MatchUser(status, addr, x).value.user| <= |t.user|
  {
    UserEndFirst(x, t.user, t.sep, t.rest);
  }

  lemma MatchAddrFirst(status: seq<byte>, x: seq<byte>, t: Tail)
    requires TailWellFormed(t) && x == Then(t.addr, SP, Then(t.user, t.sep, t.rest))
    ensures MatchAddr(status, x).Some?
    ensures MatchAddr(status, x).value.status == status && MatchAddr(status, x).value.addr == t.addr
    ensures |MatchAddr(status, x).value.user| <= |t.user|
  {
    RunThenSpaceField(x, t.addr, Then(t.user, t.sep, t.rest), AddrByte);
    MatchUserFirst(status, t.addr, Then(t.user, t.sep, t.rest), t);
  }

  /**
    The tail matcher finds every tail there is: whenever some well-formed tail
    spells `x`, `MatchTail` succeeds with the same status and address fields
    and a user field no longer than that tail's (the lazy user stops at the
    first whitespace byte it can).
   */
  lemma MatchTailFirst(x: seq<byte>, t: Tail)
    requires TailWellFormed(t) && TailText(t) == x
    ensures MatchTail(x).Some?
    ensures MatchTail(x).value.status == t.status && MatchTail(x).value.addr == t.addr
    ensures |MatchTail(x).value.user| <= |t.user|
  {
    var rest := Then(t.addr, SP, Then(t.user, t.sep, t.rest));
    RunThenSpaceField(x, t.status, rest, Digit);
    MatchAddrFirst(t.status, rest, t);
  }

  /**
    `" ` at `c` followed by a tail: a place where the request field may end,
    with the tail read from there.
   */
  function CloseAt(y: seq<byte>, c: nat): Option<Tail> {
    if c + 2 <= |y| && y[c] == DQUOTE && y[c + 1] == SP then MatchTail(y[c + 2..]) else None
  }

  /** Where the scan closed the request, and the tail after it. */
  datatype Close = Close(at: nat, tail: Tail)

  /**
    The lazy request `.+?` with `j` as the next candidate end: candidate ends
    are tried from `j` upward, each byte passed over must not be a line feed,
    and the first candidate after which the rest of the pattern matches is
    taken (`ScanCloses`, `ScanSkips`, `ScanFirst`).
   */
  function Scan(y: seq<byte>, j: nat): (r: Option<Close>)
    requires j <= |y|
    ensures r.Some? ==> j <= r.value.at <= |y|
    decreases |y| - j
  {
    match CloseAt(y, j)
    case Some(t) => Some(Close(j, t))
    case None => if j < |y| && y[j] != NL then Scan(y, j + 1) else None
  }

  /** The scan stops only where the request may close. */
  lemma {:induction false} ScanCloses(y: seq<byte>, j: nat)
    requires j <= |y| && Scan(y, j).Some?
    ensures CloseAt(y, Scan(y, j).value.at) == Some(Scan(y, j).value.tail)
    decreases |y| - j
  {
    if CloseAt(y, j).None? {
      ScanCloses(y, j + 1);
    }
  }

  /** The bytes the scan passes over are not line feeds. */
  lemma {:induction false} ScanSkips(y: seq<byte>, j: nat)
    requires j <= |y| && Scan(y, j).Some?
    ensures AllIn(y, j, Scan(y, j).value.at, AnyByte)
    decreases |y| - j
  {
    if CloseAt(y, j).None? {
      ScanSkips(y, j + 1);
    }
  }

  /**
    The scan reaches every candidate end that lies before the first line feed,
    and stops at the first of them.
   */
  lemma {:induction false} ScanFirst(y: seq<byte>, j: nat, c: nat)
    requires j <= c <= |y|
    requires CloseAt(y, c).Some? && AllIn(y, j, c, AnyByte)
    ensures Scan(y, j).Some? && Scan(y, j).value.at <= c
    decreases c - j
  {
    if CloseAt(y, j).None? {
      ScanFirst(y, j + 1, c);
    }
  }

  /** The request and the tail, read after the opening quote: the scan picks the request's end. */
  function MatchClose(lead: seq<byte>, date: seq<byte>, time: seq<byte>, y: seq<byte>): Option<Parse>
    requires 0 < |y|
  {
    match Scan(y, 1)
    case None => None
    case Some(k) => Some(Parse(lead, date, time, y[..k.at], k.tail))
  }

  /**
    `".+?" ` and the tail, read from the opening quote: the request takes at
    least one byte that is not a line feed.
   */
  function MatchRequest(lead: seq<byte>, date: seq<byte>, time: seq<byte>, z: seq<byte>): Option<Parse> {
    if |z| < 2 || z[0] != DQUOTE || z[1] == NL then None
    else MatchClose(lead, date, time, z[1..])
  }

  /** `\d{2}:\d{2}:\d{2} ` and what follows it. */
  function MatchTime(lead: seq<byte>, date: seq<byte>, z: seq<byte>): Option<Parse> {
    if |z| <= 8 || !IsTime(z[..8]) || z[8] != SP then None
    else MatchRequest(lead, date, z[..8], z[9..])
  }

  /** `\d{4}-\d{2}-\d{2} ` and what follows it. */
  function MatchStamp(lead: seq<byte>, z: seq<byte>): Option<Parse> {
    if |z| <= 10 || !IsDate(z[..10]) || z[10] != SP then None
    else MatchTime(lead, z[..10], z[11..])
  }

  /**
    The anchored match of the log-line regex, `log_line_re.match(line)`.
    `MatchLineSound` and `MatchLineFirst` show it reports exactly the cut of
    the line the regex engine reports.
   */
  function MatchLine(line: seq<byte>): Option<Parse> {
    match RunThenSpace(line, Digit)
    case None => None
    case Some(l) => MatchStamp(line[..l], line[l + 1..])
  }

  /** A request field ended by `" ` is followed by the tail text. */
  lemma CloseSplit(y: seq<byte>, c: nat)
    requires c + 2 <= |y| && y[c] == DQUOTE && y[c + 1] == SP
    ensures y == Then(y[..c], DQUOTE, [SP] + y[c + 2..])
  {
    assert y[c + 1..] == [SP] + y[c + 2..];
    ThenCut(y, y[..c], DQUOTE, y[c + 1..]);
  }

  /** The bytes the scan passed over, with the first one, form a request field. */
  lemma RequestShape(y: seq<byte>, c: nat)
    requires 0 < c <= |y| && y[0] != NL && AllIn(y, 1, c, AnyByte)
    ensures |y[..c]| > 0 && All(y[..c], AnyByte)
  {
    assert AllIn(y, 0, c, AnyByte);
    AllInSlice(y, 0, c, AnyByte);
  }

  lemma MatchCloseSound(lead: seq<byte>, date: seq<byte>, time: seq<byte>, y: seq<byte>)
    requires 0 < |y| && y[0] != NL && MatchClose(lead, date, time, y).Some?
    ensures var p := MatchClose(lead, date, time, y).value;
      && p.lead == lead && p.date == date && p.time == time && BodyWellFormed(p) && All(p.tail.user[1..], NonSpace)
      && Then(p.request, DQUOTE, [SP] + TailText(p.tail)) == y
  {
    var c := Scan(y, 1).value.at;
    ScanCloses(y, 1);
    ScanSkips(y, 1);
    MatchTailSound(y[c + 2..]);
    RequestShape(y, c);
    CloseSplit(y, c);
  }

  lemma MatchRequestSound(lead: seq<byte>, date: seq<byte>, time: seq<byte>, z: seq<byte>)
    requires MatchRequest(lead, date, time, z).Some?
    ensures var p := MatchRequest(lead, date, time, z).value;
      && p.lead == lead && p.date == date && p.time == time
      && BodyWellFormed(p) && BodyText(p) == z && All(p.tail.user[1..], NonSpace)
  {
    MatchCloseSound(lead, date, time, z[1..]);
    assert z == [DQUOTE] + z[1..];
  }

  lemma MatchTimeSound(lead: seq<byte>, date: seq<byte>, z: seq<byte>)
    requires MatchTime(lead, date, z).Some?
    ensures var p := MatchTime(lead, date, z).value;
      && p.lead == lead && p.date == date && IsTime(p.time)
      && BodyWellFormed(p) && Then(p.time, SP, BodyText(p)) == z && All(p.tail.user[1..], NonSpace)
  {
    MatchRequestSound(lead, date, z[..8], z[9..]);
    ThenCut(z, z[..8], SP, z[9..]);
  }

  lemma MatchStampSound(lead: seq<byte>, z: seq<byte>)
    requires MatchStamp(lead, z).Some?
    ensures var p := MatchStamp(lead, z).value;
      && p.lead == lead && IsDate(p.date) && IsTime(p.time)
      && BodyWellFormed(p) && Then(p.date, SP, Then(p.time, SP, BodyText(p))) == z && All(p.tail.user[1..], NonSpace)
  {
    MatchTimeSound(lead, z[..10], z[11..]);
    ThenCut(z, z[..10], SP, z[11..]);
  }

  /**
    A match is a well-formed cut of the whole line into the pattern's fields,
    so a matched line is in the pattern's language.
   */
  lemma MatchLineSound(line: seq<byte>)
    requires MatchLine(line).Some?
    ensures WellFormed(MatchLine(line).value) && Render(MatchLine(line).value) == line
    ensures All(MatchLine(line).value.tail.user[1..], NonSpace)
  {
    var l := RunThenSpace(line, Digit).value;
    RunThenSpaceSplit(line, Digit);
    MatchStampSound(line[..l], line[l + 1..]);
  }

  /**
    Where a well-formed request and tail meet, the request may close, and the
    tail read from there has a user field no longer than the parse's.
   */
  lemma ClosesAtRequest(y: seq<byte>, p: Parse)
    requires BodyWellFormed(p) && y == Then(p.request, DQUOTE, [SP] + TailText(p.tail))
    ensures CloseAt(y, |p.request|).Some? && AllIn(y, 1, |p.request|, AnyByte) && y[0] != NL
    ensures |CloseAt(y, |p.request|).value.user| <= |p.tail.user|
  {
    var r := |p.request|;
    ThenCut(y, p.request, DQUOTE, [SP] + TailText(p.tail));
    assert y[..r] == p.request && y[r] == DQUOTE && y[r + 1] == SP;
    assert y[r + 2..] == TailText(p.tail);
    MatchTailFirst(TailText(p.tail), p.tail);
    assert CloseAt(y, r) == MatchTail(TailText(p.tail));
    AllInSlice(y, 0, r, AnyByte);
  }

  lemma MatchCloseFirst(lead: seq<byte>, date: seq<byte>, time: seq<byte>, y: seq<byte>, p: Parse)
    requires BodyWellFormed(p) && y == Then(p.request, DQUOTE, [SP] + TailText(p.tail))
    ensures |y| > 0 && MatchClose(lead, date, time, y).Some?
    ensures var m := MatchClose(lead, date, time, y).value;
      m.lead == lead && m.date == date && m.time == time && Precedes(m, p)
  {
    ClosesAtRequest(y, p);
    ScanFirst(y, 1, |p.request|);
    ScanCloses(y, 1);
  }

  lemma MatchRequestFirst(lead: seq<byte>, date: seq<byte>, time: seq<byte>, z: seq<byte>, p: Parse)
    requires BodyWellFormed(p) && BodyText(p) == z
    ensures MatchRequest(lead, date, time, z).Some?
    ensures var m := MatchRequest(lead, date, time, z).value;
      m.lead == lead && m.date == date && m.time == time && Precedes(m, p)
  {
    var y := Then(p.request, DQUOTE, [SP] + TailText(p.tail));
    assert z[1..] == y;
    MatchCloseFirst(lead, date, time, y, p);
  }

  lemma MatchTimeFirst(lead: seq<byte>, date: seq<byte>, z: seq<byte>, p: Parse)
    requires IsTime(p.time) && BodyWellFormed(p) && z == Then(p.time, SP, BodyText(p))
    ensures MatchTime(lead, date, z).Some?
    ensures var m := MatchTime(lead, date, z).value;
      m.lead == lead && m.date == date && m.time == p.time && Precedes(m, p)
  {
    ThenCut(z, p.time, SP, BodyText(p));
    MatchRequestFirst(lead, date, p.time, BodyText(p), p);
  }

  lemma MatchStampFirst(lead: seq<byte>, z: seq<byte>, p: Parse)
    requires IsDate(p.date) && IsTime(p.time) && BodyWellFormed(p)
    requires z == Then(p.date, SP, Then(p.time, SP, BodyText(p)))
    ensures MatchStamp(lead, z).Some?
    ensures var m := MatchStamp(lead, z).value;
      m.lead == lead && m.date == p.date && m.time == p.time && Precedes(m, p)
  {
    ThenCut(z, p.date, SP, Then(p.time, SP, BodyText(p)));
    MatchTimeFirst(lead, p.date, Then(p.time, SP, BodyText(p)), p);
  }

  /**
    The matcher finds every cut there is, and the first one in backtracking
    order: whenever some well-formed parse renders to `line`, `MatchLine`
    succeeds, agrees with it on the fixed head, and its request (then its
    user field) is no longer.
   */
  lemma {:induction false} MatchLineFirst(line: seq<byte>, p: Parse)
    requires WellFormed(p) && Render(p) == line
    ensures MatchLine(line).Some?
    ensures var m := MatchLine(line).value;
      m.lead == p.lead && m.date == p.date && m.time == p.time && Precedes(m, p)
  {
    var z := Then(p.date, SP, Then(p.time, SP, BodyText(p)));
    RunThenSpaceField(line, p.lead, z, Digit);
    MatchStampFirst(p.lead, z, p);
  }

  /** `log_line_re.match` succeeds on a line exactly when the line is in the pattern's language. */
  lemma MatchLineComplete(line: seq<byte>)
    ensures MatchLine(line).Some? <==> Matches(line)
  {
    if MatchLine(line).Some? {
      MatchLineSound(line);
    }
    if Matches(line) {
      var p :| WellFormed(p) && Render(p) == line;
      MatchLineFirst(line, p);
    }
  }
}
