/**
  The language of the log-line pattern, stated declaratively.

  The pattern is anchored at the start of the line and reads, field by field,

      <lead> SP <date> SP <time> SP " <request> " SP <status> SP <addr> SP <user><sep>

  after which the line may continue with anything (`re.match` does not
  require the whole line to match). A `Parse` is one way of cutting a line
  into these fields; `Render` glues the fields back together, so a line
  belongs to the language when `Render(p) == line` for some well-formed `p`.

  The pattern's lazy quantifiers decide WHICH cut the regex engine reports
  when several exist: backtracking tries the shortest request first and, for
  each request, the shortest user. `Precedes` is that priority order.
 */
module LogPattern {
  import opened Bytes

  /** The fields after the closing quote: `<status> SP <addr> SP <user><sep><rest>`. */
  datatype Tail = Tail(status: seq<byte>, addr: seq<byte>, user: seq<byte>, sep: byte, rest: seq<byte>)

  /** A whole line cut into fields; the opening and closing quotes are implicit. */
  datatype Parse = Parse(lead: seq<byte>, date: seq<byte>, time: seq<byte>, request: seq<byte>, tail: Tail)

  /** `\d{4}-\d{2}-\d{2}` */
  predicate IsDate(d: seq<byte>) {
    && |d| == 10
    && IsDigit(d[0]) && IsDigit(d[1]) && IsDigit(d[2]) && IsDigit(d[3])
    && d[4] == DASH
    && IsDigit(d[5]) && IsDigit(d[6])
    && d[7] == DASH
    && IsDigit(d[8]) && IsDigit(d[9])
  }

  /** `\d{2}:\d{2}:\d{2}` */
  predicate IsTime(t: seq<byte>) {
    && |t| == 8
    && IsDigit(t[0]) && IsDigit(t[1])
    && t[2] == COLON
    && IsDigit(t[3]) && IsDigit(t[4])
    && t[5] == COLON
    && IsDigit(t[6]) && IsDigit(t[7])
  }

  /** `\d+?`, `[\d.]+?`, `.+?` and `\s` for the fields after the request. */
  predicate TailWellFormed(t: Tail) {
    && |t.status| > 0 && All(t.status, Digit)
    && |t.addr| > 0 && All(t.addr, AddrByte)
    && |t.user| > 0 && All(t.user, AnyByte)
    && IsSpace(t.sep)
  }

  /** `".+?" ` and the tail: the fields from the opening quote on. */
  predicate BodyWellFormed(p: Parse) {
    && |p.request| > 0 && All(p.request, AnyByte)
    && TailWellFormed(p.tail)
  }

  /** Every field has the shape its part of the pattern demands. */
  predicate WellFormed(p: Parse) {
    && |p.lead| > 0 && All(p.lead, Digit)
    && IsDate(p.date)
    && IsTime(p.time)
    && BodyWellFormed(p)
  }

  /** `a`, then the single byte `b`, then `rest`: one field and the byte that ends it. */
  function Then(a: seq<byte>, b: byte, rest: seq<byte>): seq<byte> {
    a + ([b] + rest)
  }

  /** A line splits after a field exactly when the field is its prefix and the byte after it is `b`. */
  lemma ThenCut(x: seq<byte>, a: seq<byte>, b: byte, rest: seq<byte>)
    ensures x == Then(a, b, rest) <==> (|a| < |x| && x[..|a|] == a && x[|a|] == b && x[|a| + 1..] == rest)
  {
    if |a| < |x| && x[..|a|] == a && x[|a|] == b && x[|a| + 1..] == rest {
      assert x == x[..|a|] + ([x[|a|]] + x[|a| + 1..]);
    }
  }

  /** The text of a tail: `<status> SP <addr> SP <user><sep><rest>`. */
  function TailText(t: Tail): seq<byte> {
    Then(t.status, SP, Then(t.addr, SP, Then(t.user, t.sep, t.rest)))
  }

  /** The text from the opening quote on: `" <request> " SP <tail>`. */
  function BodyText(p: Parse): seq<byte> {
    [DQUOTE] + Then(p.request, DQUOTE, [SP] + TailText(p.tail))
  }

  /** The line a parse describes. */
  function Render(p: Parse): seq<byte> {
    Then(p.lead, SP, Then(p.date, SP, Then(p.time, SP, BodyText(p))))
  }

  /** Where the user field starts in the rendered line. */
  function UserOffset(p: Parse): nat {
    |p.lead| + 1 + |p.date| + 1 + |p.time| + 2 + |p.request| + 2 + |p.tail.status| + 1 + |p.tail.addr| + 1
  }

  /** `u` sits at `k` in `line`, and a whitespace byte follows it there. */
  predicate FieldBeforeSpace(line: seq<byte>, k: nat, u: seq<byte>) {
    k + |u| < |line| && line[k..k + |u|] == u && IsSpace(line[k + |u|])
  }

  /** Putting bytes in front of a text moves its fields right by that many bytes. */
  lemma FieldShift(x: seq<byte>, pre: seq<byte>, y: seq<byte>, k: nat, u: seq<byte>)
    requires x == pre + y && FieldBeforeSpace(y, k, u)
    ensures FieldBeforeSpace(x, |pre| + k, u)
  {
    assert x[|pre| + k..|pre| + k + |u|] == y[k..k + |u|];
  }

  lemma ThenShift(a: seq<byte>, b: byte, y: seq<byte>, k: nat, u: seq<byte>)
    requires FieldBeforeSpace(y, k, u)
    ensures FieldBeforeSpace(Then(a, b, y), |a| + 1 + k, u)
  {
    assert Then(a, b, y) == (a + [b]) + y;
    FieldShift(Then(a, b, y), a + [b], y, k, u);
  }

  /** In a well-formed tail the user field is followed by its whitespace separator. */
  lemma TailUserBeforeSpace(t: Tail)
    requires TailWellFormed(t)
    ensures FieldBeforeSpace(TailText(t), |t.status| + 1 + |t.addr| + 1, t.user)
  {
    var y0 := Then(t.user, t.sep, t.rest);
    ThenCut(y0, t.user, t.sep, t.rest);
    ThenShift(t.addr, SP, y0, 0, t.user);
    ThenShift(t.status, SP, Then(t.addr, SP, y0), |t.addr| + 1, t.user);
  }

  lemma BodyUserBeforeSpace(p: Parse)
    requires TailWellFormed(p.tail)
    ensures FieldBeforeSpace(BodyText(p), |p.request| + 3 + |p.tail.status| + 1 + |p.tail.addr| + 1, p.tail.user)
  {
    var t := p.tail;
    var k := |t.status| + 1 + |t.addr| + 1;
    TailUserBeforeSpace(t);
    FieldShift([SP] + TailText(t), [SP], TailText(t), k, t.user);
    ThenShift(p.request, DQUOTE, [SP] + TailText(t), 1 + k, t.user);
    FieldShift(BodyText(p), [DQUOTE], Then(p.request, DQUOTE, [SP] + TailText(t)), |p.request| + 2 + k, t.user);
  }

  /** In a well-formed parse the user field is followed in the line by its whitespace separator. */
  lemma UserBeforeSpace(p: Parse)
    requires WellFormed(p)
    ensures FieldBeforeSpace(Render(p), UserOffset(p), p.tail.user)
  {
    var k := |p.request| + 3 + |p.tail.status| + 1 + |p.tail.addr| + 1;
    BodyUserBeforeSpace(p);
    ThenShift(p.time, SP, BodyText(p), k, p.tail.user);
    ThenShift(p.date, SP, Then(p.time, SP, BodyText(p)), |p.time| + 1 + k, p.tail.user);
    ThenShift(p.lead, SP, Then(p.date, SP, Then(p.time, SP, BodyText(p))), |p.date| + 1 + |p.time| + 1 + k, p.tail.user);
  }

  /** The backtracking priority of the lazy quantifiers: shorter request first, then shorter user. */
  predicate Precedes(a: Parse, b: Parse) {
    || |a.request| < |b.request|
    || (|a.request| == |b.request| && |a.tail.user| <= |b.tail.user|)
  }

  /** `line` is in the pattern's language. */
  ghost predicate Matches(line: seq<byte>) {
    exists p :: WellFormed(p) && Render(p) == line
  }
}
