/**
  `get_top_users(input_file, n)`: skip comment lines, match each remaining
  line against the log-line pattern, decode the username of each match,
  count the usernames, and return `most_common(n)`.

  The lines are the byte strings that iterating over a binary file yields.
  A username that is not valid UTF-8 makes `.decode()` raise, and the
  exception ends the whole call: that is the `Failure` result, naming the
  first line whose username does not decode. Names are kept as bytes;
  strict decoding is injective, so counting bytes counts decoded names.
 */
module TopUsers {
  import opened Wrappers
  import opened Bytes
  import opened LogPattern
  import opened LineMatcher
  import opened Utf8
  import opened Frequency
  import opened Ranking
  import opened FileLines

  /** `line.startswith(b'#')` */
  predicate IsComment(line: seq<byte>) {
    |line| > 0 && line[0] == HASH
  }

  /** `log_line_re.match(line).group('username')`, when the line matches. */
  function Username(line: seq<byte>): Option<seq<byte>> {
    match MatchLine(line)
    case None => None
    case Some(p) => Some(p.tail.user)
  }

  /** What one line contributes: nothing for a comment or a line that does not match. */
  function Extract(line: seq<byte>): Option<seq<byte>> {
    if IsComment(line) then None else Username(line)
  }

  /** The usernames of the contributing lines, in file order. */
  function MatchedNames(lines: seq<seq<byte>>): seq<seq<byte>> {
    if |lines| == 0 then []
    else
      var n := |lines| - 1;
      match Extract(lines[n])
      case None => MatchedNames(lines[..n])
      case Some(u) => MatchedNames(lines[..n]) + [u]
  }

  /** The `UnicodeDecodeError` that ends the call: which line, and the bytes that failed. */
  datatype DecodeError = UndecodableName(line: nat, name: seq<byte>)

  /** The counting loop: the Counter after the lines, or the error that stopped it. */
  function CountLines(lines: seq<seq<byte>>): Result<seq<Entry>, DecodeError> {
    if |lines| == 0 then Success([])
    else
      var n := |lines| - 1;
      match CountLines(lines[..n])
      case Failure(e) => Failure(e)
      case Success(t) =>
        match Extract(lines[n])
        case None => Success(t)
        case Some(u) => if IsValid(u) then Success(Record(t, u)) else Failure(UndecodableName(n, u))
  }

  /** `get_top_users(input_file, n)` */
  function GetTopUsers(lines: seq<seq<byte>>, n: nat): Result<seq<Entry>, DecodeError> {
    match CountLines(lines)
    case Failure(e) => Failure(e)
    case Success(t) => Success(MostCommon(t, n))
  }

  /** How many lines contribute the name `x`: counted line by line, independently of the Counter. */
  function Occurrences(lines: seq<seq<byte>>, x: seq<byte>): nat {
    if |lines| == 0 then 0
    else Occurrences(lines[..|lines| - 1], x) + (if Extract(lines[|lines| - 1]) == Some(x) then 1 else 0)
  }

  /** How many lines contribute a name at all. */
  function Contributing(lines: seq<seq<byte>>): nat {
    if |lines| == 0 then 0
    else Contributing(lines[..|lines| - 1]) + (if Extract(lines[|lines| - 1]).Some? then 1 else 0)
  }

  /** Every username of the lines decodes. */
  predicate AllDecodable(lines: seq<seq<byte>>) {
    forall i :: 0 <= i < |lines| && Extract(lines[i]).Some? ==> IsValid(Extract(lines[i]).value)
  }

  /**
    A matched line starts with a digit, so the comment test at line 32 never
    changes what a line contributes: dropping it leaves the result as it is.
   */
  lemma CommentCheckRedundant(line: seq<byte>)
    ensures Extract(line) == Username(line)
  {
    if MatchLine(line).Some? {
      MatchStartsWithDigit(line);
    }
  }

  /** A comment line never matches the pattern, so it would contribute nothing even without the test. */
  lemma CommentNeverMatches(line: seq<byte>)
    requires IsComment(line)
    ensures MatchLine(line).None? && Username(line).None?
  {
    if MatchLine(line).Some? {
      MatchStartsWithDigit(line);
    }
  }

  /** A line the pattern matches starts with a digit. */
  lemma MatchStartsWithDigit(line: seq<byte>)
    requires MatchLine(line).Some?
    ensures |line| > 0 && IsDigit(line[0])
  {
    var p := MatchLine(line).value;
    MatchLineSound(line);
    ThenCut(line, p.lead, SP, Then(p.date, SP, Then(p.time, SP, BodyText(p))));
    assert line[0] == p.lead[0];
  }

  /**
    The username is non-empty and holds no line feed; after its first byte it
    holds no whitespace; and in the line a whitespace byte follows it. A line
    whose username runs to the end of the line (a last line without its line
    feed) therefore contributes nothing.
   */
  lemma UsernameShape(line: seq<byte>)
    requires Username(line).Some?
    ensures var u := Username(line).value;
      && |u| > 0 && All(u, AnyByte) && All(u[1..], NonSpace)
      && FieldBeforeSpace(line, UserOffset(MatchLine(line).value), u)
  {
    MatchLineSound(line);
    UserBeforeSpace(MatchLine(line).value);
  }

  /** `MatchedNames` collects the contributions in order. */
  lemma {:induction false} MatchedNamesCount(lines: seq<seq<byte>>, x: seq<byte>)
    ensures multiset(MatchedNames(lines))[x] == Occurrences(lines, x)
    ensures |MatchedNames(lines)| == Contributing(lines)
  {
    if |lines| > 0 {
      MatchedNamesCount(lines[..|lines| - 1], x);
    }
  }

  /** The line's username, if it has one, decodes. */
  predicate LineDecodable(line: seq<byte>) {
    Extract(line).Some? ==> IsValid(Extract(line).value)
  }

  /** All lines decode exactly when all but the last do and the last does. */
  lemma AllDecodableSnoc(lines: seq<seq<byte>>)
    requires |lines| > 0
    ensures AllDecodable(lines) <==> AllDecodable(lines[..|lines| - 1]) && LineDecodable(lines[|lines| - 1])
  {
    assert forall i :: 0 <= i < |lines| - 1 ==> lines[..|lines| - 1][i] == lines[i];
  }

  /** The counting loop fails exactly when some username does not decode. */
  lemma {:induction false} CountLinesSucceeds(lines: seq<seq<byte>>)
    ensures CountLines(lines).Success? <==> AllDecodable(lines)
  {
    if |lines| > 0 {
      CountLinesSucceeds(lines[..|lines| - 1]);
      AllDecodableSnoc(lines);
    }
  }

  /** When it succeeds, the counting loop yields the Counter of the matched names. */
  lemma {:induction false} CountLinesTally(lines: seq<seq<byte>>)
    requires CountLines(lines).Success?
    ensures CountLines(lines).value == Tally(MatchedNames(lines))
  {
    if |lines| > 0 {
      var n := |lines| - 1;
      CountLinesTally(lines[..n]);
      if Extract(lines[n]).Some? {
        TallySnoc(MatchedNames(lines[..n]), Extract(lines[n]).value);
      }
    }
  }

  /** The error names the first line whose username does not decode. */
  lemma {:induction false} CountLinesFailure(lines: seq<seq<byte>>)
    requires CountLines(lines).Failure?
    ensures var e := CountLines(lines).error;
      && e.line < |lines| && Extract(lines[e.line]) == Some(e.name) && !IsValid(e.name)
      && AllDecodable(lines[..e.line])
  {
    var n := |lines| - 1;
    if CountLines(lines[..n]).Failure? {
      CountLinesFailure(lines[..n]);
      var e := CountLines(lines[..n]).error;
      assert lines[..n][..e.line] == lines[..e.line];
    } else {
      CountLinesSucceeds(lines[..n]);
      assert lines[..n] == lines[..CountLines(lines).error.line];
    }
  }

  /**
    Conservation: before the cut to `n`, the Counter has one entry per name,
    each name's count is the number of lines contributing it, and the counts
    add up to the number of contributing lines.
   */
  lemma {:induction false} CountLinesConserves(lines: seq<seq<byte>>, x: seq<byte>)
    requires CountLines(lines).Success?
    ensures Count(CountLines(lines).value, x) == Occurrences(lines, x)
    ensures Total(CountLines(lines).value) == Contributing(lines)
    ensures |CountLines(lines).value| == |set y | y in MatchedNames(lines)|
  {
    CountLinesTally(lines);
    MatchedNamesCount(lines, x);
    TallyCount(MatchedNames(lines), x);
    TallyTotal(MatchedNames(lines));
    TallySize(MatchedNames(lines));
  }

  /** On success `get_top_users` is `most_common(n)` of the Counter of the matched names. */
  lemma {:induction false} GetTopUsersTally(lines: seq<seq<byte>>, n: nat)
    requires GetTopUsers(lines, n).Success?
    ensures CountLines(lines).Success?
    ensures GetTopUsers(lines, n).value == MostCommon(Tally(MatchedNames(lines)), n)
  {
    CountLinesTally(lines);
  }

  /** `get_top_users` fails exactly when some username does not decode. */
  lemma GetTopUsersFails(lines: seq<seq<byte>>, n: nat)
    ensures GetTopUsers(lines, n).Failure? <==> !AllDecodable(lines)
  {
    CountLinesSucceeds(lines);
  }

  /** `min(n, number of distinct names)` entries: none for `n = 0` or when no line contributes. */
  lemma {:induction false} GetTopUsersLength(lines: seq<seq<byte>>, n: nat)
    requires GetTopUsers(lines, n).Success?
    ensures var d := |set y | y in MatchedNames(lines)|;
      |GetTopUsers(lines, n).value| == if n < d then n else d
  {
    GetTopUsersTally(lines, n);
    TallySize(MatchedNames(lines));
    MostCommonLength(Tally(MatchedNames(lines)), n);
  }

  /**
    The entries have distinct names and non-increasing counts, and equal
    counts come in the order of the names' first contributing lines.
   */
  lemma GetTopUsersOrder(lines: seq<seq<byte>>, n: nat)
    requires GetTopUsers(lines, n).Success?
    ensures var r := GetTopUsers(lines, n).value; var names := MatchedNames(lines);
      && Distinct(r) && NonIncreasing(r)
      && (forall i, j :: 0 <= i < j < |r| && r[i].count == r[j].count ==>
            FirstIndex(names, r[i].name) < FirstIndex(names, r[j].name))
  {
    GetTopUsersTally(lines, n);
    TopOrder(MatchedNames(lines), n);
  }

  /** `GetTopUsersOrder` stated for the Counter of any sequence of names. */
  lemma TopOrder(xs: seq<seq<byte>>, n: nat)
    ensures var r := MostCommon(Tally(xs), n);
      && Distinct(r) && NonIncreasing(r)
      && (forall i, j :: 0 <= i < j < |r| && r[i].count == r[j].count ==>
            FirstIndex(xs, r[i].name) < FirstIndex(xs, r[j].name))
  {
    var t := Tally(xs);
    var r := MostCommon(t, n);
    TallyDistinct(xs);
    TallyOrder(xs);
    MostCommonSelects(t, n);
    MostCommonFromTable(t, n);
    forall i, j | 0 <= i < j < |r| && r[i].count == r[j].count
      ensures FirstIndex(xs, r[i].name) < FirstIndex(xs, r[j].name)
    {
      assert Pos(t, r[i]) < Pos(t, r[j]);
    }
  }

  /** Every entry names a contributing user, with the number of lines contributing it, at least 1. */
  lemma GetTopUsersCounts(lines: seq<seq<byte>>, n: nat)
    requires GetTopUsers(lines, n).Success?
    ensures var r := GetTopUsers(lines, n).value;
      forall i :: 0 <= i < |r| ==> r[i].name in MatchedNames(lines) && 1 <= r[i].count == Occurrences(lines, r[i].name)
  {
    var t := Tally(MatchedNames(lines));
    var r := GetTopUsers(lines, n).value;
    GetTopUsersTally(lines, n);
    CountLinesTally(lines);
    TallyDistinct(MatchedNames(lines));
    MostCommonFromTable(t, n);
    forall i | 0 <= i < |r|
      ensures r[i].name in MatchedNames(lines) && 1 <= r[i].count == Occurrences(lines, r[i].name)
    {
      EntryCount(lines, Pos(t, r[i]));
    }
  }

  /** An entry of the Counter holds a contributed name and the number of lines contributing it. */
  lemma {:induction false} EntryCount(lines: seq<seq<byte>>, a: nat)
    requires CountLines(lines).Success? && a < |CountLines(lines).value|
    ensures var e := CountLines(lines).value[a];
      e.name in MatchedNames(lines) && 1 <= e.count == Occurrences(lines, e.name)
  {
    var names := MatchedNames(lines);
    var t := CountLines(lines).value;
    CountLinesTally(lines);
    TallyDistinct(names);
    TallyNames(names, t[a].name);
    FindAt(t, t[a].name, a);
    CountLinesConserves(lines, t[a].name);
  }

  /**
    A name that `most_common(n)` leaves out was counted less often than any
    name it keeps, or as often but with its first contributing line later.
   */
  lemma {:induction false} GetTopUsersSelects(lines: seq<seq<byte>>, n: nat, x: seq<byte>)
    requires GetTopUsers(lines, n).Success?
    requires x in MatchedNames(lines)
    requires forall i :: 0 <= i < |GetTopUsers(lines, n).value| ==> GetTopUsers(lines, n).value[i].name != x
    ensures var r := GetTopUsers(lines, n).value; var names := MatchedNames(lines);
      forall i :: 0 <= i < |r| ==>
        || r[i].count > Occurrences(lines, x)
        || (r[i].count == Occurrences(lines, x) && FirstIndex(names, r[i].name) < FirstIndex(names, x))
  {
    var names := MatchedNames(lines);
    var t := Tally(names);
    var r := GetTopUsers(lines, n).value;
    GetTopUsersTally(lines, n);
    CountLinesTally(lines);
    TallyDistinct(names);
    TallyOrder(names);
    TallyNames(names, x);
    var a := Find(t, x).value;
    EntryCount(lines, a);
    MostCommonSelects(t, n);
    MostCommonFromTable(t, n);
    PosAt(t, a);
    assert t[a] !in r;
    forall i | 0 <= i < |r|
      ensures || r[i].count > Occurrences(lines, x)
              || (r[i].count == Occurrences(lines, x) && FirstIndex(names, r[i].name) < FirstIndex(names, x))
    {
      var k := Pos(t, r[i]);
      assert t[k] == r[i] && r[i] in r;
    }
  }

  /** The counts reported add up to at most the number of contributing lines. */
  lemma {:induction false} GetTopUsersTotal(lines: seq<seq<byte>>, n: nat)
    requires GetTopUsers(lines, n).Success?
    ensures Total(GetTopUsers(lines, n).value) <= Contributing(lines)
  {
    var x: seq<byte> := [];
    CountLinesConserves(lines, x);
    MostCommonTotal(CountLines(lines).value, n);
  }

  /** `get_top_users` on a file whose contents are `data`. */
  function GetTopUsersOfFile(data: seq<byte>, n: nat): Result<seq<Entry>, DecodeError> {
    GetTopUsers(SplitLines(data), n)
  }
}
