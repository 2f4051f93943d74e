/**
  `for line in input_file` on a file opened in binary mode: the file's bytes
  cut after every line feed. Each line keeps its line feed; the last line
  has none when the file does not end with one. `TopUsers.GetTopUsersOfFile`
  counts the lines cut this way.
 */
module FileLines {
  import opened Bytes

  /** One line as iteration yields it: non-empty, with a line feed at most at its end. */
  predicate IsLine(l: seq<byte>) {
    |l| > 0 && forall i :: 0 <= i < |l| - 1 ==> l[i] != NL
  }

  /** Lines as iteration yields them: every line but the last ends with a line feed. */
  predicate AreLines(ls: seq<seq<byte>>) {
    && (forall i :: 0 <= i < |ls| ==> IsLine(ls[i]))
    && (forall i :: 0 <= i < |ls| - 1 ==> ls[i][|ls[i]| - 1] == NL)
  }

  /** The length of the first line of non-empty `data`: up to and including its first line feed. */
  function FirstLineLength(data: seq<byte>): (k: nat)
    requires |data| > 0
    ensures 0 < k <= |data|
  {
    var j := RunEnd(data, 0, AnyByte);
    if j < |data| then j + 1 else |data|
  }

  /** The lines of a file's contents. */
  function SplitLines(data: seq<byte>): seq<seq<byte>>
    decreases |data|
  {
    if |data| == 0 then []
    else
      var k := FirstLineLength(data);
      [data[..k]] + SplitLines(data[k..])
  }

  /** The lines written one after the other. */
  function Join(ls: seq<seq<byte>>): seq<byte> {
    if |ls| == 0 then [] else ls[0] + Join(ls[1..])
  }

  /** The first line of `data` is a line, and it ends with a line feed unless it is all of `data`. */
  lemma FirstLineShape(data: seq<byte>)
    requires |data| > 0
    ensures IsLine(data[..FirstLineLength(data)])
    ensures FirstLineLength(data) < |data| ==> data[FirstLineLength(data) - 1] == NL
  {
  }

  /** Cutting the contents into lines loses and adds nothing. */
  lemma {:induction false} JoinSplit(data: seq<byte>)
    ensures Join(SplitLines(data)) == data
    decreases |data|
  {
    if |data| > 0 {
      var k := FirstLineLength(data);
      JoinSplit(data[k..]);
      assert SplitLines(data)[1..] == SplitLines(data[k..]);
      assert data == data[..k] + data[k..];
    }
  }

  /** Iteration yields lines in the sense of `AreLines`. */
  lemma {:induction false} SplitAreLines(data: seq<byte>)
    ensures AreLines(SplitLines(data))
    decreases |data|
  {
    if |data| > 0 {
      var k := FirstLineLength(data);
      var ls := SplitLines(data);
      SplitAreLines(data[k..]);
      FirstLineShape(data);
      assert forall i :: 1 <= i < |ls| ==> ls[i] == SplitLines(data[k..])[i - 1];
      if k == |data| {
        assert SplitLines(data[k..]) == [];
      }
    }
  }

  /** A line followed by anything: the first line is that line again. */
  lemma FirstLineOf(l: seq<byte>, rest: seq<byte>)
    requires IsLine(l) && (l[|l| - 1] == NL || rest == [])
    ensures FirstLineLength(l + rest) == |l|
  {
    var data := l + rest;
    var j := RunEnd(data, 0, AnyByte);
    if l[|l| - 1] == NL {
      RunEndStops(data, 0, |l| - 1, AnyByte);
      assert j == |l| - 1;
    } else {
      RunEndUnique(data, 0, |l|, AnyByte);
    }
  }

  /** Splitting written-out lines gives them back. */
  lemma {:induction false} SplitJoin(ls: seq<seq<byte>>)
    requires AreLines(ls)
    ensures SplitLines(Join(ls)) == ls
    decreases |ls|
  {
    if |ls| > 0 {
      var rest := Join(ls[1..]);
      assert AreLines(ls[1..]);
      SplitJoin(ls[1..]);
      if |ls| == 1 {
        assert rest == [];
      }
      FirstLineOf(ls[0], rest);
      assert (ls[0] + rest)[..|ls[0]|] == ls[0];
      assert (ls[0] + rest)[|ls[0]|..] == rest;
    }
  }
}
