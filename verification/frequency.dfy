/**
  The frequency table of `get_top_users`: a `collections.Counter` fed one
  username at a time (`count.update([username])`).

  A Counter is a dict, and a dict keeps its keys in first-insertion order,
  so the table is an insertion-ordered sequence of entries. Updating a name
  that is already present bumps its count in place; a new name is appended
  with count 1.
 */
module Frequency {
  import opened Wrappers
  import opened Bytes

  /** One username and how many times it was counted. */
  datatype Entry = Entry(name: seq<byte>, count: nat)

  /** No name occurs in two entries. */
  predicate Distinct(t: seq<Entry>) {
    forall i, j :: 0 <= i < j < |t| ==> t[i].name != t[j].name
  }

  /** Every count is at least 1. */
  predicate Positive(t: seq<Entry>) {
    forall i :: 0 <= i < |t| ==> t[i].count >= 1
  }

  /** The index of the first entry named `x`, searching from `i`. */
  function FindFrom(t: seq<Entry>, x: seq<byte>, i: nat): (r: Option<nat>)
    requires i <= |t|
    ensures r.Some? ==> i <= r.value < |t| && t[r.value].name == x
    ensures r.Some? ==> forall k :: i <= k < r.value ==> t[k].name != x
    ensures r.None? ==> forall k :: i <= k < |t| ==> t[k].name != x
    decreases |t| - i
  {
    if i == |t| then None
    else if t[i].name == x then Some(i)
    else FindFrom(t, x, i + 1)
  }

  /** The index of the entry named `x`, if there is one (the dict lookup). */
  function Find(t: seq<Entry>, x: seq<byte>): (r: Option<nat>)
    ensures r.Some? ==> r.value < |t| && t[r.value].name == x
    ensures r.Some? ==> forall k :: 0 <= k < r.value ==> t[k].name != x
    ensures r.None? ==> forall k :: 0 <= k < |t| ==> t[k].name != x
  {
    FindFrom(t, x, 0)
  }

  /** `counter[x]`: the count of `x`, 0 for a name never counted. */
  function Count(t: seq<Entry>, x: seq<byte>): nat {
    match Find(t, x)
    case None => 0
    case Some(i) => t[i].count
  }

  /** `counter.update([x])`: one more occurrence of `x`. */
  function Record(t: seq<Entry>, x: seq<byte>): (r: seq<Entry>)
    ensures |r| == if Find(t, x).Some? then |t| else |t| + 1
    ensures forall k :: 0 <= k < |t| ==> r[k].name == t[k].name
    ensures |r| == |t| + 1 ==> r[|t|] == Entry(x, 1)
  {
    match Find(t, x)
    case Some(i) => t[i := Entry(x, t[i].count + 1)]
    case None => t + [Entry(x, 1)]
  }

  /** A counter fed the names `xs` one by one, starting empty. */
  function Tally(xs: seq<seq<byte>>): seq<Entry> {
    if |xs| == 0 then [] else Record(Tally(xs[..|xs| - 1]), xs[|xs| - 1])
  }

  /** Feeding one more name records it in the table built so far. */
  lemma TallySnoc(xs: seq<seq<byte>>, x: seq<byte>)
    ensures Tally(xs + [x]) == Record(Tally(xs), x)
  {
    assert (xs + [x])[..|xs|] == xs;
  }

  /** `sum(counter.values())`. */
  function Total(t: seq<Entry>): nat {
    if |t| == 0 then 0 else Total(t[..|t| - 1]) + t[|t| - 1].count
  }

  /** The total of two tables side by side is the sum of their totals. */
  lemma {:induction false} TotalAppend(a: seq<Entry>, b: seq<Entry>)
    ensures Total(a + b) == Total(a) + Total(b)
    decreases |b|
  {
    if |b| == 0 {
      assert a + b == a;
    } else {
      var n := |b| - 1;
      assert (a + b)[..|a + b| - 1] == a + b[..n];
      TotalAppend(a, b[..n]);
    }
  }

  /** The position of the first occurrence of `x` in `xs`; `|xs|` when there is none. */
  function FirstIndex(xs: seq<seq<byte>>, x: seq<byte>): (k: nat)
    ensures k <= |xs| && (k < |xs| <==> x in xs)
    ensures k < |xs| ==> xs[k] == x
    ensures forall m :: 0 <= m < k ==> xs[m] != x
  {
    if |xs| == 0 then 0
    else if xs[0] == x then 0
    else 1 + FirstIndex(xs[1..], x)
  }

  /** The entries are in the order in which their names first occur in `xs`. */
  predicate FirstSeenOrder(t: seq<Entry>, xs: seq<seq<byte>>) {
    forall i, j :: 0 <= i < j < |t| ==> FirstIndex(xs, t[i].name) < FirstIndex(xs, t[j].name)
  }

  /** In a table without repeated names, the entry named `x` is the one at `i`. */
  lemma FindAt(t: seq<Entry>, x: seq<byte>, i: nat)
    requires Distinct(t) && i < |t| && t[i].name == x
    ensures Find(t, x) == Some(i)
  {
  }

  /** Recording `x` adds one to the count of `x` and leaves every other count alone. */
  lemma RecordCount(t: seq<Entry>, x: seq<byte>, y: seq<byte>)
    requires Distinct(t)
    ensures Distinct(Record(t, x))
    ensures Count(Record(t, x), y) == Count(t, y) + (if x == y then 1 else 0)
  {
    var r := Record(t, x);
    assert Distinct(r);
    match Find(t, y)
    case Some(j) =>
      FindAt(r, y, j);
    case None =>
      if x == y {
        FindAt(r, y, |r| - 1);
      } else {
        assert forall k :: 0 <= k < |r| ==> r[k].name != y;
      }
  }

  /** Recording keeps every count at least 1. */
  lemma RecordPositive(t: seq<Entry>, x: seq<byte>)
    requires Positive(t)
    ensures Positive(Record(t, x))
  {
  }

  /** Recording adds exactly one to the total. */
  lemma RecordTotal(t: seq<Entry>, x: seq<byte>)
    ensures Total(Record(t, x)) == Total(t) + 1
  {
    match Find(t, x)
    case Some(i) =>
      TotalUpdate(t, i, Entry(x, t[i].count + 1));
    case None =>
      assert (t + [Entry(x, 1)])[..|t|] == t;
  }

  /** Replacing one entry changes the total by the difference of the two counts. */
  lemma {:induction false} TotalUpdate(t: seq<Entry>, i: nat, e: Entry)
    requires i < |t|
    ensures Total(t[i := e]) + t[i].count == Total(t) + e.count
    decreases |t|
  {
    var n := |t| - 1;
    if i < n {
      assert t[i := e][..n] == t[..n][i := e];
      TotalUpdate(t[..n], i, e);
    } else {
      assert t[i := e][..n] == t[..n];
    }
  }

  /** The table of `xs` has distinct names and positive counts. */
  lemma {:induction false} TallyDistinct(xs: seq<seq<byte>>)
    ensures Distinct(Tally(xs)) && Positive(Tally(xs))
  {
    if |xs| > 0 {
      var t := Tally(xs[..|xs| - 1]);
      TallyDistinct(xs[..|xs| - 1]);
      RecordCount(t, xs[|xs| - 1], xs[|xs| - 1]);
      RecordPositive(t, xs[|xs| - 1]);
    }
  }

  /** Conservation: each name's count is the number of times it occurs in `xs`. */
  lemma {:induction false} TallyCount(xs: seq<seq<byte>>, y: seq<byte>)
    ensures Count(Tally(xs), y) == multiset(xs)[y]
  {
    if |xs| > 0 {
      var init := xs[..|xs| - 1];
      assert xs == init + [xs[|xs| - 1]];
      TallyCount(init, y);
      TallyDistinct(init);
      RecordCount(Tally(init), xs[|xs| - 1], y);
    }
  }

  /** The counts add up to the number of names fed in. */
  lemma {:induction false} TallyTotal(xs: seq<seq<byte>>)
    ensures Total(Tally(xs)) == |xs|
  {
    if |xs| > 0 {
      TallyTotal(xs[..|xs| - 1]);
      RecordTotal(Tally(xs[..|xs| - 1]), xs[|xs| - 1]);
    }
  }

  /** A name has an entry exactly when it occurs in `xs`. */
  lemma {:induction false} TallyNames(xs: seq<seq<byte>>, y: seq<byte>)
    ensures Find(Tally(xs), y).Some? <==> y in xs
  {
    TallyCount(xs, y);
    TallyDistinct(xs);
    if Find(Tally(xs), y).Some? {
      assert Count(Tally(xs), y) >= 1;
    }
  }

  /** A name's first occurrence in a prefix that contains it is its first occurrence overall. */
  lemma FirstIndexPrefix(xs: seq<seq<byte>>, m: nat, x: seq<byte>)
    requires m <= |xs| && x in xs[..m]
    ensures FirstIndex(xs, x) == FirstIndex(xs[..m], x)
  {
    var k := FirstIndex(xs[..m], x);
    assert xs[k] == x;
  }

  /** The entries come in the order in which their names first occur: the dict's insertion order. */
  lemma {:induction false} TallyOrder(xs: seq<seq<byte>>)
    ensures FirstSeenOrder(Tally(xs), xs)
  {
    if |xs| > 0 {
      var n := |xs| - 1;
      var init := xs[..n];
      var t := Tally(init);
      var r := Tally(xs);
      TallyOrder(init);
      forall k | 0 <= k < |t|
        ensures FirstIndex(xs, r[k].name) == FirstIndex(init, t[k].name) < n
      {
        TallyNames(init, t[k].name);
        FindFromEntry(t, k);
        FirstIndexPrefix(xs, n, t[k].name);
      }
      if |r| == |t| + 1 {
        TallyNames(init, xs[n]);
        assert FirstIndex(xs, xs[n]) == n;
      }
    }
  }

  /** There is one entry per distinct name. */
  lemma {:induction false} TallySize(xs: seq<seq<byte>>)
    ensures |Tally(xs)| == |set x | x in xs|
  {
    if |xs| > 0 {
      var n := |xs| - 1;
      var init := xs[..n];
      assert xs == init + [xs[n]];
      assert (set x | x in xs) == (set x | x in init) + {xs[n]};
      TallySize(init);
      TallyNames(init, xs[n]);
      if xs[n] in init {
        assert (set x | x in xs) == (set x | x in init);
      } else {
        assert xs[n] !in (set x | x in init);
      }
    }
  }

  /** Every entry's name is found. */
  lemma FindFromEntry(t: seq<Entry>, k: nat)
    requires k < |t|
    ensures Find(t, t[k].name).Some?
  {
  }
}
