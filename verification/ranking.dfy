/**
  `Counter.most_common(n)`: the entries ordered by count, largest first, cut
  to the first `n`.

  `most_common(n)` is `heapq.nlargest(n, items, key=count)`, which Python
  documents as equal to `sorted(items, key=count, reverse=True)[:n]`; that
  sort is stable, so entries with equal counts keep the table's order. The
  sort here is a stable insertion sort: each entry is placed after every
  entry with a larger count and before every entry with a count no larger,
  so an entry inserted earlier in the input ends up ahead of later ones with
  the same count.
 */
module Ranking {
  import opened Frequency

  /** Counts never increase from left to right. */
  predicate NonIncreasing(s: seq<Entry>) {
    forall i, j :: 0 <= i < j < |s| ==> s[i].count >= s[j].count
  }

  /** The position of `e` in `t`; `|t|` when it is absent. */
  function Pos(t: seq<Entry>, e: Entry): (k: nat)
    ensures k <= |t| && (k < |t| <==> e in t)
    ensures k < |t| ==> t[k] == e
  {
    if |t| == 0 then 0
    else if t[0] == e then 0
    else 1 + Pos(t[1..], e)
  }

  /** Entries with equal counts appear in `s` in the order they have in `t`. */
  predicate TiesInOrder(s: seq<Entry>, t: seq<Entry>) {
    forall i, j :: 0 <= i < j < |s| && s[i].count == s[j].count ==> Pos(t, s[i]) < Pos(t, s[j])
  }

  /** How many leading entries of `s` have a count larger than `e`'s: where `e` goes. */
  function Slot(e: Entry, s: seq<Entry>): (k: nat)
    ensures k <= |s|
    ensures forall i :: 0 <= i < k ==> s[i].count > e.count
    ensures k < |s| ==> s[k].count <= e.count
  {
    if |s| == 0 || s[0].count <= e.count then 0 else 1 + Slot(e, s[1..])
  }

  /** `e` placed after the entries with larger counts and before the rest. */
  function Insert(e: Entry, s: seq<Entry>): seq<Entry> {
    var k := Slot(e, s);
    s[..k] + [e] + s[k..]
  }

  /** A stable sort by count, largest first. */
  function SortByCount(t: seq<Entry>): seq<Entry> {
    if |t| == 0 then [] else Insert(t[0], SortByCount(t[1..]))
  }

  /** `most_common(n)`: the first `n` entries of the sorted table, or all of them. */
  function MostCommon(t: seq<Entry>, n: nat): seq<Entry> {
    var s := SortByCount(t);
    if n < |s| then s[..n] else s
  }

  /** Inserting adds exactly `e`. */
  lemma InsertPermutes(e: Entry, s: seq<Entry>)
    ensures multiset(Insert(e, s)) == multiset(s) + multiset{e}
  {
    var k := Slot(e, s);
    assert s == s[..k] + s[k..];
  }

  /** Where each entry of `Insert(e, s)` comes from. */
  lemma InsertIndex(e: Entry, s: seq<Entry>, i: nat)
    requires i <= |s|
    ensures |Insert(e, s)| == |s| + 1
    ensures Insert(e, s)[i] == if i < Slot(e, s) then s[i] else if i == Slot(e, s) then e else s[i - 1]
  {
  }

  /** Inserting into a sorted sequence keeps it sorted. */
  lemma InsertSorted(e: Entry, s: seq<Entry>)
    requires NonIncreasing(s)
    ensures NonIncreasing(Insert(e, s))
  {
    var r := Insert(e, s);
    forall i, j | 0 <= i < j < |r|
      ensures r[i].count >= r[j].count
    {
      InsertIndex(e, s, i);
      InsertIndex(e, s, j);
    }
  }

  /** Inserting `e`, which comes before everything in `s`, keeps ties in order. */
  lemma {:induction false} InsertStable(e: Entry, s: seq<Entry>, t: seq<Entry>)
    requires NonIncreasing(s) && TiesInOrder(s, t)
    requires forall i :: 0 <= i < |s| ==> Pos(t, e) < Pos(t, s[i])
    ensures TiesInOrder(Insert(e, s), t)
  {
    var r := Insert(e, s);
    forall i, j | 0 <= i < j < |r| && r[i].count == r[j].count
      ensures Pos(t, r[i]) < Pos(t, r[j])
    {
      InsertIndex(e, s, i);
      InsertIndex(e, s, j);
    }
  }

  /** Sorting permutes the entries. */
  lemma {:induction false} SortPermutes(t: seq<Entry>)
    ensures multiset(SortByCount(t)) == multiset(t)
  {
    if |t| > 0 {
      SortPermutes(t[1..]);
      InsertPermutes(t[0], SortByCount(t[1..]));
      assert t == [t[0]] + t[1..];
    }
  }

  /** The sorted entries have non-increasing counts. */
  lemma {:induction false} SortSorted(t: seq<Entry>)
    ensures NonIncreasing(SortByCount(t))
  {
    if |t| > 0 {
      SortSorted(t[1..]);
      InsertSorted(t[0], SortByCount(t[1..]));
    }
  }

  /** Positions in `t` of entries other than its first are one more than in `t[1..]`. */
  lemma PosTail(t: seq<Entry>, e: Entry)
    requires |t| > 0 && e != t[0]
    ensures Pos(t, e) == 1 + Pos(t[1..], e)
  {
  }

  /**
    The sort is stable: in a table without repeated names, entries with equal
    counts come out in the order they went in.
   */
  lemma {:induction false} SortStable(t: seq<Entry>)
    requires Distinct(t)
    ensures TiesInOrder(SortByCount(t), t)
  {
    if |t| > 0 {
      var u := t[1..];
      var s := SortByCount(u);
      SortStable(u);
      SortSorted(u);
      SortPermutes(u);
      forall i | 0 <= i < |s|
        ensures s[i] != t[0] && Pos(t, s[i]) == 1 + Pos(u, s[i])
      {
        assert s[i] in multiset(u);
        PosTail(t, s[i]);
      }
      InsertStable(t[0], s, t);
    }
  }

  /** Inserting `e` adds its count to the total. */
  lemma InsertTotal(e: Entry, s: seq<Entry>)
    ensures Total(Insert(e, s)) == Total(s) + e.count
  {
    var k := Slot(e, s);
    assert s == s[..k] + s[k..];
    TotalAppend(s[..k] + [e], s[k..]);
    TotalAppend(s[..k], [e]);
    TotalAppend(s[..k], s[k..]);
    assert ([] + [e])[..0] == [];
  }

  /** Sorting keeps the total of the counts. */
  lemma {:induction false} SortTotal(t: seq<Entry>)
    ensures Total(SortByCount(t)) == Total(t)
  {
    if |t| > 0 {
      SortTotal(t[1..]);
      InsertTotal(t[0], SortByCount(t[1..]));
      TotalAppend([t[0]], t[1..]);
      assert [t[0]] + t[1..] == t;
      assert [t[0]][..0] == [];
    }
  }

  /** The counts `most_common(n)` reports add up to at most the table's total. */
  lemma MostCommonTotal(t: seq<Entry>, n: nat)
    ensures Total(MostCommon(t, n)) <= Total(t)
  {
    var s := SortByCount(t);
    SortTotal(t);
    if n < |s| {
      assert s == s[..n] + s[n..];
      TotalAppend(s[..n], s[n..]);
    }
  }

  /** `most_common(n)` has `n` entries, or all of them when there are fewer. */
  lemma MostCommonLength(t: seq<Entry>, n: nat)
    ensures |MostCommon(t, n)| == if n < |t| then n else |t|
  {
    SortPermutes(t);
    assert |SortByCount(t)| == |multiset(SortByCount(t))|;
  }

  /**
    `most_common(n)` keeps the entries with the largest counts: it is sorted,
    and every entry of the table it leaves out has a count no larger than any
    it keeps. In a table without repeated names, an entry left out with the
    same count as one kept comes later in the table: a tie at the cut keeps
    the entry seen first.
   */
  lemma MostCommonSelects(t: seq<Entry>, n: nat)
    ensures NonIncreasing(MostCommon(t, n))
    ensures forall e, f :: e in t && e !in MostCommon(t, n) && f in MostCommon(t, n) ==> f.count >= e.count
    ensures Distinct(t) ==>
      forall e, f :: e in t && e !in MostCommon(t, n) && f in MostCommon(t, n) ==>
        f.count > e.count || (f.count == e.count && Pos(t, f) < Pos(t, e))
  {
    var s := SortByCount(t);
    var r := MostCommon(t, n);
    SortSorted(t);
    SortPermutes(t);
    forall e, f | e in t && e !in r && f in r
      ensures f.count >= e.count
    {
      assert e in multiset(s);
      var a :| 0 <= a < |s| && s[a] == e;
      var b :| 0 <= b < |r| && r[b] == f;
      assert a >= |r|;
    }
    if Distinct(t) {
      MostCommonKeepsFirst(t, n);
    }
  }

  /** In a table without repeated names, a tie at the cut keeps the entry that comes first in the table. */
  lemma MostCommonKeepsFirst(t: seq<Entry>, n: nat)
    requires Distinct(t)
    ensures forall e, f :: e in t && e !in MostCommon(t, n) && f in MostCommon(t, n) ==>
      f.count > e.count || (f.count == e.count && Pos(t, f) < Pos(t, e))
  {
    var s := SortByCount(t);
    var r := MostCommon(t, n);
    SortSorted(t);
    SortPermutes(t);
    SortStable(t);
    assert r == s[..|r|];
    forall e, f | e in t && e !in r && f in r
      ensures f.count > e.count || (f.count == e.count && Pos(t, f) < Pos(t, e))
    {
      CutKeepsFirst(s, t, |r|, e, f);
    }
  }

  /**
    Cutting a sorted permutation of `t` whose ties follow `t`: an entry left
    out has a smaller count than one kept, or the same count and a later
    place in `t`.
   */
  lemma CutKeepsFirst(s: seq<Entry>, t: seq<Entry>, m: nat, e: Entry, f: Entry)
    requires NonIncreasing(s) && TiesInOrder(s, t) && multiset(s) == multiset(t) && m <= |s|
    requires e in t && e !in s[..m] && f in s[..m]
    ensures f.count > e.count || (f.count == e.count && Pos(t, f) < Pos(t, e))
  {
    assert e in multiset(s);
    var a :| 0 <= a < |s| && s[a] == e;
    var b :| 0 <= b < m && s[..m][b] == f;
    assert b < a;
    CutOrder(s, t, a, b);
  }

  /** In a sorted sequence with ties in `t`'s order, a later entry has a smaller count or comes later in `t`. */
  lemma CutOrder(s: seq<Entry>, t: seq<Entry>, a: nat, b: nat)
    requires NonIncreasing(s) && TiesInOrder(s, t) && b < a < |s|
    ensures s[b].count > s[a].count || (s[b].count == s[a].count && Pos(t, s[b]) < Pos(t, s[a]))
  {
  }

  /**
    From a table without repeated names, `most_common(n)` takes entries of
    the table, never the same name twice, with ties in the table's order.
   */
  lemma MostCommonFromTable(t: seq<Entry>, n: nat)
    requires Distinct(t)
    ensures forall i :: 0 <= i < |MostCommon(t, n)| ==> MostCommon(t, n)[i] in t
    ensures Distinct(MostCommon(t, n))
    ensures TiesInOrder(MostCommon(t, n), t)
  {
    var s := SortByCount(t);
    var r := MostCommon(t, n);
    SortPermutes(t);
    SortStable(t);
    forall i | 0 <= i < |s|
      ensures s[i] in t
    {
      assert s[i] in multiset(s);
    }
    forall i, j | 0 <= i < j < |r|
      ensures r[i].name != r[j].name
    {
      PermutationKeepsApart(s, t, i, j);
    }
  }

  /**
    Two places of a permutation of a table without repeated names hold
    different names.
   */
  lemma PermutationKeepsApart(s: seq<Entry>, t: seq<Entry>, i: nat, j: nat)
    requires Distinct(t) && multiset(s) == multiset(t)
    requires i < j < |s|
    ensures s[i].name != s[j].name
  {
    assert s[i] in multiset(t) && s[j] in multiset(t);
    var a := Pos(t, s[i]);
    var b := Pos(t, s[j]);
    DistinctOnce(t, a);
    OnceApart(s, i, j);
    assert a != b;
  }

  /** In a table without repeated names, the entry at `a` is found at `a`. */
  lemma PosAt(t: seq<Entry>, a: nat)
    requires Distinct(t) && a < |t|
    ensures Pos(t, t[a]) == a
  {
    var k := Pos(t, t[a]);
    assert t[k] == t[a];
  }

  /** An entry that occurs once in `s` is at no other place of `s`. */
  lemma OnceApart(s: seq<Entry>, i: nat, j: nat)
    requires i < j < |s| && multiset(s)[s[i]] == 1
    ensures s[i] != s[j]
  {
    assert s == s[..j] + s[j..];
    assert s[i] in multiset(s[..j]);
    assert s[j] in multiset(s[j..]);
  }

  /** In a table without repeated names, each entry occurs once. */
  lemma {:induction false} DistinctOnce(t: seq<Entry>, a: nat)
    requires Distinct(t) && a < |t|
    ensures multiset(t)[t[a]] == 1
    decreases |t|
  {
    var n := |t| - 1;
    assert t == t[..n] + [t[n]];
    if a < n {
      DistinctOnce(t[..n], a);
    } else {
      assert t[n] !in t[..n];
    }
  }
}
