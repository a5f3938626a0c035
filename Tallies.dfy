/** The `value_counts()` of a group's metric types and the summary string built from
    it (app.py:111-112): how often each metric type occurs in one group,
    most frequent first, rendered as `"Type (n)"` entries joined by `", "`.

    Among equal counts pandas does not promise an order. This model fixes
    one: the metric type that appears first in the group comes first. That
    is a chosen determinisation, not something the program guarantees. */
module Tallies {
  import opened Wrappers
  import opened Sequences
  import Text

  /** One entry of `value_counts()`: a metric type and its count. */
  datatype Tally = Tally(metric: string, count: nat)

  function Metrics(ts: seq<Tally>): (ms: seq<string>)
    ensures |ms| == |ts|
    ensures forall i :: 0 <= i < |ts| ==> ms[i] == ts[i].metric
  {
    if ts == [] then [] else [ts[0].metric] + Metrics(ts[1..])
  }

  predicate DistinctMetrics(ts: seq<Tally>)
  {
    forall i, j :: 0 <= i < j < |ts| ==> ts[i].metric != ts[j].metric
  }

  /** The count recorded for `m`, 0 when `m` has no entry. */
  function CountOf(ts: seq<Tally>, m: string): nat
  {
    if ts == [] then 0
    else if ts[0].metric == m then ts[0].count
    else CountOf(ts[1..], m)
  }

  /** The sum of all counts. */
  function Total(ts: seq<Tally>): nat
  {
    if ts == [] then 0 else ts[0].count + Total(ts[1..])
  }

  lemma {:induction false} CountOfEntry(ts: seq<Tally>, i: nat)
    requires DistinctMetrics(ts) && i < |ts|
    ensures CountOf(ts, ts[i].metric) == ts[i].count
  {
    if i > 0 {
      CountOfEntry(ts[1..], i - 1);
    }
  }

  /** Counts one more occurrence of `m`. */
  function Bump(ts: seq<Tally>, m: string): (r: seq<Tally>)
    requires DistinctMetrics(ts)
    ensures DistinctMetrics(r)
    ensures forall x :: CountOf(r, x) == CountOf(ts, x) + (if x == m then 1 else 0)
    ensures forall x :: x in Metrics(r) <==> x in Metrics(ts) || x == m
    ensures Total(r) == Total(ts) + 1
  {
    if ts == [] then [Tally(m, 1)]
    else if ts[0].metric == m then
      var r := [Tally(m, ts[0].count + 1)] + ts[1..];
      assert r[1..] == ts[1..];
      r
    else
      var rest := Bump(ts[1..], m);
      var r := [ts[0]] + rest;
      assert r[1..] == rest;
      forall j | 0 <= j < |rest|
        ensures ts[0].metric != rest[j].metric
      {
        assert rest[j].metric in Metrics(rest) by {
          assert Metrics(rest)[j] == rest[j].metric;
        }
        if rest[j].metric != m {
          var k :| 0 <= k < |ts[1..]| && Metrics(ts[1..])[k] == rest[j].metric;
          assert ts[k + 1].metric == rest[j].metric;
        }
      }
      r
  }

  /** Occurrence counts of the values of `s`, one entry per distinct value. */
  function Tallied(s: seq<string>): (ts: seq<Tally>)
    ensures DistinctMetrics(ts)
    ensures forall x :: CountOf(ts, x) == multiset(s)[x]
    ensures forall x :: x in Metrics(ts) <==> x in s
    ensures Total(ts) == |s|
  {
    if s == [] then []
    else
      assert s == [s[0]] + s[1..];
      Bump(Tallied(s[1..]), s[0])
  }

  /** The order the model fixes for `value_counts()`: a higher count first,
      equal counts in order of first appearance in `s`. */
  predicate RanksBefore(s: seq<string>, a: Tally, b: Tally)
  {
    a.count > b.count
    || (a.count == b.count && FirstIndex(s, a.metric) < FirstIndex(s, b.metric))
  }

  predicate Ranked(s: seq<string>, ts: seq<Tally>)
  {
    forall i, j :: 0 <= i < j < |ts| ==> RanksBefore(s, ts[i], ts[j])
  }

  /** Puts `t` into a ranked list at its place. */
  function Insert(s: seq<string>, t: Tally, ts: seq<Tally>): (r: seq<Tally>)
    ensures multiset(r) == multiset(ts) + multiset{t}
    ensures Total(r) == Total(ts) + t.count
  {
    if ts == [] || RanksBefore(s, t, ts[0]) then
      var r := [t] + ts;
      assert r[1..] == ts;
      r
    else
      var rest := Insert(s, t, ts[1..]);
      var r := [ts[0]] + rest;
      assert r[1..] == rest;
      assert ts == [ts[0]] + ts[1..];
      r
  }

  /** Two metric types that occur in `s` have the same first appearance
      only if they are the same. */
  lemma FirstIndexInjective(s: seq<string>, a: string, b: string)
    requires a in s && b in s && a != b
    ensures FirstIndex(s, a) != FirstIndex(s, b)
  {
  }

  lemma {:induction false} RankedCons(s: seq<string>, t: Tally, ts: seq<Tally>)
    requires Ranked(s, ts)
    requires forall j :: 0 <= j < |ts| ==> RanksBefore(s, t, ts[j])
    ensures Ranked(s, [t] + ts)
  {
    var r := [t] + ts;
    forall i, j | 0 <= i < j < |r|
      ensures RanksBefore(s, r[i], r[j])
    {
      if i == 0 {
        assert r[j] == ts[j - 1];
      } else {
        assert r[i] == ts[i - 1] && r[j] == ts[j - 1];
      }
    }
  }

  lemma {:induction false} InsertRanked(s: seq<string>, t: Tally, ts: seq<Tally>)
    requires Ranked(s, ts)
    requires t.metric in s
    requires forall i :: 0 <= i < |ts| ==> ts[i].metric in s && ts[i].metric != t.metric
    ensures Ranked(s, Insert(s, t, ts))
  {
    if ts == [] || RanksBefore(s, t, ts[0]) {
      forall j | 0 <= j < |ts|
        ensures RanksBefore(s, t, ts[j])
      {
        if j > 0 {
          assert RanksBefore(s, ts[0], ts[j]);
        }
      }
      RankedCons(s, t, ts);
    } else {
      FirstIndexInjective(s, t.metric, ts[0].metric);
      assert RanksBefore(s, ts[0], t);
      var rest := Insert(s, t, ts[1..]);
      InsertRanked(s, t, ts[1..]);
      forall j | 0 <= j < |rest|
        ensures RanksBefore(s, ts[0], rest[j])
      {
        assert rest[j] in multiset(rest);
        if rest[j] != t {
          assert rest[j] in ts[1..];
          var k :| 0 <= k < |ts[1..]| && ts[1..][k] == rest[j];
          assert RanksBefore(s, ts[0], ts[k + 1]);
        }
      }
      RankedCons(s, ts[0], rest);
    }
  }

  /** Sorts a tally list by `RanksBefore` (insertion sort). */
  function Rank(s: seq<string>, ts: seq<Tally>): (r: seq<Tally>)
    ensures multiset(r) == multiset(ts)
    ensures Total(r) == Total(ts)
  {
    if ts == [] then []
    else
      assert ts == [ts[0]] + ts[1..];
      Insert(s, ts[0], Rank(s, ts[1..]))
  }

  lemma {:induction false} RankRanked(s: seq<string>, ts: seq<Tally>)
    requires DistinctMetrics(ts)
    requires forall i :: 0 <= i < |ts| ==> ts[i].metric in s
    ensures Ranked(s, Rank(s, ts))
  {
    if ts != [] {
      var rest := Rank(s, ts[1..]);
      RankRanked(s, ts[1..]);
      forall j | 0 <= j < |rest|
        ensures rest[j].metric in s && rest[j].metric != ts[0].metric
      {
        assert rest[j] in multiset(ts[1..]);
        var k :| 0 <= k < |ts[1..]| && ts[1..][k] == rest[j];
        assert ts[k + 1] == rest[j];
      }
      InsertRanked(s, ts[0], rest);
    }
  }

  /** `value_counts()` of the metric types `s` of one group: each metric
      type present exactly once, with its number of occurrences, ordered by
      `RanksBefore`; the counts add up to the size of the group. */
  function ValueCounts(s: seq<string>): (ts: seq<Tally>)
    ensures forall i :: 0 <= i < |ts| ==> ts[i].metric in s && ts[i].count == multiset(s)[ts[i].metric]
    ensures forall i :: 0 <= i < |ts| ==> ts[i].count >= 1
    ensures forall m :: m in s ==> m in Metrics(ts)
    ensures DistinctMetrics(ts)
    ensures Ranked(s, ts)
    ensures Total(ts) == |s|
  {
    ValueCountsFacts(s);
    Rank(s, Tallied(s))
  }

  lemma {:induction false} ValueCountsFacts(s: seq<string>)
    ensures var ts := Rank(s, Tallied(s));
      && (forall i :: 0 <= i < |ts| ==> ts[i].metric in s && ts[i].count == multiset(s)[ts[i].metric])
      && (forall i :: 0 <= i < |ts| ==> ts[i].count >= 1)
      && (forall m :: m in s ==> m in Metrics(ts))
      && DistinctMetrics(ts)
      && Ranked(s, ts)
      && Total(ts) == |s|
  {
    var tallied := Tallied(s);
    TalliedEntries(s, tallied);
    RankRanked(s, tallied);
    RankedEntries(s, tallied, Rank(s, tallied));
  }

  lemma {:induction false} TalliedEntries(s: seq<string>, ts: seq<Tally>)
    requires ts == Tallied(s)
    ensures forall i :: 0 <= i < |ts| ==> ts[i].metric in s && ts[i].count == multiset(s)[ts[i].metric]
  {
    forall i | 0 <= i < |ts|
      ensures ts[i].metric in s && ts[i].count == multiset(s)[ts[i].metric]
    {
      assert Metrics(ts)[i] == ts[i].metric;
      CountOfEntry(ts, i);
    }
  }

  /** What a ranked permutation of the tallies of `s` keeps of them. */
  lemma {:induction false} RankedEntries(s: seq<string>, ts: seq<Tally>, r: seq<Tally>)
    requires forall i :: 0 <= i < |ts| ==> ts[i].metric in s && ts[i].count == multiset(s)[ts[i].metric]
    requires forall m :: m in s <==> m in Metrics(ts)
    requires multiset(r) == multiset(ts)
    requires Ranked(s, r)
    ensures forall i :: 0 <= i < |r| ==> r[i].metric in s && r[i].count == multiset(s)[r[i].metric]
    ensures forall i :: 0 <= i < |r| ==> r[i].count >= 1
    ensures forall m :: m in s ==> m in Metrics(r)
    ensures DistinctMetrics(r)
  {
    forall i | 0 <= i < |r|
      ensures r[i].metric in s && r[i].count == multiset(s)[r[i].metric]
    {
      assert r[i] in multiset(ts);
    }
    forall m | m in s
      ensures m in Metrics(r)
    {
      var k :| 0 <= k < |ts| && Metrics(ts)[k] == m;
      assert ts[k] in multiset(r);
      var j :| 0 <= j < |r| && r[j] == ts[k];
      assert Metrics(r)[j] == m;
    }
    forall i, j | 0 <= i < j < |r|
      ensures r[i].metric != r[j].metric
    {
      assert RanksBefore(s, r[i], r[j]);
    }
  }

  // ------------------------------------------------------------------
  // The summary string
  // ------------------------------------------------------------------

  /** One entry of a summary: the metric type, a space and the count in
      parentheses. */
  function Entry(t: Tally): string
  {
    t.metric + " (" + Text.Decimal(t.count) + ")"
  }

  function Entries(ts: seq<Tally>): seq<string>
  {
    if ts == [] then [] else [Entry(ts[0])] + Entries(ts[1..])
  }

  /** The summary: the entries in order, separated by a comma and a space. */
  function Summary(ts: seq<Tally>): string
  {
    Text.Join(Entries(ts), ", ")
  }

  /** Position of the last occurrence of `c` in `s`, or -1. */
  function LastIndexOf(s: string, c: char): (k: int)
    ensures -1 <= k < |s|
  {
    if s == [] then -1
    else if s[|s| - 1] == c then |s| - 1
    else LastIndexOf(s[..|s| - 1], c)
  }

  lemma {:induction false} LastIndexOfAppend(x: string, y: string, c: char)
    requires c !in y
    ensures LastIndexOf(x + y, c) == LastIndexOf(x, c)
  {
    if y != [] {
      assert (x + y)[..|x + y| - 1] == x + y[..|y| - 1];
      LastIndexOfAppend(x, y[..|y| - 1], c);
    } else {
      assert x + y == x;
    }
  }

  /** Reads one `"Type (n)"` entry back: the count is the run of digits
      between the last `'('` and the closing `')'`. */
  function DecodeEntry(e: string): Option<Tally>
  {
    var p := LastIndexOf(e, '(');
    if 1 <= p && e[p - 1] == ' ' && p + 1 < |e| && e[|e| - 1] == ')' then
      match Text.ParseDecimal(e[p + 1..|e| - 1])
      case Some(n) => Some(Tally(e[..p - 1], n))
      case None => None
    else None
  }

  /** Reads the entries after the first one: each must start with the
      space that followed its comma. */
  function DecodeRest(pieces: seq<string>): Option<seq<Tally>>
  {
    if pieces == [] then Some([])
    else if pieces[0] == [] || pieces[0][0] != ' ' then None
    else
      match (DecodeEntry(pieces[0][1..]), DecodeRest(pieces[1..]))
      case (Some(t), Some(ts)) => Some([t] + ts)
      case _ => None
  }

  /** Reads a summary string back into its tallies. */
  function DecodeSummary(s: string): Option<seq<Tally>>
  {
    if s == [] then Some([])
    else
      var pieces := Text.Split(s, ',');
      match (DecodeEntry(pieces[0]), DecodeRest(pieces[1..]))
      case (Some(t), Some(ts)) => Some([t] + ts)
      case _ => None
  }

  lemma DecodeEntryOfEntry(t: Tally)
    ensures DecodeEntry(Entry(t)) == Some(t)
  {
    var d := Text.Decimal(t.count);
    var e := Entry(t);
    assert '(' !in d + ")";
    assert e == (t.metric + " (") + (d + ")");
    LastIndexOfAppend(t.metric + " (", d + ")", '(');
    assert LastIndexOf(t.metric + " (", '(') == |t.metric| + 1;
    var p := |t.metric| + 1;
    assert e[p + 1..|e| - 1] == d;
    assert e[..p - 1] == t.metric;
    Text.ParseDecimalOfDecimal(t.count);
  }

  predicate NoComma(ts: seq<Tally>)
  {
    forall i :: 0 <= i < |ts| ==> ',' !in ts[i].metric
  }

  lemma {:induction false} EntryHasNoComma(t: Tally)
    requires ',' !in t.metric
    ensures ',' !in Entry(t)
  {
    assert ',' !in Text.Decimal(t.count);
  }

  lemma {:induction false} DecodeRestOfEntries(ts: seq<Tally>, pieces: seq<string>)
    requires |pieces| == |ts|
    requires forall i :: 0 <= i < |ts| ==> pieces[i] == " " + Entry(ts[i])
    ensures DecodeRest(pieces) == Some(ts)
  {
    if ts != [] {
      DecodeRestOfEntries(ts[1..], pieces[1..]);
      assert pieces[0][1..] == Entry(ts[0]);
      DecodeEntryOfEntry(ts[0]);
      assert [ts[0]] + ts[1..] == ts;
    }
  }

  /** Splitting a summary at its commas gives the first entry, then the
      others each with the space that followed its comma. */
  lemma {:induction false} SplitSummary(ts: seq<Tally>)
    requires ts != [] && NoComma(ts)
    ensures var pieces := Text.Split(Summary(ts), ',');
      |pieces| == |ts| && pieces[0] == Entry(ts[0])
      && forall i :: 1 <= i < |ts| ==> pieces[i] == " " + Entry(ts[i])
  {
    EntryHasNoComma(ts[0]);
    if |ts| == 1 {
      assert Entries(ts) == [Entry(ts[0])];
      Text.SplitWithout(Entry(ts[0]), ',');
    } else {
      var rest := Summary(ts[1..]);
      assert Summary(ts) == Entry(ts[0]) + [','] + (" " + rest);
      Text.SplitAfterFirst(Entry(ts[0]), ',', " " + rest);
      Text.SplitCons(' ', rest, ',');
      SplitSummary(ts[1..]);
    }
  }

  /** A summary of at least one tally is not the empty string. */
  lemma {:induction false} SummaryNonEmpty(ts: seq<Tally>)
    requires ts != []
    ensures Summary(ts) != []
  {
    assert Entries(ts)[0] == Entry(ts[0]);
    assert Entry(ts[0]) != [];
    assert |Summary(ts)| >= |Entry(ts[0])|;
  }

  /** Reading a summary back gives the tallies it was built from, provided
      no metric type contains a comma (none of the five the program offers
      does). */
  lemma {:induction false} SummaryRoundTrip(ts: seq<Tally>)
    requires NoComma(ts)
    ensures DecodeSummary(Summary(ts)) == Some(ts)
  {
    if ts != [] {
      SummaryNonEmpty(ts);
      SplitSummary(ts);
      var pieces := Text.Split(Summary(ts), ',');
      DecodeEntryOfEntry(ts[0]);
      forall i | 0 <= i < |ts[1..]|
        ensures pieces[1..][i] == " " + Entry(ts[1..][i])
      {
        assert pieces[1..][i] == pieces[i + 1];
      }
      DecodeRestOfEntries(ts[1..], pieces[1..]);
      DecodeSummaryPieces(Summary(ts), ts[0], ts[1..]);
      assert [ts[0]] + ts[1..] == ts;
    }
  }

  /** A non-empty summary decodes to its first piece's entry followed by
      the entries of the other pieces. */
  lemma {:induction false} DecodeSummaryPieces(s: string, t: Tally, rest: seq<Tally>)
    requires s != []
    requires DecodeEntry(Text.Split(s, ',')[0]) == Some(t)
    requires DecodeRest(Text.Split(s, ',')[1..]) == Some(rest)
    ensures DecodeSummary(s) == Some([t] + rest)
  {
  }

  /** What `ValueCounts(s)` promises, as one predicate. */
  predicate CountsOf(s: seq<string>, ts: seq<Tally>)
  {
    && (forall i :: 0 <= i < |ts| ==> ts[i].metric in s && ts[i].count == multiset(s)[ts[i].metric])
    && (forall m :: m in s ==> m in Metrics(ts))
    && Ranked(s, ts)
  }

  /** In a ranked list the head ranks before every other entry. */
  lemma {:induction false} RankedHead(s: seq<string>, a: seq<Tally>, x: Tally)
    requires Ranked(s, a) && x in a
    ensures x == a[0] || RanksBefore(s, a[0], x)
  {
    var i :| 0 <= i < |a| && a[i] == x;
    if i > 0 {
      assert RanksBefore(s, a[0], a[i]);
    }
  }

  lemma {:induction false} RankedSameElements(s: seq<string>, a: seq<Tally>, b: seq<Tally>)
    requires Ranked(s, a) && Ranked(s, b)
    requires forall x :: x in a <==> x in b
    ensures a == b
  {
    if b != [] {
      assert b[0] in a;
    }
    if a != [] {
      assert a[0] in b;
      RankedHead(s, a, b[0]);
      RankedHead(s, b, a[0]);
      assert a[0] == b[0];
      forall x
        ensures x in a[1..] <==> x in b[1..]
      {
        if x in a[1..] {
          var i :| 0 <= i < |a[1..]| && a[1..][i] == x;
          assert RanksBefore(s, a[0], a[i + 1]);
          assert x in b;
        }
        if x in b[1..] {
          var i :| 0 <= i < |b[1..]| && b[1..][i] == x;
          assert RanksBefore(s, b[0], b[i + 1]);
          assert x in a;
        }
      }
      RankedSameElements(s, a[1..], b[1..]);
      assert a == [a[0]] + a[1..] && b == [b[0]] + b[1..];
    }
  }

  /** Two lists meeting the `value_counts` contract hold the same entries. */
  lemma {:induction false} CountsOfEntry(s: seq<string>, ts: seq<Tally>, us: seq<Tally>, x: Tally)
    requires CountsOf(s, ts) && CountsOf(s, us)
    requires x in ts
    ensures x in us
  {
    var i :| 0 <= i < |ts| && ts[i] == x;
    assert x.metric in s;
    assert x.metric in Metrics(us);
    var k :| 0 <= k < |us| && Metrics(us)[k] == x.metric;
    assert us[k] == x;
  }

  /** The fixed order leaves no freedom: `ValueCounts(s)` is the only list
      that names each metric type of `s` once, with its count, in
      `RanksBefore` order. */
  lemma {:induction false} ValueCountsUnique(s: seq<string>, ts: seq<Tally>)
    requires CountsOf(s, ts)
    ensures ts == ValueCounts(s)
  {
    var vc := ValueCounts(s);
    assert CountsOf(s, vc);
    forall x
      ensures x in ts <==> x in vc
    {
      if x in ts {
        CountsOfEntry(s, ts, vc, x);
      }
      if x in vc {
        CountsOfEntry(s, vc, ts, x);
      }
    }
    RankedSameElements(s, ts, vc);
  }

  /** A group of two metric types, `a` ranking before `b`: `a` with its
      count, then `b` with its count. */
  lemma {:induction false} TwoTypes(s: seq<string>, a: string, b: string)
    requires a != b && a in s && b in s
    requires forall i :: 0 <= i < |s| ==> s[i] == a || s[i] == b
    requires RanksBefore(s, Tally(a, multiset(s)[a]), Tally(b, multiset(s)[b]))
    ensures ValueCounts(s) == [Tally(a, multiset(s)[a]), Tally(b, multiset(s)[b])]
  {
    var ts := [Tally(a, multiset(s)[a]), Tally(b, multiset(s)[b])];
    assert Metrics(ts) == [a, b];
    forall m | m in s
      ensures m in Metrics(ts)
    {
      var i :| 0 <= i < |s| && s[i] == m;
    }
    assert Ranked(s, ts);
    assert CountsOf(s, ts);
    ValueCountsUnique(s, ts);
  }

  lemma SummaryOfTwo(ts: seq<Tally>)
    requires |ts| == 2
    ensures Summary(ts) == Entry(ts[0]) + ", " + Entry(ts[1])
  {
    assert Entries(ts[1..][1..]) == [];
    assert Entries(ts[1..]) == [Entry(ts[1])];
    var es := [Entry(ts[0]), Entry(ts[1])];
    assert Entries(ts) == es;
    assert es[1..] == [Entry(ts[1])];
    assert Text.Join(es, ", ") == es[0] + ", " + Text.Join(es[1..], ", ");
    assert Text.Join(es[1..], ", ") == Entry(ts[1]);
  }

  /** Two of `a` and one of `b`: `a`, the more frequent, comes first. */
  lemma MoreFrequentFirst(a: string, b: string)
    requires a != b
    ensures ValueCounts([a, b, a]) == [Tally(a, 2), Tally(b, 1)]
  {
    var s := [a, b, a];
    assert multiset(s)[a] == 2 && multiset(s)[b] == 1;
    assert s[0] == a && s[1] == b;
    TwoTypes(s, a, b);
  }

  /** Two of `a` and two of `b`, `a` seen first: the tie keeps `a` first. */
  lemma TieKeepsFirstAppearance(a: string, b: string)
    requires a != b
    ensures ValueCounts([a, b, b, a]) == [Tally(a, 2), Tally(b, 2)]
  {
    var s := [a, b, b, a];
    assert multiset(s)[a] == 2 && multiset(s)[b] == 2;
    assert FirstIndex(s, a) == 0 && FirstIndex(s, b) == 1;
    TwoTypes(s, a, b);
  }

  /** An entry with count 1 or 2 ends in ` (1)` or ` (2)`. */
  lemma {:induction false} SmallEntry(m: string, n: nat)
    requires n == 1 || n == 2
    ensures Entry(Tally(m, n)) == m + (if n == 1 then " (1)" else " (2)")
  {
    assert Text.Decimal(n) == (if n == 1 then "1" else "2");
  }

  /** The first example rendered with the program's metric names. */
  lemma MoreFrequentFirstSummary()
    ensures Summary([Tally("Speeding", 2), Tally("Distraction", 1)])
         == "Speeding (2), Distraction (1)"
  {
    SummaryOfTwo([Tally("Speeding", 2), Tally("Distraction", 1)]);
    SmallEntry("Speeding", 2);
    SmallEntry("Distraction", 1);
  }

  /** The tie example rendered with the program's metric names. */
  lemma TieKeepsFirstAppearanceSummary()
    ensures Summary([Tally("Distraction", 2), Tally("Sign Signal", 2)])
         == "Distraction (2), Sign Signal (2)"
  {
    SummaryOfTwo([Tally("Distraction", 2), Tally("Sign Signal", 2)]);
    SmallEntry("Distraction", 2);
    SmallEntry("Sign Signal", 2);
  }
}
