/** The aggregator: `generateMatchStatistics` turns the raw match list into
    one `label=count` line per distinct label, in first-occurrence order, the
    count coming from `countif`. */
module Aggregator {
  import opened PhpStrings

  predicate Distinct(u: seq<string>)
  {
    forall i, j :: 0 <= i < j < |u| ==> u[i] != u[j]
  }

  /** `array_unique`: each value once, at the place it first occurs. */
  function Unique(s: seq<string>): (u: seq<string>)
    ensures forall x :: x in u <==> x in s
    ensures Distinct(u)
    ensures |u| <= |s|
  {
    if s == [] then []
    else
      var u' := Unique(s[..|s| - 1]);
      var x := s[|s| - 1];
      assert forall y :: y in s <==> y in s[..|s| - 1] || y == x by {
        assert s == s[..|s| - 1] + [x];
      }
      if x in u' then u' else u' + [x]
  }

  /** The list `array_unique` returns only grows as the input is read: the
      unique list of any prefix is a prefix of the whole one, so the labels
      keep the order of their first occurrences. */
  lemma {:induction false} UniqueOfPrefix(s: seq<string>, k: nat)
    requires k <= |s|
    ensures Unique(s[..k]) <= Unique(s)
    decreases |s| - k
  {
    if k < |s| {
      var s' := s[..k + 1];
      UniqueOfPrefix(s, k + 1);
      assert s'[..|s'| - 1] == s[..k];
      assert Unique(s[..k]) <= Unique(s');
    } else {
      assert s[..k] == s;
    }
  }

  /** `countif($input, $search)`: the number of entries equal to `$search`
      (`$sum` starts as `null`, which reads as 0). */
  method CountIf(input: seq<string>, search: string) returns (sum: nat)
    ensures sum == multiset(input)[search]
  {
    sum := 0;
    for i := 0 to |input|
      invariant sum == multiset(input[..i])[search]
    {
      if input[i] == search {
        sum := sum + 1;
      }
      assert input[..i + 1] == input[..i] + [input[i]];
    }
    assert input[..|input|] == input;
  }

  /** A label and the number of times it was matched. */
  datatype Tally = Tally(name: string, count: nat)

  /** One tally per distinct label of the match list, in first-occurrence
      order. */
  function Tallies(m: seq<string>): (ts: seq<Tally>)
    ensures |ts| == |Unique(m)|
    ensures forall i :: 0 <= i < |ts| ==> ts[i].name == Unique(m)[i] && ts[i].count >= 1
  {
    var u := Unique(m);
    assert forall i :: 0 <= i < |u| ==> multiset(m)[u[i]] >= 1 by {
      forall i | 0 <= i < |u|
        ensures multiset(m)[u[i]] >= 1
      {
        assert u[i] in u;
      }
    }
    seq(|u|, i requires 0 <= i < |u| => Tally(u[i], multiset(m)[u[i]]))
  }

  /** The statistics line of one tally. */
  function StatLine(t: Tally): string
  {
    t.name + "=" + NatToString(t.count)
  }

  /** The statistics lines of the tallies, one per tally. */
  function StatLines(ts: seq<Tally>): (ls: seq<string>)
    ensures |ls| == |ts|
  {
    seq(|ts|, i requires 0 <= i < |ts| => StatLine(ts[i]))
  }

  /** Each statistics line splits at its first `=` into its tally's label,
      when the label holds no `=`, and a count that reads back as the
      tally's count. */
  lemma StatLinesSplit(ts: seq<Tally>, i: int)
    requires 0 <= i < |ts| && '=' !in ts[i].name
    ensures var p := SplitFirst(StatLines(ts)[i], '=');
      p.0 == ts[i].name && p.1.Some? && CountValue(p.1.value) == ts[i].count
  {
    SplitFirstAt(ts[i].name, '=', NatToString(ts[i].count));
    CountValueOfNatToString(ts[i].count);
  }

  lemma StatLinesSnoc(ts: seq<Tally>, t: Tally)
    ensures StatLines(ts + [t]) == StatLines(ts) + [StatLine(t)]
  {
  }

  /** The text `generateMatchStatistics` returns: a `label=count` line per
      tally, each ended by a line feed (`null`, that is `""`, for no match). */
  function Statistics(m: seq<string>): string
  {
    Lines(StatLines(Tallies(m)))
  }

  /** The statistics text grows by one line per tally. */
  lemma StatisticsStep(ts: seq<Tally>, i: nat)
    requires i < |ts|
    ensures Lines(StatLines(ts[..i + 1])) ==
      Lines(StatLines(ts[..i])) + ts[i].name + "=" + NatToString(ts[i].count) + "\n"
  {
    assert StatLines(ts[..i + 1]) == StatLines(ts[..i]) + [StatLine(ts[i])];
    LinesSnoc(StatLines(ts[..i]), StatLine(ts[i]));
  }

  /** `generateMatchStatistics($matches)`. */
  method GenerateMatchStatistics(matches: seq<string>) returns (matchStatistic: string)
    ensures matchStatistic == Statistics(matches)
  {
    var uniqueMatches := Unique(matches);
    ghost var ts := Tallies(matches);
    matchStatistic := "";
    for i := 0 to |uniqueMatches|
      invariant matchStatistic == Lines(StatLines(ts[..i]))
    {
      var matched := uniqueMatches[i];
      var count := CountIf(matches, matched);
      StatisticsStep(ts, i);
      matchStatistic := matchStatistic + matched + "=" + NatToString(count) + "\n";
    }
    assert ts[..|uniqueMatches|] == ts;
  }

  // ---------------------------------------------------------------- counts

  /** The total of the counts of `ts`. */
  function CountSum(ts: seq<Tally>): nat
  {
    if ts == [] then 0 else CountSum(ts[..|ts| - 1]) + ts[|ts| - 1].count
  }

  /** The number of times the labels of `u` occur in `m`, added up. */
  function OccurrenceSum(u: seq<string>, m: seq<string>): nat
  {
    if u == [] then 0 else OccurrenceSum(u[..|u| - 1], m) + multiset(m)[u[|u| - 1]]
  }

  lemma {:induction false} OccurrenceSumSnoc(u: seq<string>, m: seq<string>, y: string)
    ensures OccurrenceSum(u, m + [y]) == OccurrenceSum(u, m) + multiset(u)[y]
  {
    if u != [] {
      OccurrenceSumSnoc(u[..|u| - 1], m, y);
      assert u == u[..|u| - 1] + [u[|u| - 1]];
    }
  }

  lemma {:induction false} DistinctOnce(u: seq<string>, y: string)
    requires Distinct(u) && y in u
    ensures multiset(u)[y] == 1
  {
    var u' := u[..|u| - 1];
    assert u == u' + [u[|u| - 1]];
    if y == u[|u| - 1] {
      assert y !in u';
    } else {
      DistinctOnce(u', y);
    }
  }

  /** Distinct labels that cover every entry of `m` account for all of it. */
  lemma {:induction false} OccurrenceSumCovers(u: seq<string>, m: seq<string>)
    requires Distinct(u)
    requires forall x :: x in m ==> x in u
    ensures OccurrenceSum(u, m) == |m|
  {
    if m == [] {
      OccurrenceSumEmpty(u);
    } else {
      var m' := m[..|m| - 1];
      var y := m[|m| - 1];
      assert m == m' + [y];
      OccurrenceSumCovers(u, m');
      OccurrenceSumSnoc(u, m', y);
      DistinctOnce(u, y);
    }
  }

  lemma {:induction false} OccurrenceSumEmpty(u: seq<string>)
    ensures OccurrenceSum(u, []) == 0
  {
    if u != [] {
      OccurrenceSumEmpty(u[..|u| - 1]);
    }
  }

  lemma {:induction false} CountSumOfTallies(ts: seq<Tally>, u: seq<string>, m: seq<string>)
    requires |ts| == |u|
    requires forall i :: 0 <= i < |ts| ==> ts[i] == Tally(u[i], multiset(m)[u[i]])
    ensures CountSum(ts) == OccurrenceSum(u, m)
  {
    if ts != [] {
      CountSumOfTallies(ts[..|ts| - 1], u[..|u| - 1], m);
    }
  }

  /** The counts of the statistics add up to the length of the match list. */
  lemma CountsSumToMatches(m: seq<string>)
    ensures CountSum(Tallies(m)) == |m|
  {
    CountSumOfTallies(Tallies(m), Unique(m), m);
    OccurrenceSumCovers(Unique(m), m);
  }

  /** Each distinct label gets one tally, with its exact number of matches. */
  lemma TallyOfLabel(m: seq<string>, x: string)
    requires x in m
    ensures exists i :: 0 <= i < |Tallies(m)| && Tallies(m)[i] == Tally(x, multiset(m)[x])
    ensures forall i, j :: 0 <= i < j < |Tallies(m)| ==> Tallies(m)[i].name != Tallies(m)[j].name
  {
    var u := Unique(m);
    var i :| 0 <= i < |u| && u[i] == x;
    assert Tallies(m)[i] == Tally(x, multiset(m)[x]);
  }
}
