/** The whole pipeline, `browserRecon($rawHeaders, $mode, $database)`: match
    the request against the reference tables, count its hit possibilities,
    aggregate the matches and announce the result. */
module Recon {
  import opened PhpStrings
  import opened Headers
  import opened Matcher
  import opened Aggregator
  import opened Reporter

  /** What `browserRecon` returns for the tables of one database prefix. */
  function Fingerprint(db: Database, h: HeaderList, mode: string): string
  {
    Announce(Statistics(GlobalMatches(db, h)), mode, HitPossibilities(h))
  }

  /** `browserRecon($rawHeaders, $mode, $database)`. */
  method BrowserRecon(db: Database, h: HeaderList, mode: string) returns (r: string)
    ensures r == Fingerprint(db, h, mode)
  {
    var globalFingerprint := IdentifyGlobalFingerprint(db, h);
    var possibilities := CountHitPossibilities(h);
    var matchStatistics := GenerateMatchStatistics(globalFingerprint);
    r := AnnounceFingerprintMatches(matchStatistics, mode, possibilities);
  }

  // ---------------------------------------------------------------- statistics read back

  /** Labels the statistics text carries through unchanged: not empty, and
      without `=` or a line feed. */
  predicate PlainLabels(m: seq<string>)
  {
    forall i :: 0 <= i < |m| ==> m[i] != "" && '=' !in m[i] && '\n' !in m[i]
  }

  /** The entries the reporter should read for a list of tallies: one per
      tally, with its label, and a count text that reads back as the tally's
      count. */
  function TallyEntries(ts: seq<Tally>): (es: seq<Entry>)
    ensures |es| == |ts|
    ensures forall i :: 0 <= i < |ts| ==>
      es[i].name == ts[i].name && CountValue(es[i].count) == ts[i].count
  {
    var es := seq(|ts|, i requires 0 <= i < |ts| => Entry(ts[i].name, NatToString(ts[i].count)));
    assert forall i :: 0 <= i < |ts| ==> CountValue(es[i].count) == ts[i].count by {
      forall i | 0 <= i < |ts|
        ensures CountValue(NatToString(ts[i].count)) == ts[i].count
      {
        CountValueOfNatToString(ts[i].count);
      }
    }
    es
  }

  lemma {:induction false} NamedEntriesOfStatLines(ts: seq<Tally>)
    requires forall i :: 0 <= i < |ts| ==> ts[i].name != "" && '=' !in ts[i].name
    ensures NamedEntries(StatLines(ts)) == TallyEntries(ts)
  {
    if ts != [] {
      var ts' := ts[..|ts| - 1];
      var t := ts[|ts| - 1];
      var e := Entry(t.name, NatToString(t.count));
      assert ts == ts' + [t];
      calc {
        NamedEntries(StatLines(ts));
        { StatLinesSnoc(ts', t); }
        NamedEntries(StatLines(ts') + [StatLine(t)]);
        { NamedEntriesSnoc(StatLines(ts'), StatLine(t));
          ParseLineOf(t.name, NatToString(t.count)); }
        NamedEntries(StatLines(ts')) + [e];
        { NamedEntriesOfStatLines(ts'); }
        TallyEntries(ts') + [e];
        { TallyEntriesSnoc(ts', t); }
        TallyEntries(ts);
      }
    }
  }

  lemma TallyEntriesSnoc(ts: seq<Tally>, t: Tally)
    ensures TallyEntries(ts + [t]) == TallyEntries(ts) + [Entry(t.name, NatToString(t.count))]
  {
  }

  /** The reporter reads back exactly the aggregator's tallies: one entry per
      distinct label, in first-occurrence order, with its count. */
  lemma StatisticsReadBack(m: seq<string>)
    requires PlainLabels(m)
    ensures Entries(Statistics(m)) == TallyEntries(Tallies(m))
  {
    var ts := Tallies(m);
    var ls := StatLines(ts);
    forall i | 0 <= i < |ts|
      ensures ts[i].name != "" && '=' !in ts[i].name && '\n' !in ts[i].name
    {
      assert ts[i].name in Unique(m);
    }
    forall k | 0 <= k < |ls|
      ensures '\n' !in ls[k]
    {
      var d := NatToString(ts[k].count);
      assert ls[k] == ts[k].name + "=" + d;
      assert forall j :: 0 <= j < |d| ==> IsDigit(d[j]);
    }
    ExplodeLines(ls);
    assert ParseLine("") == Entry("", "");
    assert (ls + [""])[..|ls|] == ls;
    NamedEntriesOfStatLines(ts);
  }

  /** Read back from tallies, the best hit is a most-counted tally, and the
      first one. */
  lemma BestOfTallies(ts: seq<Tally>)
    requires ts != []
    requires forall i :: 0 <= i < |ts| ==> ts[i].count >= 1
    ensures var es := TallyEntries(ts);
      exists k :: 0 <= k < |ts| && BestName(es) == ts[k].name && BestCount(es) == NatToString(ts[k].count) &&
        (forall i :: 0 <= i < |ts| ==> ts[i].count <= ts[k].count) &&
        (forall i :: 0 <= i < k ==> ts[i].count < ts[k].count)
  {
    var es := TallyEntries(ts);
    forall i | 0 <= i < |es|
      ensures Score(es[i].count) == ts[i].count
    {
      CountValueOfNatToString(ts[i].count);
    }
    var k := BestIndex(es);
    assert es[0].count != "";
    assert BestName(es) == ts[k].name && BestCount(es) == NatToString(ts[k].count);
  }

  /** The best hit of a non-empty match list is a most-matched label, and the
      first such label in first-occurrence order. */
  lemma BestHitIsMostMatched(m: seq<string>)
    requires PlainLabels(m) && m != []
    ensures var ts := Tallies(m); var es := Entries(Statistics(m));
      exists k :: 0 <= k < |ts| && BestName(es) == ts[k].name && BestCount(es) == NatToString(ts[k].count) &&
        (forall i :: 0 <= i < |ts| ==> ts[i].count <= ts[k].count) &&
        (forall i :: 0 <= i < k ==> ts[i].count < ts[k].count)
  {
    StatisticsReadBack(m);
    assert m[0] in Unique(m);
    BestOfTallies(Tallies(m));
  }

  // ---------------------------------------------------------------- as written

  /** The header-order signal never matches, so on well-formed tables no
      label reaches the hit possibilities of a non-empty request: the
      best-hit accuracy stays below 100 %. */
  lemma HeaderOrderCostsAHit(db: Database, h: HeaderList, x: string)
    requires WellFormed(db) && h != []
    ensures multiset(GlobalMatches(db, h))[x] < HitPossibilities(h)
  {
    HitsBoundedByPresentKeys(db, h, ALL_KINDS, x);
    PresentCountSnoc(h, HEADER_KINDS, HeaderOrder);
  }

  /** On well-formed tables, the reported best count of a non-empty request
      with plain matched labels is below its hit possibilities. */
  lemma BestCountBelowPossibilities(db: Database, h: HeaderList)
    requires WellFormed(db) && h != []
    requires PlainLabels(GlobalMatches(db, h)) && GlobalMatches(db, h) != []
    ensures CountValue(BestCount(Entries(Statistics(GlobalMatches(db, h))))) < HitPossibilities(h)
  {
    var m := GlobalMatches(db, h);
    BestHitIsMostMatched(m);
    var ts := Tallies(m);
    var k :| 0 <= k < |ts| && BestCount(Entries(Statistics(m))) == NatToString(ts[k].count);
    CountValueOfNatToString(ts[k].count);
    HeaderOrderCostsAHit(db, h, ts[k].name);
  }

  lemma {:induction false} StatisticsOfNothing()
    ensures Statistics([]) == ""
  {
    assert Tallies([]) == [];
  }

  /** An empty request matches nothing in well-formed tables. */
  lemma EmptyRequestMatchesNothing(db: Database)
    requires WellFormed(db)
    ensures GlobalMatches(db, []) == []
  {
    var m := GlobalMatches(db, []);
    forall x
      ensures multiset(m)[x] == 0
    {
      HitsBoundedByPresentKeys(db, [], ALL_KINDS, x);
    }
    assert multiset(m) == multiset{};
  }

  /** So, on well-formed tables, every mode answers `""` to an empty request
      but `besthitdetail`, which prints its frame at 100 %. */
  lemma EmptyRequest(db: Database, mode: string)
    requires WellFormed(db)
    ensures mode != "besthitdetail" ==> Fingerprint(db, [], mode) == ""
    ensures mode == "besthitdetail" ==> Fingerprint(db, [], mode) == " (100% with  hits)"
  {
    EmptyRequestMatchesNothing(db);
    StatisticsOfNothing();
    assert HitPossibilities([]) == 0;
    assert Fingerprint(db, [], mode) == Announce("", mode, 0);
    AnnounceNoMatches(mode, 0);
  }
}
