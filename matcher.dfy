/** The reference tables and the matcher: `findMatchInDatabase` looks one
    header value up in one table, `combineArrays` concatenates two match
    lists and `identifyGlobalFingerprint` runs the fourteen lookups in their
    fixed order. A table is the array of lines `file()` reads from a
    reference file's text, each line `label;value` followed by its line feed,
    the last one possibly without. */
module Matcher {
  import opened PhpStrings
  import opened Headers

  type Table = seq<string>

  /** The text of one reference file per signal kind. A kind without a file
      is a file `file()` cannot read: its lookups find nothing. */
  type Database = map<Kind, string>

  /** The lines `file()` reads from kind `k`'s reference file. */
  function TableOf(db: Database, k: Kind): (t: Table)
    ensures k !in db ==> t == []
    ensures k in db ==> Concat(t) == db[k]
  {
    if k in db then
      ConcatFileLines(db[k]);
      FileLines(db[k])
    else []
  }

  /** The implementation label of a line: the text before its first `;`. */
  function RowLabel(line: string): (l: string)
    ensures ';' !in l
  {
    if line == [] || line[0] == ';' then [] else [line[0]] + RowLabel(line[1..])
  }

  /** The text after the first `;` of a line, `""` when it has none. */
  function RowRest(line: string): string
  {
    if line == [] then [] else if line[0] == ';' then line[1..] else RowRest(line[1..])
  }

  /** The value a line is compared with: the text after the first `;`,
      right-trimmed (`rtrim(null)` is `""` for a line without `;`). */
  function RowValue(line: string): string
  {
    RTrim(RowRest(line))
  }

  /** `RowLabel` and `RowRest` are the two parts `explode(';', $line, 2)`
      returns. */
  lemma {:induction false} RowJoin(line: string)
    requires ';' in line
    ensures line == RowLabel(line) + [';'] + RowRest(line)
  {
    if line[0] != ';' {
      var t := line[1..];
      assert line == [line[0]] + t;
      assert ';' in t;
      RowJoin(t);
      calc {
        line;
        [line[0]] + (RowLabel(t) + [';'] + RowRest(t));
        ([line[0]] + RowLabel(t)) + [';'] + RowRest(t);
      }
    } else {
      assert line == [] + [';'] + line[1..];
    }
  }

  lemma {:induction false} RowWhole(line: string)
    requires ';' !in line
    ensures RowLabel(line) == line && RowRest(line) == ""
  {
    if line != [] {
      var t := line[1..];
      assert ';' !in t by { assert forall j :: 0 <= j < |t| ==> t[j] == line[j + 1]; }
      RowWhole(t);
      assert line == [line[0]] + t;
    }
  }

  lemma RowParts(line: string)
    ensures SplitFirst(line, ';').0 == RowLabel(line)
    ensures SplitFirst(line, ';').1 == (if ';' in line then Some(RowRest(line)) else None)
    ensures ';' !in line ==> RowRest(line) == ""
  {
    if ';' in line {
      RowJoin(line);
      SplitFirstAt(RowLabel(line), ';', RowRest(line));
    } else {
      RowWhole(line);
    }
  }

  predicate RowMatches(line: string, v: string)
  {
    v == RowValue(line)
  }

  /** The labels of the matching lines, in line order, duplicates kept. */
  function Matches(t: Table, v: string): (r: seq<string>)
    ensures |r| <= |t|
  {
    if t == [] then []
    else Matches(t[..|t| - 1], v) + (if RowMatches(t[|t| - 1], v) then [RowLabel(t[|t| - 1])] else [])
  }

  /** `findMatchInDatabase($databaseFile, $headerValue)` on the table's lines. */
  method FindMatchInDatabase(table: Table, headerValue: string) returns (matches: seq<string>)
    ensures matches == Matches(table, headerValue)
  {
    matches := [];
    for i := 0 to |table|
      invariant matches == Matches(table[..i], headerValue)
    {
      var entry := SplitFirst(table[i], ';');
      var dbValue := if entry.1.Some? then entry.1.value else "";
      RowParts(table[i]);
      if headerValue == RTrim(dbValue) {
        matches := matches + [entry.0];
      }
      assert table[..i + 1][..i] == table[..i];
    }
    assert table[..|table|] == table;
  }

  /** Lookup distributes over a table split in two: the result keeps line
      order and duplicates. */
  lemma {:induction false} MatchesAppend(t1: Table, t2: Table, v: string)
    ensures Matches(t1 + t2, v) == Matches(t1, v) + Matches(t2, v)
  {
    if t2 == [] {
      assert t1 + t2 == t1;
    } else {
      var t2' := t2[..|t2| - 1];
      assert (t1 + t2)[..|t1 + t2| - 1] == t1 + t2';
      assert (t1 + t2)[|t1 + t2| - 1] == t2[|t2| - 1];
      MatchesAppend(t1, t2', v);
    }
  }

  /** Line `i` of the table matches `v` and carries label `x`. */
  predicate FoundAt(t: Table, v: string, x: string, i: int)
  {
    0 <= i < |t| && RowMatches(t[i], v) && RowLabel(t[i]) == x
  }

  /** A label is found exactly when some line with that label matches. */
  lemma {:induction false} MatchesMembership(t: Table, v: string, x: string)
    ensures x in Matches(t, v) <==> exists i :: FoundAt(t, v, x, i)
  {
    if t != [] {
      var t' := t[..|t| - 1];
      MatchesMembership(t', v, x);
      if x in Matches(t, v) {
        if x in Matches(t', v) {
          var i :| FoundAt(t', v, x, i);
          assert FoundAt(t, v, x, i);
        } else {
          assert FoundAt(t, v, x, |t| - 1);
        }
      }
      if exists i :: FoundAt(t, v, x, i) {
        var i :| FoundAt(t, v, x, i);
        if i < |t'| {
          assert FoundAt(t', v, x, i);
        }
      }
    }
  }

  /** A value no line holds yields no match. */
  lemma {:induction false} MatchesNone(t: Table, v: string)
    requires forall i :: 0 <= i < |t| ==> !RowMatches(t[i], v)
    ensures Matches(t, v) == []
  {
    if t != [] {
      MatchesNone(t[..|t| - 1], v);
    }
  }

  /** A value exactly one line holds yields that line's label alone. */
  lemma MatchesSingleRow(t: Table, v: string, i: nat)
    requires i < |t| && RowMatches(t[i], v)
    requires forall j :: 0 <= j < |t| && j != i ==> !RowMatches(t[j], v)
    ensures Matches(t, v) == [RowLabel(t[i])]
  {
    var before, after := t[..i], t[i + 1..];
    assert Matches(before, v) == [] by {
      forall j | 0 <= j < |before| ensures !RowMatches(before[j], v) { assert before[j] == t[j]; }
      MatchesNone(before, v);
    }
    assert Matches(after, v) == [] by {
      forall j | 0 <= j < |after| ensures !RowMatches(after[j], v) { assert after[j] == t[i + 1 + j]; }
      MatchesNone(after, v);
    }
    assert Matches([t[i]], v) == [RowLabel(t[i])] by {
      assert [t[i]][..0] == [];
    }
    calc {
      Matches(t, v);
      { assert t == before + [t[i]] + after; }
      Matches(before + [t[i]] + after, v);
      { MatchesAppend(before + [t[i]], after, v); }
      Matches(before + [t[i]], v) + Matches(after, v);
      { MatchesAppend(before, [t[i]], v); }
      Matches(before, v) + Matches([t[i]], v) + Matches(after, v);
      [RowLabel(t[i])];
    }
  }

  /** No label holds a `;`: labels end where the first `;` of a line is. */
  lemma MatchesHaveNoSemicolon(t: Table, v: string)
    ensures forall x :: x in Matches(t, v) ==> ';' !in x
  {
    forall x | x in Matches(t, v)
      ensures ';' !in x
    {
      MatchesMembership(t, v, x);
      var i :| FoundAt(t, v, x, i);
    }
  }

  /** A line with a `;` and a non-blank value trims to its label, `;` and
      value. */
  lemma RowTrim(line: string)
    requires ';' in line && RowValue(line) != ""
    ensures RTrim(line) == RowLabel(line) + ";" + RowValue(line)
  {
    RowParts(line);
    SplitFirstJoin(line, ';');
    assert line == (RowLabel(line) + ";") + RowRest(line);
    RTrimConcat(RowLabel(line) + ";", RowRest(line));
  }

  /** The rest after the first `;` of `a;c`. */
  lemma {:induction false} RowRestAfter(a: string, c: string)
    ensures RowRest(a + ";" + c) == if ';' in a then RowRest(a) + ";" + c else c
  {
    if a == [] {
      assert a + ";" + c == [';'] + c;
    } else {
      assert (a + ";" + c)[1..] == a[1..] + ";" + c;
      assert (a + ";" + c)[0] == a[0];
      if a[0] != ';' {
        RowRestAfter(a[1..], c);
        assert ';' in a <==> ';' in a[1..] by {
          assert a == [a[0]] + a[1..];
        }
      }
    }
  }

  /** `combineArrays($one, $two)`: `$two`'s items appended to `$one`, in order. */
  method CombineArrays(one: seq<string>, two: seq<string>) returns (r: seq<string>)
    ensures r == one + two
  {
    r := one;
    for i := 0 to |two|
      invariant r == one + two[..i]
    {
      r := r + [two[i]];
      assert two[..i + 1] == two[..i] + [two[i]];
    }
    assert two[..|two|] == two;
  }

  // ---------------------------------------------------------------- identifyGlobalFingerprint

  /** The matches of kind `k` for the request. */
  function KindMatches(db: Database, h: HeaderList, k: Kind): seq<string>
  {
    Matches(TableOf(db, k), SignalValue(h, k))
  }

  /** The per-kind match lists of `kinds`, concatenated in that order. */
  function MatchesOver(db: Database, h: HeaderList, kinds: seq<Kind>): seq<string>
  {
    if kinds == [] then []
    else
      var k := kinds[|kinds| - 1];
      MatchesOver(db, h, kinds[..|kinds| - 1]) + KindMatches(db, h, k)
  }

  /** The raw match list of a request: all fourteen kinds, user agent first,
      header order last. */
  function GlobalMatches(db: Database, h: HeaderList): seq<string>
  {
    MatchesOver(db, h, ALL_KINDS)
  }

  lemma MatchesOverSnoc(db: Database, h: HeaderList, ks: seq<Kind>, k: Kind)
    ensures MatchesOver(db, h, ks + [k]) == MatchesOver(db, h, ks) + KindMatches(db, h, k)
  {
    assert (ks + [k])[..|ks|] == ks;
  }

  /** The raw match list, kind by kind. */
  lemma GlobalMatchesUnrolled(db: Database, h: HeaderList)
    ensures GlobalMatches(db, h) == [] +
      KindMatches(db, h, UserAgent) +
      KindMatches(db, h, Accept) +
      KindMatches(db, h, AcceptLanguage) +
      KindMatches(db, h, AcceptEncoding) +
      KindMatches(db, h, AcceptCharset) +
      KindMatches(db, h, KeepAlive) +
      KindMatches(db, h, Connection) +
      KindMatches(db, h, CacheControl) +
      KindMatches(db, h, UaPixels) +
      KindMatches(db, h, UaColor) +
      KindMatches(db, h, UaOs) +
      KindMatches(db, h, UaCpu) +
      KindMatches(db, h, Te) +
      KindMatches(db, h, HeaderOrder)
  {
    var ks: seq<Kind> := [];
    MatchesOverSnoc(db, h, ks, UserAgent); ks := ks + [UserAgent];
    MatchesOverSnoc(db, h, ks, Accept); ks := ks + [Accept];
    MatchesOverSnoc(db, h, ks, AcceptLanguage); ks := ks + [AcceptLanguage];
    MatchesOverSnoc(db, h, ks, AcceptEncoding); ks := ks + [AcceptEncoding];
    MatchesOverSnoc(db, h, ks, AcceptCharset); ks := ks + [AcceptCharset];
    MatchesOverSnoc(db, h, ks, KeepAlive); ks := ks + [KeepAlive];
    MatchesOverSnoc(db, h, ks, Connection); ks := ks + [Connection];
    MatchesOverSnoc(db, h, ks, CacheControl); ks := ks + [CacheControl];
    MatchesOverSnoc(db, h, ks, UaPixels); ks := ks + [UaPixels];
    MatchesOverSnoc(db, h, ks, UaColor); ks := ks + [UaColor];
    MatchesOverSnoc(db, h, ks, UaOs); ks := ks + [UaOs];
    MatchesOverSnoc(db, h, ks, UaCpu); ks := ks + [UaCpu];
    MatchesOverSnoc(db, h, ks, Te); ks := ks + [Te];
    MatchesOverSnoc(db, h, ks, HeaderOrder); ks := ks + [HeaderOrder];
    AllKindsInOrder();
  }

  /** `identifyGlobalFingerprint($database, $rawHeaders)`: fourteen lookups,
      each combined onto the list built so far. */
  method IdentifyGlobalFingerprint(db: Database, h: HeaderList) returns (matches: seq<string>)
    ensures matches == GlobalMatches(db, h)
  {
    matches := [];
    var found := FindMatchInDatabase(TableOf(db, UserAgent), SignalValue(h, UserAgent));
    matches := CombineArrays(matches, found);
    found := FindMatchInDatabase(TableOf(db, Accept), SignalValue(h, Accept));
    matches := CombineArrays(matches, found);
    found := FindMatchInDatabase(TableOf(db, AcceptLanguage), SignalValue(h, AcceptLanguage));
    matches := CombineArrays(matches, found);
    found := FindMatchInDatabase(TableOf(db, AcceptEncoding), SignalValue(h, AcceptEncoding));
    matches := CombineArrays(matches, found);
    found := FindMatchInDatabase(TableOf(db, AcceptCharset), SignalValue(h, AcceptCharset));
    matches := CombineArrays(matches, found);
    found := FindMatchInDatabase(TableOf(db, KeepAlive), SignalValue(h, KeepAlive));
    matches := CombineArrays(matches, found);
    found := FindMatchInDatabase(TableOf(db, Connection), SignalValue(h, Connection));
    matches := CombineArrays(matches, found);
    found := FindMatchInDatabase(TableOf(db, CacheControl), SignalValue(h, CacheControl));
    matches := CombineArrays(matches, found);
    found := FindMatchInDatabase(TableOf(db, UaPixels), SignalValue(h, UaPixels));
    matches := CombineArrays(matches, found);
    found := FindMatchInDatabase(TableOf(db, UaColor), SignalValue(h, UaColor));
    matches := CombineArrays(matches, found);
    found := FindMatchInDatabase(TableOf(db, UaOs), SignalValue(h, UaOs));
    matches := CombineArrays(matches, found);
    found := FindMatchInDatabase(TableOf(db, UaCpu), SignalValue(h, UaCpu));
    matches := CombineArrays(matches, found);
    found := FindMatchInDatabase(TableOf(db, Te), SignalValue(h, Te));
    matches := CombineArrays(matches, found);
    var order := GetHeaderOrder(h);
    found := FindMatchInDatabase(TableOf(db, HeaderOrder), order);
    matches := CombineArrays(matches, found);
    GlobalMatchesUnrolled(db, h);
  }

  // ---------------------------------------------------------------- hit bounds

  /** No two lines of the table share both label and value; the insertion
      check of the contribution store keeps tables this way. */
  predicate DuplicateFree(t: Table)
  {
    forall i, j :: 0 <= i < j < |t| ==> RowLabel(t[i]) != RowLabel(t[j]) || RowValue(t[i]) != RowValue(t[j])
  }

  /** No line trims to an empty value, so a missing header matches nothing. */
  predicate NoBlankRows(t: Table)
  {
    forall i :: 0 <= i < |t| ==> RowValue(t[i]) != ""
  }

  /** Every table is free of blank rows, and every table but the header-order
      one is duplicate-free (the contribution store cannot keep that one
      duplicate-free, its values ending in a space). */
  predicate WellFormed(db: Database)
  {
    forall k :: NoBlankRows(TableOf(db, k)) && (k != HeaderOrder ==> DuplicateFree(TableOf(db, k)))
  }

  /** In a duplicate-free table a lookup finds each label at most once. */
  lemma {:induction false} MatchesAtMostOnce(t: Table, v: string, x: string)
    requires DuplicateFree(t)
    ensures multiset(Matches(t, v))[x] <= 1
  {
    if t != [] {
      var t' := t[..|t| - 1];
      var last := t[|t| - 1];
      assert DuplicateFree(t') by {
        forall i, j | 0 <= i < j < |t'|
          ensures RowLabel(t'[i]) != RowLabel(t'[j]) || RowValue(t'[i]) != RowValue(t'[j])
        {
          assert t'[i] == t[i] && t'[j] == t[j];
        }
      }
      MatchesAtMostOnce(t', v, x);
      if RowMatches(last, v) && RowLabel(last) == x {
        MatchesMembership(t', v, x);
        forall i | 0 <= i < |t'| && RowMatches(t'[i], v)
          ensures RowLabel(t'[i]) != x
        {
          assert t'[i] == t[i];
        }
        assert x !in Matches(t', v);
      }
    }
  }

  /** A value that ends in a trimmable character, or is empty, matches
      nothing in a table without blank rows. */
  lemma TrimmableValueMatchesNothing(t: Table, v: string)
    requires NoBlankRows(t)
    requires v == "" || EndsTrimmable(v)
    ensures Matches(t, v) == []
  {
    MatchesNone(t, v);
  }

  /** With duplicate-free tables without blank rows, no label is found more
      often than the number of kinds whose header key is present. */
  lemma {:induction false} HitsBoundedByPresentKeys(db: Database, h: HeaderList, ks: seq<Kind>, x: string)
    requires WellFormed(db)
    ensures multiset(MatchesOver(db, h, ks))[x] <= PresentCount(h, ks)
  {
    if ks != [] {
      var k := ks[|ks| - 1];
      var t := TableOf(db, k);
      var v := SignalValue(h, k);
      HitsBoundedByPresentKeys(db, h, ks[..|ks| - 1], x);
      if KeyPresent(h, k) {
        assert k != HeaderOrder;
        MatchesAtMostOnce(t, v, x);
      } else if k == HeaderOrder {
        if h != [] {
          OrderSignalEndsTrimmable(h);
        }
        TrimmableValueMatchesNothing(t, v);
      } else {
        TrimmableValueMatchesNothing(t, v);
      }
    }
  }

  /** Every label's hit count is bounded by the request's hit possibilities,
      for duplicate-free tables without blank rows. */
  lemma HitsBoundedByPossibilities(db: Database, h: HeaderList, x: string)
    requires WellFormed(db)
    ensures multiset(GlobalMatches(db, h))[x] <= HitPossibilities(h)
  {
    HitsBoundedByPresentKeys(db, h, ALL_KINDS, x);
    PresentCountSnoc(h, HEADER_KINDS, HeaderOrder);
  }

  /** The header-order signal as written never matches a stored row of a
      non-empty request: stored values are right-trimmed and the signal ends
      in a space. */
  lemma OrderSignalNeverMatches(t: Table, h: HeaderList)
    requires h != []
    ensures Matches(t, OrderSignal(h)) == []
  {
    OrderSignalEndsTrimmable(h);
    MatchesNone(t, OrderSignal(h));
  }

  /** An absent header is looked up as `""` and so matches every line whose
      value trims to nothing, though the request could not match on it. */
  lemma AbsentHeaderMatchesBlankRow()
    ensures Matches(["X; \n"], SignalValue([], AcceptCharset)) == ["X"]
    ensures HitPossibilities([]) == 0
  {
    var line := "X; \n";
    assert line[1..] == "; \n" && line[2..] == " \n";
    assert RowLabel(line) == "X";
    assert RowRest(line) == " \n";
    assert RTrim(" \n") == "" by {
      RTrimUnique(" \n", "");
    }
    assert SignalValue([], AcceptCharset) == "";
    assert [line][..0] == [];
  }
}
