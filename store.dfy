/** The contribution side: `isInDatabase`, `addToDatabase`,
    `saveNewFingerprintToDatabase` and `saveAllFingerprintsToDatabase`
    append the text `implementation;value` and a line feed to a reference
    file unless one of its lines already holds the pair. The files they write
    are the ones without a database prefix; a file the process may not write
    is left as it is. The append is on the file's text: the next `file()`
    reads the lines back from the whole text. */
module Store {
  import opened PhpStrings
  import opened Headers
  import opened Matcher

  /** The line `addToDatabase` writes. */
  function NewRow(implementation: string, value: string): string
  {
    implementation + ";" + value + "\n"
  }

  /** `isInDatabase`: some line, right-trimmed, is exactly `implementation;value`. */
  predicate Recorded(t: Table, implementation: string, value: string)
  {
    exists i :: 0 <= i < |t| && RTrim(t[i]) == implementation + ";" + value
  }

  /** When `addToDatabase` appends: both texts are non-empty, no line holds
      the pair yet, and the file exists and may be written. */
  predicate Appends(db: Database, writable: set<Kind>, k: Kind, implementation: string, value: string)
  {
    implementation != "" && value != "" && k in db && k in writable &&
    !Recorded(TableOf(db, k), implementation, value)
  }

  /** The files after `addToDatabase`: the new line is written after the
      file's last character. */
  function Added(db: Database, writable: set<Kind>, k: Kind, implementation: string, value: string): (r: Database)
    ensures r.Keys == db.Keys
  {
    if Appends(db, writable, k, implementation, value) then db[k := db[k] + NewRow(implementation, value)]
    else db
  }

  /** The save of kind `k`'s signal. */
  function SavedKind(db: Database, writable: set<Kind>, h: HeaderList, implementation: string, k: Kind): Database
  {
    Added(db, writable, k, implementation, SignalValue(h, k))
  }

  /** The files after the fourteen saves of `kinds`, in order. */
  function SavedOver(db: Database, writable: set<Kind>, h: HeaderList, implementation: string, kinds: seq<Kind>): (r: Database)
    ensures r.Keys == db.Keys
  {
    if kinds == [] then db
    else
      var k := kinds[|kinds| - 1];
      SavedKind(SavedOver(db, writable, h, implementation, kinds[..|kinds| - 1]), writable, h, implementation, k)
  }

  /** The files after `saveAllFingerprintsToDatabase`. */
  function SavedAll(db: Database, writable: set<Kind>, h: HeaderList, implementation: string): Database
  {
    SavedOver(db, writable, h, implementation, ALL_KINDS)
  }

  lemma SavedOverSnoc(db: Database, writable: set<Kind>, h: HeaderList, implementation: string, ks: seq<Kind>, k: Kind)
    ensures SavedOver(db, writable, h, implementation, ks + [k]) ==
      SavedKind(SavedOver(db, writable, h, implementation, ks), writable, h, implementation, k)
  {
    assert (ks + [k])[..|ks|] == ks;
  }

  /** The files after `saveAllFingerprintsToDatabase`, kind by kind. */
  lemma SavedAllUnrolled(db: Database, writable: set<Kind>, h: HeaderList, implementation: string)
    ensures SavedAll(db, writable, h, implementation) ==
      var t0 := db;
      var t1 := SavedKind(t0, writable, h, implementation, UserAgent);
      var t2 := SavedKind(t1, writable, h, implementation, Accept);
      var t3 := SavedKind(t2, writable, h, implementation, AcceptLanguage);
      var t4 := SavedKind(t3, writable, h, implementation, AcceptEncoding);
      var t5 := SavedKind(t4, writable, h, implementation, AcceptCharset);
      var t6 := SavedKind(t5, writable, h, implementation, KeepAlive);
      var t7 := SavedKind(t6, writable, h, implementation, Connection);
      var t8 := SavedKind(t7, writable, h, implementation, CacheControl);
      var t9 := SavedKind(t8, writable, h, implementation, UaPixels);
      var t10 := SavedKind(t9, writable, h, implementation, UaColor);
      var t11 := SavedKind(t10, writable, h, implementation, UaOs);
      var t12 := SavedKind(t11, writable, h, implementation, UaCpu);
      var t13 := SavedKind(t12, writable, h, implementation, Te);
      var t14 := SavedKind(t13, writable, h, implementation, HeaderOrder);
      t14
  {
    var ks: seq<Kind> := [];
    SavedOverSnoc(db, writable, h, implementation, ks, UserAgent); ks := ks + [UserAgent];
    SavedOverSnoc(db, writable, h, implementation, ks, Accept); ks := ks + [Accept];
    SavedOverSnoc(db, writable, h, implementation, ks, AcceptLanguage); ks := ks + [AcceptLanguage];
    SavedOverSnoc(db, writable, h, implementation, ks, AcceptEncoding); ks := ks + [AcceptEncoding];
    SavedOverSnoc(db, writable, h, implementation, ks, AcceptCharset); ks := ks + [AcceptCharset];
    SavedOverSnoc(db, writable, h, implementation, ks, KeepAlive); ks := ks + [KeepAlive];
    SavedOverSnoc(db, writable, h, implementation, ks, Connection); ks := ks + [Connection];
    SavedOverSnoc(db, writable, h, implementation, ks, CacheControl); ks := ks + [CacheControl];
    SavedOverSnoc(db, writable, h, implementation, ks, UaPixels); ks := ks + [UaPixels];
    SavedOverSnoc(db, writable, h, implementation, ks, UaColor); ks := ks + [UaColor];
    SavedOverSnoc(db, writable, h, implementation, ks, UaOs); ks := ks + [UaOs];
    SavedOverSnoc(db, writable, h, implementation, ks, UaCpu); ks := ks + [UaCpu];
    SavedOverSnoc(db, writable, h, implementation, ks, Te); ks := ks + [Te];
    SavedOverSnoc(db, writable, h, implementation, ks, HeaderOrder); ks := ks + [HeaderOrder];
    AllKindsInOrder();
  }

  /** No kind is saved twice in `kinds`. */
  predicate DistinctKinds(kinds: seq<Kind>)
  {
    forall i, j :: 0 <= i < j < |kinds| ==> kinds[i] != kinds[j]
  }

  /** The fourteen kinds of `saveAll` are distinct. */
  lemma AllKindsDistinct()
    ensures DistinctKinds(ALL_KINDS)
  {
    forall i | 0 <= i < |ALL_KINDS|
      ensures KindIndex(ALL_KINDS[i]) == i
    {
    }
  }

  /** A kind's place in `ALL_KINDS`. */
  function KindIndex(k: Kind): nat
  {
    match k
    case UserAgent => 0
    case Accept => 1
    case AcceptLanguage => 2
    case AcceptEncoding => 3
    case AcceptCharset => 4
    case KeepAlive => 5
    case Connection => 6
    case CacheControl => 7
    case UaPixels => 8
    case UaColor => 9
    case UaOs => 10
    case UaCpu => 11
    case Te => 12
    case HeaderOrder => 13
  }

  /** Whether `addToDatabase` appends to file `k` depends on that file alone. */
  lemma AppendsOfFile(db: Database, db': Database, writable: set<Kind>, k: Kind, implementation: string, value: string)
    requires (k in db <==> k in db') && (k in db ==> db[k] == db'[k])
    ensures Appends(db, writable, k, implementation, value) == Appends(db', writable, k, implementation, value)
    ensures k in db ==> Added(db, writable, k, implementation, value)[k] == Added(db', writable, k, implementation, value)[k]
  {
    assert TableOf(db, k) == TableOf(db', k);
  }

  /** Saving distinct kinds in turn: each saved file is as if it had been
      saved alone, every other file is untouched, and no file appears. */
  lemma {:induction false} SavedOverAt(db: Database, writable: set<Kind>, h: HeaderList, implementation: string, kinds: seq<Kind>, k: Kind)
    requires DistinctKinds(kinds)
    ensures k in SavedOver(db, writable, h, implementation, kinds) <==> k in db
    ensures k in db ==>
      SavedOver(db, writable, h, implementation, kinds)[k] ==
        (if k in kinds then SavedKind(db, writable, h, implementation, k)[k] else db[k])
  {
    if kinds != [] {
      var ks, last := kinds[..|kinds| - 1], kinds[|kinds| - 1];
      assert DistinctKinds(ks);
      assert last !in ks by {
        forall i | 0 <= i < |ks| ensures ks[i] != last {
          assert ks[i] == kinds[i];
        }
      }
      assert kinds == ks + [last];
      SavedOverAt(db, writable, h, implementation, ks, k);
      SavedOverAt(db, writable, h, implementation, ks, last);
      var before := SavedOver(db, writable, h, implementation, ks);
      AppendsOfFile(before, db, writable, last, implementation, SignalValue(h, last));
    }
  }

  /** Contributing the same request twice: the second `saveAll` leaves every
      file but the header-order one as the first left it, for a signal
      without trailing whitespace or line feeds on a file that ends at a line
      boundary. The header-order signal of a non-empty request always ends
      in a space, so its file grows by one more line. */
  lemma SavedAllTwice(db: Database, writable: set<Kind>, h: HeaderList, implementation: string, k: Kind)
    requires '\n' !in implementation
    requires k != HeaderOrder ==> !EndsTrimmable(SignalValue(h, k)) && '\n' !in SignalValue(h, k)
    requires k in db ==> Terminated(db[k])
    ensures var once := SavedAll(db, writable, h, implementation);
      var twice := SavedAll(once, writable, h, implementation);
      (k in twice <==> k in db) &&
      (k != HeaderOrder && k in db ==> twice[k] == once[k]) &&
      (k == HeaderOrder && k in db && k in writable && h != [] && implementation != "" ==>
        twice[k] == once[k] + NewRow(implementation, OrderSignal(h)))
  {
    var once := SavedAll(db, writable, h, implementation);
    AllKindsDistinct();
    assert k in ALL_KINDS;
    SavedOverAt(db, writable, h, implementation, ALL_KINDS, k);
    SavedOverAt(once, writable, h, implementation, ALL_KINDS, k);
    if k in db {
      var v := SignalValue(h, k);
      var alone := Added(db, writable, k, implementation, v);
      if k != HeaderOrder {
        AddedIdempotent(db, writable, k, implementation, v);
        AppendsOfFile(once, alone, writable, k, implementation, v);
      } else if k in writable && h != [] && implementation != "" {
        OrderRowAlwaysAppended(once, writable, h, implementation);
      }
    }
  }

  /** The reference files a contributor writes to. */
  class ReferenceStore {
    var files: Database
    var writable: set<Kind>

    constructor (initial: Database, canWrite: set<Kind>)
      ensures files == initial && writable == canWrite
    {
      files := initial;
      writable := canWrite;
    }

    /** `isInDatabase($databaseFile, $implementation, $value)`; a missing
        file reads as no lines. */
    method IsInDatabase(k: Kind, implementation: string, value: string) returns (found: bool)
      ensures found == Recorded(TableOf(files, k), implementation, value)
    {
      var database := TableOf(files, k);
      for i := 0 to |database|
        invariant forall j :: 0 <= j < i ==> RTrim(database[j]) != implementation + ";" + value
      {
        if implementation + ";" + value == RTrim(database[i]) {
          return true;
        }
      }
      return false;
    }

    /** `addToDatabase($databaseFile, $implementation, $value)`. */
    method AddToDatabase(k: Kind, implementation: string, value: string)
      modifies this
      ensures writable == old(writable)
      ensures files == Added(old(files), old(writable), k, implementation, value)
    {
      if |implementation| > 0 && |value| > 0 {
        var present := IsInDatabase(k, implementation, value);
        if !present && k in files && k in writable {
          assert Appends(files, writable, k, implementation, value);
          files := files[k := files[k] + NewRow(implementation, value)];
        } else {
          assert !Appends(files, writable, k, implementation, value);
        }
      }
    }

    /** `saveNewFingerprintToDatabase`: a forward to `addToDatabase`. */
    method SaveNewFingerprintToDatabase(k: Kind, implementation: string, value: string)
      modifies this
      ensures writable == old(writable)
      ensures files == Added(old(files), old(writable), k, implementation, value)
    {
      AddToDatabase(k, implementation, value);
    }

    /** `saveAllFingerprintsToDatabase($rawHeaders, $implementation)`: one
        save per kind, in the matcher's order, the header order last. */
    method SaveAllFingerprintsToDatabase(h: HeaderList, implementation: string)
      modifies this
      ensures writable == old(writable)
      ensures files == SavedAll(old(files), old(writable), h, implementation)
    {
      SaveNewFingerprintToDatabase(UserAgent, implementation, SignalValue(h, UserAgent));
      SaveNewFingerprintToDatabase(Accept, implementation, SignalValue(h, Accept));
      SaveNewFingerprintToDatabase(AcceptLanguage, implementation, SignalValue(h, AcceptLanguage));
      SaveNewFingerprintToDatabase(AcceptEncoding, implementation, SignalValue(h, AcceptEncoding));
      SaveNewFingerprintToDatabase(AcceptCharset, implementation, SignalValue(h, AcceptCharset));
      SaveNewFingerprintToDatabase(KeepAlive, implementation, SignalValue(h, KeepAlive));
      SaveNewFingerprintToDatabase(Connection, implementation, SignalValue(h, Connection));
      SaveNewFingerprintToDatabase(CacheControl, implementation, SignalValue(h, CacheControl));
      SaveNewFingerprintToDatabase(UaPixels, implementation, SignalValue(h, UaPixels));
      SaveNewFingerprintToDatabase(UaColor, implementation, SignalValue(h, UaColor));
      SaveNewFingerprintToDatabase(UaOs, implementation, SignalValue(h, UaOs));
      SaveNewFingerprintToDatabase(UaCpu, implementation, SignalValue(h, UaCpu));
      SaveNewFingerprintToDatabase(Te, implementation, SignalValue(h, Te));
      var order := GetHeaderOrder(h);
      SaveNewFingerprintToDatabase(HeaderOrder, implementation, order);
      SavedAllUnrolled(old(files), writable, h, implementation);
    }
  }

  // ---------------------------------------------------------------- properties

  /** The line written for a value without trailing whitespace trims back to
      `implementation;value` and reads as that label and value. */
  lemma NewRowParts(implementation: string, value: string)
    requires value != "" && !EndsTrimmable(value)
    ensures RTrim(NewRow(implementation, value)) == implementation + ";" + value
    ensures RowValue(NewRow(implementation, value)) != ""
    ensures RowLabel(NewRow(implementation, value)) + ";" + RowValue(NewRow(implementation, value)) ==
      implementation + ";" + value
  {
    var row := NewRow(implementation, value);
    var pair := implementation + ";" + value;
    assert !EndsTrimmable(pair) by {
      assert pair[|pair| - 1] == value[|value| - 1];
    }
    assert row == pair + "\n";
    RTrimNewline(pair);
    assert row == implementation + ";" + (value + "\n");
    RowRestAfter(implementation, value + "\n");
    var x := if ';' in implementation then RowRest(implementation) + ";" else "";
    assert RowRest(row) == (x + value) + "\n";
    assert !EndsTrimmable(x + value) by {
      assert (x + value)[|x + value| - 1] == value[|value| - 1];
    }
    RTrimNewline(x + value);
    RowTrim(row);
  }

  /** On a file that ends at a line boundary, appending a pair without line
      feeds adds exactly one line: the new row. */
  lemma AddedLines(db: Database, writable: set<Kind>, k: Kind, implementation: string, value: string)
    requires Appends(db, writable, k, implementation, value)
    requires Terminated(db[k]) && '\n' !in implementation && '\n' !in value
    ensures TableOf(Added(db, writable, k, implementation, value), k) ==
      TableOf(db, k) + [NewRow(implementation, value)]
  {
    var pair := implementation + ";" + value;
    assert NewRow(implementation, value) == pair + "\n";
    FileLinesAppend(db[k], NewRow(implementation, value));
    FileLinesOfLine(pair);
  }

  /** After an append to a file that ends at a line boundary, a pair without
      line feeds is recorded. */
  lemma AddedRecords(db: Database, writable: set<Kind>, k: Kind, implementation: string, value: string)
    requires Appends(db, writable, k, implementation, value) && !EndsTrimmable(value)
    requires Terminated(db[k]) && '\n' !in implementation && '\n' !in value
    ensures Recorded(TableOf(Added(db, writable, k, implementation, value), k), implementation, value)
  {
    var t := TableOf(Added(db, writable, k, implementation, value), k);
    AddedLines(db, writable, k, implementation, value);
    NewRowParts(implementation, value);
    assert t[|t| - 1] == NewRow(implementation, value);
  }

  /** Saving the same pair twice saves it once, for a pair without line feeds
      and a value without trailing whitespace, on a file that ends at a line
      boundary. */
  lemma AddedIdempotent(db: Database, writable: set<Kind>, k: Kind, implementation: string, value: string)
    requires !EndsTrimmable(value) && '\n' !in implementation && '\n' !in value
    requires k in db ==> Terminated(db[k])
    ensures var once := Added(db, writable, k, implementation, value);
      Added(once, writable, k, implementation, value) == once
  {
    if Appends(db, writable, k, implementation, value) {
      AddedRecords(db, writable, k, implementation, value);
    }
  }

  /** A file whose only line lacks its line feed (`Alpha;x`, say): the
      appended text joins that line, so the label stored there is no longer
      read, the pair is not recorded, and the next save of the same pair
      appends again. */
  lemma UnterminatedFileJoinsLines(db: Database, writable: set<Kind>, k: Kind, implementation: string, value: string)
    requires Appends(db, writable, k, implementation, value) && !EndsTrimmable(value)
    requires db[k] != "" && '\n' !in db[k] && '\n' !in implementation && '\n' !in value
    ensures var once := Added(db, writable, k, implementation, value);
      TableOf(once, k) == [db[k] + NewRow(implementation, value)] &&
      !Recorded(TableOf(once, k), implementation, value) &&
      Added(once, writable, k, implementation, value) != once
  {
    var last, pair := db[k], implementation + ";" + value;
    var once := Added(db, writable, k, implementation, value);
    assert once[k] == (last + pair) + "\n";
    FileLinesOfLine(last + pair);
    var t := TableOf(once, k);
    assert !Recorded(t, implementation, value) by {
      assert !EndsTrimmable(last + pair) by {
        assert (last + pair)[|last + pair| - 1] == value[|value| - 1];
      }
      RTrimNewline(last + pair);
    }
    assert |Added(once, writable, k, implementation, value)[k]| > |once[k]|;
  }

  /** An implementation holding a line feed (`A` and `B` on two lines, say):
      the written text reads back as two lines, the first of them a blank
      row, the pair is not recorded, and the next save of the same pair
      appends again. */
  lemma LineFeedSplitsRow(db: Database, writable: set<Kind>, k: Kind, first: string, second: string, value: string)
    requires Appends(db, writable, k, first + "\n" + second, value) && Terminated(db[k])
    requires ';' !in first && '\n' !in first && '\n' !in second && '\n' !in value
    ensures var once := Added(db, writable, k, first + "\n" + second, value);
      TableOf(once, k) == TableOf(db, k) + [first + "\n", second + ";" + value + "\n"] &&
      RowValue(first + "\n") == "" &&
      !Recorded(TableOf(once, k), first + "\n" + second, value) &&
      Added(once, writable, k, first + "\n" + second, value) != once
  {
    var implementation := first + "\n" + second;
    var line1, line2 := first + "\n", second + ";" + value + "\n";
    var once := Added(db, writable, k, implementation, value);
    assert once[k] == db[k] + (line1 + line2) by {
      assert NewRow(implementation, value) == line1 + line2;
    }
    SplitRowLines(db[k], first, second + ";" + value);
    RowWhole(line1);
    SplitRowNotRecorded(TableOf(db, k), first, second, value);
    assert |Added(once, writable, k, implementation, value)[k]| > |once[k]|;
  }

  /** The lines of a terminated text followed by two lines. */
  lemma SplitRowLines(text: string, first: string, rest: string)
    requires Terminated(text) && '\n' !in first && '\n' !in rest
    ensures FileLines(text + ((first + "\n") + (rest + "\n"))) ==
      FileLines(text) + [first + "\n", rest + "\n"]
  {
    var line1, line2 := first + "\n", rest + "\n";
    calc {
      FileLines(text + (line1 + line2));
      { FileLinesAppend(text, line1 + line2); }
      FileLines(text) + FileLines(line1 + line2);
      { FileLinesAppend(line1, line2); }
      FileLines(text) + (FileLines(line1) + FileLines(line2));
      { FileLinesOfLine(first); FileLinesOfLine(rest); }
      FileLines(text) + [line1, line2];
    }
  }

  /** Neither line of a split row trims back to the pair that was written. */
  lemma SplitRowNotRecorded(before: Table, first: string, second: string, value: string)
    requires !Recorded(before, first + "\n" + second, value)
    ensures !Recorded(before + [first + "\n", second + ";" + value + "\n"], first + "\n" + second, value)
  {
    var pair := (first + "\n" + second) + ";" + value;
    var line1, line2 := first + "\n", second + ";" + value + "\n";
    var t := before + [line1, line2];
    assert RTrim(line2) != line2 by {
      assert EndsTrimmable(line2);
    }
    assert |pair| > |line1| && |pair| >= |line2|;
    forall i | 0 <= i < |t|
      ensures RTrim(t[i]) != pair
    {
      if i < |before| {
        assert t[i] == before[i];
      } else if i == |before| {
        assert t[i] == line1;
      } else {
        assert t[i] == line2;
      }
    }
  }

  /** A value with trailing whitespace is never recorded: every line trims to
      a text without it. So each save of such a value appends another line. */
  lemma TrailingSpaceNeverRecorded(t: Table, implementation: string, value: string)
    requires EndsTrimmable(value)
    ensures !Recorded(t, implementation, value)
  {
    var pair := implementation + ";" + value;
    assert EndsTrimmable(pair) by {
      assert pair[|pair| - 1] == value[|value| - 1];
    }
    forall i | 0 <= i < |t|
      ensures RTrim(t[i]) != pair
    {
      assert !EndsTrimmable(RTrim(t[i]));
    }
  }

  /** The header-order value of a non-empty request ends in a space, so every
      save of it appends one more line to a writable header-order file. */
  lemma OrderRowAlwaysAppended(db: Database, writable: set<Kind>, h: HeaderList, implementation: string)
    requires h != [] && implementation != ""
    requires HeaderOrder in db && HeaderOrder in writable
    ensures var after := Added(db, writable, HeaderOrder, implementation, OrderSignal(h));
      after[HeaderOrder] == db[HeaderOrder] + NewRow(implementation, OrderSignal(h))
  {
    OrderSignalEndsTrimmable(h);
    TrailingSpaceNeverRecorded(TableOf(db, HeaderOrder), implementation, OrderSignal(h));
  }

  /** A new row added to a table without blank rows that does not record
      its pair keeps the table free of blank rows and of repeated rows. */
  lemma NewRowKeepsTable(t: Table, implementation: string, value: string)
    requires NoBlankRows(t) && !Recorded(t, implementation, value)
    requires value != "" && !EndsTrimmable(value)
    ensures NoBlankRows(t + [NewRow(implementation, value)])
    ensures DuplicateFree(t) ==> DuplicateFree(t + [NewRow(implementation, value)])
  {
    var row := NewRow(implementation, value);
    var t' := t + [row];
    NewRowParts(implementation, value);
    forall i | 0 <= i < |t|
      ensures RowLabel(t[i]) != RowLabel(row) || RowValue(t[i]) != RowValue(row)
    {
      if ';' in t[i] && RowValue(t[i]) != "" {
        RowTrim(t[i]);
        assert RTrim(t[i]) != implementation + ";" + value;
      } else if ';' !in t[i] {
        RowParts(t[i]);
      }
    }
    forall i | 0 <= i < |t'|
      ensures RowValue(t'[i]) != ""
    {
      if i < |t| {
        assert t'[i] == t[i];
      }
    }
    if DuplicateFree(t) {
      forall i, j | 0 <= i < j < |t'|
        ensures RowLabel(t'[i]) != RowLabel(t'[j]) || RowValue(t'[i]) != RowValue(t'[j])
      {
        assert t'[i] == t[i];
        if j < |t| {
          assert t'[j] == t[j];
        }
      }
    }
  }

  /** Appending keeps the files well-formed and ending at a line boundary,
      for a pair without line feeds and a value without trailing whitespace:
      the new line is not blank, and a line with the same label and value
      would already have been recorded. */
  lemma AddedKeepsWellFormed(db: Database, writable: set<Kind>, k: Kind, implementation: string, value: string)
    requires WellFormed(db) && !EndsTrimmable(value)
    requires '\n' !in implementation && '\n' !in value
    requires k in db ==> Terminated(db[k])
    ensures WellFormed(Added(db, writable, k, implementation, value))
    ensures k in db ==> Terminated(Added(db, writable, k, implementation, value)[k])
  {
    var after := Added(db, writable, k, implementation, value);
    if Appends(db, writable, k, implementation, value) {
      AddedLines(db, writable, k, implementation, value);
      NewRowKeepsTable(TableOf(db, k), implementation, value);
      forall k2
        ensures NoBlankRows(TableOf(after, k2))
        ensures k2 != HeaderOrder ==> DuplicateFree(TableOf(after, k2))
      {
        if k2 != k {
          assert TableOf(after, k2) == TableOf(db, k2);
        }
      }
    }
  }
}
