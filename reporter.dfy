/** The reporter, `announceFingerprintMatches`: it reads the statistics text
    back line by line, picks the best hit, and renders one of four outputs
    depending on the mode. */
module Reporter {
  import opened PhpStrings

  // ---------------------------------------------------------------- parsing

  /** One statistics line split at its first `=`: the name and the count
      text (`""` for PHP's `null` when the line has no `=`). */
  datatype Entry = Entry(name: string, count: string)

  function ParseLine(line: string): (e: Entry)
    ensures '=' !in e.name
    ensures '=' !in line ==> e == Entry(line, "")
  {
    var p := SplitFirst(line, '=');
    Entry(p.0, if p.1.Some? then p.1.value else "")
  }

  /** Parsing reads back a line built from a name without `=`. */
  lemma ParseLineOf(name: string, count: string)
    requires '=' !in name
    ensures ParseLine(name + "=" + count) == Entry(name, count)
  {
    SplitFirstAt(name, '=', count);
    assert name + "=" + count == name + ['='] + count;
  }

  /** The entries whose name is not empty (`strlen($matchName)`), in order. */
  function NamedEntries(lines: seq<string>): (es: seq<Entry>)
    ensures |es| <= |lines|
    ensures forall i :: 0 <= i < |es| ==> es[i].name != ""
  {
    if lines == [] then []
    else
      var e := ParseLine(lines[|lines| - 1]);
      NamedEntries(lines[..|lines| - 1]) + (if e.name != "" then [e] else [])
  }

  lemma NamedEntriesSnoc(lines: seq<string>, line: string)
    ensures NamedEntries(lines + [line]) ==
      NamedEntries(lines) + (if ParseLine(line).name != "" then [ParseLine(line)] else [])
  {
    assert (lines + [line])[..|lines|] == lines;
  }

  lemma NamedEntriesStep(lines: seq<string>, i: nat)
    requires i < |lines|
    ensures NamedEntries(lines[..i + 1]) ==
      NamedEntries(lines[..i]) + (if ParseLine(lines[i]).name != "" then [ParseLine(lines[i])] else [])
  {
    assert lines[..i + 1] == lines[..i] + [lines[i]];
    NamedEntriesSnoc(lines[..i], lines[i]);
  }

  /** The entries of a statistics text, one per line with a name. */
  function Entries(stats: string): seq<Entry>
  {
    NamedEntries(Explode(stats, '\n'))
  }

  // ---------------------------------------------------------------- best hit

  /** The rank `$bestHitCount < $matchCount` gives a count text: `null` and
      the empty text below every number, any other text by the number its
      leading digits spell. */
  function Score(count: string): (s: int)
    ensures s >= -1
    ensures s == -1 <==> count == ""
  {
    if count == "" then -1 else CountValue(count)
  }

  /** `$bestHitCount < $matchCount`, with `""` standing for `null`. */
  predicate CountLess(best: string, count: string)
  {
    Score(best) < Score(count)
  }

  /** The scores of the count texts, entry by entry. */
  function Scores(es: seq<Entry>): (sc: seq<int>)
    ensures |sc| == |es|
    ensures forall i :: 0 <= i < |es| ==> sc[i] == Score(es[i].count)
  {
    seq(|es|, i requires 0 <= i < |es| => Score(es[i].count))
  }

  /** The index of the best score among the first `n`: the first one above
      every earlier one, so a later equal score never replaces it; -1 when
      none is above -1, the score of `null`. */
  function BestOf(sc: seq<int>, n: nat): (k: int)
    requires n <= |sc|
    ensures -1 <= k < n
    ensures k == -1 <==> forall i :: 0 <= i < n ==> sc[i] <= -1
    ensures 0 <= k ==> forall i :: 0 <= i < n ==> sc[i] <= sc[k]
    ensures 0 <= k ==> forall i :: 0 <= i < k ==> sc[i] < sc[k]
  {
    if n == 0 then -1
    else
      var k' := BestOf(sc, n - 1);
      var top := if k' < 0 then -1 else sc[k'];
      if top < sc[n - 1] then n - 1 else k'
  }

  /** The best score depends only on the scores read so far. */
  lemma {:induction false} BestOfPrefix(sc: seq<int>, x: int, n: nat)
    requires n <= |sc|
    ensures BestOf(sc + [x], n) == BestOf(sc, n)
  {
    if n > 0 {
      BestOfPrefix(sc, x, n - 1);
      assert (sc + [x])[n - 1] == sc[n - 1];
      var k' := BestOf(sc, n - 1);
      if k' >= 0 {
        assert (sc + [x])[k'] == sc[k'];
      }
    }
  }

  /** The index of the best hit: the first entry whose count beats every
      earlier one (`$bestHitCount < $matchCount`), so a later equal count
      never replaces it; -1 when no entry beats `null`. */
  function BestIndex(es: seq<Entry>): (k: int)
    ensures -1 <= k < |es|
    ensures k == -1 <==> forall i :: 0 <= i < |es| ==> es[i].count == ""
    ensures 0 <= k ==> forall i :: 0 <= i < |es| ==> Score(es[i].count) <= Score(es[k].count)
    ensures 0 <= k ==> forall i :: 0 <= i < k ==> Score(es[i].count) < Score(es[k].count)
  {
    BestOf(Scores(es), |es|)
  }

  /** `$bestHitName` after the loop (`null`, that is `""`, without a best). */
  function BestName(es: seq<Entry>): string
  {
    var k := BestIndex(es);
    if k < 0 then "" else es[k].name
  }

  /** `$bestHitCount` after the loop (`""` for `null`). */
  function BestCount(es: seq<Entry>): string
  {
    var k := BestIndex(es);
    if k < 0 then "" else es[k].count
  }

  lemma BestSnoc(es: seq<Entry>, e: Entry)
    ensures BestIndex(es + [e]) == (if CountLess(BestCount(es), e.count) then |es| else BestIndex(es))
  {
    var sc := Scores(es);
    assert Scores(es + [e]) == sc + [Score(e.count)];
    BestOfPrefix(sc, Score(e.count), |es|);
  }

  // ---------------------------------------------------------------- list mode

  /** `$resultList`: a `name: count<br>\n` line per entry, in statistics
      order; the name is not escaped. */
  function ListText(es: seq<Entry>): string
  {
    if es == [] then ""
    else
      var e := es[|es| - 1];
      ListText(es[..|es| - 1]) + e.name + ": " + e.count + "<br>\n"
  }

  lemma ListTextSnoc(es: seq<Entry>, e: Entry)
    ensures ListText(es + [e]) == ListText(es) + e.name + ": " + e.count + "<br>\n"
  {
    assert (es + [e])[..|es|] == es;
  }

  // ---------------------------------------------------------------- besthitlist

  /** One element of `$resultArray`: the count, `;`, the escaped name. */
  function ResultItem(e: Entry): string
  {
    e.count + ";" + HtmlEscape(e.name)
  }

  /** `$resultArray` before sorting, one element per entry: an element reads
      back as its entry's count and, when the count text holds no `;`, its
      name unescapes to the entry's name. */
  function ResultArray(es: seq<Entry>): (a: seq<string>)
    ensures |a| == |es|
    ensures forall i :: 0 <= i < |es| ==> CountValue(ItemCount(a[i])) == CountValue(es[i].count)
    ensures forall i :: 0 <= i < |es| && ';' !in es[i].count ==> HtmlUnescape(ItemName(a[i])) == es[i].name
  {
    var a := seq(|es|, i requires 0 <= i < |es| => ResultItem(es[i]));
    assert forall i :: 0 <= i < |es| ==> CountValue(ItemCount(a[i])) == CountValue(es[i].count) by {
      forall i | 0 <= i < |es|
        ensures CountValue(ItemCount(ResultItem(es[i]))) == CountValue(es[i].count)
      {
        ItemCountOfResult(es[i]);
      }
    }
    assert forall i :: 0 <= i < |es| && ';' !in es[i].count ==> HtmlUnescape(ItemName(a[i])) == es[i].name by {
      forall i | 0 <= i < |es| && ';' !in es[i].count
        ensures HtmlUnescape(ItemName(ResultItem(es[i]))) == es[i].name
      {
        ItemNameOfResult(es[i]);
      }
    }
    a
  }

  /** An element's name is its entry's name, escaped, when the count text
      holds no `;`. */
  lemma ItemNameOfResult(e: Entry)
    requires ';' !in e.count
    ensures HtmlUnescape(ItemName(ResultItem(e))) == e.name
  {
    SplitFirstAt(e.count, ';', HtmlEscape(e.name));
    assert ResultItem(e) == e.count + [';'] + HtmlEscape(e.name);
    HtmlUnescapeEscape(e.name);
  }

  lemma ResultArraySnoc(es: seq<Entry>, e: Entry)
    ensures ResultArray(es + [e]) == ResultArray(es) + [ResultItem(e)]
  {
  }

  /** Descending byte-wise order, the order `rsort` leaves string elements in. */
  predicate SortedDesc(a: seq<string>)
  {
    forall i, j :: 0 <= i < j < |a| ==> !StrLess(a[i], a[j])
  }

  /** A sorted sequence with an element in front that sorts below none of it
      is still sorted. */
  lemma ConsSorted(h: string, t: seq<string>)
    requires SortedDesc(t)
    requires forall j :: 0 <= j < |t| ==> !StrLess(h, t[j])
    ensures SortedDesc([h] + t)
  {
    var a := [h] + t;
    forall i, j | 0 <= i < j < |a|
      ensures !StrLess(a[i], a[j])
    {
      assert a[j] == t[j - 1];
      if i > 0 {
        assert a[i] == t[i - 1];
      }
    }
  }

  /** What sorts below none of the head of a sorted sequence sorts below none
      of its elements. */
  lemma AboveHeadAboveAll(x: string, a: seq<string>)
    requires SortedDesc(a) && a != [] && !StrLess(x, a[0])
    ensures forall j :: 0 <= j < |a| ==> !StrLess(x, a[j])
  {
    forall j | 0 < j < |a|
      ensures !StrLess(x, a[j])
    {
      if StrLess(x, a[j]) {
        StrLessTotal(a[0], a[j]);
        if StrLess(a[0], a[j]) {
        } else if a[0] == a[j] {
        } else {
          StrLessTransitive(x, a[j], a[0]);
        }
      }
    }
  }

  /** A bound on every element of `a` and on `x` bounds every element of a
      rearrangement of `a` with `x`. */
  lemma AboveAllOfPermutation(h: string, a: seq<string>, x: string, r: seq<string>)
    requires forall j :: 0 <= j < |a| ==> !StrLess(h, a[j])
    requires !StrLess(h, x)
    requires multiset(r) == multiset(a) + multiset{x}
    ensures forall j :: 0 <= j < |r| ==> !StrLess(h, r[j])
  {
    forall j | 0 <= j < |r|
      ensures !StrLess(h, r[j])
    {
      assert r[j] in multiset(r);
      if r[j] != x {
        assert r[j] in multiset(a);
      }
    }
  }

  /** `x` put in front of the first element it does not sort below. */
  function Insert(x: string, a: seq<string>): (r: seq<string>)
    requires SortedDesc(a)
    ensures SortedDesc(r)
    ensures multiset(r) == multiset(a) + multiset{x}
  {
    if a == [] then [x]
    else if !StrLess(x, a[0]) then
      AboveHeadAboveAll(x, a);
      ConsSorted(x, a);
      [x] + a
    else
      var t := a[1..];
      assert SortedDesc(t) && a == [a[0]] + t;
      var r' := Insert(x, t);
      StrLessAsymmetric(x, a[0]);
      assert forall j :: 0 <= j < |t| ==> !StrLess(a[0], t[j]) by {
        forall j | 0 <= j < |t| ensures !StrLess(a[0], t[j]) { assert t[j] == a[j + 1]; }
      }
      AboveAllOfPermutation(a[0], t, x, r');
      ConsSorted(a[0], r');
      [a[0]] + r'
  }

  /** `rsort($resultArray)` on strings: the elements, sorted descending. */
  function RSort(a: seq<string>): (r: seq<string>)
    ensures SortedDesc(r)
    ensures multiset(r) == multiset(a)
  {
    if a == [] then []
    else
      assert a == [a[0]] + a[1..];
      Insert(a[0], RSort(a[1..]))
  }

  /** Two descending arrangements of the same elements start alike. */
  lemma SortedDescSameHead(a: seq<string>, b: seq<string>)
    requires SortedDesc(a) && SortedDesc(b)
    requires multiset(a) == multiset(b) && a != []
    ensures b != [] && a[0] == b[0]
  {
    assert a[0] in multiset(b);
    assert b[0] in multiset(a);
    var i :| 0 <= i < |b| && b[i] == a[0];
    var j :| 0 <= j < |a| && a[j] == b[0];
    assert !StrLess(b[0], a[0]) by {
      if i == 0 {
        StrLessIrreflexive(a[0]);
      }
    }
    assert !StrLess(a[0], b[0]) by {
      if j == 0 {
        StrLessIrreflexive(b[0]);
      }
    }
    StrLessTotal(a[0], b[0]);
  }

  /** Equal multisets with the same first element have equal tails. */
  lemma SameTail(a: seq<string>, b: seq<string>)
    requires a != [] && b != [] && a[0] == b[0]
    requires multiset(a) == multiset(b)
    ensures multiset(a[1..]) == multiset(b[1..])
  {
    assert a == [a[0]] + a[1..] && b == [b[0]] + b[1..];
    calc {
      multiset(a[1..]);
      multiset(a) - multiset{a[0]};
      multiset(b) - multiset{b[0]};
      multiset(b[1..]);
    }
  }

  /** Any two descending arrangements of the same elements are equal, so
      `RSort` is the order `rsort` produces whatever its algorithm. */
  lemma {:induction false} SortedDescUnique(a: seq<string>, b: seq<string>)
    requires SortedDesc(a) && SortedDesc(b)
    requires multiset(a) == multiset(b)
    ensures a == b
  {
    if a == [] {
      assert |b| == |multiset(b)| == 0;
    } else {
      SortedDescSameHead(a, b);
      SameTail(a, b);
      assert SortedDesc(a[1..]) && SortedDesc(b[1..]);
      SortedDescUnique(a[1..], b[1..]);
      assert a == [a[0]] + a[1..] && b == [b[0]] + b[1..];
    }
  }

  /** `round((100 / d) * c, 2)` in hundredths, with exact arithmetic: the
      nearest hundredth to 100c/d, halves rounded up. */
  function Hundredths(c: nat, d: nat): (h: nat)
    requires d > 0
    ensures 2 * d * h <= 20000 * c + d < 2 * d * h + 2 * d
  {
    (20000 * c + d) / (2 * d)
  }

  lemma MulCancelLe(d: nat, x: nat, y: nat)
    requires d > 0 && d * x <= d * y
    ensures x <= y
  {
  }

  lemma MulCancelLt(d: nat, x: nat, y: nat)
    requires d > 0 && d * x < d * y
    ensures x < y
  {
  }

  /** A hit count no greater than its divisor is at most 100 %, and equal to
      it exactly 100 %. */
  lemma HundredthsAtMostWhole(c: nat, d: nat)
    requires 0 < d && c <= d
    ensures Hundredths(c, d) <= 10000
    ensures c == d ==> Hundredths(c, d) == 10000
  {
    var h := Hundredths(c, d);
    assert 2 * d * h == d * (2 * h);
    assert 20000 * c + d <= d * 20001;
    MulCancelLe(d, 2 * h, 20001);
    if c == d {
      assert 2 * d * h + 2 * d == d * (2 * h + 2);
      MulCancelLt(d, 20001, 2 * h + 2);
    }
  }

  /** PHP's echo of a float holding a whole number of hundredths: the whole
      part, then `.` and one or two digits only when the fraction is not 0,
      without a trailing zero. */
  function DecimalText(h: nat): (s: string)
    ensures NatToString(h / 100) <= s
    ensures s == NatToString(h / 100) <==> h % 100 == 0
  {
    var frac := h % 100;
    NatToString(h / 100) +
      (if frac == 0 then ""
       else if frac % 10 == 0 then ['.', DigitChar(frac / 10)]
       else ['.', DigitChar(frac / 10), DigitChar(frac % 10)])
  }

  /** Reading a decimal text back into hundredths. */
  function DecimalValue(s: string): int
  {
    var p := SplitFirst(s, '.');
    var whole := CountValue(p.0);
    if p.1.None? then 100 * whole
    else if |p.1.value| == 1 then 100 * whole + 10 * CountValue(p.1.value)
    else 100 * whole + CountValue(p.1.value)
  }

  /** A text without `.` reads as that many whole units. */
  lemma DecimalValueWhole(w: string)
    requires '.' !in w
    ensures DecimalValue(w) == 100 * CountValue(w)
  {
    assert SplitFirst(w, '.').1.None?;
  }

  /** A text with a `.` reads as its whole part, then tenths or hundredths. */
  lemma DecimalValueFraction(w: string, t: string)
    requires '.' !in w
    ensures DecimalValue(w + ['.'] + t) ==
      100 * CountValue(w) + (if |t| == 1 then 10 * CountValue(t) else CountValue(t))
  {
    SplitFirstAt(w, '.', t);
  }

  /** Two digits read as their two-digit number. */
  lemma CountValueOfTwoDigits(a: nat, b: nat)
    requires a < 10 && b < 10
    ensures CountValue([DigitChar(a), DigitChar(b)]) == 10 * a + b
  {
    var t := [DigitChar(a), DigitChar(b)];
    LeadingDigitsOfDigits(t);
    assert t[..1][..0] == [];
    assert DigitsValue(t[..1]) == a;
    assert DigitsValue(t) == DigitsValue(t[..1]) * 10 + b;
  }

  /** The fraction part of a decimal text: nothing for no fraction, else
      `.` and its tenths, and its hundredths when not 0. */
  lemma FractionValue(w: string, frac: nat)
    requires '.' !in w && frac < 100
    ensures var t := if frac == 0 then "" else if frac % 10 == 0 then ['.', DigitChar(frac / 10)]
        else ['.', DigitChar(frac / 10), DigitChar(frac % 10)];
      DecimalValue(w + t) == 100 * CountValue(w) + frac
  {
    if frac == 0 {
      assert w + "" == w;
      DecimalValueWhole(w);
    } else if frac % 10 == 0 {
      var t := [DigitChar(frac / 10)];
      assert w + ['.', DigitChar(frac / 10)] == w + ['.'] + t;
      DecimalValueFraction(w, t);
      CountValueOfNatToString(frac / 10);
    } else {
      var t := [DigitChar(frac / 10), DigitChar(frac % 10)];
      assert w + ['.', DigitChar(frac / 10), DigitChar(frac % 10)] == w + ['.'] + t;
      DecimalValueFraction(w, t);
      CountValueOfTwoDigits(frac / 10, frac % 10);
    }
  }

  /** The rendering loses nothing: it reads back as the same hundredths. */
  lemma DecimalTextValue(h: nat)
    ensures DecimalValue(DecimalText(h)) == h
  {
    var w := NatToString(h / 100);
    CountValueOfNatToString(h / 100);
    assert '.' !in w by {
      forall i | 0 <= i < |w|
        ensures w[i] != '.'
      {
        assert IsDigit(w[i]);
      }
    }
    FractionValue(w, h % 100);
  }

  /** The accuracy text of `c` hits out of `d`. */
  function AccuracyText(c: nat, d: nat): string
    requires d > 0
  {
    DecimalText(Hundredths(c, d))
  }

  /** The count text of an element of the sorted result array: the text
      before its first `;`. */
  function ItemCount(item: string): string
  {
    SplitFirst(item, ';').0
  }

  /** The text after the first `;` of an element (`null`, `""`, without one). */
  function ItemName(item: string): string
  {
    var p := SplitFirst(item, ';');
    if p.1.Some? then p.1.value else ""
  }

  /** Every element's count is at most `best`: the divisor the top-ten list
      falls back on when there are no hit possibilities. */
  predicate BoundedBy(sorted: seq<string>, best: nat)
  {
    forall j :: 0 <= j < |sorted| ==> CountValue(ItemCount(sorted[j])) <= best
  }

  /** A ranked row of the top-ten list, before its separator. */
  function RankedRow(rank: nat, name: string, accuracy: string, count: string): (r: string)
    ensures NatToString(rank) + ". " <= r
    ensures |r| >= 5 && r[|r| - 5..] == "hits)"
  {
    var head := NatToString(rank) + ". ";
    var tail := name + " (" + accuracy + "% with " + count + " hits)";
    assert tail[|tail| - 5..] == "hits)";
    assert (head + tail)[..|head|] == head;
    head + tail
  }

  /** `$resultArray[$i]`: `null`, that is `""`, past the end. */
  function ItemAt(sorted: seq<string>, i: nat): string
  {
    if i < |sorted| then sorted[i] else ""
  }

  /** Row `i` of the top-ten list, from element `item`: written out only when
      its count is above 0, ranked `i + 1`, its accuracy taken against the hit
      possibilities or, when there are none, against the best count, and
      followed by `<br>\n` unless it is the tenth. */
  function HitRow(item: string, i: nat, hp: nat, best: nat): (r: string)
    requires hp > 0 || CountValue(ItemCount(item)) <= best
    ensures r != "" <==> CountValue(ItemCount(item)) > 0
    ensures r != "" ==> NatToString(i + 1) + ". " <= r
    ensures r != "" && i < 9 ==> |r| >= 5 && r[|r| - 5..] == "<br>\n"
    ensures r != "" && i >= 9 ==> |r| >= 5 && r[|r| - 5..] == "hits)"
    ensures r != "" ==> var c := CountValue(ItemCount(item));
      RankedRow(i + 1, ItemName(item), AccuracyText(c, if hp > 0 then hp else best), ItemCount(item)) <= r
  {
    var c := CountValue(ItemCount(item));
    if c > 0 then
      var accuracy := if hp > 0 then AccuracyText(c, hp) else AccuracyText(c, best);
      var row := RankedRow(i + 1, ItemName(item), accuracy, ItemCount(item));
      if i < 9 then
        assert (row + "<br>\n")[..|row|] == row;
        row + "<br>\n"
      else row
    else
      ""
  }

  /** An element past the end of the array gives no row. */
  lemma HitRowPastEnd(sorted: seq<string>, i: nat, hp: nat, best: nat)
    requires |sorted| <= i
    ensures HitRow(ItemAt(sorted, i), i, hp, best) == ""
  {
    assert SplitFirst("", ';').0 == "";
  }

  /** The first `n` rows of the top-ten list. */
  function HitRows(sorted: seq<string>, hp: nat, best: nat, n: nat): string
    requires hp > 0 || BoundedBy(sorted, best)
  {
    if n == 0 then ""
    else
      var item := ItemAt(sorted, n - 1);
      assert hp > 0 || CountValue(ItemCount(item)) <= best by {
        if n - 1 >= |sorted| {
          assert ItemCount(item) == "";
        }
      }
      HitRows(sorted, hp, best, n - 1) + HitRow(item, n - 1, hp, best)
  }

  /** `HitRows` one row at a time. */
  lemma HitRowsUnfold(sorted: seq<string>, hp: nat, best: nat, n: nat)
    requires hp > 0 || BoundedBy(sorted, best)
    requires n > 0
    ensures hp > 0 || CountValue(ItemCount(ItemAt(sorted, n - 1))) <= best
    ensures HitRows(sorted, hp, best, n) ==
      HitRows(sorted, hp, best, n - 1) + HitRow(ItemAt(sorted, n - 1), n - 1, hp, best)
  {
    if n - 1 >= |sorted| {
      assert ItemCount(ItemAt(sorted, n - 1)) == "";
    }
  }

  /** Only the first ten elements of the sorted array can show up. */
  lemma {:induction false} HitRowsTopTen(sorted: seq<string>, hp: nat, best: nat, n: nat)
    requires hp > 0 || BoundedBy(sorted, best)
    requires 10 < |sorted| && n <= 10
    ensures BoundedBy(sorted[..10], best) || hp > 0
    ensures HitRows(sorted, hp, best, n) == HitRows(sorted[..10], hp, best, n)
  {
    var top := sorted[..10];
    assert BoundedBy(top, best) || hp > 0 by {
      if hp == 0 {
        forall j | 0 <= j < |top| ensures CountValue(ItemCount(top[j])) <= best {
          assert top[j] == sorted[j];
        }
      }
    }
    if n > 0 {
      HitRowsTopTen(sorted, hp, best, n - 1);
      assert top[n - 1] == sorted[n - 1];
      HitRowsUnfold(sorted, hp, best, n);
      HitRowsUnfold(top, hp, best, n);
    }
  }

  // ---------------------------------------------------------------- besthitdetail

  /** The detail line: best name, accuracy against the hit possibilities
      (100 when there are none) and the best count. */
  function Detail(name: string, count: string, hp: nat): (r: string)
    ensures hp == 0 ==> r == name + " (100% with " + count + " hits)"
    ensures hp > 0 ==> r == name + " (" + AccuracyText(CountValue(count), hp) + "% with " + count + " hits)"
  {
    var accuracy := if hp > 0 then AccuracyText(CountValue(count), hp) else "100";
    name + " (" + accuracy + "% with " + count + " hits)"
  }

  /** A best hit that matched on every possibility reads as 100 %. */
  lemma DetailFullMatch(name: string, count: string, hp: nat)
    requires hp > 0 && CountValue(count) == hp
    ensures Detail(name, count, hp) == name + " (100% with " + count + " hits)"
  {
    HundredthsAtMostWhole(hp, hp);
    assert AccuracyText(hp, hp) == "100" by {
      assert NatToString(100) == "100" by {
        assert NatToString(10) == "10";
      }
      assert DecimalText(10000) == NatToString(100);
    }
  }

  // ---------------------------------------------------------------- announceFingerprintMatches

  /** Reading the count before the first `;` of a result element gives the
      entry's own count. */
  lemma ItemCountOfResult(e: Entry)
    ensures CountValue(ItemCount(ResultItem(e))) == CountValue(e.count)
  {
    var rest := ";" + HtmlEscape(e.name);
    assert ResultItem(e) == e.count + rest;
    assert rest != [] && !IsDigit(rest[0]) by { assert rest[0] == ';'; }
    calc {
      CountValue(ItemCount(ResultItem(e)));
      { CountValueBeforeSemicolon(e.count + rest); }
      CountValue(e.count + rest);
      DigitsValue(LeadingDigits(e.count + rest));
      { LeadingDigitsStop(e.count, rest); }
      DigitsValue(LeadingDigits(e.count));
    }
  }

  /** The best count bounds every element of the sorted result array, so the
      fallback divisor is never 0 for a row that is written out. */
  lemma ResultBoundedByBest(es: seq<Entry>)
    ensures BoundedBy(RSort(ResultArray(es)), CountValue(BestCount(es)))
  {
    var a := ResultArray(es);
    var sorted := RSort(a);
    forall j | 0 <= j < |sorted|
      ensures CountValue(ItemCount(sorted[j])) <= CountValue(BestCount(es))
    {
      assert sorted[j] in multiset(a);
      var i :| 0 <= i < |a| && a[i] == sorted[j];
      EntryBelowBest(es, i);
    }
  }

  /** No entry's count exceeds the best count. */
  lemma EntryBelowBest(es: seq<Entry>, i: int)
    requires 0 <= i < |es|
    ensures CountValue(es[i].count) <= CountValue(BestCount(es))
  {
    var k := BestIndex(es);
    if es[i].count != "" {
      assert Score(es[i].count) <= Score(es[k].count);
    }
  }

  /** What `announceFingerprintMatches($fullMatchList, $mode, $hitPossibilities)`
      returns. */
  function Announce(stats: string, mode: string, hp: nat): string
  {
    var es := Entries(stats);
    if mode == "list" then ListText(es)
    else if mode == "besthitlist" then
      ResultBoundedByBest(es);
      HitRows(RSort(ResultArray(es)), hp, CountValue(BestCount(es)), 10)
    else if mode == "besthitdetail" then Detail(BestName(es), BestCount(es), hp)
    else BestName(es)
  }

  /** The `for ($i = 0; $i < 10; ++$i)` loop of the `besthitlist` branch. */
  method ListTopTen(sorted: seq<string>, hitPossibilities: nat, best: nat) returns (hitList: string)
    requires hitPossibilities > 0 || BoundedBy(sorted, best)
    ensures hitList == HitRows(sorted, hitPossibilities, best, 10)
  {
    hitList := "";
    for i := 0 to 10
      invariant hitList == HitRows(sorted, hitPossibilities, best, i)
    {
      var item := if i < |sorted| then sorted[i] else "";
      var scan := SplitFirst(item, ';');
      var count := CountValue(scan.0);
      if count > 0 {
        var accuracy := if hitPossibilities > 0 then AccuracyText(count, hitPossibilities)
          else AccuracyText(count, best);
        var name := if scan.1.Some? then scan.1.value else "";
        var row := RankedRow(i + 1, name, accuracy, scan.0);
        if i < 9 {
          row := row + "<br>\n";
        }
        hitList := hitList + row;
      }
    }
  }

  /** An empty statistics text (no match at all) gives an empty answer in
      every mode but `besthitdetail`, which still prints its frame around the
      missing name and count. */
  lemma AnnounceNoMatches(mode: string, hp: nat)
    ensures mode != "besthitdetail" ==> Announce("", mode, hp) == ""
    ensures mode == "besthitdetail" ==>
      Announce("", mode, hp) == (if hp > 0 then " (0% with  hits)" else " (100% with  hits)")
  {
    EntriesOfNothing();
    if mode == "besthitlist" {
      assert RSort(ResultArray([])) == [];
      HitRowsEmpty(hp, 0, 10);
    } else if mode == "besthitdetail" {
      assert BestName([]) == "" && BestCount([]) == "";
      DetailOfNothing(hp);
    }
  }

  /** The detail line without a best hit: only its frame. */
  lemma DetailOfNothing(hp: nat)
    ensures Detail("", "", hp) == (if hp > 0 then " (0% with  hits)" else " (100% with  hits)")
  {
    if hp > 0 {
      NoHitsIsZeroPercent(hp);
      assert "" + " (" + "0" + "% with " + "" + " hits)" == " (0% with  hits)";
    } else {
      assert "" + " (100% with " + "" + " hits)" == " (100% with  hits)";
    }
  }

  /** The empty statistics text holds no entry. */
  lemma EntriesOfNothing()
    ensures Entries("") == []
  {
    assert SplitFirst("", '\n').1.None?;
    assert Explode("", '\n') == [""];
    assert ParseLine("") == Entry("", "");
    assert [""][..0] == [];
  }

  /** No hit at all reads as 0 %. */
  lemma NoHitsIsZeroPercent(hp: nat)
    requires hp > 0
    ensures AccuracyText(CountValue(""), hp) == "0"
  {
    assert CountValue("") == 0;
    assert Hundredths(0, hp) == 0 by {
      assert 2 * hp * 0 <= 20000 * 0 + hp < 2 * hp * 0 + 2 * hp;
    }
    assert DecimalText(0) == "0";
  }

  lemma {:induction false} HitRowsEmpty(hp: nat, best: nat, n: nat)
    ensures HitRows([], hp, best, n) == ""
  {
    if n > 0 {
      HitRowsEmpty(hp, best, n - 1);
      HitRowPastEnd([], n - 1, hp, best);
    }
  }

  /** The pass of `announceFingerprintMatches` over the statistics lines:
      best hit, list text and result array of the named entries. */
  method ReadStatistics(fullMatchList: string)
    returns (bestHitName: string, bestHitCount: string, resultList: string, resultArray: seq<string>)
    ensures var es := Entries(fullMatchList);
      bestHitName == BestName(es) && bestHitCount == BestCount(es) &&
      resultList == ListText(es) && resultArray == ResultArray(es)
  {
    var headers := Explode(fullMatchList, '\n');
    bestHitName, bestHitCount, resultList, resultArray := "", "", "", [];
    ghost var es: seq<Entry> := [];
    for i := 0 to |headers|
      invariant es == NamedEntries(headers[..i])
      invariant bestHitName == BestName(es) && bestHitCount == BestCount(es)
      invariant resultList == ListText(es)
      invariant resultArray == ResultArray(es)
    {
      var e := ParseLine(headers[i]);
      var matchName, matchCount := e.name, e.count;
      NamedEntriesStep(headers, i);
      if |matchName| > 0 {
        ReadStep(es, e);
        if CountLess(bestHitCount, matchCount) {
          bestHitName := matchName;
          bestHitCount := matchCount;
        }
        resultList := resultList + matchName + ": " + matchCount + "<br>\n";
        resultArray := resultArray + [matchCount + ";" + HtmlEscape(matchName)];
        es := es + [e];
      }
    }
    assert headers[..|headers|] == headers;
  }

  /** One named entry read by the pass: a count beating the best one
      replaces the best hit; the list and the array grow by one. */
  lemma ReadStep(es: seq<Entry>, e: Entry)
    ensures BestName(es + [e]) == (if CountLess(BestCount(es), e.count) then e.name else BestName(es))
    ensures BestCount(es + [e]) == (if CountLess(BestCount(es), e.count) then e.count else BestCount(es))
    ensures ListText(es + [e]) == ListText(es) + e.name + ": " + e.count + "<br>\n"
    ensures ResultArray(es + [e]) == ResultArray(es) + [e.count + ";" + HtmlEscape(e.name)]
  {
    BestSnoc(es, e);
    assert (es + [e])[..|es|] == es;
    ListTextSnoc(es, e);
    ResultArraySnoc(es, e);
  }

  /** `announceFingerprintMatches($fullMatchList, $mode, $hitPossibilities)`:
      one pass over the statistics lines, then the branch on the mode, with a
      ten-step loop for `besthitlist`. */
  method AnnounceFingerprintMatches(fullMatchList: string, mode: string, hitPossibilities: nat)
    returns (r: string)
    ensures r == Announce(fullMatchList, mode, hitPossibilities)
  {
    var bestHitName, bestHitCount, resultList, resultArray := ReadStatistics(fullMatchList);
    ghost var es := Entries(fullMatchList);
    if mode == "list" {
      r := resultList;
    } else if mode == "besthitlist" {
      var sorted := RSort(resultArray);
      var best := CountValue(bestHitCount);
      ResultBoundedByBest(es);
      r := ListTopTen(sorted, hitPossibilities, best);
    } else if mode == "besthitdetail" {
      var accuracy := if hitPossibilities > 0 then AccuracyText(CountValue(bestHitCount), hitPossibilities) else "100";
      r := bestHitName + " (" + accuracy + "% with " + bestHitCount + " hits)";
    } else {
      r := bestHitName;
    }
  }
}
