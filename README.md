# browserRecon fingerprinting engine, modelled in Dafny

browserRecon identifies a web browser from the HTTP headers it sends. The
request's header collection is compared with fourteen reference tables: one
per known header (`User-Agent`, `Accept`, …, `TE`) and one for the order of
the headers. Every table line names an implementation and a header value it
was seen with. The labels found are counted into a statistics text. The
reporter then reads that text back and answers in one of four modes:

- `list`: every label with its count;
- `besthitlist`: a ranked top ten with accuracies;
- `besthitdetail`: the best hit with its accuracy;
- any other mode: the best hit's name alone.

A contributor side appends new `implementation;value` lines to the tables
unless they are already there. A proxy classifier looks for proxy headers in
the raw request text.

The model follows `inc_browserrecon.php` function by function:

- `strings.dfy` (`PhpStrings`): the PHP primitives the engine relies on.
  These are `explode`, `rtrim`, the decimal rendering of numbers and their
  reading back, `htmlspecialchars`, the byte-wise order used by `rsort`, and
  `strpos`/`stripos`.
- `headers.dfy` (`Headers`): the header collection, the header-order signal
  (`getHeaderOrder`) and the hit-possibility count (`countHitPossibilities`).
- `matcher.dfy` (`Matcher`): `findMatchInDatabase`, `combineArrays`,
  `identifyGlobalFingerprint`, and bounds on how often a label can be found.
- `aggregator.dfy` (`Aggregator`): `generateMatchStatistics` and `countif`.
- `reporter.dfy` (`Reporter`): `announceFingerprintMatches`. This covers the
  pass over the statistics lines, the best-hit choice, `rsort` and the
  top-ten loop.
- `store.dfy` (`Store`): `isInDatabase`, `addToDatabase`,
  `saveNewFingerprintToDatabase` and `saveAllFingerprintsToDatabase`, as a
  class whose reference files the methods append to.
- `proxy.dfy` (`Proxy`): `usedproxy` and `identifyProxy`.
- `recon.dfy` (`Recon`): `browserRecon`, plus end-to-end properties of the
  whole pipeline.

Each loop of the source is a method. It is proved equal to a specification
function, and the properties are proved about that function. A header
collection is a sequence of `(name, value)` entries in the order received.
A reference file is its text. A table is the sequence of lines `file()`
reads from that text: it splits after each line feed and keeps it. A
contribution appends text to the file, and the next `file()` splits the
whole text again. The files of one database prefix are a map from signal
kind to text.

Where the code and its documentation disagree, the model follows the code:

- The header order is built from the header *values* (the `foreach` walks
  the array's values). It keeps its trailing `", "` because the result of
  `rtrim` is discarded. A non-empty order therefore never equals a stored,
  right-trimmed table value (`Matcher.OrderSignalNeverMatches`). Each
  contribution appends another header-order line
  (`Store.OrderRowAlwaysAppended`).
- The hit possibilities count the *presence* of header keys, whatever their
  value.
- An absent header is looked up as `null`, which equals `''`. It therefore
  matches every table line whose value trims to nothing
  (`Matcher.AbsentHeaderMatchesBlankRow`).
- `list` mode prints names unescaped; only the `besthitlist` array escapes
  them.

## Model

| member | source | states |
|---|---|---|
| PhpStrings.SplitFirst | inc_browserrecon.php:149 | `explode(sep, s, 2)`: the first part holds no separator; there is a second part exactly when `s` holds the separator; otherwise the first part is all of `s` |
| PhpStrings.SplitFirstJoin | inc_browserrecon.php:149 | the two parts with the separator between them make up the input again |
| PhpStrings.SplitFirstAt | inc_browserrecon.php:204 | splitting `head + sep + tail` with a separator-free head gives back `head` and `tail` |
| PhpStrings.Explode | inc_browserrecon.php:200 | `explode` yields at least one piece, and no piece holds the separator |
| PhpStrings.JoinExplode | inc_browserrecon.php:200 | joining the pieces with the separator gives the text back |
| PhpStrings.ExplodeLines | inc_browserrecon.php:200 | exploding line-feed-terminated lines at `"\n"` gives the lines back, followed by one empty piece |
| PhpStrings.LinesSnoc | inc_browserrecon.php:168 | appending a line appends it and a line feed to the text |
| PhpStrings.ConcatFileLines | inc_browserrecon.php:283 | `file()` loses nothing: its lines, written one after the other, are the file's text |
| PhpStrings.FileLinesAppend | inc_browserrecon.php:274-283 | text appended to a file that is empty or ends in a line feed reads back as the old lines followed by the new text's lines |
| PhpStrings.FileLinesOfLine | inc_browserrecon.php:274-283 | a text without a line feed, followed by one, reads back as that single line |
| PhpStrings.RTrim | inc_browserrecon.php:152 | `rtrim`: the result is a prefix of the input, does not end in whitespace, and only whitespace was removed |
| PhpStrings.RTrimUnique | inc_browserrecon.php:152 | those three properties determine `rtrim`'s result |
| PhpStrings.RTrimNewline | inc_browserrecon.php:274-286 | a stored line `x + "\n"` trims back to `x` when `x` has no trailing whitespace |
| PhpStrings.RTrimConcat | inc_browserrecon.php:152 | trimming `a + b` only reaches into `b` when `b` trims to something non-empty |
| PhpStrings.NatToString | inc_browserrecon.php:168 | the decimal text of a count is all digits, non-empty, without a leading zero |
| PhpStrings.CountValueOfNatToString | inc_browserrecon.php:168 | reading back a rendered count gives the count |
| PhpStrings.CountValueBeforeSemicolon | inc_browserrecon.php:226-227 | reading the number before the first `;` reads the number of the whole text |
| PhpStrings.LeadingDigitsStop | inc_browserrecon.php:227 | a non-digit ends the numeric prefix PHP reads |
| PhpStrings.HtmlEscape | inc_browserrecon.php:216 | `htmlspecialchars` leaves no `<`, `>` or `"` and leaves text without special characters unchanged |
| PhpStrings.HtmlUnescapeEscape | inc_browserrecon.php:216 | escaping loses nothing: decoding gives the name back |
| PhpStrings.StrLessTransitive | inc_browserrecon.php:223 | the byte-wise string order `rsort` uses is transitive |
| PhpStrings.StrLessTotal | inc_browserrecon.php:223 | that order is total |
| PhpStrings.StrLessIrreflexive | inc_browserrecon.php:223 | that order is strict |
| PhpStrings.ContainsAt | inc_browserrecon.php:318 | `strpos(s, sub) !== false` exactly when `sub` starts at some position of `s` |
| PhpStrings.ContainsTransitive | inc_browserrecon.php:318 | a text containing `m` contains everything `m` contains |
| PhpStrings.Lower | inc_browserrecon.php:333-342 | case folding keeps the length, turns each capital into its own small letter and keeps every other character, so no capital is left |
| PhpStrings.ContainsIgnoreCaseOfLower | inc_browserrecon.php:333-342 | `stripos` does not depend on the letter case of the searched text |
| Headers.Lookup | inc_browserrecon.php:116-128 | `$rawHeaders[name]` is `""` for a missing key, otherwise the value of the first entry with that key |
| Headers.OrderSignal | inc_browserrecon.php:66-77 | the header order is empty exactly for an empty collection, and otherwise ends in `", "` |
| Headers.GetHeaderOrder | inc_browserrecon.php:66-77 | the loop builds, entry by entry, the text before each value's first `:` followed by `", "` |
| Headers.OrderSignalEndsTrimmable | inc_browserrecon.php:74 | a non-empty header order ends in whitespace, because `rtrim`'s result is discarded |
| Headers.OrderSignalReadsValues | inc_browserrecon.php:68-72 | a lone `User-Agent: Mozilla/5.0` header gives the order `Mozilla/5.0, `: it is built from the values, not the keys |
| Headers.PresentCount | inc_browserrecon.php:88-100 | at most one per kind tested, and 0 for an empty collection |
| Headers.HitPossibilities | inc_browserrecon.php:87-104 | the possibilities lie in [0, 14] and are 0 exactly for an empty collection |
| Headers.PresentCountOfHeaderKinds | inc_browserrecon.php:88-100 | the count is one per present key among the thirteen names, in the order they are tested |
| Headers.CountHitPossibilities | inc_browserrecon.php:87-104 | the thirteen key tests plus the header-order test give `HitPossibilities` |
| Matcher.TableOf | inc_browserrecon.php:144 | a table is the lines `file()` reads: none for a missing file, otherwise lines that make up the file's text |
| Matcher.RowLabel | inc_browserrecon.php:149 | a line's label holds no `;` |
| Matcher.RowParts | inc_browserrecon.php:149 | `explode(';', $entry, 2)` gives the line's label and, when there is a `;`, its rest |
| Matcher.RowJoin | inc_browserrecon.php:149 | a line with a `;` is its label, `;` and rest |
| Matcher.RowWhole | inc_browserrecon.php:149 | a line without `;` is all label, and its value is `null` (`""`) |
| Matcher.Matches | inc_browserrecon.php:147-154 | a lookup never yields more labels than the table has lines |
| Matcher.FindMatchInDatabase | inc_browserrecon.php:142-157 | the loop collects the labels of the lines whose trimmed value equals the header value |
| Matcher.MatchesAppend | inc_browserrecon.php:147-154 | the lookup over two stacked tables is the two lookups in order, duplicates kept |
| Matcher.MatchesMembership | inc_browserrecon.php:147-154 | a label is found exactly when some line with that label matches the value |
| Matcher.MatchesNone | inc_browserrecon.php:147-154 | a value no line holds yields an empty list |
| Matcher.MatchesSingleRow | inc_browserrecon.php:147-154 | a value exactly one line holds yields that line's label alone |
| Matcher.MatchesHaveNoSemicolon | inc_browserrecon.php:149-153 | no found label holds a `;` |
| Matcher.RowTrim | inc_browserrecon.php:286 | a line with a non-blank value trims to label, `;` and trimmed value |
| Matcher.RowRestAfter | inc_browserrecon.php:274 | the rest of a written line `a;c` after its first `;` |
| Matcher.CombineArrays | inc_browserrecon.php:259-265 | `combineArrays(one, two)` is `one` followed by `two` |
| Matcher.MatchesOverSnoc | inc_browserrecon.php:114-132 | one more kind appends that kind's matches |
| Matcher.GlobalMatchesUnrolled | inc_browserrecon.php:114-132 | the raw match list is the fourteen per-table lists concatenated, user agent first and header order last |
| Matcher.IdentifyGlobalFingerprint | inc_browserrecon.php:114-132 | the fourteen lookups, combined in order, give that list |
| Matcher.MatchesAtMostOnce | inc_browserrecon.php:147-154 | in a table without repeated label and value, a lookup finds each label at most once |
| Matcher.TrimmableValueMatchesNothing | inc_browserrecon.php:152 | an empty value, or one ending in whitespace, matches nothing in a table without blank rows |
| Matcher.HitsBoundedByPresentKeys | inc_browserrecon.php:114-132 | on well-formed tables (no blank row in any table, no repeated label and value outside the header-order table), no label is found more often than the number of kinds whose header key is present |
| Matcher.HitsBoundedByPossibilities | inc_browserrecon.php:87-104 | on well-formed tables, no label's hit count exceeds the request's hit possibilities |
| Matcher.OrderSignalNeverMatches | inc_browserrecon.php:152 | the header order of a non-empty request matches no line |
| Matcher.AbsentHeaderMatchesBlankRow | inc_browserrecon.php:152 | an absent header matches a line whose value is blank, though it adds no hit possibility |
| Aggregator.Unique | inc_browserrecon.php:165 | `array_unique` keeps exactly the values of the input, each once |
| Aggregator.UniqueOfPrefix | inc_browserrecon.php:165 | the unique list of a prefix is a prefix of the whole one: labels keep first-occurrence order |
| Aggregator.CountIf | inc_browserrecon.php:182-189 | `countif` returns the number of entries equal to the search value |
| Aggregator.Tallies | inc_browserrecon.php:164-172 | one tally per distinct label, in first-occurrence order, each counted at least once |
| Aggregator.StatLinesSplit | inc_browserrecon.php:168 | each statistics line splits at its first `=` into its tally's label, for a label without `=`, and a count that reads back as the tally's count |
| Aggregator.StatisticsStep | inc_browserrecon.php:168 | each loop step appends one `label=count` line |
| Aggregator.GenerateMatchStatistics | inc_browserrecon.php:164-172 | the loop returns the statistics text of the tallies |
| Aggregator.CountsSumToMatches | inc_browserrecon.php:164-189 | the counts add up to the length of the match list |
| Aggregator.TallyOfLabel | inc_browserrecon.php:164-189 | every matched label has exactly one tally, carrying its number of occurrences |
| Aggregator.OccurrenceSumCovers | inc_browserrecon.php:182-189 | distinct labels that cover the list account for all of its entries |
| Reporter.ParseLine | inc_browserrecon.php:204 | the name holds no `=`; a line without `=` is all name, with a `null` count |
| Reporter.ParseLineOf | inc_browserrecon.php:204 | parsing `name=count` for a name without `=` gives name and count back |
| Reporter.NamedEntries | inc_browserrecon.php:202-218 | only lines with a non-empty name are read, in order |
| Reporter.NamedEntriesStep | inc_browserrecon.php:204-207 | each line adds its entry when its name is not empty |
| Reporter.EntriesOfNothing | inc_browserrecon.php:200-207 | an empty statistics text holds no entry |
| Reporter.Score | inc_browserrecon.php:209 | `null` and the empty count rank below every number |
| Reporter.BestOf | inc_browserrecon.php:209-212 | the best index is the first score above every earlier one, and at least every score; -1 when nothing beats `null` |
| Reporter.BestOfPrefix | inc_browserrecon.php:209-212 | a later entry does not change the best among earlier ones |
| Reporter.BestIndex | inc_browserrecon.php:202-218 | the best hit has the highest count, and no earlier entry has it: a later tie never replaces it |
| Reporter.BestSnoc | inc_browserrecon.php:209-212 | an entry replaces the best hit exactly when its count beats the best count |
| Reporter.ListTextSnoc | inc_browserrecon.php:215 | each entry appends `name: count<br>\n`, the name unescaped |
| Reporter.ResultArray | inc_browserrecon.php:216 | one element per entry, in order; each reads back its entry's count and, when the count holds no `;`, a name that unescapes to the entry's name |
| Reporter.ItemNameOfResult | inc_browserrecon.php:216 | the text after an element's first `;` unescapes to its entry's name when the count holds no `;` |
| Reporter.ReadStep | inc_browserrecon.php:207-217 | one named entry updates the best hit, the list and the array as the loop body does |
| Reporter.ReadStatistics | inc_browserrecon.php:200-218 | the pass returns the best name and count, the list text and the result array of the named entries |
| Reporter.Insert | inc_browserrecon.php:223 | inserting keeps the array sorted descending and adds exactly one element |
| Reporter.RSort | inc_browserrecon.php:223 | `rsort` returns a descending permutation of its input |
| Reporter.ConsSorted | inc_browserrecon.php:223 | an element no smaller than any element of a sorted array can be put in front of it |
| Reporter.SortedDescUnique | inc_browserrecon.php:223 | there is only one descending arrangement of a multiset, so `RSort` is what `rsort` produces |
| Reporter.Hundredths | inc_browserrecon.php:229-245 | `round(100 / d * c, 2)` is the nearest hundredth of 100c/d, halves rounded up |
| Reporter.HundredthsAtMostWhole | inc_browserrecon.php:229-245 | a count no greater than its divisor gives at most 100 %, and equal to it exactly 100 % |
| Reporter.DecimalText | inc_browserrecon.php:234-250 | the echoed accuracy starts with its whole part and has a fraction exactly when it is not whole |
| Reporter.DecimalTextValue | inc_browserrecon.php:234-250 | the echoed accuracy reads back as the same number of hundredths |
| Reporter.RankedRow | inc_browserrecon.php:234 | a ranked row starts with its rank and `. ` and ends in `hits)` |
| Reporter.HitRow | inc_browserrecon.php:226-239 | a row is written exactly when its count is above 0; it starts `i + 1. name (accuracy% with count hits)`, the accuracy taken against the hit possibilities when there are any and against the best count otherwise, and ends in `<br>\n` unless it is the tenth |
| Reporter.HitRowPastEnd | inc_browserrecon.php:226-227 | an index past the end of the array writes nothing |
| Reporter.HitRowsUnfold | inc_browserrecon.php:225-240 | the list grows by one row per index |
| Reporter.HitRowsTopTen | inc_browserrecon.php:225 | only the first ten elements of the sorted array can appear |
| Reporter.HitRowsEmpty | inc_browserrecon.php:225-240 | an empty array writes no row |
| Reporter.ItemCountOfResult | inc_browserrecon.php:216-227 | the count read back from an array element is the entry's own count |
| Reporter.EntryBelowBest | inc_browserrecon.php:209-212 | no entry's count exceeds the best count |
| Reporter.ResultBoundedByBest | inc_browserrecon.php:227-231 | every sorted element's count is at most the best count, so the fallback divisor is never 0 for a written row |
| Reporter.ListTopTen | inc_browserrecon.php:225-240 | the ten-step loop writes the top-ten rows |
| Reporter.Detail | inc_browserrecon.php:243-250 | the detail line reports the best count's accuracy against the hit possibilities, and 100 % when there are none |
| Reporter.DetailFullMatch | inc_browserrecon.php:244-250 | a best count equal to the possibilities reports `100` |
| Reporter.NoHitsIsZeroPercent | inc_browserrecon.php:245 | no hit at all out of some possibilities reports `0` |
| Reporter.DetailOfNothing | inc_browserrecon.php:243-250 | with no best hit the detail line is only its frame |
| Reporter.AnnounceNoMatches | inc_browserrecon.php:198-254 | an empty statistics text answers `""` in every mode but `besthitdetail` |
| Reporter.AnnounceFingerprintMatches | inc_browserrecon.php:198-254 | the pass and the mode branch return the answer for that mode |
| Store.ReferenceStore.IsInDatabase | inc_browserrecon.php:282-292 | found exactly when some line, right-trimmed, is `implementation;value` |
| Store.ReferenceStore.AddToDatabase | inc_browserrecon.php:268-280 | appends the text `implementation;value\n` to the file when both are non-empty, no line of the file records the pair and the file is writable; otherwise nothing changes |
| Store.ReferenceStore.SaveNewFingerprintToDatabase | inc_browserrecon.php:311-314 | the same as `addToDatabase` |
| Store.ReferenceStore.SaveAllFingerprintsToDatabase | inc_browserrecon.php:294-309 | the fourteen saves in the matcher's order, header order last |
| Store.SavedAllUnrolled | inc_browserrecon.php:294-309 | the saved files are the fourteen saves applied one after the other |
| Store.NewRowParts | inc_browserrecon.php:274-286 | a written line trims back to its pair and reads as its label and a non-blank value |
| Store.AddedLines | inc_browserrecon.php:268-283 | on a file that is empty or ends in a line feed, appending a pair without line feeds adds exactly the new line to what `file()` reads |
| Store.SavedOverAt | inc_browserrecon.php:294-309 | saving distinct kinds in turn saves each file as if alone, leaves the others untouched and creates no file |
| Store.SavedAllTwice | inc_browserrecon.php:294-309 | a second `saveAll` of the same request leaves every file but the header-order one as the first left it (for signals without trailing whitespace or line feeds, on files ending at a line boundary), and appends one more header-order line for a non-empty request |
| Store.AddedRecords | inc_browserrecon.php:268-292 | after an append to a file that is empty or ends in a line feed, a pair without line feeds whose value has no trailing whitespace is recorded |
| Store.AddedIdempotent | inc_browserrecon.php:268-292 | a second identical save is a no-op for a pair without line feeds and a value without trailing whitespace, on a file that is empty or ends in a line feed |
| Store.UnterminatedFileJoinsLines | inc_browserrecon.php:274-286 | on a file whose one line lacks its line feed, the new text joins that line: the pair is not recorded and the next save appends again |
| Store.LineFeedSplitsRow | inc_browserrecon.php:274-286 | an implementation holding a line feed is read back as two lines, the first a blank row; the pair is not recorded and the next save appends again |
| Store.TrailingSpaceNeverRecorded | inc_browserrecon.php:286 | a value ending in whitespace is never found, so every save of it appends |
| Store.OrderRowAlwaysAppended | inc_browserrecon.php:308 | each contribution of a non-empty request appends another header-order line to the file's text |
| Store.NewRowKeepsTable | inc_browserrecon.php:268-292 | for a non-empty value without trailing whitespace, a new line whose pair is not recorded keeps a table free of blank rows, and a duplicate-free table duplicate-free |
| Store.AddedKeepsWellFormed | inc_browserrecon.php:268-292 | appending keeps the files well-formed and ending in a line feed, for a pair without line feeds and a value without trailing whitespace, on a file that is empty or ends in a line feed |
| Proxy.ProxyProduct | inc_browserrecon.php:330-348 | BlueCoat wins when its header is present, with that header's value as details; every other answer has details `none`; `unknown` exactly when neither BlueCoat nor any marker is found |
| Proxy.ProductOfFirstMarker | inc_browserrecon.php:333-344 | without a BlueCoat header, the product is the one named by the first of `ISA`, `IWSS`, `NetCache`, `squid` that the request holds in any case |
| Proxy.UsedProxy | inc_browserrecon.php:317-323 | a proxy is used exactly when `Via:` occurs somewhere in the request |
| Proxy.IdentifyProxy | inc_browserrecon.php:325-354 | `no proxy used` without `Via:`; otherwise the forwarded-for and via header values followed by the product and details `ProxyProduct` classifies |
| Proxy.BlueCoatReport | inc_browserrecon.php:325-332 | a request with a BlueCoat header is reported as proxied by `Bluecoat`, that header's value as details |
| Proxy.NoProxyIff | inc_browserrecon.php:317-354 | the answer is `no proxy used` exactly when the request holds no `Via:` |
| Proxy.BlueCoatIsProxied | inc_browserrecon.php:318-330 | a request with a BlueCoat header is always reported as proxied |
| Proxy.LowerHasNoBlueCoat | inc_browserrecon.php:330 | a lower-cased request never holds the case-sensitive BlueCoat header name |
| Proxy.ProductIgnoresCase | inc_browserrecon.php:333-348 | apart from the BlueCoat test, the product does not depend on letter case |
| Recon.BrowserRecon | inc_browserrecon.php:50-57 | the pipeline returns the answer of the whole model |
| Recon.TallyEntries | inc_browserrecon.php:168 | the entries the reporter should read: one per tally, with its label and a count text that reads back as the tally's count |
| Recon.NamedEntriesOfStatLines | inc_browserrecon.php:204-207 | parsing the statistics lines gives the tallies back |
| Recon.StatisticsReadBack | inc_browserrecon.php:200-218 | for plain labels (non-empty, without `=` or a line feed), the reporter reads back exactly the aggregator's tallies |
| Recon.BestOfTallies | inc_browserrecon.php:202-218 | read back from tallies, the best hit is the first most-counted tally |
| Recon.BestHitIsMostMatched | inc_browserrecon.php:202-212 | for plain labels, the best hit of a non-empty match list is the first most-matched label |
| Recon.HeaderOrderCostsAHit | inc_browserrecon.php:87-104 | on well-formed tables no label reaches the hit possibilities of a non-empty request |
| Recon.BestCountBelowPossibilities | inc_browserrecon.php:50-57 | on well-formed tables, for a non-empty request that matches at least one label, every matched label plain (non-empty, without `=` or a line feed), the best count is below the hit possibilities |
| Recon.StatisticsOfNothing | inc_browserrecon.php:164-172 | no match gives an empty statistics text |
| Recon.EmptyRequestMatchesNothing | inc_browserrecon.php:114-132 | an empty request matches nothing in well-formed tables |
| Recon.EmptyRequest | inc_browserrecon.php:50-57 | on well-formed tables, an empty request answers `""`, or the bare detail frame at 100 % |

## Left out

- File input and output are not performed. The files are an in-memory map from kind to text, `file()` is the split after each line feed, and `fopen` in append mode with `fwrite` is text concatenation. The writable files are a set of kinds. A missing file reads as no lines, and writing a missing or read-only file changes nothing. A failing `fopen` on a writable file is not modelled.
- The database-prefix file names: one map stands for the tables of one prefix. The contribution functions write the tables without a prefix; giving them the same map assumes that prefix is empty.
- The debug `print` calls in `addToDatabase` and `saveNewFingerprintToDatabase` are not modelled: they only produce output.
- Floating point: the accuracies are exact hundredths rounded half up, rendered as PHP echoes a float holding them. Binary rounding errors of `round(…, 2)` are not modelled.
- PHP loose comparison: `==` on header values, labels and table lines is exact string equality. Two numeric strings that PHP compares numerically (`"1e1" == "10"`) are therefore different in the model.
- `$bestHitCount < $matchCount` is compared by the numbers the count texts start with, with `null` and `""` below every number. This is exact for the counts the aggregator writes. A count text that is not a number is not compared as PHP would compare it.
- `rsort` is the byte-wise descending order of the composite `count;name` strings. These are leading-numeric, not numeric, strings, so PHP compares them as strings. The model does not treat elements that are fully numeric specially.
- On PHP 8, `rsort` of the unset `$resultArray` raises a TypeError when no line is named. The model treats the array as empty and returns `""`.
- The model follows PHP 8.0. There `htmlspecialchars` uses its default ENT_COMPAT character set: `&`, `"`, `<` and `>`. From PHP 8.1 the default also escapes `'`, which the model does not.
- `$scan_resultitem['0'] > 0` (inc_browserrecon.php:227) is modelled as the number the count text starts with being above 0. On PHP 8 a count text that is not numeric is compared as a string with `"0"`, so `"B=2" > 0` holds where the model reads 0. The aggregator only writes numeric counts, so this differs only for labels holding `=`.
- `browserRecon` is modelled on a header collection. The raw header text the usage comment shows (`file_get_contents`, inc_browserrecon.php:28) is not modelled: every function indexes or walks `$rawHeaders` as an array.
- `getHeaderValue` is not defined in the source: `identifyProxy` receives it as a function parameter.
- `index.php` is not part of this model: it reads `getallheaders()` and `$_GET` and echoes the page.
- Header keys are case-sensitive array keys. The collection is a sequence of entries, and on a sequence that repeats a key the first entry counts, where a PHP array holds each key once.
- Headers.OrderSignal: `explode(':', $header, 2)` on a value without `:` gives the PHP 8.0 warning "Undefined array key 1" for the missing second element. The model only keeps the first part, which is the whole value.
- Store.AddedRecords: promised only for a file that is empty or ends in a line feed, a pair without line feeds, and a value without trailing whitespace (`Store.TrailingSpaceNeverRecorded` proves such a value is never recorded). `addToDatabase` checks neither; `Store.UnterminatedFileJoinsLines` and `Store.LineFeedSplitsRow` prove that the pair is otherwise not recorded.
- Store.AddedIdempotent: promised under the same two conditions. Otherwise every save of the pair appends again, as the two lemmas above prove.
- Store.AddedKeepsWellFormed: promised under the same two conditions. An implementation holding a line feed writes a blank row (`Store.LineFeedSplitsRow`).
