/** The PHP string primitives the fingerprinting engine is built from, over
    strings of characters: `explode` with and without a limit, `rtrim` with its
    default character list, the decimal rendering of counts and the way PHP
    reads a number back out of a string, `htmlspecialchars`, the byte-wise
    string order `rsort` uses, and substring search (`strpos`, `stripos`). */
module PhpStrings {

  datatype Option<T> = None | Some(value: T)

  // ---------------------------------------------------------------- explode

  /** Position of the first occurrence of `c` in `s`. */
  function FirstIndex(s: string, c: char): (i: nat)
    requires c in s
    ensures i < |s| && s[i] == c && c !in s[..i]
  {
    if s[0] == c then 0
    else
      var j := FirstIndex(s[1..], c);
      assert s[..j + 1] == [s[0]] + s[1..][..j];
      j + 1
  }

  /** `explode(sep, s, 2)`: the text before the first `sep` and, when there is
      one, the text after it (`None` stands for PHP's missing second element). */
  function SplitFirst(s: string, sep: char): (r: (string, Option<string>))
    ensures r.1.None? <==> sep !in s
    ensures r.1.None? ==> r.0 == s
    ensures r.1.Some? ==> |r.0| + 1 + |r.1.value| == |s|
    ensures sep !in r.0
  {
    if sep in s then
      var i := FirstIndex(s, sep);
      assert s == s[..i] + [sep] + s[i + 1..];
      (s[..i], Some(s[i + 1..]))
    else
      (s, None)
  }

  /** The two parts and the separator between them make up the input again. */
  lemma SplitFirstJoin(s: string, sep: char)
    ensures var r := SplitFirst(s, sep); r.1.Some? ==> s == r.0 + [sep] + r.1.value
  {
  }

  lemma {:induction false} FirstIndexAfter(head: string, sep: char, tail: string)
    requires sep !in head
    ensures FirstIndex(head + [sep] + tail, sep) == |head|
  {
    if head != [] {
      assert (head + [sep] + tail)[1..] == head[1..] + [sep] + tail;
      FirstIndexAfter(head[1..], sep, tail);
    }
  }

  /** Splitting right after a separator-free head gives that head back. */
  lemma SplitFirstAt(head: string, sep: char, tail: string)
    requires sep !in head
    ensures SplitFirst(head + [sep] + tail, sep) == (head, Some(tail))
  {
    var s := head + [sep] + tail;
    FirstIndexAfter(head, sep, tail);
    assert s[..|head|] == head && s[|head| + 1..] == tail;
  }

  /** `explode(sep, s)` without a limit: the pieces between separators. */
  function Explode(s: string, sep: char): (parts: seq<string>)
    ensures |parts| >= 1
    ensures forall k :: 0 <= k < |parts| ==> sep !in parts[k]
    decreases |s|
  {
    var p := SplitFirst(s, sep);
    if p.1.None? then [s] else [p.0] + Explode(p.1.value, sep)
  }

  /** `implode(sep, parts)`, the inverse of `Explode`. */
  function Join(parts: seq<string>, sep: char): string
    requires |parts| >= 1
  {
    if |parts| == 1 then parts[0] else parts[0] + [sep] + Join(parts[1..], sep)
  }

  lemma {:induction false} JoinExplode(s: string, sep: char)
    ensures Join(Explode(s, sep), sep) == s
    decreases |s|
  {
    var p := SplitFirst(s, sep);
    SplitFirstJoin(s, sep);
    if p.1.Some? {
      JoinExplode(p.1.value, sep);
    }
  }

  /** Each line followed by a line feed, in order: the text a loop of
      `$text .= $line . "\n"` builds. */
  function Lines(ls: seq<string>): string
  {
    if ls == [] then "" else ls[0] + "\n" + Lines(ls[1..])
  }

  lemma {:induction false} LinesSnoc(ls: seq<string>, l: string)
    ensures Lines(ls + [l]) == Lines(ls) + l + "\n"
  {
    if ls != [] {
      assert (ls + [l])[1..] == ls[1..] + [l];
      LinesSnoc(ls[1..], l);
    }
  }

  /** Exploding text that starts with a piece and a separator gives that
      piece followed by the pieces of the rest. */
  lemma ExplodeCons(head: string, sep: char, rest: string)
    requires sep !in head
    ensures Explode(head + [sep] + rest, sep) == [head] + Explode(rest, sep)
  {
    SplitFirstAt(head, sep, rest);
  }

  /** Exploding the lines text at line feeds gives the lines back, followed by
      the empty piece after the last line feed. */
  lemma {:induction false} ExplodeLines(ls: seq<string>)
    requires forall k :: 0 <= k < |ls| ==> '\n' !in ls[k]
    ensures Explode(Lines(ls), '\n') == ls + [""]
  {
    if ls == [] {
      assert SplitFirst("", '\n').1.None?;
    } else {
      var head, tail := ls[0], ls[1..];
      assert '\n' !in head;
      assert forall k :: 0 <= k < |tail| ==> '\n' !in tail[k] by {
        forall k | 0 <= k < |tail| ensures '\n' !in tail[k] { assert tail[k] == ls[k + 1]; }
      }
      var rest := Lines(tail);
      assert Lines(ls) == head + ['\n'] + rest;
      assert Explode(rest, '\n') == tail + [""] by { ExplodeLines(tail); }
      calc {
        Explode(Lines(ls), '\n');
        { ExplodeCons(head, '\n', rest); }
        [head] + Explode(rest, '\n');
        [head] + (tail + [""]);
        { assert ls == [head] + tail; }
        ls + [""];
      }
    }
  }

  // ---------------------------------------------------------------- file

  /** `file()` on a file's text: its lines in order, each keeping its line
      feed, the last one without it when the text does not end in one. */
  function FileLines(text: string): seq<string>
    decreases |text|
  {
    if text == "" then []
    else if '\n' in text then
      var i := FirstIndex(text, '\n');
      [text[..i + 1]] + FileLines(text[i + 1..])
    else [text]
  }

  /** The lines of a file, written one after the other. */
  function Concat(ls: seq<string>): string
  {
    if ls == [] then "" else ls[0] + Concat(ls[1..])
  }

  /** `file()` loses nothing: its lines make up the text again. */
  lemma {:induction false} ConcatFileLines(text: string)
    ensures Concat(FileLines(text)) == text
    decreases |text|
  {
    if text != "" && '\n' in text {
      var i := FirstIndex(text, '\n');
      ConcatFileLines(text[i + 1..]);
      assert text == text[..i + 1] + text[i + 1..];
    }
  }

  /** A text that ends at a line boundary: empty, or ending in a line feed. */
  predicate Terminated(text: string)
  {
    text == "" || text[|text| - 1] == '\n'
  }

  /** A text that starts with a line is that line followed by the rest's lines. */
  lemma FileLinesCons(head: string, rest: string)
    requires '\n' !in head
    ensures FileLines(head + ['\n'] + rest) == [head + ['\n']] + FileLines(rest)
  {
    var text := head + ['\n'] + rest;
    FirstIndexAfter(head, '\n', rest);
    assert text[..|head| + 1] == head + ['\n'];
    assert text[|head| + 1..] == rest;
  }

  /** Text appended after a line boundary starts new lines of its own. */
  lemma {:induction false} FileLinesAppend(a: string, b: string)
    requires Terminated(a)
    ensures FileLines(a + b) == FileLines(a) + FileLines(b)
    decreases |a|
  {
    if a == "" {
      assert a + b == b;
    } else {
      var head, rest := SplitAtLineFeed(a);
      assert a + b == head + ['\n'] + (rest + b);
      calc {
        FileLines(a + b);
        { FileLinesCons(head, rest + b); }
        [head + ['\n']] + FileLines(rest + b);
        { FileLinesAppend(rest, b); }
        [head + ['\n']] + (FileLines(rest) + FileLines(b));
        ([head + ['\n']] + FileLines(rest)) + FileLines(b);
        { FileLinesCons(head, rest); }
        FileLines(a) + FileLines(b);
      }
    }
  }

  /** A non-empty text that ends at a line boundary splits at its first line
      feed into a first line and a rest that also ends at a line boundary. */
  lemma SplitAtLineFeed(a: string) returns (head: string, rest: string)
    requires a != "" && Terminated(a)
    ensures a == head + ['\n'] + rest && '\n' !in head
    ensures Terminated(rest) && |rest| < |a|
  {
    assert '\n' in a by { assert a[|a| - 1] == '\n'; }
    var i := FirstIndex(a, '\n');
    head, rest := a[..i], a[i + 1..];
    assert a == head + ['\n'] + rest;
    if rest != "" {
      assert rest[|rest| - 1] == a[|a| - 1];
    }
  }

  /** A text without a line feed, followed by one, is a single line. */
  lemma FileLinesOfLine(x: string)
    requires '\n' !in x
    ensures FileLines(x + "\n") == [x + "\n"]
  {
    FirstIndexAfter(x, '\n', "");
    assert x + "\n" == x + ['\n'] + "";
    assert (x + "\n")[|x| + 1..] == "";
  }

  // ---------------------------------------------------------------- rtrim

  /** The characters `rtrim` removes by default: " \t\n\r\0\x0B". */
  predicate IsTrimmable(c: char)
  {
    c == ' ' || c == '\t' || c == '\n' || c == '\r' || c == '\0' || c == '\U{0B}'
  }

  predicate EndsTrimmable(s: string)
  {
    s != [] && IsTrimmable(s[|s| - 1])
  }

  /** `rtrim(s)`: the longest prefix of `s` that does not end in a trimmable
      character, all of whose removed characters are trimmable. */
  function RTrim(s: string): (r: string)
    ensures r <= s
    ensures !EndsTrimmable(r)
    ensures forall i :: |r| <= i < |s| ==> IsTrimmable(s[i])
    decreases |s|
  {
    if EndsTrimmable(s) then RTrim(s[..|s| - 1]) else s
  }

  /** The three properties in RTrim's contract determine its result. */
  lemma {:induction false} RTrimUnique(s: string, r: string)
    requires r <= s && !EndsTrimmable(r)
    requires forall i :: |r| <= i < |s| ==> IsTrimmable(s[i])
    ensures RTrim(s) == r
    decreases |s|
  {
    if |s| > |r| {
      assert EndsTrimmable(s);
      RTrimUnique(s[..|s| - 1], r);
    } else {
      assert s == r;
    }
  }

  lemma RTrimNoop(s: string)
    requires !EndsTrimmable(s)
    ensures RTrim(s) == s
  {
    RTrimUnique(s, s);
  }

  /** A string that `rtrim` leaves alone is what `rtrim` makes of it followed
      by a line feed, the form in which `file()` returns a stored line. */
  lemma RTrimNewline(s: string)
    requires !EndsTrimmable(s)
    ensures RTrim(s + "\n") == s
  {
    RTrimUnique(s + "\n", s);
  }

  /** Trimming only reaches into the last part when that part trims to
      something non-empty. */
  lemma RTrimConcat(a: string, b: string)
    requires RTrim(b) != ""
    ensures RTrim(a + b) == a + RTrim(b)
  {
    var r := RTrim(b);
    forall i | |a + r| <= i < |a + b|
      ensures IsTrimmable((a + b)[i])
    {
      assert (a + b)[i] == b[i - |a|];
    }
    assert (a + r)[|a + r| - 1] == r[|r| - 1];
    RTrimUnique(a + b, a + r);
  }

  // ---------------------------------------------------------------- numbers

  predicate IsDigit(c: char)
  {
    '0' <= c <= '9'
  }

  predicate AllDigits(s: string)
  {
    forall i :: 0 <= i < |s| ==> IsDigit(s[i])
  }

  function DigitChar(d: nat): (c: char)
    requires d < 10
    ensures IsDigit(c) && c as int - '0' as int == d
  {
    ('0' as int + d) as char
  }

  /** PHP's decimal rendering of a non-negative integer (no sign, no leading
      zero). */
  function NatToString(n: nat): (s: string)
    ensures s != [] && AllDigits(s)
    ensures |s| > 1 ==> s[0] != '0'
    decreases n
  {
    if n < 10 then [DigitChar(n)] else NatToString(n / 10) + [DigitChar(n % 10)]
  }

  /** The value of a string of decimal digits. */
  function DigitsValue(s: string): nat
    requires AllDigits(s)
  {
    if s == [] then 0 else DigitsValue(s[..|s| - 1]) * 10 + (s[|s| - 1] as int - '0' as int)
  }

  lemma {:induction false} DigitsValueOfNatToString(n: nat)
    ensures DigitsValue(NatToString(n)) == n
    decreases n
  {
    var s := NatToString(n);
    if n < 10 {
      assert s[..0] == [];
    } else {
      assert s[..|s| - 1] == NatToString(n / 10);
      DigitsValueOfNatToString(n / 10);
    }
  }

  /** The run of decimal digits a string starts with. */
  function LeadingDigits(s: string): (d: string)
    ensures d <= s && AllDigits(d)
    ensures |d| < |s| ==> !IsDigit(s[|d|])
  {
    if s != [] && IsDigit(s[0]) then [s[0]] + LeadingDigits(s[1..]) else []
  }

  /** The number PHP reads from a count field used as a number: the value of
      its leading decimal digits, 0 when it has none. */
  function CountValue(s: string): nat
  {
    DigitsValue(LeadingDigits(s))
  }

  lemma LeadingDigitsOfDigits(s: string)
    requires AllDigits(s)
    ensures LeadingDigits(s) == s
  {
  }

  /** Reading back a rendered count gives the count. */
  lemma CountValueOfNatToString(n: nat)
    ensures CountValue(NatToString(n)) == n
  {
    LeadingDigitsOfDigits(NatToString(n));
    DigitsValueOfNatToString(n);
  }

  /** Cutting a string after its leading digits does not change them. */
  lemma {:induction false} LeadingDigitsOfPrefix(p: string, s: string)
    requires p <= s && |LeadingDigits(s)| <= |p|
    ensures LeadingDigits(p) == LeadingDigits(s)
  {
    if p != [] && IsDigit(p[0]) {
      LeadingDigitsOfPrefix(p[1..], s[1..]);
    }
  }

  /** A character that is not a digit ends the leading digits. */
  lemma {:induction false} LeadingDigitsStop(a: string, b: string)
    requires b != [] && !IsDigit(b[0])
    ensures LeadingDigits(a + b) == LeadingDigits(a)
  {
    if a != [] && IsDigit(a[0]) {
      assert (a + b)[1..] == a[1..] + b;
      LeadingDigitsStop(a[1..], b);
    } else if a == [] {
      assert a + b == b;
    }
  }

  /** Reading a count up to the first `;` reads the same number. */
  lemma CountValueBeforeSemicolon(s: string)
    ensures CountValue(SplitFirst(s, ';').0) == CountValue(s)
  {
    var p := SplitFirst(s, ';').0;
    var d := LeadingDigits(s);
    SplitFirstJoin(s, ';');
    if p != s {
      assert s[|p|] == ';';
      assert forall i :: 0 <= i < |d| ==> IsDigit(s[i]);
    }
    LeadingDigitsOfPrefix(p, s);
  }

  // ---------------------------------------------------------------- htmlspecialchars

  predicate IsSpecial(c: char)
  {
    c == '&' || c == '"' || c == '<' || c == '>'
  }

  function EscapeChar(c: char): string
  {
    if c == '&' then "&amp;"
    else if c == '"' then "&quot;"
    else if c == '<' then "&lt;"
    else if c == '>' then "&gt;"
    else [c]
  }

  /** `htmlspecialchars(s)` with its ENT_COMPAT character set: no markup
      character survives, and text without special characters is unchanged. */
  function HtmlEscape(s: string): (r: string)
    ensures forall i :: 0 <= i < |r| ==> r[i] != '<' && r[i] != '>' && r[i] != '"'
    ensures (forall i :: 0 <= i < |s| ==> !IsSpecial(s[i])) ==> r == s
  {
    if s == [] then [] else EscapeChar(s[0]) + HtmlEscape(s[1..])
  }

  /** `htmlspecialchars_decode(s)` for the same character set. */
  function HtmlUnescape(s: string): string
    decreases |s|
  {
    if s == [] then []
    else if "&amp;" <= s then "&" + HtmlUnescape(s[5..])
    else if "&quot;" <= s then "\"" + HtmlUnescape(s[6..])
    else if "&lt;" <= s then "<" + HtmlUnescape(s[4..])
    else if "&gt;" <= s then ">" + HtmlUnescape(s[4..])
    else [s[0]] + HtmlUnescape(s[1..])
  }

  /** Decoding reads one escaped character back, then goes on after it. */
  lemma UnescapeEscapeChar(c: char, rest: string)
    ensures HtmlUnescape(EscapeChar(c) + rest) == [c] + HtmlUnescape(rest)
  {
    if !IsSpecial(c) {
      UnescapePlain(c, rest);
    } else {
      UnescapeEntity(c, rest);
    }
  }

  lemma UnescapePlain(c: char, rest: string)
    requires !IsSpecial(c)
    ensures HtmlUnescape([c] + rest) == [c] + HtmlUnescape(rest)
  {
    var t := [c] + rest;
    assert t[1..] == rest;
    assert t[0] == c != '&';
    assert !("&amp;" <= t) && !("&quot;" <= t) && !("&lt;" <= t) && !("&gt;" <= t);
  }

  lemma UnescapeEntity(c: char, rest: string)
    requires IsSpecial(c)
    ensures HtmlUnescape(EscapeChar(c) + rest) == [c] + HtmlUnescape(rest)
  {
    var e := EscapeChar(c);
    var t := e + rest;
    assert t[|e|..] == rest;
    assert e <= t;
    if c == '&' {
      assert "&amp;" <= t;
    } else if c == '"' {
      assert t[1] == 'q';
    } else if c == '<' {
      assert t[1] == 'l';
    } else {
      assert t[1] == 'g';
    }
  }

  /** Escaping loses nothing: decoding gives the original text back. */
  lemma {:induction false} HtmlUnescapeEscape(s: string)
    ensures HtmlUnescape(HtmlEscape(s)) == s
  {
    if s != [] {
      assert HtmlEscape(s) == EscapeChar(s[0]) + HtmlEscape(s[1..]);
      UnescapeEscapeChar(s[0], HtmlEscape(s[1..]));
      HtmlUnescapeEscape(s[1..]);
      assert s == [s[0]] + s[1..];
    }
  }

  // ---------------------------------------------------------------- ordering

  /** Byte-wise string order (`strcmp(a, b) < 0`), the order `rsort` uses for
      strings that are not numeric. */
  predicate StrLess(a: string, b: string)
    decreases |a|
  {
    if a == [] then b != []
    else b != [] && (a[0] < b[0] || (a[0] == b[0] && StrLess(a[1..], b[1..])))
  }

  lemma {:induction false} StrLessIrreflexive(a: string)
    ensures !StrLess(a, a)
  {
    if a != [] {
      StrLessIrreflexive(a[1..]);
    }
  }

  lemma {:induction false} StrLessTransitive(a: string, b: string, c: string)
    requires StrLess(a, b) && StrLess(b, c)
    ensures StrLess(a, c)
    decreases |a|
  {
    if a != [] && a[0] == b[0] && b[0] == c[0] {
      StrLessTransitive(a[1..], b[1..], c[1..]);
    }
  }

  lemma {:induction false} StrLessTotal(a: string, b: string)
    ensures a == b || StrLess(a, b) || StrLess(b, a)
    decreases |a|
  {
    if a != [] && b != [] && a[0] == b[0] {
      StrLessTotal(a[1..], b[1..]);
      assert a == [a[0]] + a[1..] && b == [b[0]] + b[1..];
    }
  }

  lemma StrLessAsymmetric(a: string, b: string)
    requires StrLess(a, b)
    ensures !StrLess(b, a)
  {
    if StrLess(b, a) {
      StrLessTransitive(a, b, a);
      StrLessIrreflexive(a);
    }
  }

  // ---------------------------------------------------------------- strpos / stripos

  /** `strpos(s, sub) !== false`: `sub` occurs somewhere in `s`. */
  predicate Contains(s: string, sub: string)
    decreases |s|
  {
    sub <= s || (s != [] && Contains(s[1..], sub))
  }

  lemma {:induction false} PrefixContains(m: string, s: string, sub: string)
    requires m <= s && Contains(m, sub)
    ensures Contains(s, sub)
    decreases |m|
  {
    if !(sub <= m) {
      PrefixContains(m[1..], s[1..], sub);
    }
  }

  /** A string containing a text contains everything that text contains. */
  lemma {:induction false} ContainsTransitive(s: string, m: string, sub: string)
    requires Contains(s, m) && Contains(m, sub)
    ensures Contains(s, sub)
    decreases |s|
  {
    if m <= s {
      PrefixContains(m, s, sub);
    } else {
      ContainsTransitive(s[1..], m, sub);
    }
  }

  /** `Contains` is the usual substring test: `sub` starts at some position. */
  lemma {:induction false} ContainsAt(s: string, sub: string)
    ensures Contains(s, sub) <==> exists i :: 0 <= i <= |s| && sub <= s[i..]
    decreases |s|
  {
    if s != [] {
      ContainsAt(s[1..], sub);
      if exists i :: 0 <= i <= |s| && sub <= s[i..] {
        var i :| 0 <= i <= |s| && sub <= s[i..];
        if i > 0 {
          assert s[1..][i - 1..] == s[i..];
        }
      }
      if Contains(s[1..], sub) {
        var i :| 0 <= i <= |s[1..]| && sub <= s[1..][i..];
        assert s[i + 1..] == s[1..][i..];
      }
    } else {
      assert s[0..] == s;
    }
  }

  function LowerChar(c: char): char
  {
    if 'A' <= c <= 'Z' then (c as int + 32) as char else c
  }

  /** `strtolower` on ASCII letters: same length, each capital replaced by
      its own small letter, every other character kept, so no capital is
      left. */
  function Lower(s: string): (r: string)
    ensures |r| == |s|
    ensures forall i :: 0 <= i < |r| ==> 'A' <= s[i] <= 'Z' ==> r[i] == (s[i] as int + 32) as char
    ensures forall i :: 0 <= i < |r| ==> !('A' <= s[i] <= 'Z') ==> r[i] == s[i]
    ensures forall i :: 0 <= i < |r| ==> !('A' <= r[i] <= 'Z')
  {
    if s == [] then [] else [LowerChar(s[0])] + Lower(s[1..])
  }

  /** `stripos(s, sub) !== false`. */
  predicate ContainsIgnoreCase(s: string, sub: string)
  {
    Contains(Lower(s), Lower(sub))
  }

  /** Lower-casing twice changes nothing more. */
  lemma LowerIdempotent(s: string)
    ensures Lower(Lower(s)) == Lower(s)
  {
    var r := Lower(s);
    assert forall i :: 0 <= i < |r| ==> Lower(r)[i] == r[i];
  }

  /** `stripos` ignores the case of the text it searches. */
  lemma ContainsIgnoreCaseOfLower(s: string, sub: string)
    ensures ContainsIgnoreCase(Lower(s), sub) == ContainsIgnoreCase(s, sub)
  {
    LowerIdempotent(s);
  }
}
