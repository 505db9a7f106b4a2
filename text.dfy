/**
  The text metrics of `parseText` and `parseStructuredText`: splitting a
  text into lines at `\r?\n` (the same separator as `\r\n|\n`), the
  "Line Count" and "First Lines" fields, and the CSV, INI and Markdown
  refinements.  The JSON and XML refinements call the host's
  `JSON.parse` and `DOMParser`; their outcome is a parameter.
*/
module TextMetrics {
  import opened Results
  import opened Strs
  import opened Record

  /**
    `text.split(/\r?\n/)`: the regular expression matches "\r\n" at a
    carriage return that a line feed follows, and "\n" at any other line
    feed; the pieces between matches are the lines.
  */
  function SplitLines(s: string): (lines: seq<string>)
    ensures |lines| == CountIn(s, {'\n'}) + 1
    ensures forall i :: 0 <= i < |lines| ==> NoneIn(lines[i], {'\n'})
  {
    if s == [] then [[]]
    else if s[0] == '\n' then [[]] + SplitLines(s[1..])
    else if s[0] == '\r' && |s| >= 2 && s[1] == '\n' then
      assert CountIn(s, {'\n'}) == 1 + CountIn(s[2..], {'\n'}) by {
        assert s[1..][1..] == s[2..];
      }
      [[]] + SplitLines(s[2..])
    else
      var rest := SplitLines(s[1..]);
      assert NoneIn([s[0]] + rest[0], {'\n'}) by {
        assert forall k :: 1 <= k < 1 + |rest[0]| ==> ([s[0]] + rest[0])[k] == rest[0][k - 1];
      }
      [[s[0]] + rest[0]] + rest[1..]
  }

  /** The text with each line break, "\r\n" or "\n", written as sep. */
  function ShowBreaks(s: string, sep: string): string {
    if s == [] then []
    else if s[0] == '\n' then sep + ShowBreaks(s[1..], sep)
    else if s[0] == '\r' && |s| >= 2 && s[1] == '\n' then sep + ShowBreaks(s[2..], sep)
    else [s[0]] + ShowBreaks(s[1..], sep)
  }

  /**
    The lines, joined with sep, are the text with its line breaks
    written as sep: nothing but the separators is lost.
  */
  lemma {:induction false} JoinSplitLines(s: string, sep: string)
    ensures Join(SplitLines(s), sep) == ShowBreaks(s, sep)
  {
    if s == [] {
    } else if s[0] == '\n' {
      JoinSplitLines(s[1..], sep);
      JoinEmptyHead(SplitLines(s[1..]), sep);
    } else if s[0] == '\r' && |s| >= 2 && s[1] == '\n' {
      JoinSplitLines(s[2..], sep);
      JoinEmptyHead(SplitLines(s[2..]), sep);
    } else {
      var rest := SplitLines(s[1..]);
      JoinSplitLines(s[1..], sep);
      JoinConsHead(s[0], rest, sep);
    }
  }

  /** Joining after an empty first piece puts a separator in front. */
  lemma JoinEmptyHead(parts: seq<string>, sep: string)
    requires |parts| > 0
    ensures Join([[]] + parts, sep) == sep + Join(parts, sep)
  {
    assert ([[]] + parts)[1..] == parts;
  }

  /** Freedom from a set of characters implies freedom from any subset. */
  lemma NoneInSubset(s: string, big: set<char>, small: set<char>)
    requires NoneIn(s, big) && small <= big
    ensures NoneIn(s, small)
  {
  }

  /** Without carriage returns the lines are the pieces of `split("\n")`. */
  lemma {:induction false} SplitLinesWithoutCr(s: string)
    requires NoneIn(s, {'\r'})
    ensures SplitLines(s) == SplitAny(s, {'\n'})
  {
    if s != [] {
      assert NoneIn(s[1..], {'\r'}) by {
        assert forall k :: 0 <= k < |s| - 1 ==> s[1..][k] == s[k + 1];
      }
      SplitLinesWithoutCr(s[1..]);
    }
  }

  /**
    The first n lines of s as they stand in s, with the line breaks
    between them: the text up to its n-th line break, or all of it when
    it has fewer breaks.
  */
  function LeadingLines(s: string, n: nat): (h: string)
    ensures |h| <= |s|
  {
    if n == 0 || s == [] then []
    else if s[0] == '\n' then
      if n == 1 then [] else "\n" + LeadingLines(s[1..], n - 1)
    else if s[0] == '\r' && |s| >= 2 && s[1] == '\n' then
      if n == 1 then [] else "\r\n" + LeadingLines(s[2..], n - 1)
    else [s[0]] + LeadingLines(s[1..], n)
  }

  /** The leading lines are a prefix of the text. */
  lemma {:induction false} LeadingLinesPrefix(s: string, n: nat)
    ensures LeadingLines(s, n) <= s
  {
    if n == 0 || s == [] {
    } else if s[0] == '\n' {
      if n > 1 { LeadingLinesPrefix(s[1..], n - 1); }
    } else if s[0] == '\r' && |s| >= 2 && s[1] == '\n' {
      if n > 1 {
        LeadingLinesPrefix(s[2..], n - 1);
        assert s == "\r\n" + s[2..];
      }
    } else {
      LeadingLinesPrefix(s[1..], n);
    }
  }

  /** A text with fewer than n line feeds is its own first n lines. */
  lemma {:induction false} LeadingLinesAll(s: string, n: nat)
    requires CountIn(s, {'\n'}) < n
    ensures LeadingLines(s, n) == s
  {
    if s == [] {
    } else if s[0] == '\n' {
      LeadingLinesAll(s[1..], n - 1);
    } else if s[0] == '\r' && |s| >= 2 && s[1] == '\n' {
      assert CountIn(s, {'\n'}) == 1 + CountIn(s[2..], {'\n'}) by {
        assert s[1..][1..] == s[2..];
      }
      LeadingLinesAll(s[2..], n - 1);
      assert s == "\r\n" + s[2..];
    } else {
      LeadingLinesAll(s[1..], n);
    }
  }

  /** What s[i..] starts with is a line break that ends the first |h| characters of s. */
  predicate BreakAfter(s: string, h: string) {
    |h| < |s| && (StartsWith(s[|h|..], "\r\n") || (s[|h|] == '\n' && (h == [] || h[|h| - 1] != '\r')))
  }

  /** A text with at least n >= 1 line feeds: its first n lines hold n - 1 of them. */
  lemma {:induction false} LeadingLinesCount(s: string, n: nat)
    requires 1 <= n <= CountIn(s, {'\n'})
    ensures CountIn(LeadingLines(s, n), {'\n'}) == n - 1
  {
    if s[0] == '\n' {
      if n > 1 {
        var t := LeadingLines(s[1..], n - 1);
        LeadingLinesCount(s[1..], n - 1);
        CountInCons('\n', t, {'\n'});
      }
    } else if s[0] == '\r' && |s| >= 2 && s[1] == '\n' {
      assert CountIn(s, {'\n'}) == 1 + CountIn(s[2..], {'\n'}) by {
        assert s[1..][1..] == s[2..];
      }
      if n > 1 {
        var t := LeadingLines(s[2..], n - 1);
        LeadingLinesCount(s[2..], n - 1);
        CountInCons('\n', t, {'\n'});
        CountInCons('\r', "\n" + t, {'\n'});
        assert "\r\n" + t == ['\r'] + ("\n" + t);
      }
    } else {
      var t := LeadingLines(s[1..], n);
      LeadingLinesCount(s[1..], n);
      CountInCons(s[0], t, {'\n'});
    }
  }

  /**
    A text with at least n >= 1 line feeds: what follows its first n
    lines in the text starts with a line break, "\r\n" or a "\n" that no
    carriage return of theirs precedes.
  */
  lemma {:induction false} LeadingLinesBreak(s: string, n: nat)
    requires 1 <= n <= CountIn(s, {'\n'})
    ensures BreakAfter(s, LeadingLines(s, n))
  {
    if s[0] == '\n' {
      if n > 1 {
        var t := LeadingLines(s[1..], n - 1);
        LeadingLinesBreak(s[1..], n - 1);
        BreakBehind(s, "\n", t);
      }
    } else if s[0] == '\r' && |s| >= 2 && s[1] == '\n' {
      assert CountIn(s, {'\n'}) == 1 + CountIn(s[2..], {'\n'}) by {
        assert s[1..][1..] == s[2..];
      }
      if n > 1 {
        var t := LeadingLines(s[2..], n - 1);
        LeadingLinesBreak(s[2..], n - 1);
        assert s == "\r\n" + s[2..];
        BreakBehind(s, "\r\n", t);
      } else {
        assert s[..2] == "\r\n";
      }
    } else {
      var t := LeadingLines(s[1..], n);
      LeadingLinesBreak(s[1..], n);
      LeadingLinesPrefix(s[1..], n);
      assert s == [s[0]] + s[1..];
      if t == [] {
        assert BreakAfter(s, [s[0]]) by {
          assert !StartsWith(s[1..], "\r\n") ==> s[0] != '\r';
          assert s[1..] == s[|[s[0]]|..];
        }
      }
      BreakBehind(s, [s[0]], t);
    }
  }

  /** A break behind the rest of a text is a break behind the whole. */
  lemma BreakBehind(s: string, p: string, t: string)
    requires 1 <= |p| <= |s| && s == p + s[|p|..] && BreakAfter(s[|p|..], t)
    requires t == [] ==> BreakAfter(s, p)
    ensures BreakAfter(s, p + t)
  {
    assert s[|p + t|..] == s[|p|..][|t|..];
    if t != [] { assert (p + t)[|p + t| - 1] == t[|t| - 1]; }
  }

  /**
    The first n lines joined with sep are the text's first n lines with
    their line breaks written as sep.
  */
  lemma {:induction false} JoinTakeLines(s: string, n: nat, sep: string)
    ensures Join(Take(SplitLines(s), n), sep) == ShowBreaks(LeadingLines(s, n), sep)
  {
    if n == 0 || s == [] {
    } else if s[0] == '\n' {
      var rest := SplitLines(s[1..]);
      TakeCons([], rest, n);
      if n > 1 {
        var t := LeadingLines(s[1..], n - 1);
        JoinTakeLines(s[1..], n - 1, sep);
        JoinEmptyHead(Take(rest, n - 1), sep);
        assert ("\n" + t)[1..] == t;
      }
    } else if s[0] == '\r' && |s| >= 2 && s[1] == '\n' {
      var rest := SplitLines(s[2..]);
      TakeCons([], rest, n);
      if n > 1 {
        var t := LeadingLines(s[2..], n - 1);
        JoinTakeLines(s[2..], n - 1, sep);
        JoinEmptyHead(Take(rest, n - 1), sep);
        assert ("\r\n" + t)[2..] == t;
      }
    } else {
      var rest := SplitLines(s[1..]);
      var t := LeadingLines(s[1..], n);
      JoinTakeLines(s[1..], n, sep);
      LeadingLinesPrefix(s[1..], n);
      TakeCons([s[0]] + rest[0], rest[1..], n);
      TakeCons(rest[0], rest[1..], n);
      assert rest == [rest[0]] + rest[1..];
      JoinConsHead(s[0], Take(rest, n), sep);
      assert ([s[0]] + t)[1..] == t;
      assert t != [] ==> t[0] == s[1];
    }
  }

  /** `lines.slice(0, n).join(sep)`: the text's first n lines with their breaks written as sep. */
  function FirstLines(text: string, n: nat, sep: string): (r: string)
    ensures r == ShowBreaks(LeadingLines(text, n), sep)
  {
    JoinTakeLines(text, n, sep);
    Join(Take(SplitLines(text), n), sep)
  }

  /** `parseText`: the line count and the first five lines joined by " / ". */
  function TextFields(text: string): (kvs: Entries)
    ensures |kvs| == 2
    ensures kvs[0] == ("Line Count", Num(CountIn(text, {'\n'}) + 1))
    ensures kvs[1] == ("First Lines", Str(ShowBreaks(LeadingLines(text, 5), " / ")))
  {
    [("Line Count", Num(|SplitLines(text)|)), ("First Lines", Str(FirstLines(text, 5, " / ")))]
  }

  /** A text of at most five lines is shown whole, its line breaks written as " / ". */
  lemma FirstLinesOfShortText(text: string)
    requires CountIn(text, {'\n'}) < 5
    ensures TextFields(text)[1] == ("First Lines", Str(ShowBreaks(text, " / ")))
  {
    LeadingLinesAll(text, 5);
  }

  // ----- CSV -----

  /** `lines[0].split(",")` and the three CSV fields. */
  function CsvFields(lines: seq<string>): (kvs: Entries)
    requires |lines| >= 1
    ensures |kvs| == 3
    ensures kvs[0] == ("CSV Columns", Num(CountIn(lines[0], {','}) + 1))
    ensures kvs[1] == ("CSV Headers", Str(ReplaceComma(lines[0])))
    ensures kvs[2] == ("Row Count", Num(|lines| - 1))
  {
    var headers := SplitAny(lines[0], {','});
    CsvHeadersText(lines[0]);
    [("CSV Columns", Num(|headers|)), ("CSV Headers", Str(Join(headers, ", "))), ("Row Count", Num(|lines| - 1))]
  }

  /** The CSV header text is the first line with ", " in place of ",". */
  lemma {:induction false} CsvHeadersText(line: string)
    ensures Join(SplitAny(line, {','}), ", ") == ReplaceComma(line)
  {
    if line != [] {
      var rest := SplitAny(line[1..], {','});
      CsvHeadersText(line[1..]);
      if line[0] == ',' {
        JoinEmptyHead(rest, ", ");
      } else {
        JoinConsHead(line[0], rest, ", ");
      }
    }
  }

  /** The line with every "," followed by a space. */
  function ReplaceComma(s: string): string {
    if s == [] then [] else (if s[0] == ',' then ", " else [s[0]]) + ReplaceComma(s[1..])
  }

  /** Joining three pieces. */
  lemma Join3(a: string, b: string, c: string, sep: string)
    ensures Join([a, b, c], sep) == a + sep + b + sep + c
  {
    assert [a, b, c][1..] == [b, c] && [b, c][1..] == [c];
  }

  /** The lines of three carriage-return-free lines joined by line feeds. */
  lemma ThreeLines(a: string, b: string, c: string)
    requires NoneIn(a, {'\n', '\r'}) && NoneIn(b, {'\n', '\r'}) && NoneIn(c, {'\n', '\r'})
    ensures SplitLines(a + "\n" + b + "\n" + c) == [a, b, c]
  {
    var s := a + "\n" + b + "\n" + c;
    Join3(a, b, c, "\n");
    NoneInSubset(a, {'\n', '\r'}, {'\r'});
    NoneInSubset(b, {'\n', '\r'}, {'\r'});
    NoneInSubset(c, {'\n', '\r'}, {'\r'});
    assert NoneIn("\n", {'\r'});
    NoneInConcat(a, "\n", {'\r'});
    NoneInConcat(a + "\n", b, {'\r'});
    NoneInConcat(a + "\n" + b, "\n", {'\r'});
    NoneInConcat(a + "\n" + b + "\n", c, {'\r'});
    SplitLinesWithoutCr(s);
    SplitJoin([a, b, c], '\n');
  }

  /** A header line a,b,c of three comma-free fields. */
  lemma HeaderLine(a: string, b: string, c: string)
    requires NoneIn(a, {'\n', '\r'}) && NoneIn(b, {'\n', '\r'}) && NoneIn(c, {'\n', '\r'})
    requires NoneIn(a, {','}) && NoneIn(b, {','}) && NoneIn(c, {','})
    ensures NoneIn(a + "," + b + "," + c, {'\n', '\r'})
    ensures SplitAny(a + "," + b + "," + c, {','}) == [a, b, c]
  {
    var nl := {'\n', '\r'};
    assert NoneIn(",", nl);
    NoneInConcat(a, ",", nl);
    NoneInConcat(a + ",", b, nl);
    NoneInConcat(a + "," + b, ",", nl);
    NoneInConcat(a + "," + b + ",", c, nl);
    Join3(a, b, c, ",");
    assert forall i :: 0 <= i < |[a, b, c]| ==> NoneIn([a, b, c][i], {','}) by {
      assert [a, b, c][0] == a && [a, b, c][1] == b && [a, b, c][2] == c;
    }
    SplitJoin([a, b, c], ',');
  }

  /** A three-column header line and two rows: 3 columns, the headers joined by ", ", 2 rows. */
  lemma CsvThreeByTwo(a: string, b: string, c: string, r1: string, r2: string)
    requires NoneIn(a, {'\n', '\r'}) && NoneIn(b, {'\n', '\r'}) && NoneIn(c, {'\n', '\r'})
    requires NoneIn(a, {','}) && NoneIn(b, {','}) && NoneIn(c, {','})
    requires NoneIn(r1, {'\n', '\r'}) && NoneIn(r2, {'\n', '\r'})
    ensures CsvFields(SplitLines(a + "," + b + "," + c + "\n" + r1 + "\n" + r2))
      == [("CSV Columns", Num(3)), ("CSV Headers", Str(a + ", " + b + ", " + c)), ("Row Count", Num(2))]
  {
    var header := a + "," + b + "," + c;
    HeaderLine(a, b, c);
    ThreeLines(header, r1, r2);
    assert header + "\n" + r1 + "\n" + r2 == a + "," + b + "," + c + "\n" + r1 + "\n" + r2;
    Join3(a, b, c, ", ");
  }

  // ----- INI -----

  /** The line terminators of ECMAScript, where `^` matches in multiline mode. */
  const TERMINATORS: set<char> := {'\n', '\r', '\U{2028}', '\U{2029}'}

  /** The first index j >= from with line[j] == ']'. */
  function CloseFrom(line: string, from: nat): (r: Option<nat>)
    decreases |line| - from
    ensures r.Some? ==> from <= r.value < |line| && line[r.value] == ']'
    ensures r.Some? ==> forall k :: from <= k < r.value ==> line[k] != ']'
    ensures r.None? ==> forall k :: from <= k < |line| ==> line[k] != ']'
  {
    if from >= |line| then None
    else if line[from] == ']' then Some(from)
    else CloseFrom(line, from + 1)
  }

  /**
    `^\[(.+?)\]` at the start of one line: a "[", then the shortest
    non-empty run of characters that a "]" follows.
  */
  function SectionName(line: string): Option<string> {
    if |line| >= 1 && line[0] == '[' then
      match CloseFrom(line, 2)
      case Some(j) => Some(line[1..j])
      case None => None
    else None
  }

  /** A section name is what stands between "[" and the first "]" after it that leaves it non-empty. */
  lemma SectionNameIff(line: string, name: string)
    ensures SectionName(line) == Some(name) <==>
      |name| >= 1 && |line| >= |name| + 2 && line[..|name| + 2] == "[" + name + "]"
      && forall k :: 1 <= k < |name| ==> name[k] != ']'
  {
    var n := |name|;
    if |name| >= 1 && |line| >= n + 2 && line[..n + 2] == "[" + name + "]"
      && forall k :: 1 <= k < n ==> name[k] != ']' {
      assert line[0] == '[' && line[n + 1] == ']';
      forall k | 2 <= k < n + 1 ensures line[k] != ']' {
        assert line[k] == name[k - 1];
      }
      assert CloseFrom(line, 2) == Some(n + 1) by {
        var c := CloseFrom(line, 2);
        assert c.Some?;
      }
      assert line[1..n + 1] == name;
    }
    if SectionName(line) == Some(name) {
      var j := CloseFrom(line, 2).value;
      assert name == line[1..j];
      assert line[..n + 2] == "[" + name + "]";
      forall k | 1 <= k < n ensures name[k] != ']' {
        assert name[k] == line[k + 1];
      }
    }
  }

  /** The section name of one line, as a list of none or one. */
  function SectionOf(line: string): (names: seq<string>)
    ensures |names| <= 1
    ensures forall i :: 0 <= i < |names| ==> |names[i]| >= 1
  {
    match SectionName(line) case Some(n) => [n] case None => []
  }

  /** The section names of the lines, in order. */
  function SectionsOf(lines: seq<string>): (names: seq<string>)
    ensures |names| <= |lines|
    ensures forall i :: 0 <= i < |names| ==> |names[i]| >= 1
  {
    if lines == [] then [] else SectionOf(lines[0]) + SectionsOf(lines[1..])
  }

  /** The section names of consecutive runs of lines follow one another. */
  lemma {:induction false} SectionsOfAppend(a: seq<string>, b: seq<string>)
    ensures SectionsOf(a + b) == SectionsOf(a) + SectionsOf(b)
  {
    if a == [] {
      assert a + b == b;
    } else {
      var ab := a + b;
      assert ab[0] == a[0] && ab[1..] == a[1..] + b;
      SectionsOfAppend(a[1..], b);
    }
  }

  /** A name is among the section names exactly when some line holds it. */
  lemma {:induction false} SectionsOfMember(lines: seq<string>, name: string)
    ensures name in SectionsOf(lines) <==> exists i :: 0 <= i < |lines| && SectionName(lines[i]) == Some(name)
  {
    if lines != [] {
      SectionsOfMember(lines[1..], name);
      if exists i :: 0 <= i < |lines| && SectionName(lines[i]) == Some(name) {
        var i :| 0 <= i < |lines| && SectionName(lines[i]) == Some(name);
        if i > 0 { assert lines[1..][i - 1] == lines[i]; }
      }
      if exists i :: 0 <= i < |lines| - 1 && SectionName(lines[1..][i]) == Some(name) {
        var i :| 0 <= i < |lines| - 1 && SectionName(lines[1..][i]) == Some(name);
        assert SectionName(lines[i + 1]) == Some(name);
      }
    }
  }

  /** A section name lies inside its line, so it holds no character the line does not. */
  lemma SectionNameInside(line: string, seps: set<char>)
    requires NoneIn(line, seps) && SectionName(line).Some?
    ensures NoneIn(SectionName(line).value, seps)
  {
    var j := CloseFrom(line, 2).value;
    assert forall k :: 0 <= k < j - 1 ==> line[1..j][k] == line[k + 1];
  }

  /** The section names of lines free of some characters are free of them too. */
  lemma {:induction false} SectionsOfFree(lines: seq<string>, seps: set<char>)
    requires forall i :: 0 <= i < |lines| ==> NoneIn(lines[i], seps)
    ensures forall i :: 0 <= i < |SectionsOf(lines)| ==> NoneIn(SectionsOf(lines)[i], seps)
  {
    if lines != [] {
      SectionsOfFree(lines[1..], seps);
      if SectionName(lines[0]).Some? { SectionNameInside(lines[0], seps); }
    }
  }

  /**
    `[...text.matchAll(/^\[(.+?)\]/gm)].map(m => m[1])`.  A match cannot
    cross a line terminator and starts where a line starts, so there is
    at most one per line and the matches are the lines' section names in
    order.
  */
  function SectionNames(text: string): (names: seq<string>)
    ensures |names| <= CountIn(text, TERMINATORS) + 1
    ensures forall i :: 0 <= i < |names| ==> |names[i]| >= 1 && NoneIn(names[i], TERMINATORS)
  {
    var lines := SplitAny(text, TERMINATORS);
    SectionsOfFree(lines, TERMINATORS);
    SectionsOf(lines)
  }

  /**
    The section names of a text are, in order, those of the part before
    a line terminator followed by those of the part after it.
  */
  lemma SectionNamesConcat(a: string, t: char, b: string)
    requires t in TERMINATORS
    ensures SectionNames(a + [t] + b) == SectionNames(a) + SectionNames(b)
  {
    SplitConcat(a, b, TERMINATORS, t);
    assert a + [t] + b == a + ([t] + b);
    SectionsOfAppend(SplitAny(a, TERMINATORS), SplitAny(b, TERMINATORS));
  }

  /**
    A text without line terminators is one line: its only possible
    section name is that line's.
  */
  lemma SectionNamesOfLine(line: string)
    requires NoneIn(line, TERMINATORS)
    ensures SectionNames(line) == SectionOf(line)
  {
    SplitFree(line, TERMINATORS);
    assert [line][1..] == [];
    assert SectionsOf([line]) == SectionOf(line) + SectionsOf([]);
  }

  // ----- Markdown -----

  /** `lines.filter(l => l.startsWith("#")).length`. */
  function HeadingCount(lines: seq<string>): (n: nat)
    ensures n <= |lines|
  {
    if lines == [] then 0
    else HeadingCount(lines[..|lines| - 1]) + (if StartsWith(lines[|lines| - 1], "#") then 1 else 0)
  }

  /** The indices of the heading lines. */
  function HeadingIndices(lines: seq<string>): set<nat> {
    set i: nat | i < |lines| && StartsWith(lines[i], "#")
  }

  /** The heading indices of a longer list: those of its first part, and the last one if it is a heading. */
  lemma HeadingIndicesSnoc(lines: seq<string>)
    requires lines != []
    ensures var last := |lines| - 1;
      HeadingIndices(lines) == HeadingIndices(lines[..last]) + if StartsWith(lines[last], "#") then {last} else {}
  {
    var last := |lines| - 1;
    var init := lines[..last];
    forall i: nat ensures i in HeadingIndices(lines) <==> i in HeadingIndices(init) || (i == last && StartsWith(lines[last], "#")) {
      if i < |init| { assert lines[i] == init[i]; }
    }
  }

  /** The heading count is the number of lines that start with "#", wherever they stand. */
  lemma {:induction false} HeadingCountIsCardinality(lines: seq<string>)
    ensures HeadingCount(lines) == |HeadingIndices(lines)|
  {
    if lines != [] {
      var last := |lines| - 1;
      HeadingCountIsCardinality(lines[..last]);
      HeadingIndicesSnoc(lines);
      assert last !in HeadingIndices(lines[..last]);
    }
  }

  // ----- parseStructuredText -----

  /**
    The fields of `parseStructuredText`.  `json` is the outcome of
    `Object.keys(JSON.parse(text))`, `xml` that of
    `new DOMParser().parseFromString(text, ...).documentElement.nodeName`;
    an Err carries the message the host's exception has.
  */
  function StructuredFields(name: string, text: string,
                            json: Result<seq<string>, string>, xml: Result<string, string>): (kvs: Entries)
    ensures |kvs| >= 1 && kvs[0] == ("Line Count", Num(CountIn(text, {'\n'}) + 1))
    ensures EndsWith(name, ".json") ==> (|kvs| == 2 && kvs[1] ==
      (match json case Ok(keys) => ("Root Keys", Str(Join(keys, ", "))) case Err(m) => ("Parse Error", Str(m))))
    ensures !EndsWith(name, ".json") && EndsWith(name, ".csv") ==> |kvs| == 4 && kvs[1..] == CsvFields(SplitLines(text))
    ensures HasKey(kvs, "Parse Error") ==> (
      || (EndsWith(name, ".json") && json.Err?)
      || (!EndsWith(name, ".json") && (EndsWith(name, ".xml") || EndsWith(name, ".svg")) && xml.Err?))
  {
    var lines := SplitLines(text);
    var refinement :=
      if EndsWith(name, ".json") then
        match json
        case Ok(keys) => [("Root Keys", Str(Join(keys, ", ")))]
        case Err(m) => [("Parse Error", Str(m))]
      else if EndsWith(name, ".xml") || EndsWith(name, ".svg") then
        match xml
        case Ok(tag) => [("Root Tag", Str(tag))]
        case Err(m) => [("Parse Error", Str(m))]
      else if EndsWith(name, ".csv") then CsvFields(lines)
      else if HasExtension(name, {"ini", "cfg"}) then [("Sections", Str(Join(SectionNames(text), ", ")))]
      else if EndsWith(name, ".md") then [("Markdown Headings", Num(HeadingCount(lines)))]
      else [];
    var kvs := [("Line Count", Num(|lines|))] + refinement;
    assert HasKey(kvs, "Parse Error") ==> HasKey(refinement, "Parse Error") by {
      if HasKey(kvs, "Parse Error") {
        var i :| 0 <= i < |kvs| && kvs[i].0 == "Parse Error";
        assert i >= 1 && refinement[i - 1] == kvs[i];
      }
    }
    kvs
  }
}
