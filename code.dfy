/**
  The statistics `parseCodeFile` gathers from a source file: the
  language named by its last extension, and per-line counters of
  comment lines, function and class declarations, and the shebang of
  the first line.  The counters are updated in a loop over the lines.
*/
module CodeStats {
  import opened Strs
  import opened Record
  import opened TextMetrics
  import Dispatch

  /** `languageMap`: the display name of each code extension. */
  const LANGUAGES: map<string, string> := map[
    "js" := "JavaScript", "ts" := "TypeScript", "py" := "Python", "java" := "Java",
    "c" := "C", "cpp" := "C++", "h" := "C Header", "cs" := "C#",
    "html" := "HTML", "css" := "CSS", "sh" := "Shell Script", "bash" := "Bash Script",
    "php" := "PHP", "rb" := "Ruby", "go" := "Go", "rs" := "Rust",
    "swift" := "Swift", "kt" := "Kotlin", "lua" := "Lua", "r" := "R"]

  /** The table's keys are the extensions the dispatcher sends here. */
  lemma LanguageKeys()
    ensures LANGUAGES.Keys == Dispatch.CODE_EXTS
  {
  }

  /** No display name is the fallback "Unknown". */
  lemma LanguageNames()
    ensures forall e :: e in LANGUAGES ==> LANGUAGES[e] != "Unknown"
  {
  }

  /** `languageMap[name.split('.').pop().toLowerCase()] || "Unknown"`. */
  function LanguageOf(name: string): string {
    var ext := ExtensionOf(name);
    if ext in LANGUAGES then LANGUAGES[ext] else "Unknown"
  }

  /**
    A name gets a language exactly when its last extension is one of the
    code extensions, and then it is that extension's display name.
  */
  lemma LanguageOfKnown(name: string)
    ensures LanguageOf(name) != "Unknown" <==> ExtensionOf(name) in Dispatch.CODE_EXTS
    ensures LanguageOf(name) != "Unknown" ==> LanguageOf(name) == LANGUAGES[ExtensionOf(name)]
  {
    LanguageKeys();
    LanguageNames();
  }

  /** Every file the dispatcher routes here has a known language. */
  lemma DispatchedHasLanguage(name: string)
    requires HasExtension(name, Dispatch.CODE_EXTS)
    ensures LanguageOf(name) != "Unknown"
  {
    LanguageOfKnown(name);
  }

  // ----- the per-line tests on the trimmed line -----

  datatype LineTest = Comment | Function | Class

  /** p occurs in s at index i. */
  predicate OccursAt(s: string, p: string, i: int) {
    0 <= i && i + |p| <= |s| && s[i..i + |p|] == p
  }

  /** The characters `\w` matches, on either side of which `\b` holds. */
  predicate IsWordChar(c: char) {
    ('a' <= c <= 'z') || ('A' <= c <= 'Z') || ('0' <= c <= '9') || c == '_'
  }

  /** `\bw\b` at index i, for a word w that starts and ends with a word character. */
  predicate WordAt(s: string, w: string, i: int) {
    OccursAt(s, w, i)
    && (i == 0 || !IsWordChar(s[i - 1]))
    && (i + |w| == |s| || !IsWordChar(s[i + |w|]))
  }

  /** The three regular expressions of the loop: `\bw\b` for a word w, `def\s` and `=>`. */
  datatype Pattern = Word(w: string) | DefSpace | Arrow

  /** The pattern matches s starting at index i. */
  predicate MatchAt(s: string, p: Pattern, i: nat) {
    match p
    case Word(w) => WordAt(s, w, i)
    case DefSpace => OccursAt(s, "def", i) && i + 3 < |s| && IsSpace(s[i + 3])
    case Arrow => OccursAt(s, "=>", i)
  }

  /** The search of `regex.test(s)` from index i on: try each start position in turn. */
  predicate SearchFrom(s: string, p: Pattern, i: nat)
    decreases |s| - i
  {
    i <= |s| && (MatchAt(s, p, i) || SearchFrom(s, p, i + 1))
  }

  /** `regex.test(s)`. */
  predicate Test(s: string, p: Pattern) {
    SearchFrom(s, p, 0)
  }

  /** The search from i succeeds exactly when the pattern matches at some position from i to the end. */
  lemma {:induction false} SearchFromIff(s: string, p: Pattern, i: nat)
    ensures SearchFrom(s, p, i) <==> exists j :: i <= j <= |s| && MatchAt(s, p, j)
    decreases |s| - i
  {
    if i <= |s| {
      SearchFromIff(s, p, i + 1);
      if SearchFrom(s, p, i) && !MatchAt(s, p, i) {
        var j :| i + 1 <= j <= |s| && MatchAt(s, p, j);
        assert i <= j;
      }
      if exists j :: i <= j <= |s| && MatchAt(s, p, j) {
        var j :| i <= j <= |s| && MatchAt(s, p, j);
        if j > i {
          assert i + 1 <= j <= |s| && MatchAt(s, p, j);
        }
      }
    }
  }

  /** `commentSymbols.some(sym => t.startsWith(sym))`. */
  predicate IsCommentLine(t: string) {
    StartsWith(t, "//") || StartsWith(t, "#") || StartsWith(t, "/*") || StartsWith(t, "<!--")
  }

  /** The test a line passes, applied to `line.trim()`. */
  predicate Passes(line: string, test: LineTest) {
    var t := Trim(line);
    match test
    case Comment => IsCommentLine(t)
    case Function => Test(t, Word("function")) || Test(t, DefSpace) || Test(t, Arrow)
    case Class => Test(t, Word("class"))
  }

  /** How many of the lines pass the test. */
  function CountWhere(lines: seq<string>, test: LineTest): (n: nat)
    ensures n <= |lines|
  {
    if lines == [] then 0
    else CountWhere(lines[..|lines| - 1], test) + (if Passes(lines[|lines| - 1], test) then 1 else 0)
  }

  /** Adding a line adds one to the count when it passes. */
  lemma CountWhereAppend(lines: seq<string>, line: string, test: LineTest)
    ensures CountWhere(lines + [line], test) == CountWhere(lines, test) + if Passes(line, test) then 1 else 0
  {
    assert (lines + [line])[..|lines|] == lines;
  }

  /** The indices of the lines that pass. */
  function PassingIndices(lines: seq<string>, test: LineTest): set<nat> {
    set i: nat | i < |lines| && Passes(lines[i], test)
  }

  /** The passing indices of a longer list: those of its first part, and the last one if it passes. */
  lemma PassingIndicesSnoc(lines: seq<string>, test: LineTest)
    requires lines != []
    ensures var last := |lines| - 1;
      PassingIndices(lines, test) == PassingIndices(lines[..last], test)
        + if Passes(lines[last], test) then {last} else {}
  {
    var last := |lines| - 1;
    var init := lines[..last];
    forall i: nat ensures i in PassingIndices(lines, test) <==> i in PassingIndices(init, test) || (i == last && Passes(lines[last], test)) {
      if i < |init| { assert lines[i] == init[i]; }
    }
  }

  /** The count is the number of passing lines, whatever their order. */
  lemma {:induction false} CountWhereIsCardinality(lines: seq<string>, test: LineTest)
    ensures CountWhere(lines, test) == |PassingIndices(lines, test)|
  {
    if lines != [] {
      var last := |lines| - 1;
      CountWhereIsCardinality(lines[..last], test);
      PassingIndicesSnoc(lines, test);
      assert last !in PassingIndices(lines[..last], test);
    }
  }

  /** `shebang`: the trimmed first line when it starts with "#!", else "". */
  function ShebangOf(lines: seq<string>): string {
    if |lines| > 0 && StartsWith(Trim(lines[0]), "#!") then Trim(lines[0]) else ""
  }

  /** A shebang line is one of the comment lines. */
  lemma ShebangIsComment(lines: seq<string>)
    requires ShebangOf(lines) != ""
    ensures CountWhere(lines, Comment) >= 1
  {
    var t := Trim(lines[0]);
    assert StartsWith(t, "#");
    assert Passes(lines[0], Comment);
    assert PassingIndices(lines, Comment) != {} by {
      assert 0 in PassingIndices(lines, Comment);
    }
    CountWhereIsCardinality(lines, Comment);
  }

  datatype LineStats = LineStats(comments: nat, functions: nat, classes: nat, shebang: string)

  /** The counters after the `forEach` over all lines. */
  function Tally(lines: seq<string>): LineStats {
    LineStats(CountWhere(lines, Comment), CountWhere(lines, Function), CountWhere(lines, Class), ShebangOf(lines))
  }

  /** The body of the `forEach` callback up to the counter updates: trim the line and test it. */
  method TestLine(line: string) returns (trimmed: string, isComment: bool, isFunction: bool, isClass: bool)
    ensures trimmed == Trim(line)
    ensures isComment == Passes(line, Comment)
    ensures isFunction == Passes(line, Function)
    ensures isClass == Passes(line, Class)
  {
    trimmed := Trim(line);
    isComment := IsCommentLine(trimmed);
    isFunction := Test(trimmed, Word("function")) || Test(trimmed, DefSpace) || Test(trimmed, Arrow);
    isClass := Test(trimmed, Word("class"));
  }

  /**
    One more line: each count grows by one when the line passes its
    test, and the first line alone decides the shebang.
  */
  lemma TallyStep(lines: seq<string>, index: nat, trimmed: string)
    requires index < |lines| && trimmed == Trim(lines[index])
    ensures var before := Tally(lines[..index]);
      Tally(lines[..index + 1]) == LineStats(
        before.comments + (if Passes(lines[index], Comment) then 1 else 0),
        before.functions + (if Passes(lines[index], Function) then 1 else 0),
        before.classes + (if Passes(lines[index], Class) then 1 else 0),
        if index == 0 && StartsWith(trimmed, "#!") then trimmed else before.shebang)
  {
    var done := lines[..index];
    assert lines[..index + 1] == done + [lines[index]];
    CountWhereAppend(done, lines[index], Comment);
    CountWhereAppend(done, lines[index], Function);
    CountWhereAppend(done, lines[index], Class);
    if index > 0 {
      assert lines[..index + 1][0] == done[0];
    }
  }

  /** The callback `(line, index) => { ... }` of `lines.forEach`, on the counters it updates. */
  method VisitLine(lines: seq<string>, index: nat, counters: LineStats) returns (next: LineStats)
    requires index < |lines| && counters == Tally(lines[..index])
    ensures next == Tally(lines[..index + 1])
  {
    var commentLines, functionCount, classCount, shebang :=
      counters.comments, counters.functions, counters.classes, counters.shebang;
    var trimmed, isComment, isFunction, isClass := TestLine(lines[index]);
    TallyStep(lines, index, trimmed);
    if index == 0 && StartsWith(trimmed, "#!") {
      shebang := trimmed;
    }
    if isComment {
      commentLines := commentLines + 1;
    }
    if isFunction {
      functionCount := functionCount + 1;
    }
    if isClass {
      classCount := classCount + 1;
    }
    next := LineStats(commentLines, functionCount, classCount, shebang);
  }

  /** The `lines.forEach` loop, from zeroed counters and an empty shebang. */
  method TallyLines(lines: seq<string>) returns (stats: LineStats)
    ensures stats == Tally(lines)
  {
    stats := LineStats(0, 0, 0, "");
    var index := 0;
    while index < |lines|
      invariant 0 <= index <= |lines|
      invariant stats == Tally(lines[..index])
    {
      stats := VisitLine(lines, index, stats);
      index := index + 1;
    }
    assert lines[..index] == lines;
  }

  // ----- a few consequences of the tests -----

  /**
    A word with no white space at its ends, standing between non-word
    characters, is found in the trimmed line, however much white space
    surrounds it.
  */
  lemma WordBetweenBoundaries(pre: string, w: string, post: string)
    requires |w| > 0 && !IsSpace(w[0]) && !IsSpace(w[|w| - 1])
    requires pre == [] || !IsWordChar(pre[|pre| - 1])
    requires post == [] || !IsWordChar(post[0])
    ensures Test(Trim(pre + w + post), Word(w))
  {
    var s := pre + w + post;
    InfixTrimmed(pre, w, post);
    var r := Trim(s);
    var j := |pre| - (|s| - |TrimStart(s)|);
    assert MatchAt(r, Word(w), j);
    SearchFromIff(r, Word(w), 0);
  }

  /** A line where "class" stands between non-word characters is a class line. */
  lemma ClassBetweenBoundaries(pre: string, post: string)
    requires pre == [] || !IsWordChar(pre[|pre| - 1])
    requires post == [] || !IsWordChar(post[0])
    ensures Passes(pre + "class" + post, Class)
  {
    WordBetweenBoundaries(pre, "class", post);
  }

  /** "class" right after a word character is not a word there, as in "subclass". */
  lemma NoWordAfterWordChar(s: string, i: int)
    requires 0 < i <= |s| && IsWordChar(s[i - 1])
    ensures !WordAt(s, "class", i)
  {
  }

  /** Any line containing "=>" is a function line. */
  lemma ArrowIsFunction(pre: string, post: string)
    ensures Passes(pre + "=>" + post, Function)
  {
    var s := pre + "=>" + post;
    InfixTrimmed(pre, "=>", post);
    var r := Trim(s);
    var j := |pre| - (|s| - |TrimStart(s)|);
    assert MatchAt(r, Arrow, j);
    SearchFromIff(r, Arrow, 0);
  }

  // ----- the fields -----

  /** Joining a prefix of the parts gives a prefix of the joined text. */
  lemma {:induction false} JoinTakePrefix(parts: seq<string>, n: nat, sep: string)
    ensures Join(Take(parts, n), sep) <= Join(parts, sep)
  {
    if n < |parts| && n > 0 && |parts| > 1 {
      var rest := parts[1..];
      assert Take(parts, n) == [parts[0]] + Take(rest, n - 1);
      JoinTakePrefix(rest, n - 1, sep);
      if n == 1 {
        assert Join(Take(parts, n), sep) == parts[0];
      } else {
        assert Take(parts, n)[1..] == Take(rest, n - 1);
      }
    }
  }

  /**
    The fields `parseCodeFile` writes, in order; `ratioText(c, n)` is the
    host's `((c / n) * 100).toFixed(1)`.
  */
  function CodeFields(name: string, text: string, stats: LineStats, ratioText: (nat, nat) -> string): (kvs: Entries)
    ensures |kvs| == (if stats.shebang != "" then 8 else 7)
    ensures kvs[0] == ("Programming Language", Str(LanguageOf(name)))
    ensures kvs[1] == ("Total Lines", Num(CountIn(text, {'\n'}) + 1))
    ensures kvs[2] == ("Function Count", Num(stats.functions))
    ensures kvs[3] == ("Class Count", Num(stats.classes))
    ensures kvs[4] == ("Comment Lines", Num(stats.comments))
    ensures kvs[5] == ("Comment Ratio", Str(ratioText(stats.comments, CountIn(text, {'\n'}) + 1) + "%"))
    ensures stats.shebang != "" ==> kvs[6] == ("Shebang", Str(stats.shebang))
    ensures kvs[|kvs| - 1] == ("Preview", Str(ShowBreaks(LeadingLines(text, 10), "\n")))
    ensures UniqueKeys(kvs)
  {
    var total := |SplitLines(text)|;
    [("Programming Language", Str(LanguageOf(name))),
     ("Total Lines", Num(total)),
     ("Function Count", Num(stats.functions)),
     ("Class Count", Num(stats.classes)),
     ("Comment Lines", Num(stats.comments)),
     ("Comment Ratio", Str(ratioText(stats.comments, total) + "%"))]
    + (if stats.shebang != "" then [("Shebang", Str(stats.shebang))] else [])
    + [("Preview", Str(FirstLines(text, 10, "\n")))]
  }

  /**
    The preview is the start of the text with its line breaks written as
    "\n": all of it when the text has at most ten lines, and otherwise
    just the first ten.
  */
  lemma PreviewIsPrefix(name: string, text: string, stats: LineStats, ratioText: (nat, nat) -> string)
    ensures var kvs := CodeFields(name, text, stats, ratioText);
      && kvs[|kvs| - 1].1.Str?
      && kvs[|kvs| - 1].1.s <= ShowBreaks(text, "\n")
      && (CountIn(text, {'\n'}) < 10 ==> kvs[|kvs| - 1].1.s == ShowBreaks(text, "\n"))
      && (CountIn(text, {'\n'}) >= 10 ==>
            && kvs[|kvs| - 1].1.s == ShowBreaks(LeadingLines(text, 10), "\n")
            && CountIn(LeadingLines(text, 10), {'\n'}) == 9
            && BreakAfter(text, LeadingLines(text, 10)))
  {
    var lines := SplitLines(text);
    JoinTakeLines(text, 10, "\n");
    JoinTakePrefix(lines, 10, "\n");
    JoinSplitLines(text, "\n");
    if CountIn(text, {'\n'}) < 10 {
      LeadingLinesAll(text, 10);
    } else {
      LeadingLinesCount(text, 10);
      LeadingLinesBreak(text, 10);
    }
  }
}
