/**
  The string operations of `script.js`, on `string` = `seq<char>`:
  `startsWith`/`endsWith`, ASCII case folding for the `/i` regular
  expressions over file names, `Array.prototype.join`,
  `String.prototype.split` on single-character separators, `trim`, and
  the rendering of non-negative integers by `Number.prototype.toString`
  in base 10 and base 16.
*/
module Strs {

  predicate StartsWith(s: string, p: string) {
    |p| <= |s| && s[..|p|] == p
  }

  predicate EndsWith(s: string, p: string) {
    |p| <= |s| && s[|s| - |p|..] == p
  }

  function LowerChar(c: char): char {
    if 'A' <= c <= 'Z' then (c as int + 32) as char else c
  }

  /**
    ASCII lower-casing.  A non-unicode `/i` regular expression compares
    characters after upper-casing them, but never maps a non-ASCII
    character onto an ASCII one, so matching an all-ASCII pattern
    case-insensitively is matching it against the ASCII-lowered input.
  */
  function LowerAscii(s: string): (r: string)
    ensures |r| == |s|
  {
    if s == [] then [] else [LowerChar(s[0])] + LowerAscii(s[1..])
  }

  /** Lower-casing works character by character. */
  lemma {:induction false} LowerAsciiAt(s: string, i: nat)
    requires i < |s|
    ensures LowerAscii(s)[i] == LowerChar(s[i])
  {
    if i > 0 {
      LowerAsciiAt(s[1..], i - 1);
    }
  }

  /** A string with no upper-case ASCII letter is its own lower-casing. */
  lemma LowerAsciiOfLower(s: string)
    requires forall i :: 0 <= i < |s| ==> !('A' <= s[i] <= 'Z')
    ensures LowerAscii(s) == s
  {
  }

  /** `parts.join(sep)`. */
  function Join(parts: seq<string>, sep: string): (r: string)
    ensures |parts| == 1 ==> r == parts[0]
  {
    if parts == [] then []
    else if |parts| == 1 then parts[0]
    else parts[0] + sep + Join(parts[1..], sep)
  }

  /** `arr.slice(0, n)`. */
  function Take<T>(s: seq<T>, n: nat): (r: seq<T>)
    ensures |r| == if n < |s| then n else |s|
    ensures forall i :: 0 <= i < |r| ==> r[i] == s[i]
  {
    if n < |s| then s[..n] else s
  }

  /** Taking from a sequence with one more element in front. */
  lemma TakeCons<T>(x: T, xs: seq<T>, n: nat)
    requires n >= 1
    ensures Take([x] + xs, n) == [x] + Take(xs, n - 1)
  {
    if n < |[x] + xs| {
      assert ([x] + xs)[..n] == [x] + xs[..n - 1];
    }
  }

  /** How many characters of s are in seps. */
  function CountIn(s: string, seps: set<char>): nat {
    if s == [] then 0 else (if s[0] in seps then 1 else 0) + CountIn(s[1..], seps)
  }

  /** The middle part of a concatenation of three. */
  lemma Infix(pre: string, w: string, post: string)
    ensures (pre + w + post)[|pre|..|pre| + |w|] == w
  {
    assert pre + w + post == pre + (w + post);
  }

  /** Counting in a string with one more character in front. */
  lemma CountInCons(c: char, t: string, seps: set<char>)
    ensures CountIn([c] + t, seps) == (if c in seps then 1 else 0) + CountIn(t, seps)
  {
    assert ([c] + t)[1..] == t;
  }

  predicate NoneIn(s: string, seps: set<char>) {
    forall i :: 0 <= i < |s| ==> s[i] !in seps
  }

  /** Concatenations of strings free of seps are free of seps. */
  lemma NoneInConcat(a: string, b: string, seps: set<char>)
    requires NoneIn(a, seps) && NoneIn(b, seps)
    ensures NoneIn(a + b, seps)
  {
    assert forall i :: 0 <= i < |a + b| ==> (a + b)[i] == if i < |a| then a[i] else b[i - |a|];
  }

  /**
    `s.split(c)` for a one-character separator c is SplitAny(s, {c}): the
    pieces between separators, the empty string included, so there is
    always one more piece than there are separators.
  */
  function SplitAny(s: string, seps: set<char>): (parts: seq<string>)
    ensures |parts| == CountIn(s, seps) + 1
    ensures forall i :: 0 <= i < |parts| ==> NoneIn(parts[i], seps)
  {
    if s == [] then [[]]
    else
      var rest := SplitAny(s[1..], seps);
      if s[0] in seps then [[]] + rest
      else [[s[0]] + rest[0]] + rest[1..]
  }

  /** Joining the pieces of a split with the separator gives the string back. */
  lemma {:induction false} JoinSplit(s: string, c: char)
    ensures Join(SplitAny(s, {c}), [c]) == s
  {
    if s != [] {
      var rest := SplitAny(s[1..], {c});
      JoinSplit(s[1..], c);
      if s[0] == c {
        assert SplitAny(s, {c}) == [[]] + rest;
      } else {
        assert SplitAny(s, {c}) == [[s[0]] + rest[0]] + rest[1..];
        JoinConsHead(s[0], rest, [c]);
      }
    }
  }

  /** Prepending a character to the first piece prepends it to the joined string. */
  lemma JoinConsHead(x: char, parts: seq<string>, sep: string)
    requires |parts| > 0
    ensures Join([[x] + parts[0]] + parts[1..], sep) == [x] + Join(parts, sep)
  {
    var ps := [[x] + parts[0]] + parts[1..];
    assert ps[1..] == parts[1..];
  }

  /** Splitting a join of separator-free pieces gives the pieces back. */
  lemma {:induction false} SplitJoin(parts: seq<string>, c: char)
    requires |parts| > 0
    requires forall i :: 0 <= i < |parts| ==> NoneIn(parts[i], {c})
    ensures SplitAny(Join(parts, [c]), {c}) == parts
  {
    if |parts| == 1 {
      SplitFree(parts[0], {c});
    } else {
      SplitJoin(parts[1..], c);
      assert Join(parts, [c]) == parts[0] + ([c] + Join(parts[1..], [c]));
      SplitConcat(parts[0], Join(parts[1..], [c]), {c}, c);
      SplitFree(parts[0], {c});
    }
  }

  /** A string without separators is its own single piece. */
  lemma {:induction false} SplitFree(s: string, seps: set<char>)
    requires NoneIn(s, seps)
    ensures SplitAny(s, seps) == [s]
  {
    if s != [] {
      assert NoneIn(s[1..], seps) by {
        forall i | 0 <= i < |s| - 1 ensures s[1..][i] !in seps {
          assert s[1..][i] == s[i + 1];
        }
      }
      SplitFree(s[1..], seps);
      assert s[0] !in seps;
      assert [s[0]] + s[1..] == s;
    }
  }

  /** Splitting a + [c] + b at a separator c splits a and b independently. */
  lemma {:induction false} SplitConcat(a: string, b: string, seps: set<char>, c: char)
    requires c in seps
    ensures SplitAny(a + ([c] + b), seps) == SplitAny(a, seps) + SplitAny(b, seps)
  {
    var s := a + ([c] + b);
    if a == [] {
      assert s[1..] == b;
    } else {
      assert s[1..] == a[1..] + ([c] + b);
      SplitConcat(a[1..], b, seps, c);
    }
  }

  /** The last piece of a split is what follows the last separator. */
  lemma LastPieceOfConcat(a: string, b: string, c: char)
    requires NoneIn(b, {c})
    ensures var parts := SplitAny(a + ([c] + b), {c}); parts[|parts| - 1] == b
  {
    SplitConcat(a, b, {c}, c);
    SplitFree(b, {c});
  }

  // ----- File-name extensions -----

  /** `s.split(c).pop()`: what follows the last c (all of s when there is none). */
  function LastPiece(s: string, seps: set<char>): string {
    var parts := SplitAny(s, seps);
    parts[|parts| - 1]
  }

  /** `name.split('.').pop().toLowerCase()`, lower-casing ASCII letters only. */
  function ExtensionOf(name: string): string {
    LowerAscii(LastPiece(name, {'.'}))
  }

  /**
    `/\.(e1|e2|...)$/i` over a file name, for lower-case extensions
    without dots: the name has a dot and the (lower-cased) text after the
    last dot is one of them.  ExtensionRegex shows this is the regular
    expression's suffix test.
  */
  predicate HasExtension(name: string, exts: set<string>) {
    CountIn(name, {'.'}) > 0 && ExtensionOf(name) in exts
  }

  /** The last piece of a split is a suffix, preceded by a separator when there is one. */
  lemma {:induction false} LastPieceSuffix(s: string, seps: set<char>)
    ensures var b := LastPiece(s, seps);
      |b| <= |s| && s[|s| - |b|..] == b
      && (CountIn(s, seps) == 0 ==> b == s)
      && (CountIn(s, seps) > 0 ==> |b| < |s| && s[|s| - |b| - 1] in seps)
  {
    if s != [] {
      var t := s[1..];
      LastPieceSuffix(t, seps);
      var bt := LastPiece(t, seps);
      assert t[|t| - |bt|..] == s[|s| - |bt|..];
      if s[0] in seps {
        assert LastPiece(s, seps) == bt;
      } else if CountIn(t, seps) == 0 {
        assert LastPiece(s, seps) == [s[0]] + bt;
        assert [s[0]] + t == s;
      } else {
        assert LastPiece(s, seps) == bt;
      }
    }
  }

  /** A separator at some position means the split has more than one piece. */
  lemma {:induction false} CountInPositive(s: string, seps: set<char>, k: nat)
    requires k < |s| && s[k] in seps
    ensures CountIn(s, seps) > 0
  {
    if k > 0 {
      CountInPositive(s[1..], seps, k - 1);
    }
  }

  lemma {:induction false} LowerAsciiSuffix(s: string, k: nat)
    requires k <= |s|
    ensures LowerAscii(s[k..]) == LowerAscii(s)[k..]
  {
    if k == 0 {
      assert s[k..] == s;
    } else {
      LowerAsciiSuffix(s[1..], k - 1);
      assert s[1..][k - 1..] == s[k..];
    }
  }

  /** Lower-casing never produces a dot from anything but a dot. */
  lemma LowerDotFree(b: string, e: string)
    requires LowerAscii(b) == e && NoneIn(e, {'.'})
    ensures NoneIn(b, {'.'})
  {
    forall i | 0 <= i < |b| ensures b[i] != '.' {
      LowerAsciiAt(b, i);
    }
  }

  /** A string cut around position k. */
  lemma CutAt(s: string, k: nat)
    requires k < |s|
    ensures s == s[..k] + ([s[k]] + s[k + 1..])
  {
    assert s[k..] == [s[k]] + s[k + 1..];
    assert s == s[..k] + s[k..];
  }

  /** The suffix of a lower-cased string, minus its first character. */
  lemma LowerAsciiSuffixTail(s: string, k: nat, p: string)
    requires k < |s| && LowerAscii(s)[k..] == p
    ensures |p| > 0 && LowerChar(s[k]) == p[0] && LowerAscii(s[k + 1..]) == p[1..]
  {
    LowerAsciiSuffix(s, k + 1);
    LowerAsciiAt(s, k);
    assert LowerAscii(s)[k + 1..] == LowerAscii(s)[k..][1..];
  }

  /** An ASCII-lowered name ending in "." + e has a dot and extension e. */
  lemma ExtensionRegexOnly(name: string, e: string)
    requires NoneIn(e, {'.'}) && EndsWith(LowerAscii(name), "." + e)
    ensures CountIn(name, {'.'}) > 0 && ExtensionOf(name) == e
  {
    var k := |name| - |e| - 1;
    LowerAsciiSuffixTail(name, k, "." + e);
    assert ("." + e)[1..] == e;
    assert name[k] == '.';
    CountInPositive(name, {'.'}, k);
    LowerDotFree(name[k + 1..], e);
    CutAt(name, k);
    LastPieceOfConcat(name[..k], name[k + 1..], '.');
  }

  /** The lower-cased suffix from position k - 1. */
  lemma LowerAsciiSuffixCons(s: string, k: nat)
    requires 0 < k <= |s|
    ensures LowerAscii(s)[k - 1..] == [LowerChar(s[k - 1])] + LowerAscii(s[k..])
  {
    LowerAsciiSuffix(s, k - 1);
    assert s[k - 1..][1..] == s[k..];
  }

  /** A name with a dot and extension e ends, ASCII-lowered, in "." + e. */
  lemma ExtensionRegexIf(name: string, e: string)
    requires CountIn(name, {'.'}) > 0 && ExtensionOf(name) == e
    ensures EndsWith(LowerAscii(name), "." + e)
  {
    var b := LastPiece(name, {'.'});
    LastPieceSuffix(name, {'.'});
    var k := |name| - |b|;
    LowerAsciiSuffixCons(name, k);
    assert name[k..] == b && name[k - 1] == '.';
  }

  /**
    The extension test is the regular expression `/\.e$/i`: the
    ASCII-lowered name ends with "." + e exactly when the name has a dot
    and its lower-cased last piece is e.
  */
  lemma ExtensionRegex(name: string, e: string)
    requires NoneIn(e, {'.'})
    ensures EndsWith(LowerAscii(name), "." + e) <==> CountIn(name, {'.'}) > 0 && ExtensionOf(name) == e
  {
    if EndsWith(LowerAscii(name), "." + e) { ExtensionRegexOnly(name, e); }
    if CountIn(name, {'.'}) > 0 && ExtensionOf(name) == e { ExtensionRegexIf(name, e); }
  }

  /**
    HasExtension is the alternation `/\.(e1|e2|...)$/i` over a set of
    dot-free extensions.
  */
  lemma HasExtensionRegex(name: string, exts: set<string>)
    requires forall e :: e in exts ==> NoneIn(e, {'.'})
    ensures HasExtension(name, exts) <==> exists e :: e in exts && EndsWith(LowerAscii(name), "." + e)
  {
    if HasExtension(name, exts) {
      ExtensionRegex(name, ExtensionOf(name));
    }
    forall e | e in exts && EndsWith(LowerAscii(name), "." + e) ensures HasExtension(name, exts) {
      ExtensionRegex(name, e);
    }
  }

  /** The extension of base + "." + ext, for a dot-free ext. */
  lemma ExtensionOfDotted(base: string, ext: string)
    requires NoneIn(ext, {'.'})
    ensures CountIn(base + ("." + ext), {'.'}) > 0
    ensures ExtensionOf(base + ("." + ext)) == LowerAscii(ext)
  {
    CountInPositive(base + ("." + ext), {'.'}, |base|);
    assert base + ("." + ext) == base + (['.'] + ext);
    LastPieceOfConcat(base, ext, '.');
  }

  // ----- Number.prototype.toString(radix) for non-negative integers -----

  /** The digit character of d < 16, lower case as JavaScript writes it. */
  function DigitChar(d: nat): char
    requires d < 16
  {
    if d < 10 then ('0' as int + d) as char else ('a' as int + d - 10) as char
  }

  function DigitValue(c: char): nat {
    if '0' <= c <= '9' then c as int - '0' as int
    else if 'a' <= c <= 'f' then c as int - 'a' as int + 10
    else 0
  }

  predicate IsDigitOf(c: char, radix: nat) {
    ('0' <= c <= '9' && c as int - '0' as int < radix) || ('a' <= c <= 'f' && c as int - 'a' as int + 10 < radix)
  }

  /** The digits of n in the given radix, most significant first, with no leading zero. */
  function ToRadix(n: nat, radix: nat): (s: string)
    requires 2 <= radix <= 16
    ensures |s| >= 1 && (|s| > 1 ==> s[0] != '0')
    ensures forall i :: 0 <= i < |s| ==> IsDigitOf(s[i], radix)
  {
    if n < radix then [DigitChar(n)]
    else
      DivModRadix(n, radix);
      ToRadix(n / radix, radix) + [DigitChar(n % radix)]
  }

  lemma DivModRadix(n: nat, radix: nat)
    requires 2 <= radix <= n
    ensures 1 <= n / radix < n && n % radix < radix
    ensures n == n / radix * radix + n % radix
  {
  }

  /** The value of a digit string, most significant first; the reading back of ToRadix. */
  function FromRadix(s: string, radix: nat): nat {
    if s == [] then 0 else FromRadix(s[..|s| - 1], radix) * radix + DigitValue(s[|s| - 1])
  }

  lemma {:induction false} FromToRadix(n: nat, radix: nat)
    requires 2 <= radix <= 16
    ensures FromRadix(ToRadix(n, radix), radix) == n
  {
    if n >= radix {
      DivModRadix(n, radix);
      var s := ToRadix(n, radix);
      assert s[..|s| - 1] == ToRadix(n / radix, radix);
      FromToRadix(n / radix, radix);
    }
  }

  /** `String(n)` for a non-negative integer. */
  function Decimal(n: nat): string { ToRadix(n, 10) }

  /** `n.toString(16)`: lower-case hexadecimal without padding. */
  function Hex(n: nat): string { ToRadix(n, 16) }

  // ----- String.prototype.trim -----

  /**
    The characters ECMAScript calls WhiteSpace or LineTerminator: what
    `trim` strips and what `\s` matches.
  */
  predicate IsSpace(c: char) {
    c == ' ' || c == '\t' || c == '\n' || c == '\r' || c == '\U{000B}' || c == '\U{000C}'
    || c == '\U{00A0}' || c == '\U{1680}' || ('\U{2000}' <= c <= '\U{200A}')
    || c == '\U{2028}' || c == '\U{2029}' || c == '\U{202F}' || c == '\U{205F}'
    || c == '\U{3000}' || c == '\U{FEFF}'
  }

  /** `s.trimStart()`: s without its leading white space. */
  function TrimStart(s: string): (r: string)
    ensures |r| <= |s|
  {
    if s != [] && IsSpace(s[0]) then TrimStart(s[1..]) else s
  }

  /** `s.trimEnd()`: s without its trailing white space. */
  function TrimEnd(s: string): (r: string)
    ensures |r| <= |s|
  {
    if s != [] && IsSpace(s[|s| - 1]) then TrimEnd(s[..|s| - 1]) else s
  }

  /** `s.trim()`: both ends stripped. */
  function Trim(s: string): string {
    TrimEnd(TrimStart(s))
  }

  /** trimStart drops a run of white space and nothing else. */
  lemma {:induction false} TrimStartSpec(s: string)
    ensures var r := TrimStart(s);
      && r == s[|s| - |r|..]
      && (forall k :: 0 <= k < |s| - |r| ==> IsSpace(s[k]))
      && (r == [] || !IsSpace(r[0]))
  {
    if s != [] && IsSpace(s[0]) {
      TrimStartSpec(s[1..]);
      var r := TrimStart(s[1..]);
      forall k | 0 <= k < |s| - |r| ensures IsSpace(s[k]) {
        if k > 0 { assert s[k] == s[1..][k - 1]; }
      }
      assert s[1..][|s| - 1 - |r|..] == s[|s| - |r|..];
    }
  }

  /** trimEnd drops a run of white space and nothing else. */
  lemma {:induction false} TrimEndSpec(s: string)
    ensures var r := TrimEnd(s);
      && r == s[..|r|]
      && (forall k :: |r| <= k < |s| ==> IsSpace(s[k]))
      && (r == [] || !IsSpace(r[|r| - 1]))
  {
    if s != [] && IsSpace(s[|s| - 1]) {
      var init := s[..|s| - 1];
      TrimEndSpec(init);
      var r := TrimEnd(init);
      forall k | |r| <= k < |s| ensures IsSpace(s[k]) {
        if k < |s| - 1 { assert s[k] == init[k]; }
      }
      assert init[..|r|] == s[..|r|];
    }
  }

  /**
    `s.trim()` is the part of s between a run of leading and a run of
    trailing white space, and neither of its ends is white space.
  */
  lemma TrimSpec(s: string)
    ensures var r := Trim(s); var lead := |s| - |TrimStart(s)|;
      && lead + |r| <= |s| && r == s[lead..lead + |r|]
      && (forall k :: 0 <= k < lead ==> IsSpace(s[k]))
      && (forall k :: lead + |r| <= k < |s| ==> IsSpace(s[k]))
      && (r == [] || (!IsSpace(r[0]) && !IsSpace(r[|r| - 1])))
  {
    var m := TrimStart(s);
    var r := Trim(s);
    TrimStartSpec(s);
    TrimEndSpec(m);
    var lead := |s| - |m|;
    assert r == TrimEnd(m);
    assert r == m[..|r|];
    assert s[lead..lead + |r|] == r;
    forall k | lead + |r| <= k < |s| ensures IsSpace(s[k]) {
      assert s[k] == m[k - lead];
    }
    if r != [] {
      assert r[0] == m[..|r|][0] == m[0];
    }
  }

  /** A window of a slice r of s, at j in r, is the same window of s. */
  lemma SliceWindow(s: string, r: string, lead: nat, j: nat, m: nat)
    requires lead + |r| <= |s| && r == s[lead..lead + |r|] && j + m <= |r|
    ensures r[j..j + m] == s[lead + j..lead + j + m]
    ensures j > 0 ==> r[j - 1] == s[lead + j - 1]
    ensures j + m < |r| ==> r[j + m] == s[lead + j + m]
  {
    var rw, sw := r[j..j + m], s[lead + j..lead + j + m];
    forall k | 0 <= k < m ensures rw[k] == sw[k] {
      assert r[j + k] == s[lead..lead + |r|][j + k] == s[lead + j + k];
    }
    assert rw == sw;
  }

  /**
    A window of s that starts and ends with a character other than white
    space survives trimming whole, and so do its neighbours that
    trimming keeps.
  */
  lemma TrimWindow(s: string, i: nat, m: nat)
    requires 0 < m && i + m <= |s| && !IsSpace(s[i]) && !IsSpace(s[i + m - 1])
    ensures var r := Trim(s); var j := i - (|s| - |TrimStart(s)|);
      && 0 <= j && j + m <= |r| && r[j..j + m] == s[i..i + m]
      && (j > 0 ==> r[j - 1] == s[i - 1])
      && (j + m < |r| ==> r[j + m] == s[i + m])
  {
    TrimSpec(s);
    WindowKept(s, Trim(s), |s| - |TrimStart(s)|, i, m);
  }

  /**
    A window of s that starts and ends with a character other than white
    space lies inside any slice r of s outside which there is only white
    space.
  */
  lemma WindowKept(s: string, r: string, lead: nat, i: nat, m: nat)
    requires lead + |r| <= |s| && r == s[lead..lead + |r|]
    requires forall k :: 0 <= k < lead ==> IsSpace(s[k])
    requires forall k :: lead + |r| <= k < |s| ==> IsSpace(s[k])
    requires 0 < m && i + m <= |s| && !IsSpace(s[i]) && !IsSpace(s[i + m - 1])
    ensures var j := i - lead;
      && 0 <= j && j + m <= |r| && r[j..j + m] == s[i..i + m]
      && (j > 0 ==> r[j - 1] == s[i - 1])
      && (j + m < |r| ==> r[j + m] == s[i + m])
  {
    KeptByTrim(s, lead, |r|, i);
    KeptByTrim(s, lead, |r|, i + m - 1);
    SliceWindow(s, r, lead, i - lead, m);
    assert lead + (i - lead) == i;
  }

  /** A character that is not white space lies between the leading and the trailing white space. */
  lemma KeptByTrim(s: string, lead: nat, len: nat, i: nat)
    requires lead + len <= |s| && i < |s| && !IsSpace(s[i])
    requires forall k :: 0 <= k < lead ==> IsSpace(s[k])
    requires forall k :: lead + len <= k < |s| ==> IsSpace(s[k])
    ensures lead <= i < lead + len
  {
  }

  /**
    A word w with no white space at its ends, standing between pre and
    post, is still there after trimming, between the last character of
    pre (if trimming kept any) and the first of post (likewise).
  */
  lemma InfixTrimmed(pre: string, w: string, post: string)
    requires |w| > 0 && !IsSpace(w[0]) && !IsSpace(w[|w| - 1])
    ensures var s := pre + w + post; var r := Trim(s); var j := |pre| - (|s| - |TrimStart(s)|);
      && 0 <= j && j + |w| <= |r| && r[j..j + |w|] == w
      && (j > 0 ==> r[j - 1] == pre[|pre| - 1])
      && (j + |w| < |r| ==> r[j + |w|] == post[0])
  {
    var s := pre + w + post;
    var i := |pre|;
    Infix(pre, w, post);
    assert s[i] == w[0] && s[i + |w| - 1] == w[|w| - 1];
    assert i > 0 ==> s[i - 1] == pre[|pre| - 1];
    assert i + |w| < |s| ==> s[i + |w|] == post[0];
    TrimWindow(s, i, |w|);
  }

  /** A string with no white space at either end is its own trimming. */
  lemma TrimNoSpaces(s: string)
    requires s == [] || (!IsSpace(s[0]) && !IsSpace(s[|s| - 1]))
    ensures Trim(s) == s
  {
  }
}
