/**
 * The global regular-expression replacements of the sheet evaluator, modelled as
 * `String.prototype.replace(/.../g, replacement)`: the subject is scanned from the left;
 * where the pattern matches, the replacement is emitted and the scan resumes after the
 * match; elsewhere one character is copied. Matching looks at the original subject only,
 * so `\b` sees the characters before the current position.
 *
 * Each pattern below is matched by hand at one position. None of them can profit from
 * backtracking: wherever a greedy part is shortened, the next part of the pattern would
 * have to start on a character of the class just given up, which it cannot match.
 */
module Regex {
  import opened Wrappers
  import opened Text

  datatype Pattern =
    | WholeWord(word: string, ignoreCase: bool, replacement: string)   // /\bWORD\b/g (/gi) -> REPLACEMENT
    | SpaceRun(replacement: string)                                    // /\s+/g -> REPLACEMENT
    | SymbolThenNumber(symbol: char, code: string)            // /SYM\s*([\d\.]+)/g -> "$1 CODE"
    | NumberThenSymbol(symbol: char, code: string)            // /([\d\.]+)\s*SYM/g -> "$1 CODE"
    | Symbol(symbol: char, code: string)                      // /SYM/g -> CODE
    | SpacedWord(word: string, replacement: string)                    // /\s+WORD\s+/gi -> REPLACEMENT

  predicate IsAscii(s: string) {
    forall k :: 0 <= k < |s| ==> s[k] < 128 as char
  }

  /**
   * The patterns this model matches exactly: a word is never empty, a case-insensitive word
   * is ASCII (so the folding below is the one of `/i` without `/u`), and a spaced word does
   * not start with white space.
   */
  predicate WellFormed(p: Pattern) {
    match p
    case WholeWord(word, ignoreCase, _) => |word| > 0 && (ignoreCase ==> IsAscii(word))
    case SpacedWord(word, _) => |word| > 0 && IsAscii(word) && !IsSpace(word[0])
    case _ => true
  }

  /** Upper-casing of ASCII letters: the canonical form `/i` compares for ASCII characters. */
  function FoldCase(c: char): (d: char)
    ensures IsWordChar(d) == IsWordChar(c)
    ensures IsSpace(d) == IsSpace(c)
  {
    if 'a' <= c <= 'z' then (c as int - 32) as char else c
  }

  predicate SameText(x: string, y: string, ignoreCase: bool) {
    if ignoreCase then |x| == |y| && forall k :: 0 <= k < |x| ==> FoldCase(x[k]) == FoldCase(y[k])
    else x == y
  }

  predicate WordAt(s: string, k: int) {
    0 <= k < |s| && IsWordChar(s[k])
  }

  /** `\b` at position `p`: a word character on exactly one side. */
  predicate Boundary(s: string, p: nat) {
    WordAt(s, p - 1) != WordAt(s, p)
  }

  datatype Match = Match(end: nat, text: string)

  /** The fixed text a replacement adds beside what it copies from the match. */
  function Inserted(p: Pattern): string {
    match p
    case WholeWord(_, _, replacement) => replacement
    case SpaceRun(replacement) => replacement
    case SymbolThenNumber(_, code) => " " + code
    case NumberThenSymbol(_, code) => " " + code
    case Symbol(_, code) => code
    case SpacedWord(_, replacement) => replacement
  }

  /** The match of `p` starting at position `i` of `s`, with the end of the match and its replacement. */
  function MatchAt(p: Pattern, s: string, i: nat): (m: Option<Match>)
    requires WellFormed(p) && i < |s|
    ensures m.Some? ==> i < m.value.end <= |s|
  {
    match p
    case WholeWord(word, ignoreCase, replacement) =>
      var e := i + |word|;
      if e <= |s| && SameText(s[i..e], word, ignoreCase) && Boundary(s, i) && Boundary(s, e)
      then Some(Match(e, replacement))
      else None
    case SpaceRun(replacement) =>
      if IsSpace(s[i]) then Some(Match(RunEnd(s, i, Spaces), replacement)) else None
    case SymbolThenNumber(symbol, code) =>
      if s[i] == symbol then
        var j := RunEnd(s, i + 1, Spaces);
        var q := RunEnd(s, j, NumberChars);
        if j < q then Some(Match(q, s[j..q] + " " + code)) else None
      else None
    case NumberThenSymbol(symbol, code) =>
      if IsNumberChar(s[i]) then
        var q := RunEnd(s, i, NumberChars);
        var j := RunEnd(s, q, Spaces);
        if j < |s| && s[j] == symbol then Some(Match(j + 1, s[i..q] + " " + code)) else None
      else None
    case Symbol(symbol, code) =>
      if s[i] == symbol then Some(Match(i + 1, code)) else None
    case SpacedWord(word, replacement) =>
      if IsSpace(s[i]) then
        var j := RunEnd(s, i, Spaces);
        var e := j + |word|;
        if e < |s| && SameText(s[j..e], word, true) && IsSpace(s[e])
        then Some(Match(RunEnd(s, e, Spaces), replacement))
        else None
      else None
  }

  /** A match copies characters of the subject only from the text it matched. */
  lemma MatchChars(p: Pattern, s: string, i: nat)
    requires WellFormed(p) && i < |s| && MatchAt(p, s, i).Some?
    ensures forall c :: c in MatchAt(p, s, i).value.text ==> c in s[i..MatchAt(p, s, i).value.end] || c in Inserted(p)
  {
    match p
    case SymbolThenNumber(symbol, code) =>
      var j := RunEnd(s, i + 1, Spaces);
      var q := RunEnd(s, j, NumberChars);
      assert s[i..q] == s[i..j] + s[j..q];
    case NumberThenSymbol(symbol, code) =>
      var q := RunEnd(s, i, NumberChars);
      var j := RunEnd(s, q, Spaces);
      assert s[i..j + 1] == s[i..q] + s[q..j + 1];
    case _ =>
  }

  /**
   * Matches that can drive a scan of `s`: one entry per position, and every match ends
   * after the position it starts at and within `s`.
   */
  predicate Scannable(s: string, ms: seq<Option<Match>>) {
    |ms| == |s| && forall j :: 0 <= j < |ms| && ms[j].Some? ==> j < ms[j].value.end <= |s|
  }

  /** The match of `p` at every position of `s`: what a global scan consults. */
  function Matches(p: Pattern, s: string): (ms: seq<Option<Match>>)
    requires WellFormed(p)
    ensures Scannable(s, ms)
  {
    MatchesFrom(p, s, 0)
  }

  /** The matches of `p` at the positions of `s` from `i` on. */
  function MatchesFrom(p: Pattern, s: string, i: nat): (ms: seq<Option<Match>>)
    requires WellFormed(p) && i <= |s|
    ensures |ms| == |s| - i
    ensures forall j :: 0 <= j < |ms| && ms[j].Some? ==> i + j < ms[j].value.end <= |s|
    decreases |s| - i
  {
    if i == |s| then [] else [MatchAt(p, s, i)] + MatchesFrom(p, s, i + 1)
  }

  lemma {:induction false} MatchesFromAt(p: Pattern, s: string, i: nat, j: nat)
    requires WellFormed(p) && i <= j < |s|
    ensures MatchesFrom(p, s, i)[j - i] == MatchAt(p, s, j)
    decreases j - i
  {
    if i < j {
      MatchesFromAt(p, s, i + 1, j);
    }
  }

  /** What a global scan consults at position `j`. */
  lemma MatchAtIndex(p: Pattern, s: string, j: nat)
    requires WellFormed(p) && j < |s|
    ensures Matches(p, s)[j] == MatchAt(p, s, j)
  {
    MatchesFromAt(p, s, 0, j);
  }

  /** What a global scan consults, everywhere. */
  lemma MatchesAt(p: Pattern, s: string)
    requires WellFormed(p)
    ensures forall j :: 0 <= j < |s| ==> Matches(p, s)[j] == MatchAt(p, s, j)
  {
    forall j | 0 <= j < |s| ensures Matches(p, s)[j] == MatchAt(p, s, j) {
      MatchAtIndex(p, s, j);
    }
  }

  /**
   * The global scan from position `i` on: where a match starts its replacement text is
   * emitted and the scan resumes after it, elsewhere the character is copied.
   */
  function Scan(s: string, ms: seq<Option<Match>>, i: nat): string
    requires Scannable(s, ms) && i <= |s|
    decreases |s| - i
  {
    if i == |s| then ""
    else
      match ms[i]
      case Some(m) => m.text + Scan(s, ms, m.end)
      case None => [s[i]] + Scan(s, ms, i + 1)
  }

  /** `s.replace(p, ...)` for a global pattern. */
  function Replace(p: Pattern, s: string): string
    requires WellFormed(p)
  {
    Scan(s, Matches(p, s), 0)
  }

  /** Every character a scan emits is copied from the subject or inserted by a match. */
  lemma {:induction false} ScanChars(s: string, ms: seq<Option<Match>>, extra: string, i: nat)
    requires Scannable(s, ms) && i <= |s|
    requires forall j :: i <= j < |s| && ms[j].Some? ==>
      forall c :: c in ms[j].value.text ==> c in s[j..ms[j].value.end] || c in extra
    ensures forall c :: c in Scan(s, ms, i) ==> c in s[i..] || c in extra
    decreases |s| - i
  {
    if i < |s| {
      match ms[i]
      case Some(m) =>
        ScanChars(s, ms, extra, m.end);
        assert s[i..] == s[i..m.end] + s[m.end..];
      case None =>
        ScanChars(s, ms, extra, i + 1);
        assert s[i..] == [s[i]] + s[i + 1..];
    }
  }

  /** A scan whose every match reproduces the text it matched leaves the subject as it is. */
  lemma {:induction false} ScanCopies(s: string, ms: seq<Option<Match>>, i: nat)
    requires Scannable(s, ms) && i <= |s|
    requires forall j :: i <= j < |s| && ms[j].Some? ==> ms[j].value.text == s[j..ms[j].value.end]
    ensures Scan(s, ms, i) == s[i..]
    decreases |s| - i
  {
    if i < |s| {
      match ms[i]
      case Some(m) =>
        ScanCopies(s, ms, m.end);
        assert s[i..] == s[i..m.end] + s[m.end..];
      case None =>
        ScanCopies(s, ms, i + 1);
        assert s[i..] == [s[i]] + s[i + 1..];
    }
  }

  /** A character kind that no match emits and that is never copied does not occur in the scan. */
  lemma {:induction false} ScanAvoids(s: string, ms: seq<Option<Match>>, bad: char -> bool, i: nat)
    requires Scannable(s, ms) && i <= |s|
    requires forall j :: i <= j < |s| && ms[j].None? ==> !bad(s[j])
    requires forall j :: i <= j < |s| && ms[j].Some? ==>
      forall k :: 0 <= k < |ms[j].value.text| ==> !bad(ms[j].value.text[k])
    ensures forall k :: 0 <= k < |Scan(s, ms, i)| ==> !bad(Scan(s, ms, i)[k])
    decreases |s| - i
  {
    if i < |s| {
      match ms[i]
      case Some(m) => ScanAvoids(s, ms, bad, m.end);
      case None => ScanAvoids(s, ms, bad, i + 1);
    }
  }

  /** Positions of `a` that match the same way in `a + t` are scanned the same way. */
  lemma {:induction false} ScanPrefix(a: string, t: string, ms: seq<Option<Match>>, ns: seq<Option<Match>>, i: nat)
    requires Scannable(a + t, ms) && Scannable(a, ns) && i <= |a|
    requires forall j :: i <= j < |a| ==> ms[j] == ns[j]
    ensures Scan(a + t, ms, i) == Scan(a, ns, i) + Scan(a + t, ms, |a|)
    decreases |a| - i
  {
    if i < |a| {
      var s := a + t;
      assert s[i] == a[i];
      var n := if ns[i].Some? then ns[i].value.end else i + 1;
      var head := if ns[i].Some? then ns[i].value.text else [a[i]];
      assert Scan(s, ms, i) == head + Scan(s, ms, n);
      assert Scan(a, ns, i) == head + Scan(a, ns, n);
      ScanPrefix(a, t, ms, ns, n);
    }
  }

  /** Where a match starts, the scan emits its text and resumes after it. */
  lemma ScanMatchStep(s: string, ms: seq<Option<Match>>, i: nat)
    requires Scannable(s, ms) && i < |s| && ms[i].Some?
    ensures Scan(s, ms, i) == ms[i].value.text + Scan(s, ms, ms[i].value.end)
  {
  }

  /** Where a known match starts, the scan emits its text and resumes at its end. */
  lemma ScanAt(s: string, ms: seq<Option<Match>>, i: nat, e: nat, t: string)
    requires Scannable(s, ms) && i < |s| && ms[i] == Some(Match(e, t))
    ensures Scan(s, ms, i) == t + Scan(s, ms, e)
  {
  }

  lemma ScanCopyStep(s: string, ms: seq<Option<Match>>, i: nat)
    requires Scannable(s, ms) && i < |s| && ms[i].None?
    ensures Scan(s, ms, i) == [s[i]] + Scan(s, ms, i + 1)
  {
  }

  function Shift(m: Option<Match>, d: nat): Option<Match> {
    match m
    case None => None
    case Some(Match(e, t)) => Some(Match(e + d, t))
  }

  /** Positions of `b` that match the same way after a prefix `x` are scanned the same way. */
  lemma {:induction false} ScanSuffix(x: string, b: string, ms: seq<Option<Match>>, ns: seq<Option<Match>>, j: nat)
    requires Scannable(x + b, ms) && Scannable(b, ns) && j <= |b|
    requires forall k :: j <= k < |b| ==> ms[|x| + k] == Shift(ns[k], |x|)
    ensures Scan(x + b, ms, |x| + j) == Scan(b, ns, j)
    decreases |b| - j
  {
    if j < |b| {
      var s := x + b;
      assert s[|x| + j] == b[j];
      var n := if ns[j].Some? then ns[j].value.end else j + 1;
      var head := if ns[j].Some? then ns[j].value.text else [b[j]];
      assert Scan(s, ms, |x| + j) == head + Scan(s, ms, |x| + n);
      assert Scan(b, ns, j) == head + Scan(b, ns, n);
      ScanSuffix(x, b, ms, ns, n);
    }
  }

  /** Every character of a rewritten text is copied from the subject or inserted by the pattern. */
  lemma ReplaceChars(p: Pattern, s: string)
    requires WellFormed(p)
    ensures forall c :: c in Replace(p, s) ==> c in s || c in Inserted(p)
  {
    var ms := Matches(p, s);
    forall j | 0 <= j < |s| && ms[j].Some?
      ensures forall c :: c in ms[j].value.text ==> c in s[j..ms[j].value.end] || c in Inserted(p)
    {
      MatchAtIndex(p, s, j);
      MatchChars(p, s, j);
    }
    ScanChars(s, ms, Inserted(p), 0);
    assert s[0..] == s;
  }

  /** A pattern with no match anywhere in the text leaves it unchanged. */
  lemma ReplaceNoMatch(p: Pattern, s: string)
    requires WellFormed(p)
    requires forall j :: 0 <= j < |s| ==> MatchAt(p, s, j).None?
    ensures Replace(p, s) == s
  {
    MatchesAt(p, s);
    ScanCopies(s, Matches(p, s), 0);
  }

  /** Only whole-word occurrences are replaced: text without one is left unchanged. */
  lemma OnlyWholeWordsReplaced(word: string, replacement: string, s: string)
    requires |word| > 0
    requires forall j :: 0 <= j && j + |word| <= |s| && s[j..j + |word|] == word ==>
      !Boundary(s, j) || !Boundary(s, j + |word|)
    ensures Replace(WholeWord(word, false, replacement), s) == s
  {
    ReplaceNoMatch(WholeWord(word, false, replacement), s);
  }

  /** Replacing a word by itself changes nothing. */
  lemma ReplaceWordBySelf(word: string, s: string)
    requires |word| > 0
    ensures Replace(WholeWord(word, false, word), s) == s
  {
    MatchesAt(WholeWord(word, false, word), s);
    ScanCopies(s, Matches(WholeWord(word, false, word), s), 0);
  }

  /** A glyph replacement whose code lacks the glyph removes every occurrence of it. */
  lemma SymbolRemoved(symbol: char, code: string, s: string)
    requires symbol !in code
    ensures symbol !in Replace(Symbol(symbol, code), s)
  {
    var bad := (c: char) => c == symbol;
    MatchesAt(Symbol(symbol, code), s);
    ScanAvoids(s, Matches(Symbol(symbol, code), s), bad, 0);
  }

  predicate NoSpace(s: string) {
    forall k :: 0 <= k < |s| ==> !IsSpace(s[k])
  }

  predicate AllSpace(s: string) {
    forall k :: 0 <= k < |s| ==> IsSpace(s[k])
  }

  /** Replacing each white-space run by a text without white space leaves none. */
  lemma SpaceRunsRemoved(text: string, s: string)
    requires NoSpace(text)
    ensures NoSpace(Replace(SpaceRun(text), s))
  {
    MatchesAt(SpaceRun(text), s);
    ScanAvoids(s, Matches(SpaceRun(text), s), IsSpace, 0);
  }

  /** A currency match always covers its symbol. */
  lemma CurrencyMatchHasSymbol(p: Pattern, s: string, i: nat)
    requires i < |s|
    requires p.SymbolThenNumber? || p.NumberThenSymbol? || p.Symbol?
    requires MatchAt(p, s, i).Some?
    ensures p.symbol in s[i..MatchAt(p, s, i).value.end]
    ensures p.symbol in s
  {
    var e := MatchAt(p, s, i).value.end;
    if p.NumberThenSymbol? {
      var q := RunEnd(s, i, NumberChars);
      var j := RunEnd(s, q, Spaces);
      assert s[i..e][j - i] == s[j];
    } else {
      assert s[i..e][0] == s[i];
    }
  }

  /** A currency rewrite of text without its symbol is the identity. */
  lemma CurrencyAbsent(p: Pattern, s: string)
    requires p.SymbolThenNumber? || p.NumberThenSymbol? || p.Symbol?
    requires p.symbol !in s
    ensures Replace(p, s) == s
  {
    forall j | 0 <= j < |s| ensures MatchAt(p, s, j).None? {
      if MatchAt(p, s, j).Some? {
        CurrencyMatchHasSymbol(p, s, j);
      }
    }
    ReplaceNoMatch(p, s);
  }

  predicate AllWordChars(s: string) {
    forall k :: 0 <= k < |s| ==> IsWordChar(s[k])
  }

  /** Inside a run of word characters there is no boundary, so a word matches only the whole run. */
  lemma WholeWordInsideWord(p: Pattern, x: string)
    requires WellFormed(p) && p.WholeWord?
    requires |x| > 0 && AllWordChars(x)
    ensures Replace(p, x) == if SameText(x, p.word, p.ignoreCase) then p.replacement else x
  {
    var ms := Matches(p, x);
    forall j | 1 <= j < |x| ensures ms[j].None? {
      MatchAtIndex(p, x, j);
      assert WordAt(x, j - 1) && WordAt(x, j);
    }
    ScanCopies(x, ms, 1);
    var e := |p.word|;
    assert x[0..|x|] == x;
    if SameText(x, p.word, p.ignoreCase) {
      assert e == |x|;
      assert WordAt(x, 0) && WordAt(x, |x| - 1);
      assert ms[0] == Some(Match(|x|, p.replacement));
      assert Scan(x, ms, 0) == p.replacement + Scan(x, ms, |x|);
    } else {
      if e < |x| {
        assert WordAt(x, e - 1) && WordAt(x, e);
      }
      assert ms[0].None?;
      assert x == [x[0]] + x[1..];
    }
  }

  /** Matches of a one-word pattern at positions of `a` do not see what follows a non-word character. */
  lemma WholeWordBeforeSeparator(p: Pattern, a: string, c: char, b: string, j: nat)
    requires WellFormed(p) && p.WholeWord? && AllWordChars(p.word)
    requires !IsWordChar(c) && j < |a|
    ensures MatchAt(p, a + [c] + b, j) == MatchAt(p, a, j)
  {
    var s := a + [c] + b;
    var e := j + |p.word|;
    assert WordAt(s, j - 1) == WordAt(a, j - 1) && WordAt(s, j) == WordAt(a, j);
    if e <= |a| {
      assert s[j..e] == a[j..e];
      assert WordAt(s, e - 1) == WordAt(a, e - 1);
      assert WordAt(s, e) == WordAt(a, e);
    } else if e <= |s| {
      assert s[|a|] == c;
      SeparatorBreaksWord(p, s, j, |a|);
    }
  }

  /** A non-word character inside the span a word pattern would cover rules the match out. */
  lemma SeparatorBreaksWord(p: Pattern, s: string, j: nat, k: nat)
    requires WellFormed(p) && p.WholeWord? && AllWordChars(p.word)
    requires j <= k < j + |p.word| <= |s| && !IsWordChar(s[k])
    ensures !SameText(s[j..j + |p.word|], p.word, p.ignoreCase)
  {
    assert s[j..j + |p.word|][k - j] == s[k];
  }

  /** Matches of a one-word pattern after a non-word character see only what follows it. */
  lemma WholeWordAfterSeparator(p: Pattern, x: string, b: string, k: nat)
    requires WellFormed(p) && p.WholeWord?
    requires |x| > 0 && !IsWordChar(x[|x| - 1]) && k < |b|
    ensures MatchAt(p, x + b, |x| + k) == Shift(MatchAt(p, b, k), |x|)
  {
    var s := x + b;
    var i, e := |x| + k, |x| + k + |p.word|;
    assert WordAt(s, i - 1) == WordAt(b, k - 1);
    assert WordAt(s, i) == WordAt(b, k);
    if e <= |s| {
      SliceRight(x, b, k, |p.word|);
      assert WordAt(s, e - 1) == WordAt(b, k + |p.word| - 1);
      assert WordAt(s, e) == WordAt(b, k + |p.word|);
    }
  }

  /**
   * A one-word pattern is rewritten word by word: the text on either side of a non-word
   * character is rewritten independently.
   */
  lemma WholeWordSplit(p: Pattern, a: string, c: char, b: string)
    requires WellFormed(p) && p.WholeWord? && AllWordChars(p.word)
    requires !IsWordChar(c)
    ensures Replace(p, a + [c] + b) == Replace(p, a) + [c] + Replace(p, b)
  {
    var s := a + [c] + b;
    WholeWordLeft(p, a, c, b);
    WholeWordAtSeparator(p, a, c, b);
    WholeWordRight(p, a, c, b);
  }

  /** Left of the separator, the scan of the whole text is the rewriting of the left part. */
  lemma WholeWordLeft(p: Pattern, a: string, c: char, b: string)
    requires WellFormed(p) && p.WholeWord? && AllWordChars(p.word)
    requires !IsWordChar(c)
    ensures var s := a + [c] + b;
      Scan(s, Matches(p, s), 0) == Replace(p, a) + Scan(s, Matches(p, s), |a|)
  {
    var s := a + [c] + b;
    var t := [c] + b;
    assert a + t == s;
    MatchesBeforeSeparator(p, a, c, b);
    ScanPrefix(a, t, Matches(p, s), Matches(p, a), 0);
  }

  /** Before the separator, the text matches as the left part alone does. */
  lemma MatchesBeforeSeparator(p: Pattern, a: string, c: char, b: string)
    requires WellFormed(p) && p.WholeWord? && AllWordChars(p.word)
    requires !IsWordChar(c)
    ensures forall j :: 0 <= j < |a| ==> Matches(p, a + [c] + b)[j] == Matches(p, a)[j]
  {
    forall j | 0 <= j < |a| ensures Matches(p, a + [c] + b)[j] == Matches(p, a)[j] {
      MatchAtIndex(p, a + [c] + b, j);
      MatchAtIndex(p, a, j);
      WholeWordBeforeSeparator(p, a, c, b, j);
    }
  }

  /** No match of a one-word pattern starts at a non-word character. */
  lemma NoMatchAtSeparator(p: Pattern, s: string, i: nat)
    requires WellFormed(p) && p.WholeWord? && AllWordChars(p.word)
    requires i < |s| && !IsWordChar(s[i])
    ensures MatchAt(p, s, i).None?
  {
    if i + |p.word| <= |s| {
      SeparatorBreaksWord(p, s, i, i);
    }
  }

  /** No match starts at the separator, so the scan copies it. */
  lemma WholeWordAtSeparator(p: Pattern, a: string, c: char, b: string)
    requires WellFormed(p) && p.WholeWord? && AllWordChars(p.word)
    requires !IsWordChar(c)
    ensures var s := a + [c] + b;
      Scan(s, Matches(p, s), |a|) == [c] + Scan(s, Matches(p, s), |a| + 1)
  {
    var s := a + [c] + b;
    var ms := Matches(p, s);
    assert s[|a|] == c;
    NoMatchAtSeparator(p, s, |a|);
    MatchAtIndex(p, s, |a|);
    ScanCopyStep(s, ms, |a|);
  }

  /** Right of the separator, the scan of the whole text is the rewriting of the right part. */
  lemma WholeWordRight(p: Pattern, a: string, c: char, b: string)
    requires WellFormed(p) && p.WholeWord? && AllWordChars(p.word)
    requires !IsWordChar(c)
    ensures var s := a + [c] + b;
      Scan(s, Matches(p, s), |a| + 1) == Replace(p, b)
  {
    var x := a + [c];
    assert |x| + 0 == |a| + 1;
    MatchesAfterSeparator(p, x, b);
    ScanSuffix(x, b, Matches(p, x + b), Matches(p, b), 0);
  }

  /** After a separator, the text matches as the right part alone does, shifted. */
  lemma MatchesAfterSeparator(p: Pattern, x: string, b: string)
    requires WellFormed(p) && p.WholeWord? && |x| > 0 && !IsWordChar(x[|x| - 1])
    ensures forall k :: 0 <= k < |b| ==> Matches(p, x + b)[|x| + k] == Shift(Matches(p, b)[k], |x|)
  {
    forall k | 0 <= k < |b| ensures Matches(p, x + b)[|x| + k] == Shift(Matches(p, b)[k], |x|) {
      MatchAtIndex(p, x + b, |x| + k);
      MatchAtIndex(p, b, k);
      WholeWordAfterSeparator(p, x, b, k);
    }
  }

  /** White space, a word, then white space up to a non-space match a spaced-word pattern. */
  lemma SpacedWordMatchAt(p: Pattern, s: string, i: nat, j: nat, e: nat, f: nat)
    requires WellFormed(p) && p.SpacedWord?
    requires i < j <= e < f <= |s|
    requires forall k :: i <= k < j ==> IsSpace(s[k])
    requires SameText(s[j..e], p.word, true)
    requires forall k :: e <= k < f ==> IsSpace(s[k])
    requires f == |s| || !IsSpace(s[f])
    ensures MatchAt(p, s, i) == Some(Match(f, p.replacement))
  {
    assert s[j] == s[j..e][0];
    RunEndAt(s, i, j, Spaces);
    RunEndAt(s, e, f, Spaces);
  }

  /** No spaced-word match starts at a character other than white space. */
  lemma SpacedWordNoneAt(p: Pattern, s: string, i: nat)
    requires WellFormed(p) && p.SpacedWord? && i < |s| && !IsSpace(s[i])
    ensures Matches(p, s)[i].None?
  {
    MatchAtIndex(p, s, i);
  }

  /** A spaced-word pattern copies text without white space that starts the subject. */
  lemma SpacedWordSkipsHead(p: Pattern, x: string, r: string)
    requires WellFormed(p) && p.SpacedWord? && NoSpace(x)
    ensures Scan(x + r, Matches(p, x + r), 0) == x + Scan(x + r, Matches(p, x + r), |x|)
  {
    var s := x + r;
    var ms, nx := Matches(p, s), Matches(p, x);
    forall k | 0 <= k < |x| ensures ms[k] == nx[k] && nx[k].None? {
      assert s[k] == x[k];
      SpacedWordNoneAt(p, s, k);
      SpacedWordNoneAt(p, x, k);
    }
    ScanPrefix(x, r, ms, nx, 0);
    ScanCopies(x, nx, 0);
  }

  /** A spaced-word pattern copies text without white space that ends the subject. */
  lemma SpacedWordSkipsTail(p: Pattern, z: string, y: string)
    requires WellFormed(p) && p.SpacedWord? && NoSpace(y)
    ensures Scan(z + y, Matches(p, z + y), |z|) == y
  {
    var s := z + y;
    var ms, ny := Matches(p, s), Matches(p, y);
    forall k | 0 <= k < |y| ensures ms[|z| + k] == Shift(ny[k], |z|) && ny[k].None? {
      assert s[|z| + k] == y[k];
      SpacedWordNoneAt(p, s, |z| + k);
      SpacedWordNoneAt(p, y, k);
    }
    ScanSuffix(z, y, ms, ny, 0);
    ScanCopies(y, ny, 0);
  }

  /** White space, the word, then white space before a non-space character: a spaced-word match. */
  lemma SpacedWordFound(p: Pattern, x: string, w1: string, a: string, w2: string, y: string)
    requires WellFormed(p) && p.SpacedWord?
    requires |y| > 0 && !IsSpace(y[0])
    requires |w1| > 0 && AllSpace(w1) && |w2| > 0 && AllSpace(w2)
    requires SameText(a, p.word, true)
    ensures MatchAt(p, x + w1 + a + w2 + y, |x|) == Some(Match(|x + w1 + a + w2|, p.replacement))
  {
    var z := x + w1 + a + w2;
    var s := z + y;
    var i, j := |x|, |x| + |w1|;
    var e := j + |a|;
    assert s[j..e] == a;
    assert forall k :: i <= k < j ==> s[k] == w1[k - i];
    assert forall k :: e <= k < |z| ==> s[k] == w2[k - e];
    assert s[|z|] == y[0];
    SpacedWordMatchAt(p, s, i, j, e, |z|);
  }

  /** `X WORD Y` with white space on both sides of WORD, and none inside X or Y, becomes `X REPLACEMENT Y`. */
  lemma SpacedWordBetween(p: Pattern, x: string, w1: string, a: string, w2: string, y: string)
    requires WellFormed(p) && p.SpacedWord?
    requires NoSpace(x) && NoSpace(y) && |y| > 0
    requires |w1| > 0 && AllSpace(w1) && |w2| > 0 && AllSpace(w2)
    requires SameText(a, p.word, true)
    ensures Replace(p, x + w1 + a + w2 + y) == x + p.replacement + y
  {
    var t := w1 + a + w2 + y;
    var z := x + w1 + a + w2;
    assert x + w1 + a + w2 + y == x + t == z + y;
    SpacedWordFound(p, x, w1, a, w2, y);
    SpacedWordSkipsHead(p, x, t);
    SpacedWordSkipsTail(p, z, y);
    MatchAtIndex(p, x + t, |x|);
    ScanMatchStep(x + t, Matches(p, x + t), |x|);
  }

  /** A case-sensitive one-word pattern whose word starts and ends with a word character. */
  predicate WordEnds(p: Pattern) {
    p.WholeWord? && !p.ignoreCase && |p.word| > 0 && IsWordChar(p.word[0]) && IsWordChar(p.word[|p.word| - 1])
  }

  /** `s` holds such a word at `i`, with no name character on either side. */
  predicate WordOccurs(p: Pattern, s: string, i: nat) {
    && WordEnds(p) && i + |p.word| <= |s| && s[i..i + |p.word|] == p.word
    && (i > 0 ==> !IsNameChar(s[i - 1]))
    && (i + |p.word| < |s| ==> !IsNameChar(s[i + |p.word|]))
  }

  /** Such an occurrence is a match. */
  lemma WordMatchAt(p: Pattern, s: string, i: nat)
    requires WordOccurs(p, s, i)
    ensures Matches(p, s)[i] == Some(Match(i + |p.word|, p.replacement))
  {
    var e := i + |p.word|;
    assert s[i] == s[i..e][0] && s[e - 1] == s[i..e][|p.word| - 1];
    MatchAtIndex(p, s, i);
  }

  /** `ms` has a match at `i` that spans the non-empty `w` and inserts `t`. */
  predicate MatchSpans(ms: seq<Option<Match>>, i: nat, w: string, t: string) {
    |w| > 0 && i < |ms| && ms[i] == Some(Match(i + |w|, t))
  }

  /** The first `n` entries of `ms` and `ns` are the same. */
  predicate SameBefore(ms: seq<Option<Match>>, ns: seq<Option<Match>>, n: nat) {
    n <= |ms| && n <= |ns| && forall j :: 0 <= j < n ==> ms[j] == ns[j]
  }

  /** From `d` on, `ms` holds the entries of `os` moved `d` positions right. */
  predicate ShiftedAfter(ms: seq<Option<Match>>, os: seq<Option<Match>>, d: nat) {
    d + |os| <= |ms| && forall k :: 0 <= k < |os| ==> ms[d + k] == Shift(os[k], d)
  }

  /**
   * A scan of `x + w + y` whose match at `|x|` spans `w`, agrees with the matches of `x` before
   * it, and with those of `y`, shifted, after it, emits the scan of `x`, the match's text, and
   * the scan of `y`.
   */
  lemma ScanAround(x: string, w: string, y: string, ms: seq<Option<Match>>,
                   ns: seq<Option<Match>>, os: seq<Option<Match>>, t: string)
    requires Scannable(x + w + y, ms) && Scannable(x, ns) && Scannable(y, os)
    requires SameBefore(ms, ns, |x|) && MatchSpans(ms, |x|, w, t) && ShiftedAfter(ms, os, |x + w|)
    ensures Scan(x + w + y, ms, 0) == Scan(x, ns, 0) + t + Scan(y, os, 0)
  {
    var s := x + w + y;
    assert x + (w + y) == s;
    ScanPrefix(x, w + y, ms, ns, 0);
    ScanAt(s, ms, |x|, |x| + |w|, t);
    ScanSuffix(x + w, y, ms, os, 0);
  }
}
