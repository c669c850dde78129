/**
 * The rewriting a line's expression goes through before evaluation
 * (src/utils/mathEngine.ts:121-171): known display names become safe names, longest name
 * first; currency glyphs become three-letter codes; the word `of` becomes `*`; and `as`
 * between white space becomes ` to `.
 */
module Rewriting {
  import opened Wrappers
  import opened Text
  import opened Regex
  import opened Assignments

  // ---------------------------------------------------------------------------------------
  // Known names, longest first
  // ---------------------------------------------------------------------------------------

  predicate LongestFirst(xs: seq<string>) {
    forall i, j :: 0 <= i < j < |xs| ==> |xs[i]| >= |xs[j]|
  }

  /** Inserts `x` after every element at least as long, so equal lengths keep their order. */
  function InsertByLength(x: string, xs: seq<string>): (r: seq<string>)
    ensures |r| == |xs| + 1
  {
    if |xs| == 0 then [x]
    else if |xs[0]| >= |x| then [xs[0]] + InsertByLength(x, xs[1..])
    else [x] + xs
  }

  /** Inserting adds exactly the one element. */
  lemma {:induction false} InsertByLengthPermutes(x: string, xs: seq<string>)
    ensures multiset(InsertByLength(x, xs)) == multiset(xs) + multiset{x}
  {
    if |xs| > 0 && |xs[0]| >= |x| {
      InsertByLengthPermutes(x, xs[1..]);
      assert xs == [xs[0]] + xs[1..];
    }
  }

  /** Inserting into a longest-first list keeps it longest-first. */
  lemma {:induction false} InsertByLengthOrdered(x: string, xs: seq<string>)
    requires LongestFirst(xs)
    ensures LongestFirst(InsertByLength(x, xs))
    ensures InsertByLength(x, xs)[0] == if |xs| > 0 && |xs[0]| >= |x| then xs[0] else x
  {
    if |xs| > 0 && |xs[0]| >= |x| {
      var tail := xs[1..];
      LongestFirstTail(xs);
      InsertByLengthOrdered(x, tail);
      assert |tail| > 0 ==> |xs[0]| >= |tail[0]|;
      LongestFirstCons(xs[0], InsertByLength(x, tail));
    } else if |xs| > 0 {
      LongestFirstCons(x, xs);
    }
  }

  lemma LongestFirstTail(xs: seq<string>)
    requires LongestFirst(xs) && |xs| > 0
    ensures LongestFirst(xs[1..])
  {
    var tail := xs[1..];
    forall i, j | 0 <= i < j < |tail| ensures |tail[i]| >= |tail[j]| {
      assert tail[i] == xs[i + 1] && tail[j] == xs[j + 1];
    }
  }

  /** Putting an element at least as long as the head in front keeps a list longest-first. */
  lemma LongestFirstCons(x: string, xs: seq<string>)
    requires LongestFirst(xs) && (|xs| == 0 || |x| >= |xs[0]|)
    ensures LongestFirst([x] + xs)
  {
    var r := [x] + xs;
    forall i, j | 0 <= i < j < |r| ensures |r[i]| >= |r[j]| {
      if i == 0 {
        assert r[j] == xs[j - 1] && |xs[0]| >= |xs[j - 1]|;
      } else {
        assert r[i] == xs[i - 1] && r[j] == xs[j - 1];
      }
    }
  }

  /**
   * `keys.sort((a, b) => b.length - a.length)`: the stable sort by decreasing length,
   * as an insertion sort.
   */
  function SortByLength(xs: seq<string>): (r: seq<string>)
    ensures LongestFirst(r)
    ensures multiset(r) == multiset(xs)
  {
    if |xs| == 0 then []
    else
      var init, x := xs[..|xs| - 1], xs[|xs| - 1];
      assert xs == init + [x];
      InsertByLengthOrdered(x, SortByLength(init));
      InsertByLengthPermutes(x, SortByLength(init));
      InsertByLength(x, SortByLength(init))
  }

  /** The elements of length `n`, in their order. */
  function WithLength(xs: seq<string>, n: nat): seq<string> {
    if |xs| == 0 then []
    else (if |xs[0]| == n then [xs[0]] else []) + WithLength(xs[1..], n)
  }

  lemma {:induction false} WithLengthAppend(xs: seq<string>, ys: seq<string>, n: nat)
    ensures WithLength(xs + ys, n) == WithLength(xs, n) + WithLength(ys, n)
  {
    if |xs| > 0 {
      assert (xs + ys)[0] == xs[0];
      assert (xs + ys)[1..] == xs[1..] + ys;
      WithLengthAppend(xs[1..], ys, n);
    } else {
      assert xs + ys == ys;
    }
  }

  lemma {:induction false} WithLengthInsert(x: string, xs: seq<string>, n: nat)
    requires LongestFirst(xs)
    ensures WithLength(InsertByLength(x, xs), n) == WithLength(xs, n) + (if |x| == n then [x] else [])
  {
    var single := if |x| == n then [x] else [];
    if |xs| == 0 {
      assert [x][1..] == [];
    } else if |xs[0]| >= |x| {
      var rest := InsertByLength(x, xs[1..]);
      var head, tail := WithLength([xs[0]], n), WithLength(xs[1..], n);
      LongestFirstTail(xs);
      WithLengthInsert(x, xs[1..], n);
      assert InsertByLength(x, xs) == [xs[0]] + rest;
      WithLengthAppend([xs[0]], rest, n);
      assert [xs[0]] + xs[1..] == xs;
      WithLengthAppend([xs[0]], xs[1..], n);
      assert head + (tail + single) == head + tail + single;
    } else {
      assert WithLength([x], n) == single by {
        assert [x][1..] == [];
      }
      assert InsertByLength(x, xs) == [x] + xs;
      WithLengthAppend([x], xs, n);
      if |x| == n {
        WithLengthNone(xs, n);
      }
    }
  }

  /** A longest-first list whose head is shorter than `n` has no element of length `n`. */
  lemma {:induction false} WithLengthNone(xs: seq<string>, n: nat)
    requires LongestFirst(xs) && (|xs| == 0 || |xs[0]| < n)
    ensures WithLength(xs, n) == []
  {
    if |xs| > 0 {
      assert |xs| > 1 ==> |xs[1]| <= |xs[0]|;
      LongestFirstTail(xs);
      WithLengthNone(xs[1..], n);
    }
  }

  /** The sort is stable: names of equal length keep the order in which they were registered. */
  lemma {:induction false} SortByLengthStable(xs: seq<string>, n: nat)
    ensures WithLength(SortByLength(xs), n) == WithLength(xs, n)
  {
    if |xs| > 0 {
      var init, x := xs[..|xs| - 1], xs[|xs| - 1];
      var sorted := SortByLength(init);
      assert SortByLength(xs) == InsertByLength(x, sorted);
      SortByLengthStable(init, n);
      WithLengthInsert(x, sorted, n);
      assert xs == init + [x];
      WithLengthAppend(init, [x], n);
      assert WithLength([x], n) == if |x| == n then [x] else [] by {
        assert [x][1..] == [];
      }
    }
  }

  // ---------------------------------------------------------------------------------------
  // Substituting known names
  // ---------------------------------------------------------------------------------------

  /** `new RegExp(`\\b${escaped}\\b`, 'g')` for a display name, replaced by its safe name. */
  function NamePattern(name: string, safe: string): Pattern {
    WholeWord(Escape(name), false, safe)
  }

  /** Names that can be substituted: non-empty and registered in the name map. */
  predicate Substitutable(ks: seq<string>, vm: map<string, string>) {
    forall k :: 0 <= k < |ks| ==> IsDisplayName(ks[k]) && ks[k] in vm
  }

  /** Replaces each of `ks` in turn, as the loop over the sorted known names does. */
  function SubstituteNames(e: string, ks: seq<string>, vm: map<string, string>): string
    requires Substitutable(ks, vm)
    decreases |ks|
  {
    if |ks| == 0 then e
    else
      EscapeNameIsIdentity(ks[0]);
      SubstituteNames(Replace(NamePattern(ks[0], vm[ks[0]]), e), ks[1..], vm)
  }

  /** A name does not occur as a whole word in `e`. */
  predicate NoWholeWord(e: string, name: string) {
    forall j :: 0 <= j && j + |name| <= |e| && e[j..j + |name|] == name ==>
      !Boundary(e, j) || !Boundary(e, j + |name|)
  }

  /** An expression in which no known name occurs as a whole word is left as it is. */
  lemma {:induction false} SubstituteNamesAbsent(e: string, ks: seq<string>, vm: map<string, string>)
    requires Substitutable(ks, vm)
    requires forall k :: 0 <= k < |ks| ==> NoWholeWord(e, ks[k])
    ensures SubstituteNames(e, ks, vm) == e
    decreases |ks|
  {
    if |ks| > 0 {
      EscapeNameIsIdentity(ks[0]);
      OnlyWholeWordsReplaced(ks[0], vm[ks[0]], e);
      SubstituteNamesAbsent(e, ks[1..], vm);
    }
  }

  /** A display-name pattern: `\bNAME\b`, case-sensitive, for a display name. */
  predicate IsNamePattern(p: Pattern) {
    p.WholeWord? && !p.ignoreCase && IsDisplayName(p.word)
  }

  /**
   * Before a character that cannot be part of a name, the matches of a name are those of
   * the text up to and including that character, whatever follows it.
   */
  lemma NameBeforeStop(p: Pattern, x: string, t: string, j: nat)
    requires IsNamePattern(p) && |x| > 0 && !IsNameChar(x[|x| - 1]) && j < |x|
    ensures MatchAt(p, x + t, j) == MatchAt(p, x, j)
  {
    var s := x + t;
    var n := p.word;
    var e := j + |n|;
    assert WordAt(s, j - 1) == WordAt(x, j - 1) && WordAt(s, j) == WordAt(x, j);
    if e < |x| {
      assert s[j..e] == x[j..e];
      assert WordAt(s, e - 1) == WordAt(x, e - 1) && WordAt(s, e) == WordAt(x, e);
    } else if e <= |s| {
      assert s[j..e][|x| - 1 - j] == x[|x| - 1];
      assert IsNameChar(n[|x| - 1 - j]);
    }
  }

  lemma NameMatchesBefore(p: Pattern, x: string, w: string, y: string)
    requires IsNamePattern(p) && (|x| > 0 ==> !IsNameChar(x[|x| - 1]))
    ensures SameBefore(Matches(p, x + w + y), Matches(p, x), |x|)
  {
    assert x + (w + y) == x + w + y;
    forall j | 0 <= j < |x| ensures Matches(p, x + w + y)[j] == Matches(p, x)[j] {
      MatchAtIndex(p, x + w + y, j);
      MatchAtIndex(p, x, j);
      NameBeforeStop(p, x, w + y, j);
    }
  }

  /**
   * After any text, the matches of a name in a text that starts with a character that
   * cannot be part of a name are those of that text alone, shifted.
   */
  lemma NameAfterStop(p: Pattern, z: string, y: string, k: nat)
    requires IsNamePattern(p) && k < |y| && !IsNameChar(y[0])
    ensures MatchAt(p, z + y, |z| + k) == Shift(MatchAt(p, y, k), |z|)
  {
    var s := z + y;
    var n := p.word;
    var i, e := |z| + k, |z| + k + |n|;
    assert IsNameChar(n[0]);
    if k == 0 {
      if e <= |s| {
        assert s[i..e][0] == y[0];
      }
      if |n| <= |y| {
        assert y[0..|n|][0] == y[0];
      }
    } else {
      assert WordAt(s, i - 1) == WordAt(y, k - 1);
      assert WordAt(s, i) == WordAt(y, k);
      if e <= |s| {
        SliceRight(z, y, k, |n|);
        assert WordAt(s, e - 1) == WordAt(y, k + |n| - 1);
        assert WordAt(s, e) == WordAt(y, k + |n|);
      }
    }
  }

  lemma NameMatchesAfter(p: Pattern, z: string, y: string)
    requires IsNamePattern(p) && (|y| > 0 ==> !IsNameChar(y[0]))
    ensures ShiftedAfter(Matches(p, z + y), Matches(p, y), |z|)
  {
    forall k | 0 <= k < |y| ensures Matches(p, z + y)[|z| + k] == Shift(Matches(p, y)[k], |z|) {
      MatchAtIndex(p, z + y, |z| + k);
      MatchAtIndex(p, y, k);
      NameAfterStop(p, z, y, k);
    }
  }

  /**
   * A whole-word occurrence of a display name, with no name character on either side, is
   * replaced by the replacement, and the text on either side is rewritten on its own. For a
   * name with white space, such as `Total Income`, this is where the safe name comes in.
   */
  lemma NameReplaced(n: string, r: string, x: string, y: string)
    requires IsDisplayName(n)
    requires |x| > 0 ==> !IsNameChar(x[|x| - 1])
    requires |y| > 0 ==> !IsNameChar(y[0])
    ensures Replace(NamePattern(n, r), x + n + y) ==
      Replace(NamePattern(n, r), x) + r + Replace(NamePattern(n, r), y)
  {
    EscapeNameIsIdentity(n);
    NameSplit(NamePattern(n, r), x, y);
  }

  /** Neither the text before nor the text after an occurrence touches it with a name character. */
  predicate Stops(x: string, y: string) {
    (|x| > 0 ==> !IsNameChar(x[|x| - 1])) && (|y| > 0 ==> !IsNameChar(y[0]))
  }

  /** A name pattern's rewriting splits around an occurrence of the name between stop characters. */
  lemma NameSplit(p: Pattern, x: string, y: string)
    requires IsNamePattern(p) && Stops(x, y)
    ensures Replace(p, x + p.word + y) == Replace(p, x) + p.replacement + Replace(p, y)
  {
    var s := x + p.word + y;
    NameMatchesBefore(p, x, p.word, y);
    NameMatchHere(p, x, y);
    NameMatchesAfter(p, x + p.word, y);
    ScanAround(x, p.word, y, Matches(p, s), Matches(p, x), Matches(p, y), p.replacement);
  }

  /** The occurrence itself is a match that spans the name. */
  lemma NameMatchHere(p: Pattern, x: string, y: string)
    requires IsNamePattern(p) && Stops(x, y)
    ensures MatchSpans(Matches(p, x + p.word + y), |x|, p.word, p.replacement)
  {
    var s, e := x + p.word + y, |x| + |p.word|;
    assert s[|x|..e] == p.word;
    assert |x| > 0 ==> s[|x| - 1] == x[|x| - 1];
    assert e < |s| ==> s[e] == y[0];
    WordMatchAt(p, s, |x|);
  }

  // ---------------------------------------------------------------------------------------
  // Currency
  // ---------------------------------------------------------------------------------------

  /** `CURRENCY_SYMBOLS`, in the order `Object.entries` visits it. */
  const CurrencySymbols: seq<(char, string)> := [
    ('$', "USD"), ('\U{20AC}', "EUR"), ('\U{00A3}', "GBP"), ('\U{00A5}', "JPY"),
    ('\U{20A9}', "KRW"), ('\U{20BD}', "RUB"), ('\U{20B9}', "INR"), ('\U{20BF}', "BTC")]

  /** The three rewrites of one symbol: prefix form, then suffix form, then the bare glyph. */
  function ConvertSymbol(e: string, symbol: char, code: string): string {
    var e1 := Replace(SymbolThenNumber(symbol, code), e);
    var e2 := Replace(NumberThenSymbol(symbol, code), e1);
    Replace(Symbol(symbol, code), e2)
  }

  /** The expression after the loop over the currency table has handled its first `n` entries. */
  function ConvertCurrencies(e: string, n: nat): string
    requires n <= |CurrencySymbols|
  {
    if n == 0 then e
    else ConvertSymbol(ConvertCurrencies(e, n - 1), CurrencySymbols[n - 1].0, CurrencySymbols[n - 1].1)
  }

  /** The codes of the table mention no symbol of it, and no symbol is a blank. */
  lemma CodesAvoidSymbols(i: nat, j: nat)
    requires i < |CurrencySymbols| && j < |CurrencySymbols|
    ensures CurrencySymbols[i].0 !in CurrencySymbols[j].1 && CurrencySymbols[i].0 != ' '
  {
  }

  /** A character outside the code and other than a blank is never introduced by the rewrites of a symbol. */
  lemma ConvertSymbolKeepsOut(e: string, symbol: char, code: string, c: char)
    requires c !in e && c !in code && c != ' '
    ensures c !in ConvertSymbol(e, symbol, code)
  {
    var e1 := Replace(SymbolThenNumber(symbol, code), e);
    var e2 := Replace(NumberThenSymbol(symbol, code), e1);
    ReplaceChars(SymbolThenNumber(symbol, code), e);
    ReplaceChars(NumberThenSymbol(symbol, code), e1);
    ReplaceChars(Symbol(symbol, code), e2);
  }

  /** Once the loop has handled an entry, the expression holds no symbol of that entry. */
  lemma {:induction false} CurrencySymbolsRemoved(e: string, n: nat)
    requires n <= |CurrencySymbols|
    ensures forall i :: 0 <= i < n ==> CurrencySymbols[i].0 !in ConvertCurrencies(e, n)
  {
    if n > 0 {
      var (symbol, code) := CurrencySymbols[n - 1];
      var e0 := ConvertCurrencies(e, n - 1);
      assert ConvertCurrencies(e, n) == ConvertSymbol(e0, symbol, code);
      CurrencySymbolsRemoved(e, n - 1);
      CodesAvoidSymbols(n - 1, n - 1);
      SymbolRemoved(symbol, code, Replace(NumberThenSymbol(symbol, code), Replace(SymbolThenNumber(symbol, code), e0)));
      forall i | 0 <= i < n - 1 ensures CurrencySymbols[i].0 !in ConvertCurrencies(e, n) {
        CodesAvoidSymbols(i, n - 1);
        ConvertSymbolKeepsOut(e0, symbol, code, CurrencySymbols[i].0);
      }
    }
  }

  /** A text without the symbols of entries `m` to `n - 1` is not changed by them. */
  lemma {:induction false} ConvertCurrenciesAbsent(e: string, m: nat, n: nat)
    requires m <= n <= |CurrencySymbols|
    requires forall i :: m <= i < n ==> CurrencySymbols[i].0 !in ConvertCurrencies(e, m)
    ensures ConvertCurrencies(e, n) == ConvertCurrencies(e, m)
  {
    if m < n {
      ConvertCurrenciesAbsent(e, m, n - 1);
      var (symbol, code) := CurrencySymbols[n - 1];
      var x := ConvertCurrencies(e, m);
      CurrencyAbsent(SymbolThenNumber(symbol, code), x);
      CurrencyAbsent(NumberThenSymbol(symbol, code), x);
      CurrencyAbsent(Symbol(symbol, code), x);
    }
  }

  predicate IsNumber(d: string) {
    |d| > 0 && forall k :: 0 <= k < |d| ==> IsNumberChar(d[k])
  }

  /** `$50` and `$ 50`: a symbol, optional white space and a number become the number and the code. */
  lemma PrefixSymbolMatch(symbol: char, code: string, w: string, d: string)
    requires AllSpace(w) && IsNumber(d)
    ensures Replace(SymbolThenNumber(symbol, code), [symbol] + w + d) == d + " " + code
  {
    var s := [symbol] + w + d;
    var p := SymbolThenNumber(symbol, code);
    assert forall k :: 1 <= k < 1 + |w| ==> s[k] == w[k - 1];
    assert forall k :: 1 + |w| <= k < |s| ==> s[k] == d[k - 1 - |w|];
    assert s[1 + |w|] == d[0];
    RunEndAt(s, 1, 1 + |w|, Spaces);
    RunEndAt(s, 1 + |w|, |s|, NumberChars);
    assert s[0] == symbol;
    assert s[1 + |w|..|s|] == d;
    var ms := Matches(p, s);
    assert ms[0] == MatchAt(p, s, 0) == Some(Match(|s|, d + " " + code));
    ScanMatchStep(s, ms, 0);
  }

  /** `50$` and `50 $`: a number, optional white space and a symbol become the number and the code. */
  lemma SuffixSymbolMatch(symbol: char, code: string, d: string, w: string)
    requires AllSpace(w) && IsNumber(d) && !IsNumberChar(symbol) && !IsSpace(symbol)
    ensures Replace(NumberThenSymbol(symbol, code), d + w + [symbol]) == d + " " + code
  {
    var s := d + w + [symbol];
    var p := NumberThenSymbol(symbol, code);
    assert forall k :: 0 <= k < |d| ==> s[k] == d[k];
    assert forall k :: |d| <= k < |d| + |w| ==> s[k] == w[k - |d|];
    RunEndAt(s, 0, |d|, NumberChars);
    RunEndAt(s, |d|, |d| + |w|, Spaces);
    assert s[..|d|] == d;
    var ms := Matches(p, s);
    assert ms[0] == Some(Match(|s|, d + " " + code));
    ScanMatchStep(s, ms, 0);
  }

  /** A glyph at the end of a text without it becomes the code. */
  lemma SymbolAtEnd(symbol: char, code: string, x: string)
    requires symbol !in x
    ensures Replace(Symbol(symbol, code), x + [symbol]) == x + code
  {
    var p := Symbol(symbol, code);
    var s := x + [symbol];
    var ms := Matches(p, s);
    forall j | 0 <= j < |x| ensures ms[j] == Matches(p, x)[j] {
      MatchAtIndex(p, s, j);
      MatchAtIndex(p, x, j);
      assert s[j] == x[j];
    }
    ScanPrefix(x, [symbol], ms, Matches(p, x), 0);
    CurrencyAbsent(p, x);
    assert s[|x|] == symbol;
    MatchAtIndex(p, s, |x|);
    ScanMatchStep(s, ms, |x|);
  }

  /** Neither a prefix nor a suffix match can start anywhere in a text without digits or dots. */
  lemma NumberlessUntouched(symbol: char, code: string, x: string)
    requires forall k :: 0 <= k < |x| ==> !IsNumberChar(x[k])
    ensures Replace(SymbolThenNumber(symbol, code), x) == x
    ensures Replace(NumberThenSymbol(symbol, code), x) == x
  {
    forall j | 0 <= j < |x| ensures MatchAt(SymbolThenNumber(symbol, code), x, j).None? {
      var q := RunEnd(x, j + 1, Spaces);
      if q < |x| {
        assert !IsNumberChar(x[q]);
      }
    }
    ReplaceNoMatch(SymbolThenNumber(symbol, code), x);
    ReplaceNoMatch(NumberThenSymbol(symbol, code), x);
  }

  predicate NoCurrency(s: string) {
    forall i :: 0 <= i < |CurrencySymbols| ==> CurrencySymbols[i].0 !in s
  }

  /** No code of the table holds a symbol of it. */
  lemma CodeHasNoCurrency(j: nat)
    requires j < |CurrencySymbols|
    ensures NoCurrency(CurrencySymbols[j].1)
  {
    forall i | 0 <= i < |CurrencySymbols| ensures CurrencySymbols[i].0 !in CurrencySymbols[j].1 {
      CodesAvoidSymbols(i, j);
    }
  }

  /** Every symbol of the table other than `$` lies above the ASCII range. */
  lemma NoCurrencyBelow(s: string)
    requires forall k :: 0 <= k < |s| ==> s[k] < '\U{0080}' && s[k] != '$'
    ensures NoCurrency(s)
  {
    forall i | 0 <= i < |CurrencySymbols| ensures CurrencySymbols[i].0 !in s {
      assert CurrencySymbols[i].0 == '$' || CurrencySymbols[i].0 >= '\U{0080}';
    }
  }

  /** The three rewrites of one symbol, step by step. */
  lemma ConvertSymbolSteps(e: string, symbol: char, code: string, e1: string, e2: string, e3: string)
    requires Replace(SymbolThenNumber(symbol, code), e) == e1
    requires Replace(NumberThenSymbol(symbol, code), e1) == e2
    requires Replace(Symbol(symbol, code), e2) == e3
    ensures ConvertSymbol(e, symbol, code) == e3
  {
  }

  /** When only the `$` entry changes anything, the whole loop is the `$` rewrites. */
  lemma {:induction false} DollarOnly(e: string, r: string)
    requires ConvertSymbol(e, '$', "USD") == r && NoCurrency(r)
    ensures ConvertCurrencies(e, |CurrencySymbols|) == r
  {
    assert ConvertCurrencies(e, 0) == e;
    assert ConvertCurrencies(e, 1) == r;
    ConvertCurrenciesAbsent(e, 1, |CurrencySymbols|);
  }

  /** `$50` and `$ 50` both become `50 USD`. */
  lemma DollarPrefix(w: string, d: string)
    requires AllSpace(w) && IsNumber(d)
    ensures ConvertCurrencies("$" + w + d, |CurrencySymbols|) == d + " USD"
  {
    var r := d + " USD";
    PrefixSymbolMatch('$', "USD", w, d);
    assert forall k :: 0 <= k < |d| ==> r[k] == d[k];
    NoCurrencyBelow(r);
    CurrencyAbsent(NumberThenSymbol('$', "USD"), r);
    CurrencyAbsent(Symbol('$', "USD"), r);
    ConvertSymbolSteps("$" + w + d, '$', "USD", r, r, r);
    DollarOnly("$" + w + d, r);
  }

  /** `50$` and `50 $` both become `50 USD`. */
  lemma DollarSuffix(d: string, w: string)
    requires AllSpace(w) && IsNumber(d)
    ensures ConvertCurrencies(d + w + "$", |CurrencySymbols|) == d + " USD"
  {
    var s := d + w + "$";
    var r := d + " USD";
    assert forall k :: 0 <= k < |s| - 1 ==> s[k] != '$' by {
      assert forall k :: 0 <= k < |d| ==> s[k] == d[k];
      assert forall k :: |d| <= k < |d| + |w| ==> s[k] == w[k - |d|];
    }
    forall j | 0 <= j < |s| ensures MatchAt(SymbolThenNumber('$', "USD"), s, j).None? {
      if s[j] == '$' {
        assert j == |s| - 1;
      }
    }
    ReplaceNoMatch(SymbolThenNumber('$', "USD"), s);
    SuffixSymbolMatch('$', "USD", d, w);
    assert forall k :: 0 <= k < |d| ==> r[k] == d[k];
    NoCurrencyBelow(r);
    CurrencyAbsent(Symbol('$', "USD"), r);
    ConvertSymbolSteps(s, '$', "USD", s, r, r);
    DollarOnly(s, r);
  }

  lemma NoCurrencyAppend(x: string, y: string)
    requires NoCurrency(x) && NoCurrency(y)
    ensures NoCurrency(x + y)
  {
    forall i | 0 <= i < |CurrencySymbols| ensures CurrencySymbols[i].0 !in x + y {
      assert CurrencySymbols[i].0 !in x && CurrencySymbols[i].0 !in y;
    }
  }

  lemma NoCurrencyNoDollar(x: string)
    requires NoCurrency(x)
    ensures '$' !in x
  {
    assert CurrencySymbols[0].0 == '$';
  }

  /** The `$` rewrites turn a trailing `$` with no number beside it into `USD`. */
  lemma DollarStandaloneRewrites(x: string)
    requires '$' !in x
    requires forall k :: 0 <= k < |x| ==> !IsNumberChar(x[k])
    ensures ConvertSymbol(x + "$", '$', "USD") == x + "USD"
  {
    var s := x + "$";
    forall k | 0 <= k < |s| ensures !IsNumberChar(s[k]) {
      if k < |x| {
        assert s[k] == x[k];
      } else {
        assert s[k] == '$';
      }
    }
    NumberlessUntouched('$', "USD", s);
    SymbolAtEnd('$', "USD", x);
    ConvertSymbolSteps(s, '$', "USD", s, s, x + "USD");
  }

  /** A `$` with no number beside it, as in `Price in $`, becomes `USD`. */
  lemma DollarStandalone(x: string)
    requires NoCurrency(x)
    requires forall k :: 0 <= k < |x| ==> !IsNumberChar(x[k])
    ensures ConvertCurrencies(x + "$", |CurrencySymbols|) == x + "USD"
  {
    NoCurrencyNoDollar(x);
    DollarStandaloneRewrites(x);
    CodeHasNoCurrency(0);
    NoCurrencyAppend(x, "USD");
    DollarOnly(x + "$", x + "USD");
  }

  // ---------------------------------------------------------------------------------------
  // Word operators
  // ---------------------------------------------------------------------------------------

  /** `/\bof\b/gi` replaced by `*`. */
  const OfPattern: Pattern := WholeWord("of", true, "*")

  /** `/\s+as\s+/gi` replaced by ` to `. */
  const AsPattern: Pattern := SpacedWord("as", " to ")

  /** The word `of`, in any case, between two non-word characters becomes `*`. */
  lemma OfBecomesTimes(a: string, c: char, x: string, d: char, b: string)
    requires !IsWordChar(c) && !IsWordChar(d)
    requires SameText(x, "of", true)
    ensures Replace(OfPattern, a + [c] + x + [d] + b) == Replace(OfPattern, a) + [c] + "*" + [d] + Replace(OfPattern, b)
  {
    assert AllWordChars(x) by {
      assert FoldCase(x[0]) == FoldCase('o') && FoldCase(x[1]) == FoldCase('f');
    }
    var rest := x + [d] + b;
    assert a + [c] + x + [d] + b == a + [c] + rest;
    WholeWordSplit(OfPattern, a, c, rest);
    WholeWordSplit(OfPattern, x, d, b);
    WholeWordInsideWord(OfPattern, x);
  }

  /** The word `as`, in any case, with white space on both sides becomes ` to `, its white space included. */
  lemma AsBecomesTo(x: string, w1: string, a: string, w2: string, y: string)
    requires NoSpace(x) && NoSpace(y) && |y| > 0
    requires |w1| > 0 && AllSpace(w1) && |w2| > 0 && AllSpace(w2)
    requires SameText(a, "as", true)
    ensures Replace(AsPattern, x + w1 + a + w2 + y) == x + " to " + y
  {
    SpacedWordBetween(AsPattern, x, w1, a, w2, y);
  }

  // ---------------------------------------------------------------------------------------
  // The whole rewrite
  // ---------------------------------------------------------------------------------------

  /** Variables, then currency, then `of`, then `as`. */
  function Normalize(e: string, ks: seq<string>, vm: map<string, string>): string
    requires Substitutable(ks, vm)
  {
    Replace(AsPattern, Replace(OfPattern, ConvertCurrencies(SubstituteNames(e, ks, vm), |CurrencySymbols|)))
  }

  /** The word operators insert no currency symbol. */
  lemma WordOperatorsKeepOut(e: string)
    requires NoCurrency(e)
    ensures NoCurrency(Replace(AsPattern, Replace(OfPattern, e)))
  {
    ReplaceChars(OfPattern, e);
    ReplaceChars(AsPattern, Replace(OfPattern, e));
  }

  /** No currency symbol survives the rewrite. */
  lemma NormalizedHasNoCurrency(e: string, ks: seq<string>, vm: map<string, string>)
    requires Substitutable(ks, vm)
    ensures NoCurrency(Normalize(e, ks, vm))
  {
    CurrencySymbolsRemoved(SubstituteNames(e, ks, vm), |CurrencySymbols|);
    WordOperatorsKeepOut(ConvertCurrencies(SubstituteNames(e, ks, vm), |CurrencySymbols|));
  }
}
