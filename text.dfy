/**
 * The JavaScript string primitives the sheet evaluator and the sheet store rely on:
 * the character classes of regular expressions (`\s`, `\d`, `\w`), `String.prototype.trim`,
 * maximal runs of a class, the decimal rendering of line numbers, and `join` / `split`.
 */
module Text {

  /** The LineTerminator code points: the characters `.` does not match. */
  predicate IsLineTerminator(c: char) {
    c == '\n' || c == '\r' || c == '\U{2028}' || c == '\U{2029}'
  }

  /** WhiteSpace and LineTerminator code points: what `\s` matches and what `trim()` removes. */
  predicate IsSpace(c: char) {
    || c == '\t' || c == '\U{000B}' || c == '\U{000C}' || c == ' ' || c == '\U{00A0}'
    || c == '\U{1680}' || ('\U{2000}' <= c <= '\U{200A}') || c == '\U{202F}' || c == '\U{205F}'
    || c == '\U{3000}' || c == '\U{FEFF}'
    || IsLineTerminator(c)
  }

  predicate IsDigit(c: char) {
    '0' <= c <= '9'
  }

  predicate IsLetter(c: char) {
    ('a' <= c <= 'z') || ('A' <= c <= 'Z')
  }

  /** `\w`, the class that decides where `\b` stands. */
  predicate IsWordChar(c: char) {
    IsLetter(c) || IsDigit(c) || c == '_'
  }

  /** `[a-zA-Z_]`: the first character of an assignment target. */
  predicate IsIdentStart(c: char) {
    IsLetter(c) || c == '_'
  }

  /** `[a-zA-Z0-9_\s]`: the remaining characters of an assignment target. */
  predicate IsNameChar(c: char) {
    IsWordChar(c) || IsSpace(c)
  }

  /** `[\d\.]`: the characters of a number next to a currency symbol. */
  predicate IsNumberChar(c: char) {
    IsDigit(c) || c == '.'
  }

  datatype CharClass = Spaces | NameChars | NumberChars

  predicate InClass(cls: CharClass, c: char) {
    match cls
    case Spaces => IsSpace(c)
    case NameChars => IsNameChar(c)
    case NumberChars => IsNumberChar(c)
  }

  predicate AllIn(cls: CharClass, s: string) {
    forall k :: 0 <= k < |s| ==> InClass(cls, s[k])
  }

  /** The end of the longest run of `cls` characters starting at `i`: what a greedy `cls*` consumes. */
  function RunEnd(s: string, i: nat, cls: CharClass): (r: nat)
    requires i <= |s|
    ensures i <= r <= |s|
    ensures forall k :: i <= k < r ==> InClass(cls, s[k])
    ensures r == |s| || !InClass(cls, s[r])
    decreases |s| - i
  {
    if i < |s| && InClass(cls, s[i]) then RunEnd(s, i + 1, cls) else i
  }

  /** The start of the longest run of `cls` characters ending at `j`. */
  function RunStart(s: string, j: nat, cls: CharClass): (r: nat)
    requires j <= |s|
    ensures r <= j
    ensures forall k :: r <= k < j ==> InClass(cls, s[k])
    ensures r == 0 || !InClass(cls, s[r - 1])
  {
    if 0 < j && InClass(cls, s[j - 1]) then RunStart(s, j - 1, cls) else j
  }

  /** A run is fixed by its end: a boundary that stops the run is where `RunEnd` stops. */
  lemma RunEndAt(s: string, i: nat, j: nat, cls: CharClass)
    requires i <= j <= |s|
    requires forall k :: i <= k < j ==> InClass(cls, s[k])
    requires j == |s| || !InClass(cls, s[j])
    ensures RunEnd(s, i, cls) == j
    decreases j - i
  {
    if i < j {
      RunEndAt(s, i + 1, j, cls);
    }
  }

  function TrimStart(s: string): string {
    s[RunEnd(s, 0, Spaces)..]
  }

  function TrimEnd(s: string): string {
    s[..RunStart(s, |s|, Spaces)]
  }

  /**
   * `String.prototype.trim`: the text between the leading and the trailing white space,
   * which neither starts nor ends with white space and is empty exactly for blank text.
   */
  function Trim(s: string): (r: string)
    ensures RunEnd(s, 0, Spaces) + |r| <= |s|
    ensures r == s[RunEnd(s, 0, Spaces)..RunEnd(s, 0, Spaces) + |r|]
    ensures forall k :: 0 <= k < RunEnd(s, 0, Spaces) ==> IsSpace(s[k])
    ensures forall k :: RunEnd(s, 0, Spaces) + |r| <= k < |s| ==> IsSpace(s[k])
    ensures r != [] ==> !IsSpace(r[0]) && !IsSpace(r[|r| - 1])
    ensures r == [] <==> forall k :: 0 <= k < |s| ==> IsSpace(s[k])
  {
    var a := RunEnd(s, 0, Spaces);
    var t := s[a..];
    var b := RunStart(t, |t|, Spaces);
    assert a < |s| ==> t[0] == s[a] && !InClass(Spaces, s[a]);
    t[..b]
  }

  function DigitChar(d: nat): (c: char)
    requires d < 10
    ensures IsDigit(c)
  {
    (('0' as int) + d) as char
  }

  /** The decimal numeral of `n`, as JavaScript renders an integer inside a template literal. */
  function NatToString(n: nat): (r: string)
    ensures 1 <= |r|
    ensures forall k :: 0 <= k < |r| ==> IsDigit(r[k])
    ensures n < 10 <==> |r| == 1
  {
    if n < 10 then [DigitChar(n)] else NatToString(n / 10) + [DigitChar(n % 10)]
  }

  /** Distinct numbers have distinct numerals. */
  lemma {:induction false} NatToStringInjective(a: nat, b: nat)
    requires NatToString(a) == NatToString(b)
    ensures a == b
  {
    if 10 <= a && 10 <= b {
      var ra, rb := NatToString(a), NatToString(b);
      assert ra[..|ra| - 1] == NatToString(a / 10);
      assert rb[..|rb| - 1] == NatToString(b / 10);
      NatToStringInjective(a / 10, b / 10);
      assert ra[|ra| - 1] == DigitChar(a % 10) && rb[|rb| - 1] == DigitChar(b % 10);
    } else if a < 10 && b < 10 {
      assert NatToString(a)[0] == DigitChar(a);
      assert NatToString(b)[0] == DigitChar(b);
    }
  }

  /** `Array.prototype.join(sep)` on an array of strings. */
  function Join(parts: seq<string>, sep: string): string {
    if |parts| == 0 then ""
    else if |parts| == 1 then parts[0]
    else parts[0] + sep + Join(parts[1..], sep)
  }

  /** The index of the first `c` in `s`, or `|s|` when there is none. */
  function IndexOf(s: string, c: char): (i: nat)
    ensures i <= |s|
    ensures c !in s[..i]
    ensures i < |s| ==> s[i] == c
  {
    if |s| == 0 then 0
    else if s[0] == c then 0
    else
      assert s[..1 + IndexOf(s[1..], c)] == [s[0]] + s[1..][..IndexOf(s[1..], c)];
      1 + IndexOf(s[1..], c)
  }

  lemma IndexOfAt(s: string, c: char, j: nat)
    requires j < |s| && s[j] == c && c !in s[..j]
    ensures IndexOf(s, c) == j
  {
    if 0 < j {
      assert s[0] == s[..j][0];
      assert s[1..][..j - 1] == s[..j][1..];
      IndexOfAt(s[1..], c, j - 1);
    }
  }

  /** A slice of the right part of a concatenation, taken in the whole. */
  lemma SliceRight(z: string, y: string, k: nat, l: nat)
    requires k + l <= |y|
    ensures (z + y)[|z| + k..|z| + k + l] == y[k..k + l]
  {
    var u, v := (z + y)[|z| + k..|z| + k + l], y[k..k + l];
    assert forall m :: 0 <= m < l ==> u[m] == v[m];
  }

  /** `String.prototype.split(c)` for a one-character separator. */
  function Split(s: string, c: char): (r: seq<string>)
    ensures 1 <= |r|
    ensures forall k :: 0 <= k < |r| ==> c !in r[k]
    decreases |s|
  {
    var i := IndexOf(s, c);
    if i == |s| then [s] else [s[..i]] + Split(s[i + 1..], c)
  }

  /** Splitting at the separator undoes joining, when no part holds the separator itself. */
  lemma {:induction false} SplitJoin(parts: seq<string>, c: char)
    requires 1 <= |parts|
    requires forall k :: 0 <= k < |parts| ==> c !in parts[k]
    ensures Split(Join(parts, [c]), c) == parts
  {
    if |parts| == 1 {
      assert parts[0][..IndexOf(parts[0], c)] == parts[0];
    } else {
      var rest := Join(parts[1..], [c]);
      var s := parts[0] + [c] + rest;
      assert s[..|parts[0]|] == parts[0];
      IndexOfAt(s, c, |parts[0]|);
      assert s[|parts[0]| + 1..] == rest;
      SplitJoin(parts[1..], c);
      assert [parts[0]] + parts[1..] == parts;
    }
  }
}
