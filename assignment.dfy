/**
 * Recognising an assignment line, `Name = expr` or `Name: expr`, and the two names an
 * assignment target gets: the display name the user wrote and the safe name handed to the
 * evaluator (src/utils/mathEngine.ts:108-119).
 */
module Assignments {
  import opened Wrappers
  import opened Text
  import opened Regex

  /** The two capture groups of a successful match: the target and the expression. */
  datatype Assignment = Assignment(target: string, expr: string)

  predicate NoLineTerminator(s: string) {
    forall k :: 0 <= k < |s| ==> !IsLineTerminator(s[k])
  }

  /** `[:=]` */
  predicate IsOperator(c: char) {
    c == ':' || c == '='
  }

  /**
   * One way the text `t` matches `^([a-zA-Z_][a-zA-Z0-9_\s]*)\s*[:=]\s*(.*)$`: the first
   * group is `t[..i]`, the white space before the operator `t[i..j]`, the operator `t[j]`,
   * the white space after it `t[j + 1..k]` and the second group `t[k..]`, which, being
   * matched by `.*` up to the end, holds no line terminator.
   */
  predicate AssignmentSplit(t: string, i: nat, j: nat, k: nat) {
    && 1 <= i <= j && j < k <= |t|
    && IsIdentStart(t[0])
    && (forall m :: 1 <= m < i ==> IsNameChar(t[m]))
    && (forall m :: i <= m < j ==> IsSpace(t[m]))
    && IsOperator(t[j])
    && (forall m :: j + 1 <= m < k ==> IsSpace(t[m]))
    && NoLineTerminator(t[k..])
  }

  /**
   * `trimmed.match(...)` with the assignment pattern. The first group is greedy and takes
   * every name character, white space included, so the operator is the first character
   * after that run and the optional white space before it is always empty; the white space
   * after the operator is taken greedily too.
   */
  function MatchAssignment(t: string): (r: Option<Assignment>)
    ensures r.Some? ==> |r.value.target| + |r.value.expr| < |t|
    ensures r.Some? ==> r.value.target == t[..|r.value.target|] && r.value.expr == t[|t| - |r.value.expr|..]
  {
    if |t| == 0 || !IsIdentStart(t[0]) then None
    else
      var p := RunEnd(t, 1, NameChars);
      if p < |t| && IsOperator(t[p]) then
        var k := RunEnd(t, p + 1, Spaces);
        if NoLineTerminator(t[k..]) then Some(Assignment(t[..p], t[k..])) else None
      else None
  }

  /**
   * The match is exactly the language of the pattern, and its groups are the ones a
   * leftmost-greedy regular expression engine reports: every way of matching puts the
   * operator at the same place, the first group reaches up to it, and the second group
   * starts no earlier than in any other way of matching.
   */
  lemma MatchAssignmentIsPattern(t: string)
    ensures MatchAssignment(t).Some? <==> exists i: nat, j: nat, k: nat :: AssignmentSplit(t, i, j, k)
    ensures MatchAssignment(t).Some? ==>
      var a := MatchAssignment(t).value;
      && AssignmentSplit(t, |a.target|, |a.target|, |t| - |a.expr|)
      && forall i: nat, j: nat, k: nat :: AssignmentSplit(t, i, j, k) ==> i <= j == |a.target| && k <= |t| - |a.expr|
  {
    if MatchAssignment(t).Some? {
      var a := MatchAssignment(t).value;
      var p := |a.target|;
      assert AssignmentSplit(t, p, p, |t| - |a.expr|);
      forall i: nat, j: nat, k: nat | AssignmentSplit(t, i, j, k) ensures i <= j == p && k <= |t| - |a.expr| {
        SplitIsGreedy(t, i, j, k);
      }
    }
    forall i: nat, j: nat, k: nat | AssignmentSplit(t, i, j, k) ensures MatchAssignment(t).Some? {
      SplitIsGreedy(t, i, j, k);
    }
  }

  /** Any way of matching has its operator where the greedy first group stops. */
  lemma SplitIsGreedy(t: string, i: nat, j: nat, k: nat)
    requires AssignmentSplit(t, i, j, k)
    ensures RunEnd(t, 1, NameChars) == j
    ensures k <= RunEnd(t, j + 1, Spaces)
    ensures MatchAssignment(t).Some?
  {
    RunEndAt(t, 1, j, NameChars);
    var q := RunEnd(t, j + 1, Spaces);
    assert t[q..] == t[k..][q - k..];
  }

  predicate AllNameChars(s: string) {
    forall k :: 0 <= k < |s| ==> IsNameChar(s[k])
  }

  /**
   * Display names: what `assignmentMatch[1].trim()` can be. They start like an identifier,
   * consist of letters, digits, `_` and white space, and end in a word character.
   */
  predicate IsDisplayName(n: string) {
    |n| > 0 && IsIdentStart(n[0]) && AllNameChars(n) && IsWordChar(n[|n| - 1])
  }

  /** `varNameOriginal`: the trimmed first group. */
  function DisplayName(a: Assignment): string {
    Trim(a.target)
  }

  /** The trimmed first group of a match is a display name, and it is the target without its trailing white space. */
  lemma DisplayNameShape(t: string)
    requires MatchAssignment(t).Some?
    ensures IsDisplayName(DisplayName(MatchAssignment(t).value))
    ensures MatchAssignment(t).value.target == DisplayName(MatchAssignment(t).value) +
      MatchAssignment(t).value.target[|DisplayName(MatchAssignment(t).value)|..]
  {
    var g := MatchAssignment(t).value.target;
    var n := Trim(g);
    assert g[0] == t[0] && !IsSpace(g[0]);
    assert RunEnd(g, 0, Spaces) == 0;
    assert n == g[..|n|];
    forall k | 0 <= k < |g| ensures IsNameChar(g[k]) {
      assert g[k] == t[k];
    }
  }

  /** The white-space runs of a name, each replaced by `_`. */
  const Underscores: Pattern := SpaceRun("_")

  /** `varNameSafe`: the display name with every white-space run replaced by one `_`. */
  function SafeName(n: string): string {
    Replace(Underscores, n)
  }

  /**
   * The safe name of a display name is a non-empty run of word characters: it contains no
   * white space, so the evaluator reads it as one identifier.
   */
  lemma SafeNameShape(n: string)
    requires IsDisplayName(n)
    ensures |SafeName(n)| > 0 && AllWordChars(SafeName(n))
  {
    var ms := Matches(Underscores, n);
    assert ms[0].None?;
    assert SafeName(n) == [n[0]] + Scan(n, ms, 1);
    SpaceRunsRemoved("_", n);
    ReplaceChars(Underscores, n);
    var r := SafeName(n);
    forall k | 0 <= k < |r| ensures IsWordChar(r[k]) {
      assert r[k] in r;
      assert !IsSpace(r[k]);
    }
  }

  /** A name without white space is its own safe name. */
  lemma SafeNameOfWord(n: string)
    requires AllWordChars(n)
    ensures SafeName(n) == n
  {
    forall j | 0 <= j < |n| ensures MatchAt(Underscores, n, j).None? {
    }
    ReplaceNoMatch(Underscores, n);
  }

  /** The characters `[.*+?^${}()|[\]\\]` that escaping protects. */
  predicate IsRegexSpecial(c: char) {
    c in ".*+?^${}()|[]\\"
  }

  /** `v.replace(/[.*+?^${}()|[\]\\]/g, '\\$&')`: a backslash before every special character. */
  function Escape(s: string): (r: string)
    ensures |r| >= |s|
  {
    if |s| == 0 then ""
    else (if IsRegexSpecial(s[0]) then ['\\', s[0]] else [s[0]]) + Escape(s[1..])
  }

  /**
   * Display names hold no special character, so escaping one leaves it unchanged and the
   * pattern `\bNAME\b` built from it matches the name literally.
   */
  lemma {:induction false} EscapeNameIsIdentity(s: string)
    requires AllNameChars(s)
    ensures Escape(s) == s
  {
    if |s| > 0 {
      assert !IsRegexSpecial(s[0]);
      EscapeNameIsIdentity(s[1..]);
      assert s == [s[0]] + s[1..];
    }
  }

  /** A text with a special character is changed by escaping. */
  lemma {:induction false} EscapeChangesSpecial(s: string, k: nat)
    requires k < |s| && IsRegexSpecial(s[k])
    ensures |Escape(s)| > |s|
  {
    if k > 0 {
      EscapeChangesSpecial(s[1..], k - 1);
    }
  }
}
