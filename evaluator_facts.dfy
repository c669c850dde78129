/**
 * What a pass of the sheet evaluator guarantees: one result per line; the shapes of blank,
 * rejected and accepted lines; which names get registered; and what `prev`, `previous`
 * and `line<N>` are bound to when a line is evaluated.
 */
module EvaluatorFacts {
  import opened Wrappers
  import opened Text
  import opened Regex
  import opened Assignments
  import opened Values
  import opened Evaluator

  // ---------------------------------------------------------------------------------------
  // One result per line
  // ---------------------------------------------------------------------------------------

  /** The results for a prefix of the lines are the prefix of the results: each line's result depends on it and the lines above only. */
  lemma {:induction false} ResultsPrefix(lines: seq<string>, n: nat, env: Env)
    requires n <= |lines|
    ensures |SheetResults(lines, env)| == |lines|
    ensures SheetResults(lines[..n], env) == SheetResults(lines, env)[..n]
    decreases |lines|
  {
    if n < |lines| {
      var init := lines[..|lines| - 1];
      ResultsPrefix(init, n, env);
      assert init[..n] == lines[..n];
    } else {
      assert lines[..n] == lines;
    }
  }

  /** The pass after the lines is the pass after all but the last, stepped over the last. */
  lemma RunLast(lines: seq<string>, env: Env)
    requires |lines| > 0
    ensures Run(lines, env) == Step(Run(lines[..|lines| - 1], env), lines[|lines| - 1], env)
  {
  }

  /** The result of the line at index `i` is the result `Step` adds for it after the lines above. */
  lemma ResultOfLine(lines: seq<string>, i: nat, env: Env)
    requires i < |lines|
    ensures SheetResults(lines, env)[i] == Step(Run(lines[..i], env), lines[i], env).results[i]
  {
    var pre := lines[..i + 1];
    ResultsPrefix(lines, i + 1, env);
    RunLast(pre, env);
    assert pre[..i] == lines[..i] && pre[i] == lines[i];
  }

  // ---------------------------------------------------------------------------------------
  // One line
  // ---------------------------------------------------------------------------------------

  /** The result a pass added last. */
  function Latest(q: Pass): LineResult
    requires |q.results| > 0
  {
    q.results[|q.results| - 1]
  }

  /** A blank line yields the blank result and leaves scope, names and last value as they were. */
  lemma BlankLine(p: Pass, line: string, env: Env)
    requires Valid(p) && Trim(line) == []
    ensures Latest(Step(p, line, env)) == Blank
    ensures Blank.value == Null && Blank.formatted == "" && !Blank.isAssignment && Blank.error == None
    ensures var q := Step(p, line, env);
      q.scope == p.scope && q.varMap == p.varMap && q.varKeys == p.varKeys && q.last == p.last
  {
  }

  /** Any other line is evaluated in `LineScope`, and the pass goes on with what the evaluator answers. */
  lemma NonBlankLine(p: Pass, line: string, env: Env)
    requires Valid(p) && Trim(line) != []
    ensures Step(p, line, env) == Evaluated(p, Trim(line), env.eval(Rewritten(Expression(Trim(line)), p.varMap, p.varKeys), LineScope(p)), env)
  {
  }

  /**
   * A line the evaluator rejects yields the failed result; names and last value stay as
   * they were, and the scope is the one the line was evaluated in.
   */
  lemma RejectedLine(p: Pass, t: string, env: Env)
    requires Valid(p)
    ensures Latest(Evaluated(p, t, None, env)) == Failed
    ensures Failed.value == Null && Failed.formatted == "" && !Failed.isAssignment
    ensures Failed.error == Some("Invalid expression")
    ensures var q := Evaluated(p, t, None, env);
      q.scope == LineScope(p) && q.varMap == p.varMap && q.varKeys == p.varKeys && q.last == p.last
  {
  }

  /** Of the lines that are not blank, exactly the rejected ones carry an error. */
  lemma ErrorIffRejected(p: Pass, t: string, o: Option<Value>, env: Env)
    requires Valid(p)
    ensures Latest(Evaluated(p, t, o, env)).error.Some? <==> o.None?
  {
  }

  /**
   * A line the evaluator accepts with value `v` yields `v`, its formatting and a snapshot of
   * the scope after the line, and `v` becomes the last value.
   */
  lemma AcceptedLine(p: Pass, t: string, v: Value, env: Env)
    requires Valid(p)
    ensures var q := Evaluated(p, t, Some(v), env);
      && Latest(q).value == v && Latest(q).formatted == FormatValue(v, env.render)
      && Latest(q).error.None? && Latest(q).variable == Target(t)
      && Latest(q).scope == Some(q.scope) && q.last == v
  {
  }

  /** `isAssignment` holds exactly for lines that match the assignment pattern and are accepted. */
  lemma IsAssignmentIff(p: Pass, t: string, o: Option<Value>, env: Env)
    requires Valid(p)
    ensures Latest(Evaluated(p, t, o, env)).isAssignment <==> MatchAssignment(t).Some? && o.Some?
  {
    TargetIsDisplayName(t);
  }

  /**
   * An accepted assignment `Name = expr` registers the trimmed left capture under its safe
   * name, which holds no white space, binds the safe name to the value in the scope, and
   * is evaluated from the right capture.
   */
  lemma AcceptedAssignment(p: Pass, t: string, v: Value, env: Env)
    requires Valid(p) && MatchAssignment(t).Some?
    ensures var a := MatchAssignment(t).value;
      var name := DisplayName(a);
      var q := Evaluated(p, t, Some(v), env);
      && Expression(t) == a.expr
      && name == Trim(a.target)
      && Latest(q).variable == Some(name) && Latest(q).isAssignment
      && q.varMap == p.varMap[name := SafeName(name)]
      && q.scope == LineScope(p)[SafeName(name) := v]
      && |SafeName(name)| > 0 && AllWordChars(SafeName(name))
      && q.varKeys == if name in p.varMap then p.varKeys else p.varKeys + [name]
  {
    TargetIsDisplayName(t);
    SafeNameShape(DisplayName(MatchAssignment(t).value));
  }

  /** A line that is no assignment registers nothing, whether accepted or not. */
  lemma NoAssignmentNoName(p: Pass, t: string, o: Option<Value>, env: Env)
    requires Valid(p) && MatchAssignment(t).None?
    ensures var q := Evaluated(p, t, o, env);
      q.varMap == p.varMap && q.varKeys == p.varKeys && Latest(q).variable.None?
      && (o.Some? ==> q.scope == LineScope(p))
  {
  }

  /** Registered names only grow, and each key keeps its safe name. */
  lemma StepExtendsNames(p: Pass, line: string, env: Env)
    requires Valid(p)
    ensures var q := Step(p, line, env);
      forall k :: k in p.varMap ==> k in q.varMap && q.varMap[k] == p.varMap[k]
  {
    var t := Trim(line);
    if t != [] {
      NonBlankLine(p, line, env);
      EvaluatedExtendsNames(p, t, env.eval(Rewritten(Expression(t), p.varMap, p.varKeys), LineScope(p)), env);
    }
  }

  /** The same for the evaluated line, whatever the evaluator answered. */
  lemma EvaluatedExtendsNames(p: Pass, t: string, o: Option<Value>, env: Env)
    requires Valid(p)
    ensures var q := Evaluated(p, t, o, env);
      forall k :: k in p.varMap ==> k in q.varMap && q.varMap[k] == p.varMap[k]
  {
    var q := Evaluated(p, t, o, env);
    forall k | k in p.varMap ensures k in q.varMap && q.varMap[k] == p.varMap[k] {
      assert Valid(q);
    }
  }

  // ---------------------------------------------------------------------------------------
  // Registered names
  // ---------------------------------------------------------------------------------------

  /** The display names of the accepted assignments among `rs`. */
  predicate AssignedIn(k: string, rs: seq<LineResult>) {
    exists i :: 0 <= i < |rs| && rs[i].isAssignment && rs[i].variable == Some(k)
  }

  lemma AssignedInAppend(k: string, rs: seq<LineResult>, r: LineResult)
    ensures AssignedIn(k, rs + [r]) <==> AssignedIn(k, rs) || (r.isAssignment && r.variable == Some(k))
  {
    if AssignedIn(k, rs) {
      var i :| 0 <= i < |rs| && rs[i].isAssignment && rs[i].variable == Some(k);
      assert (rs + [r])[i] == rs[i];
    }
    if r.isAssignment && r.variable == Some(k) {
      assert (rs + [r])[|rs|] == r;
    }
    if AssignedIn(k, rs + [r]) {
      var i :| 0 <= i < |rs| + 1 && (rs + [r])[i].isAssignment && (rs + [r])[i].variable == Some(k);
      if i < |rs| {
        assert (rs + [r])[i] == rs[i];
      }
    }
  }

  /** One line registers `k` newly exactly when it is an accepted assignment of `k`. */
  lemma StepRegisters(p: Pass, line: string, env: Env, k: string)
    requires Valid(p)
    ensures var q := Step(p, line, env);
      k in q.varMap <==> k in p.varMap || (Latest(q).isAssignment && Latest(q).variable == Some(k))
  {
    var t := Trim(line);
    if t != [] {
      NonBlankLine(p, line, env);
      var o := env.eval(Rewritten(Expression(t), p.varMap, p.varKeys), LineScope(p));
      IsAssignmentIff(p, t, o, env);
      if MatchAssignment(t).None? {
        NoAssignmentNoName(p, t, o, env);
      } else if o.Some? {
        AcceptedAssignment(p, t, o.value, env);
      }
    }
  }

  /**
   * The names registered after a pass, the names the next line's known-name rewrite uses,
   * are exactly the display names of the accepted assignments of the pass.
   */
  lemma {:induction false} RegisteredNames(lines: seq<string>, env: Env, k: string)
    ensures k in Run(lines, env).varMap <==> AssignedIn(k, SheetResults(lines, env))
    decreases |lines|
  {
    if |lines| > 0 {
      var p := Run(lines[..|lines| - 1], env);
      var q := Run(lines, env);
      RunLast(lines, env);
      RegisteredNames(lines[..|lines| - 1], env, k);
      StepRegisters(p, lines[|lines| - 1], env, k);
      RegisteredAfter(p, q, k);
    }
  }

  /** A pass that adds one result registers `k` as its results say, given the pass before did. */
  lemma RegisteredAfter(p: Pass, q: Pass, k: string)
    requires |q.results| == |p.results| + 1 && q.results[..|p.results|] == p.results
    requires k in p.varMap <==> AssignedIn(k, p.results)
    requires k in q.varMap <==> k in p.varMap || (Latest(q).isAssignment && Latest(q).variable == Some(k))
    ensures k in q.varMap <==> AssignedIn(k, q.results)
  {
    assert q.results == p.results + [Latest(q)];
    AssignedInAppend(k, p.results, Latest(q));
  }

  // ---------------------------------------------------------------------------------------
  // `line<N>`
  // ---------------------------------------------------------------------------------------

  /** `line<N>` keys of distinct lines are distinct. */
  lemma LineKeyInjective(m: nat, n: nat)
    requires LineKey(m) == LineKey(n)
    ensures m == n
  {
    assert LineKey(m)[4..] == NatToString(m);
    assert LineKey(n)[4..] == NatToString(n);
    NatToStringInjective(m, n);
  }

  /**
   * After the loop over the first `m` results, every one of them with a value that is not
   * nullish is bound under its `line<N>` key, whatever the scope held under that key before.
   */
  lemma {:induction false} LineRefsBound(scope: Scope, rs: seq<LineResult>, m: nat, n: nat)
    requires n <= m <= |rs| && 1 <= n && !IsNullish(rs[n - 1].value)
    ensures LineKey(n) in BindLineRefs(scope, rs, m)
    ensures BindLineRefs(scope, rs, m)[LineKey(n)] == rs[n - 1].value
  {
    if n < m {
      LineRefsBound(scope, rs, m - 1, n);
      if LineKey(m) == LineKey(n) {
        LineKeyInjective(m, n);
      }
    }
  }

  /** The loop over the results touches `line<N>` keys only. */
  lemma {:induction false} LineRefsKeep(scope: Scope, rs: seq<LineResult>, m: nat, key: string)
    requires m <= |rs| && (|key| < 4 || key[..4] != "line")
    ensures key in BindLineRefs(scope, rs, m) <==> key in scope
    ensures key in scope ==> BindLineRefs(scope, rs, m)[key] == scope[key]
  {
    if m > 0 {
      LineRefsKeep(scope, rs, m - 1, key);
      assert LineKey(m)[..4] == "line";
    }
  }

  /** Every earlier line with a value that is not nullish is visible as `line<N>` to the next line. */
  lemma LineRefBinding(p: Pass, n: nat)
    requires 1 <= n <= |p.results| && !IsNullish(p.results[n - 1].value)
    ensures LineKey(n) in LineScope(p) && LineScope(p)[LineKey(n)] == p.results[n - 1].value
  {
    LineRefsBound(BindPrev(p.scope, p.last), p.results, |p.results|, n);
  }

  // ---------------------------------------------------------------------------------------
  // `prev` and `previous`
  // ---------------------------------------------------------------------------------------

  /** The value of the last result whose value is not nullish. */
  function LastValue(rs: seq<LineResult>): (r: Option<Value>)
    ensures r.None? <==> forall i :: 0 <= i < |rs| ==> IsNullish(rs[i].value)
    ensures r.Some? ==> !IsNullish(r.value)
    ensures r.Some? ==>
      exists i :: 0 <= i < |rs| && rs[i].value == r.value && forall j :: i < j < |rs| ==> IsNullish(rs[j].value)
  {
    if |rs| == 0 then None
    else if !IsNullish(rs[|rs| - 1].value) then Some(rs[|rs| - 1].value)
    else
      var r := LastValue(rs[..|rs| - 1]);
      assert forall i :: 0 <= i < |rs| - 1 ==> rs[..|rs| - 1][i] == rs[i];
      r
  }

  /** No assignment so far has the safe name `prev` or `previous`. */
  predicate NoPrevNames(varMap: map<string, string>) {
    forall k :: k in varMap ==> varMap[k] != "prev" && varMap[k] != "previous"
  }

  /** How `prev` and `previous` relate to the results, as long as no assignment takes their names. */
  predicate PrevInvariant(p: Pass) {
    NoPrevNames(p.varMap) ==>
      && (!IsNullish(p.last) ==> LastValue(p.results) == Some(p.last))
      && (IsNullish(p.last) && LastValue(p.results).None? ==> "prev" !in p.scope && "previous" !in p.scope)
      && (IsNullish(p.last) && LastValue(p.results).Some? ==>
            && "prev" in p.scope && p.scope["prev"] == LastValue(p.results).value
            && "previous" in p.scope && p.scope["previous"] == LastValue(p.results).value)
  }

  /** `prev` and `previous` are no `line<N>` keys. */
  lemma PrevAreNoLineKeys()
    ensures "prev"[..4] != "line" && "previous"[..4] != "line"
  {
    assert "prev"[0] == 'p' && "line"[0] == 'l';
    assert "previous"[..4][0] == 'p';
  }

  /**
   * The scope a non-blank line is evaluated in binds `prev` and `previous` to the last value
   * that is not nullish, and binds neither while there is none.
   */
  lemma PrevInLineScope(p: Pass)
    requires PrevInvariant(p) && NoPrevNames(p.varMap)
    ensures LastValue(p.results).Some? ==>
      && "prev" in LineScope(p) && LineScope(p)["prev"] == LastValue(p.results).value
      && "previous" in LineScope(p) && LineScope(p)["previous"] == LastValue(p.results).value
    ensures LastValue(p.results).None? ==> "prev" !in LineScope(p) && "previous" !in LineScope(p)
  {
    PrevAreNoLineKeys();
    LineRefsKeep(BindPrev(p.scope, p.last), p.results, |p.results|, "prev");
    LineRefsKeep(BindPrev(p.scope, p.last), p.results, |p.results|, "previous");
  }

  lemma LastValueAppend(rs: seq<LineResult>, r: LineResult)
    ensures LastValue(rs + [r]) == if IsNullish(r.value) then LastValue(rs) else Some(r.value)
  {
    assert (rs + [r])[..|rs|] == rs;
  }

  /** `prev` and `previous` are bound alike in both scopes. */
  predicate AgreeOnPrev(s: Scope, s': Scope) {
    && ("prev" in s <==> "prev" in s') && ("prev" in s ==> s["prev"] == s'["prev"])
    && ("previous" in s <==> "previous" in s') && ("previous" in s ==> s["previous"] == s'["previous"])
  }

  /**
   * A non-blank line keeps the invariant when it leaves `prev` and `previous` as the line
   * saw them and either makes its own value the last value or adds a nullish result.
   */
  lemma PrevAfterLine(p: Pass, q: Pass)
    requires PrevInvariant(p) && |q.results| > 0
    requires q.results == p.results + [Latest(q)]
    requires NoPrevNames(q.varMap) ==> NoPrevNames(p.varMap) && AgreeOnPrev(q.scope, LineScope(p))
    requires (q.last == p.last && IsNullish(Latest(q).value)) || q.last == Latest(q).value
    ensures PrevInvariant(q)
  {
    LastValueAppend(p.results, Latest(q));
    if NoPrevNames(q.varMap) {
      PrevInLineScope(p);
    }
  }

  /** A line the evaluator has answered keeps the invariant. */
  lemma EvaluatedKeepsPrevInvariant(p: Pass, t: string, o: Option<Value>, env: Env)
    requires Valid(p) && PrevInvariant(p)
    ensures PrevInvariant(Evaluated(p, t, o, env))
  {
    var q := Evaluated(p, t, o, env);
    assert q.results == p.results + [Latest(q)];
    if o.None? {
      RejectedLine(p, t, env);
    } else if MatchAssignment(t).None? {
      NoAssignmentNoName(p, t, o, env);
      AcceptedLine(p, t, o.value, env);
    } else {
      AcceptedAssignment(p, t, o.value, env);
      AcceptedLine(p, t, o.value, env);
      var name := DisplayName(MatchAssignment(t).value);
      assert q.varMap[name] == SafeName(name);
      assert forall k :: k in p.varMap ==> k in q.varMap && q.varMap[k] == p.varMap[k];
    }
    PrevAfterLine(p, q);
  }

  /** Each line keeps the invariant. */
  lemma StepKeepsPrevInvariant(p: Pass, line: string, env: Env)
    requires Valid(p) && PrevInvariant(p)
    ensures PrevInvariant(Step(p, line, env))
  {
    var t := Trim(line);
    if t == [] {
      BlankLine(p, line, env);
      LastValueAppend(p.results, Blank);
    } else {
      NonBlankLine(p, line, env);
      EvaluatedKeepsPrevInvariant(p, t, env.eval(Rewritten(Expression(t), p.varMap, p.varKeys), LineScope(p)), env);
    }
  }

  lemma {:induction false} RunKeepsPrevInvariant(lines: seq<string>, env: Env)
    ensures PrevInvariant(Run(lines, env))
    decreases |lines|
  {
    if |lines| > 0 {
      RunKeepsPrevInvariant(lines[..|lines| - 1], env);
      StepKeepsPrevInvariant(Run(lines[..|lines| - 1], env), lines[|lines| - 1], env);
    }
  }

  /**
   * After any lines, unless an assignment took the name `prev` or `previous`, the next line
   * sees `prev` and `previous` bound to the most recent value that is not nullish, and
   * unbound while there is none.
   */
  lemma PrevBinding(lines: seq<string>, env: Env)
    requires NoPrevNames(Run(lines, env).varMap)
    ensures var p := Run(lines, env);
      && (LastValue(p.results).Some? ==>
            && "prev" in LineScope(p) && LineScope(p)["prev"] == LastValue(p.results).value
            && "previous" in LineScope(p) && LineScope(p)["previous"] == LastValue(p.results).value)
      && (LastValue(p.results).None? ==> "prev" !in LineScope(p) && "previous" !in LineScope(p))
  {
    RunKeepsPrevInvariant(lines, env);
    PrevInLineScope(Run(lines, env));
  }
}
