/**
 * `evaluateSheet` (src/utils/mathEngine.ts:76-203): one pass over the lines of a sheet that
 * shares a single scope between them. Each non-blank line sees `prev`/`previous` (the last
 * value computed) and `line1`, `line2`, … (the values of earlier lines), may be an
 * assignment `Name = expr`, has its known names, currency glyphs and word operators
 * rewritten, and is handed to the mathematical evaluator.
 *
 * The pass is specified by `Step`, one line at a time, and `Run`, the fold of `Step` over
 * the lines; `EvaluateSheet` is the loop itself, proved to produce exactly `Run`'s results.
 */
module Evaluator {
  import opened Wrappers
  import opened Text
  import opened Regex
  import opened Assignments
  import opened Rewriting
  import opened Values

  /** `LineResult`: an absent optional field is `None`. */
  datatype LineResult = LineResult(
    value: Value,
    formatted: string,
    error: Option<string>,
    variable: Option<string>,
    isAssignment: bool,
    scope: Option<Scope>)

  /** The result of a blank line. */
  const Blank: LineResult := LineResult(Null, "", None, None, false, None)

  /** The result of a line the evaluator rejects. */
  const Failed: LineResult := LineResult(Null, "", Some("Invalid expression"), None, false, None)

  /**
   * What the pass depends on but does not define: compiling and evaluating an expression in
   * a scope (`None` when either throws) and the renderers `formatValue` uses.
   */
  datatype Env = Env(eval: (string, Scope) -> Option<Value>, render: Renderers)

  /**
   * The local state of the pass: the shared scope, the map from display names to safe
   * names with its keys in insertion order (the order `Object.keys` lists them in), the
   * last value computed (`lastResultValue`) and the results so far.
   */
  datatype Pass = Pass(
    scope: Scope,
    varMap: map<string, string>,
    varKeys: seq<string>,
    last: Value,
    results: seq<LineResult>)

  const Start: Pass := Pass(map[], map[], [], Null, [])

  predicate Distinct(xs: seq<string>) {
    forall i, j :: 0 <= i < j < |xs| ==> xs[i] != xs[j]
  }

  /**
   * What the pass keeps true of its name map: its keys are listed once each, every key is
   * a display name, and every key maps to its own safe name.
   */
  predicate NamesValid(varMap: map<string, string>, varKeys: seq<string>) {
    && Distinct(varKeys)
    && (forall i :: 0 <= i < |varKeys| ==> varKeys[i] in varMap)
    && (forall k :: k in varMap ==> k in varKeys && IsDisplayName(k) && varMap[k] == SafeName(k))
  }

  predicate Valid(p: Pass) {
    NamesValid(p.varMap, p.varKeys)
  }

  /** `line${idx + 1}` for the line at index `n - 1`. */
  function LineKey(n: nat): string {
    "line" + NatToString(n)
  }

  /** `prev` and `previous` are refreshed only from a value that is not nullish. */
  function BindPrev(scope: Scope, last: Value): Scope {
    if IsNullish(last) then scope else scope["prev" := last]["previous" := last]
  }

  /** The scope after the loop over the results has visited the first `n` of them. */
  function BindLineRefs(scope: Scope, rs: seq<LineResult>, n: nat): Scope
    requires n <= |rs|
  {
    if n == 0 then scope
    else
      var s := BindLineRefs(scope, rs, n - 1);
      if IsNullish(rs[n - 1].value) then s else s[LineKey(n) := rs[n - 1].value]
  }

  /** The scope a non-blank line is evaluated in. */
  function LineScope(p: Pass): Scope {
    BindLineRefs(BindPrev(p.scope, p.last), p.results, |p.results|)
  }

  /** `Object.keys(varMap).sort(...)`: the known display names, longest first. */
  function KnownNames(varKeys: seq<string>): (ks: seq<string>)
    ensures multiset(ks) == multiset(varKeys)
  {
    SortByLength(varKeys)
  }

  lemma KnownNamesSubstitutable(varMap: map<string, string>, varKeys: seq<string>)
    requires NamesValid(varMap, varKeys)
    ensures Substitutable(KnownNames(varKeys), varMap)
  {
    var ks := KnownNames(varKeys);
    forall k | 0 <= k < |ks| ensures IsDisplayName(ks[k]) && ks[k] in varMap {
      assert ks[k] in multiset(ks);
      assert ks[k] in multiset(varKeys);
      var i :| 0 <= i < |varKeys| && varKeys[i] == ks[k];
    }
  }

  /** The text handed to the rewrites: the second group of an assignment, else the whole line. */
  function Expression(t: string): string {
    match MatchAssignment(t)
    case Some(a) => a.expr
    case None => t
  }

  lemma TargetIsDisplayName(t: string)
    ensures MatchAssignment(t).Some? ==> IsDisplayName(DisplayName(MatchAssignment(t).value))
  {
    if MatchAssignment(t).Some? {
      DisplayNameShape(t);
    }
  }

  /** The display name of an assignment line, `varNameOriginal`. */
  function Target(t: string): Option<string> {
    match MatchAssignment(t)
    case Some(a) => Some(DisplayName(a))
    case None => None
  }

  /** `!!varNameOriginal`: there is a display name and it is not empty. */
  predicate Names(name: Option<string>) {
    name.Some? && |name.value| > 0
  }

  /** The rewrites with the names registered so far. */
  function Rewritten(e: string, varMap: map<string, string>, varKeys: seq<string>): string
    requires NamesValid(varMap, varKeys)
  {
    KnownNamesSubstitutable(varMap, varKeys);
    Normalize(e, KnownNames(varKeys), varMap)
  }

  /** `varMap[name] = safe`, with `name` appended to the keys when it is new. */
  function Register(p: Pass, name: string, safe: string): (r: (map<string, string>, seq<string>)) {
    (p.varMap[name := safe], if name in p.varMap then p.varKeys else p.varKeys + [name])
  }

  /** Registering a display name under its own safe name keeps the name map valid. */
  lemma RegisterKeepsValid(p: Pass, scope: Scope, name: string, v: Value, r: LineResult)
    requires Valid(p) && IsDisplayName(name)
    ensures Valid(Pass(scope, Register(p, name, SafeName(name)).0, Register(p, name, SafeName(name)).1, v, p.results + [r]))
  {
    var (vm, ks) := Register(p, name, SafeName(name));
    if name !in p.varMap {
      forall i, j | 0 <= i < j < |ks| ensures ks[i] != ks[j] {
        if j == |p.varKeys| {
          assert ks[i] == p.varKeys[i];
          assert p.varKeys[i] in p.varMap;
        }
      }
    }
  }

  /**
   * A line the evaluator accepts with value `v`: the value becomes the last value, and when
   * the line is an assignment (`varNameOriginal && varNameSafe`) its safe name is bound to
   * the value and its display name registered, after the names already registered.
   */
  function Accept(p: Pass, scope: Scope, t: string, v: Value, env: Env): (q: Pass)
    requires Valid(p)
    ensures Valid(q)
  {
    var name := Target(t);
    var safe := if name.Some? then Some(SafeName(name.value)) else None;
    var defines := Names(name) && Names(safe);
    var scope' := if defines then scope[safe.value := v] else scope;
    var r := LineResult(v, FormatValue(v, env.render), None, name, Names(name), Some(scope'));
    if defines then
      TargetIsDisplayName(t);
      RegisterKeepsValid(p, scope', name.value, v, r);
      var (varMap', varKeys') := Register(p, name.value, safe.value);
      Pass(scope', varMap', varKeys', v, p.results + [r])
    else Pass(scope', p.varMap, p.varKeys, v, p.results + [r])
  }

  /** What the evaluator makes of the non-blank trimmed line `t`. */
  function Outcome(p: Pass, t: string, env: Env): Option<Value>
    requires Valid(p)
  {
    env.eval(Rewritten(Expression(t), p.varMap, p.varKeys), LineScope(p))
  }

  /**
   * A non-blank trimmed line `t` once the evaluator has answered `o`: when it rejected the
   * line, the pass keeps the scope the line was evaluated in and adds the failed result;
   * when it accepted it, the line is accepted in that scope.
   */
  function Evaluated(p: Pass, t: string, o: Option<Value>, env: Env): (q: Pass)
    requires Valid(p)
    ensures Valid(q)
    ensures |q.results| == |p.results| + 1 && q.results[..|p.results|] == p.results
  {
    match o
    case None => p.(scope := LineScope(p), results := p.results + [Failed])
    case Some(v) => Accept(p, LineScope(p), t, v, env)
  }

  /** One line of the pass: a blank line only adds the blank result. */
  function Step(p: Pass, line: string, env: Env): (q: Pass)
    requires Valid(p)
    ensures Valid(q)
    ensures |q.results| == |p.results| + 1 && q.results[..|p.results|] == p.results
  {
    var t := Trim(line);
    if t == [] then p.(results := p.results + [Blank])
    else Evaluated(p, t, Outcome(p, t, env), env)
  }

  /** The pass after the given lines, starting from the empty state. */
  function Run(lines: seq<string>, env: Env): (p: Pass)
    ensures Valid(p)
    ensures |p.results| == |lines|
  {
    if |lines| == 0 then Start
    else Step(Run(lines[..|lines| - 1], env), lines[|lines| - 1], env)
  }

  /** What `evaluateSheet` returns. */
  function SheetResults(lines: seq<string>, env: Env): seq<LineResult> {
    Run(lines, env).results
  }

  /** Steps 0 of the loop body: `prev`, `previous` and the `line<N>` references. */
  method BindReferences(scope: Scope, last: Value, results: seq<LineResult>) returns (s: Scope)
    ensures s == BindLineRefs(BindPrev(scope, last), results, |results|)
  {
    s := scope;
    if !IsNullish(last) {
      s := s["prev" := last]["previous" := last];
    }
    for idx := 0 to |results|
      invariant s == BindLineRefs(BindPrev(scope, last), results, idx)
    {
      if !IsNullish(results[idx].value) {
        s := s[LineKey(idx + 1) := results[idx].value];
      }
    }
  }

  /** The known names replaced by their safe names, longest first. */
  function Substituted(e: string, varMap: map<string, string>, varKeys: seq<string>): string
    requires NamesValid(varMap, varKeys)
  {
    KnownNamesSubstitutable(varMap, varKeys);
    SubstituteNames(e, KnownNames(varKeys), varMap)
  }

  /** Step 2 of the loop body: the loop over the known names. */
  method SubstituteKnownNames(expression: string, varMap: map<string, string>, varKeys: seq<string>) returns (expr: string)
    requires NamesValid(varMap, varKeys)
    ensures expr == Substituted(expression, varMap, varKeys)
  {
    expr := expression;
    var knownVars := SortByLength(varKeys);
    KnownNamesSubstitutable(varMap, varKeys);
    for i := 0 to |knownVars|
      invariant SubstituteNames(expr, knownVars[i..], varMap) == SubstituteNames(expression, knownVars, varMap)
    {
      var v := knownVars[i];
      EscapeNameIsIdentity(v);
      assert knownVars[i..][1..] == knownVars[i + 1..];
      expr := Replace(NamePattern(v, varMap[v]), expr);
    }
    assert knownVars[|knownVars|..] == [];
  }

  /** Step 3 of the loop body: the loop over the currency table. */
  method ConvertCurrencySymbols(expression: string) returns (expr: string)
    ensures expr == ConvertCurrencies(expression, |CurrencySymbols|)
  {
    expr := expression;
    for i := 0 to |CurrencySymbols|
      invariant expr == ConvertCurrencies(expression, i)
    {
      var (symbol, code) := CurrencySymbols[i];
      expr := Replace(SymbolThenNumber(symbol, code), expr);
      expr := Replace(NumberThenSymbol(symbol, code), expr);
      expr := Replace(Symbol(symbol, code), expr);
    }
  }

  /** Steps 2 and 3 of the loop body: known names, currency, `of` and `as`. */
  method Rewrite(expression: string, varMap: map<string, string>, varKeys: seq<string>) returns (expr: string)
    requires NamesValid(varMap, varKeys)
    ensures expr == Rewritten(expression, varMap, varKeys)
  {
    expr := SubstituteKnownNames(expression, varMap, varKeys);
    expr := ConvertCurrencySymbols(expr);
    expr := Replace(OfPattern, expr);
    expr := Replace(AsPattern, expr);
  }

  /** The body of the loop over the lines, for the non-blank trimmed line `trimmed`. */
  method EvaluateLine(p: Pass, line: string, trimmed: string, env: Env) returns (q: Pass)
    requires Valid(p) && trimmed == Trim(line) && trimmed != []
    ensures q == Step(p, line, env)
  {
    var scope := BindReferences(p.scope, p.last, p.results);
    var varMap, varKeys, last, results := p.varMap, p.varKeys, p.last, p.results;
    var m := MatchAssignment(trimmed);
    var expressionToEval := trimmed;
    var nameOriginal: Option<string> := None;
    var nameSafe: Option<string> := None;
    if m.Some? {
      nameOriginal := Some(DisplayName(m.value));
      nameSafe := Some(SafeName(nameOriginal.value));
      expressionToEval := m.value.expr;
    }
    expressionToEval := Rewrite(expressionToEval, varMap, varKeys);
    var outcome := env.eval(expressionToEval, scope);
    if outcome.None? {
      results := results + [Failed];
    } else {
      var value := outcome.value;
      if Names(nameOriginal) && Names(nameSafe) {
        scope := scope[nameSafe.value := value];
        if nameOriginal.value !in varMap {
          varKeys := varKeys + [nameOriginal.value];
        }
        varMap := varMap[nameOriginal.value := nameSafe.value];
      }
      last := value;
      results := results + [LineResult(value, FormatValue(value, env.render), None, nameOriginal, Names(nameOriginal), Some(scope))];
    }
    q := Pass(scope, varMap, varKeys, last, results);
  }

  /** `evaluateSheet(lines)`. */
  method EvaluateSheet(lines: seq<string>, env: Env) returns (results: seq<LineResult>)
    ensures results == SheetResults(lines, env)
  {
    var pass := Start;
    for n := 0 to |lines|
      invariant pass == Run(lines[..n], env)
    {
      assert lines[..n + 1][..n] == lines[..n];
      assert Run(lines[..n + 1], env) == Step(pass, lines[n], env);
      var trimmed := Trim(lines[n]);
      if trimmed == [] {
        pass := pass.(results := pass.results + [Blank]);
      } else {
        pass := EvaluateLine(pass, lines[n], trimmed, env);
      }
    }
    assert lines[..|lines|] == lines;
    results := pass.results;
  }
}
