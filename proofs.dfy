/**
 * Checking proofs. A direct proof is a chain of transforms from a start term
 * (by default the left-hand side) to the right-hand side; each transform
 * rewrites the focus of the current term by a named rule (optionally
 * reversed), by the induction hypothesis, or is a placeholder accepted as it
 * is. An induction proof checks a base case at 0 and a step case at
 * `(succ x)`, the step case with the original equation as hypothesis.
 */
module Proofs {
  import opened Wrappers
  import opened Terms
  import opened Focus
  import opened Matching
  import opened Rewrite
  import opened Substitution
  import opened BindingTable

  /** A registered equation `lhs = rhs`, universally quantified over `params`. */
  datatype Rule = Rule(name: Ident, params: seq<Ident>, lhs: Expr, rhs: Expr)

  /** The equation being proved, usable inside the step case of an induction. */
  datatype InductionRule = InductionRule(lhs: Expr, rhs: Expr)

  datatype TransformTag = Named | InductionStep | Todo

  /** A chain of transforms; `Done` is the null pointer that ends it. */
  datatype Transform =
    | Done
    | Transform(tag: TransformTag, name: Ident, reversed: bool, target: Option<Expr>, next: Transform)

  datatype Direct = Direct(start: Option<Expr>, transform: Transform)

  datatype Induction = Induction(variable: Ident, base: Direct, step: Direct)

  datatype Proof = DirectProof(direct: Direct) | InductionProof(induction: Induction)

  /** `find_rule`: the first registered rule with the given name. */
  function FindRule(name: Ident, rules: seq<Rule>): (r: Option<Rule>)
    ensures r.None? <==> forall i :: 0 <= i < |rules| ==> rules[i].name != name
    ensures r.Some? ==> exists i :: 0 <= i < |rules| && rules[i] == r.value && r.value.name == name &&
                          forall j :: 0 <= j < i ==> rules[j].name != name
  {
    if rules == [] then None
    else if rules[0].name == name then Some(rules[0])
    else
      var r := FindRule(name, rules[1..]);
      if r.Some? then
        var i :| 0 <= i < |rules[1..]| && rules[1..][i] == r.value && r.value.name == name &&
                 forall j :: 0 <= j < i ==> rules[1..][j].name != name;
        assert rules[i + 1] == r.value;
        r
      else r
  }

  /** The rule found is the one at index `i`, the first with that name. */
  lemma {:induction false} FindRuleAt(name: Ident, rules: seq<Rule>, i: nat)
    requires i < |rules| && rules[i].name == name
    requires forall j :: 0 <= j < i ==> rules[j].name != name
    ensures FindRule(name, rules) == Some(rules[i])
  {
    if i > 0 {
      FindRuleAt(name, rules[1..], i - 1);
    }
  }

  /** The focus of `expr` (its first marked node, or the root if none) and `expr` with other marks cleared. */
  function FocusOf(expr: Expr): (r: (Path, Expr))
    ensures ValidPath(r.1, r.0) && Equal(r.1, expr)
  {
    var f := FindMarked(expr);
    EqualIffSameUnmarked(f.expr, expr);
    (f.focus.GetOr([]), f.expr)
  }

  /** The rule sides a named transform rewrites from and to: swapped when it is reversed. */
  function Sides(rule: Rule, reversed: bool): (Expr, Expr) {
    if reversed then (rule.rhs, rule.lhs) else (rule.lhs, rule.rhs)
  }

  /** One transform of a chain, checked against `expr`, with `rhs` as the default target. */
  function StepAccepted(expr: Expr, t: Transform, rhs: Expr, rules: seq<Rule>, hyp: Option<InductionRule>): bool
    requires t.Transform?
  {
    var (focus, e) := FocusOf(expr);
    var target := t.target.GetOr(rhs);
    match t.tag
    case Named =>
      var rule := FindRule(t.name, rules);
      rule.Some? &&
      var (src, dst) := Sides(rule.value, t.reversed);
      var left := RuleLeft(At(e, focus), src, rule.value.params, []);
      left.ok && VerifyRuleRight(e, Some(focus), dst, target, rule.value.params, left.env)
    case InductionStep =>
      hyp.Some? &&
      Equal(At(e, focus), hyp.value.lhs) &&
      VerifyRuleRight(e, Some(focus), hyp.value.rhs, target, [], [])
    case Todo => true
  }

  /** The focus lies under an element of `l`, the first element having index `i`. */
  predicate FocusInList(l: ExprList, focus: Option<Path>, i: nat) {
    focus.Some? && |focus.value| > 0 && i <= focus.value[0] < i + Len(l) &&
    ValidPath(Nth(l, focus.value[0] - i), focus.value[1..])
  }

  /**
   * `verify_rule_right` on the checker's buffer: the walk reaches the focus at
   * most once, and there the other side is matched against the target,
   * extending the buffer in place. Away from the focus the buffer is untouched.
   */
  method CheckRight(b: Bindings, expr: Expr, focus: Option<Path>, replace: Expr, target: Expr,
                    params: seq<Ident>) returns (ok: bool)
    requires b.Room(params)
    modifies b, b.bindings
    ensures b.Room(params) && b.bindings == old(b.bindings)
    ensures ok == VerifyRuleRight(expr, focus, replace, target, params, old(b.Contents()))
    ensures Extends(b.Contents(), old(b.Contents()), params)
    ensures focus.None? || !ValidPath(expr, focus.value) ==> b.Contents() == old(b.Contents())
    ensures ok && focus.Some? && ValidPath(expr, focus.value) ==>
              ValidPath(target, focus.value) &&
              b.Contents() == PatternMatch(At(target, focus.value), replace, params, old(b.Contents())).env
    decreases expr
  {
    if focus == Some([]) {
      ok := b.MatchPattern(target, replace, params);
    } else if expr.Sexp? {
      if target.Sexp? {
        ok := CheckRightList(b, expr.sexp, focus, 0, replace, target.sexp, params);
      } else {
        ok := false;
      }
    } else {
      ok := Equal(expr, target);
    }
  }

  /** `verify_rule_right_sexp` on the checker's buffer; `i` is the index of the first element of `l`. */
  method CheckRightList(b: Bindings, l: ExprList, focus: Option<Path>, i: nat, replace: Expr, tl: ExprList,
                        params: seq<Ident>) returns (ok: bool)
    requires b.Room(params)
    modifies b, b.bindings
    ensures b.Room(params) && b.bindings == old(b.bindings)
    ensures ok == VerifyRuleRightList(l, focus, i, replace, tl, params, old(b.Contents()))
    ensures Extends(b.Contents(), old(b.Contents()), params)
    ensures !FocusInList(l, focus, i) ==> b.Contents() == old(b.Contents())
    ensures ok && FocusInList(l, focus, i) ==>
              var j, q := focus.value[0] - i, focus.value[1..];
              j < Len(tl) && ValidPath(Nth(tl, j), q) &&
              b.Contents() == PatternMatch(At(Nth(tl, j), q), replace, params, old(b.Contents())).env
    decreases l
  {
    if l.Nil? {
      ok := tl.Nil?;
    } else if tl.Nil? {
      ok := false;
    } else {
      ghost var env := b.Contents();
      ok := CheckRight(b, l.head, Child(focus, i), replace, tl.head, params);
      if ok {
        if Child(focus, i).Some? {
          // the focus was in the head, so the rest does not look at the buffer
          PassedListIsEqual(l.tail, focus, i + 1, replace, tl.tail, params, env);
          PassedListIsEqual(l.tail, focus, i + 1, replace, tl.tail, params, b.Contents());
        }
        ok := CheckRightList(b, l.tail, focus, i + 1, replace, tl.tail, params);
      }
    }
  }

  /**
   * The rule case of `verify_transform` as the checker runs it: a binding
   * buffer with one entry per parameter of the rule is allocated, the chosen
   * left side is matched at the focus into it, and the other side is checked
   * against the target under the bindings made. An accepted application is a
   * rewrite by the rule.
   */
  method CheckRuleStep(e: Expr, focus: Path, rule: Rule, reversed: bool, target: Expr) returns (ok: bool)
    requires ValidPath(e, focus)
    ensures ok == var left := RuleLeft(At(e, focus), Sides(rule, reversed).0, rule.params, []);
                  left.ok && VerifyRuleRight(e, Some(focus), Sides(rule, reversed).1, target, rule.params, left.env)
    ensures ok ==> Rewrites(e, target, Sides(rule, reversed).0, Sides(rule, reversed).1, rule.params)
  {
    var (src, dst) := Sides(rule, reversed);
    var bindings := new Bindings(|rule.params|);
    ok := bindings.RuleLeft(At(e, focus), src, rule.params);
    if ok {
      ok := CheckRight(bindings, e, Some(focus), dst, target, rule.params);
      if ok {
        RuleApplicationSound(e, focus, target, src, dst, rule.params);
      }
    }
  }

  /**
   * `verify_transform`: with no transform left the term must equal `rhs`;
   * otherwise the step must be accepted and, when it names a target, the
   * chain continues from that target. A step without a target ends the chain.
   */
  function VerifyTransform(expr: Expr, t: Transform, rhs: Expr, rules: seq<Rule>, hyp: Option<InductionRule>): bool
    decreases t
  {
    match t
    case Done => Equal(expr, rhs)
    case Transform(_, _, _, target, next) =>
      StepAccepted(expr, t, rhs, rules, hyp) &&
      (target.Some? ==> VerifyTransform(target.value, next, rhs, rules, hyp))
  }

  /** `verify_proof_direct`: a given start term must equal `lhs`; the chain runs from it to `rhs`. */
  function VerifyProofDirect(d: Direct, lhs: Expr, rhs: Expr, rules: seq<Rule>, hyp: Option<InductionRule>): bool {
    (d.start.None? || Equal(d.start.value, lhs)) &&
    VerifyTransform(d.start.GetOr(lhs), d.transform, rhs, rules, hyp)
  }

  /** The goal `e` with the induction variable `x` replaced by `value`. */
  function Goal(e: Expr, x: Ident, value: Expr): Expr {
    CloneAndReplace(e, Some(value), x)
  }

  /** `verify_proof_induction`. */
  function VerifyProofInduction(ind: Induction, params: seq<Ident>, lhs: Expr, rhs: Expr, rules: seq<Rule>): bool {
    var x := ind.variable;
    var succ := Succ(Var(false, x));
    x in params &&
    VerifyProofDirect(ind.base, Goal(lhs, x, Zero(false)), Goal(rhs, x, Zero(false)), rules, None) &&
    VerifyProofDirect(ind.step, Goal(lhs, x, succ), Goal(rhs, x, succ), rules, Some(InductionRule(lhs, rhs)))
  }

  /** `verify_proof`. */
  function VerifyProof(proof: Proof, params: seq<Ident>, lhs: Expr, rhs: Expr, rules: seq<Rule>): bool {
    match proof
    case DirectProof(d) => VerifyProofDirect(d, lhs, rhs, rules, None)
    case InductionProof(ind) => VerifyProofInduction(ind, params, lhs, rhs, rules)
  }

  // ---------------------------------------------------------------- soundness

  /**
   * `b` is `a` rewritten once by the equation `src = dst` at position `p`:
   * the subterm of `a` there is the instance of `src` under `env` (which binds
   * parameters only), the subterm of `b` there is the same instance of `dst`,
   * and everywhere else the two terms agree.
   */
  ghost predicate RewritesAt(a: Expr, b: Expr, src: Expr, dst: Expr, params: seq<Ident>, env: Env, p: Path) {
    KeysIn(env, params) && ValidPath(a, p) && ValidPath(b, p) &&
    Equal(At(a, p), Instantiate(src, env)) &&
    Equal(At(b, p), Instantiate(dst, env)) &&
    Equal(ReplaceAt(a, p, At(b, p)), b)
  }

  /** `b` follows from `a` by one application of the equation `src = dst` somewhere. */
  ghost predicate Rewrites(a: Expr, b: Expr, src: Expr, dst: Expr, params: seq<Ident>) {
    exists env, p :: RewritesAt(a, b, src, dst, params, env, p)
  }

  /** The step `t` from `a` to `b` is an equational one: a registered rule or the hypothesis, applied once. */
  ghost predicate Justified(a: Expr, b: Expr, t: Transform, rules: seq<Rule>, hyp: Option<InductionRule>)
    requires t.Transform?
  {
    match t.tag
    case Named =>
      var rule := FindRule(t.name, rules);
      rule.Some? && Rewrites(a, b, Sides(rule.value, t.reversed).0, Sides(rule.value, t.reversed).1, rule.value.params)
    case InductionStep => hyp.Some? && Rewrites(a, b, hyp.value.lhs, hyp.value.rhs, [])
    case Todo => false
  }

  /** The chain `t` leads from `expr` to `rhs` through justified steps only. */
  ghost predicate Derives(expr: Expr, t: Transform, rhs: Expr, rules: seq<Rule>, hyp: Option<InductionRule>)
    decreases t
  {
    match t
    case Done => Equal(expr, rhs)
    case Transform(_, _, _, target, next) =>
      Justified(expr, target.GetOr(rhs), t, rules, hyp) &&
      (target.Some? ==> Derives(target.value, next, rhs, rules, hyp))
  }

  /** No step the checker reaches in the chain is a placeholder. */
  predicate Complete(t: Transform) {
    match t
    case Done => true
    case Transform(tag, _, _, target, next) => tag != Todo && (target.Some? ==> Complete(next))
  }

  /** A rewrite found on the term with its extra marks cleared is one on the term itself. */
  lemma TransferRewrite(expr: Expr, e: Expr, p: Path, target: Expr, src: Expr, dst: Expr,
                        params: seq<Ident>, env: Env)
    requires Equal(e, expr) && ValidPath(e, p) && ValidPath(target, p) && KeysIn(env, params)
    requires Equal(Instantiate(src, env), At(e, p))
    requires Equal(Instantiate(dst, env), At(target, p))
    requires Equal(ReplaceAt(e, p, At(target, p)), target)
    ensures RewritesAt(expr, target, src, dst, params, env, p)
  {
    EqualAtPath(e, expr, p, At(target, p));
    EqualIffSameUnmarked(At(e, p), At(expr, p));
    EqualIffSameUnmarked(Instantiate(src, env), At(e, p));
    EqualIffSameUnmarked(At(expr, p), Instantiate(src, env));
    EqualSymmetric(Instantiate(dst, env), At(target, p));
    EqualIffSameUnmarked(ReplaceAt(e, p, At(target, p)), target);
    EqualIffSameUnmarked(ReplaceAt(e, p, At(target, p)), ReplaceAt(expr, p, At(target, p)));
    EqualIffSameUnmarked(ReplaceAt(expr, p, At(target, p)), target);
  }

  /**
   * A rule application accepted at position `p` of `e` (left side matched
   * there, right side checked against `target`) is a rewrite by that rule.
   */
  lemma RuleApplicationSound(e: Expr, p: Path, target: Expr, src: Expr, dst: Expr, params: seq<Ident>)
    requires ValidPath(e, p)
    requires RuleLeft(At(e, p), src, params, []).ok
    requires VerifyRuleRight(e, Some(p), dst, target, params, RuleLeft(At(e, p), src, params, []).env)
    ensures Rewrites(e, target, src, dst, params)
  {
    var a := At(e, p);
    RuleLeftIsPatternMatch(a, src, params, []);
    var left := PatternMatch(a, src, params, []);
    RewriteCheckIff(e, p, dst, target, params, left.env);
    var right := PatternMatch(At(target, p), dst, params, left.env);
    MatchSound(At(target, p), dst, params, left.env);
    MatchedSideStable(a, src, params, right.env);
    EqualReflexive(e);
    TransferRewrite(e, e, p, target, src, dst, params, right.env);
  }

  /** Bindings added after a successful match leave the matched side an instance of the same term. */
  lemma MatchedSideStable(a: Expr, src: Expr, params: seq<Ident>, env': Env)
    requires PatternMatch(a, src, params, []).ok
    requires Extends(env', PatternMatch(a, src, params, []).env, params)
    ensures Equal(Instantiate(src, env'), a) && KeysIn(env', params)
  {
    var left := PatternMatch(a, src, params, []);
    MatchSound(a, src, params, []);
    var extra := env'[|left.env|..];
    assert env' == left.env + extra;
    InstantiateStable(src, left.env, extra, params);
    ExtendsKeysIn(left.env, [], params);
    ExtendsKeysIn(env', left.env, params);
  }

  /** An appeal to the hypothesis accepted at position `p` of `e` is a rewrite by the hypothesis. */
  lemma HypothesisApplicationSound(e: Expr, p: Path, target: Expr, h: InductionRule)
    requires ValidPath(e, p)
    requires Equal(At(e, p), h.lhs)
    requires VerifyRuleRight(e, Some(p), h.rhs, target, [], [])
    ensures Rewrites(e, target, h.lhs, h.rhs, [])
  {
    RewriteCheckIff(e, p, h.rhs, target, [], []);
    EqualIsMatchWithoutParams(At(target, p), h.rhs);
    InstantiateEmpty(h.lhs);
    InstantiateEmpty(h.rhs);
    EqualSymmetric(At(e, p), h.lhs);
    EqualSymmetric(At(target, p), h.rhs);
    EqualReflexive(e);
    TransferRewrite(e, e, p, target, h.lhs, h.rhs, [], []);
  }

  /** Marks are not part of a term's meaning: a rewrite of one term is a rewrite of any term equal to it. */
  lemma RewritesEqual(e: Expr, expr: Expr, target: Expr, src: Expr, dst: Expr, params: seq<Ident>)
    requires Equal(e, expr) && Rewrites(e, target, src, dst, params)
    ensures Rewrites(expr, target, src, dst, params)
  {
    var env, p :| RewritesAt(e, target, src, dst, params, env, p);
    EqualSymmetric(Instantiate(src, env), At(e, p));
    EqualSymmetric(Instantiate(dst, env), At(target, p));
    TransferRewrite(expr, e, p, target, src, dst, params, env);
  }

  /** An accepted step that is not a placeholder is an equational rewrite of the current term. */
  lemma StepSound(expr: Expr, t: Transform, rhs: Expr, rules: seq<Rule>, hyp: Option<InductionRule>)
    requires t.Transform? && t.tag != Todo && StepAccepted(expr, t, rhs, rules, hyp)
    ensures Justified(expr, t.target.GetOr(rhs), t, rules, hyp)
  {
    var (focus, e) := FocusOf(expr);
    var target := t.target.GetOr(rhs);
    if t.tag == Named {
      var rule := FindRule(t.name, rules).value;
      var (src, dst) := Sides(rule, t.reversed);
      RuleApplicationSound(e, focus, target, src, dst, rule.params);
      RewritesEqual(e, expr, target, src, dst, rule.params);
    } else {
      HypothesisApplicationSound(e, focus, target, hyp.value);
      RewritesEqual(e, expr, target, hyp.value.lhs, hyp.value.rhs, []);
    }
  }

  /** Soundness of `verify_transform`: an accepted chain without placeholders is an equational derivation. */
  lemma {:induction false} TransformSound(expr: Expr, t: Transform, rhs: Expr, rules: seq<Rule>, hyp: Option<InductionRule>)
    requires VerifyTransform(expr, t, rhs, rules, hyp) && Complete(t)
    ensures Derives(expr, t, rhs, rules, hyp)
    decreases t
  {
    if t.Transform? {
      StepSound(expr, t, rhs, rules, hyp);
      if t.target.Some? {
        TransformSound(t.target.value, t.next, rhs, rules, hyp);
      }
    }
  }

  /** The reached steps of a chain appeal to the induction hypothesis somewhere. */
  predicate UsesHypothesis(t: Transform) {
    match t
    case Done => false
    case Transform(tag, _, _, target, next) => tag == InductionStep || (target.Some? && UsesHypothesis(next))
  }

  /** Outside the step case of an induction there is no hypothesis, and a chain that appeals to one is rejected. */
  lemma {:induction false} HypothesisOnlyInStep(expr: Expr, t: Transform, rhs: Expr, rules: seq<Rule>)
    requires UsesHypothesis(t)
    ensures !VerifyTransform(expr, t, rhs, rules, None)
    decreases t
  {
    if t.tag != InductionStep {
      HypothesisOnlyInStep(t.target.value, t.next, rhs, rules);
    }
  }

  /** Soundness of `verify_proof_direct`: the start is the left-hand side and the chain derives the right-hand side from it. */
  lemma DirectSound(d: Direct, lhs: Expr, rhs: Expr, rules: seq<Rule>, hyp: Option<InductionRule>)
    requires VerifyProofDirect(d, lhs, rhs, rules, hyp) && Complete(d.transform)
    ensures Equal(d.start.GetOr(lhs), lhs) && Derives(d.start.GetOr(lhs), d.transform, rhs, rules, hyp)
  {
    EqualReflexive(lhs);
    TransformSound(d.start.GetOr(lhs), d.transform, rhs, rules, hyp);
  }

  /**
   * Soundness of `verify_proof_induction`: the variable is a parameter; the
   * base case starts from the left side at `x := 0` and derives the right
   * side there from the rules alone; the step case starts from the left side
   * at `x := (succ x)` and derives the right side there from the rules and
   * the equation itself.
   */
  lemma InductionSound(ind: Induction, params: seq<Ident>, lhs: Expr, rhs: Expr, rules: seq<Rule>)
    requires VerifyProofInduction(ind, params, lhs, rhs, rules)
    requires Complete(ind.base.transform) && Complete(ind.step.transform)
    ensures ind.variable in params
    ensures var base := Instantiate(lhs, [Binding(ind.variable, Zero(false))]);
            Equal(ind.base.start.GetOr(base), base) &&
            Derives(ind.base.start.GetOr(base), ind.base.transform,
                    Instantiate(rhs, [Binding(ind.variable, Zero(false))]), rules, None)
    ensures var succ := Succ(Var(false, ind.variable));
            var step := Instantiate(lhs, [Binding(ind.variable, succ)]);
            Equal(ind.step.start.GetOr(step), step) &&
            Derives(ind.step.start.GetOr(step), ind.step.transform,
                    Instantiate(rhs, [Binding(ind.variable, succ)]), rules, Some(InductionRule(lhs, rhs)))
  {
    var x := ind.variable;
    var succ := Succ(Var(false, x));
    CloneIsInstance(lhs, Zero(false), x);
    CloneIsInstance(rhs, Zero(false), x);
    CloneIsInstance(lhs, succ, x);
    CloneIsInstance(rhs, succ, x);
    DirectSound(ind.base, Goal(lhs, x, Zero(false)), Goal(rhs, x, Zero(false)), rules, None);
    DirectSound(ind.step, Goal(lhs, x, succ), Goal(rhs, x, succ), rules, Some(InductionRule(lhs, rhs)));
  }
}
