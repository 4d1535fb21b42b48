/**
 * One-way pattern matching of a term against a rule side (`expr_matches_pattern`
 * and `verify_rule_left`). Parameters of the rule bind to the subterm they meet;
 * a parameter met again must meet an equal subterm; any other variable is a
 * literal symbol. The binding environment is the checker's `Bindings` buffer,
 * extended left to right as the match proceeds (also when it fails part-way).
 */
module Matching {
  import opened Wrappers
  import opened Terms

  datatype Binding = Binding(param: Ident, expr: Expr)

  type Env = seq<Binding>

  /** Outcome of a match: whether it succeeded, and the environment it left behind. */
  datatype MatchState = MatchState(ok: bool, env: Env)

  function Keys(env: Env): set<Ident> {
    set b | b in env :: b.param
  }

  /** No parameter is bound twice. */
  predicate DistinctKeys(env: Env) {
    forall i, j :: 0 <= i < j < |env| ==> env[i].param != env[j].param
  }

  /** Every key of `env` is one of `params`. */
  predicate KeysIn(env: Env, params: seq<Ident>) {
    forall b | b in env :: b.param in params
  }

  /** `env'` is `env` followed by bindings of parameters only. */
  predicate Extends(env': Env, env: Env, params: seq<Ident>) {
    |env| <= |env'| && env'[..|env|] == env && KeysIn(env'[|env|..], params)
  }

  /** `find_binding`: the term bound to the first entry named `name`. */
  function FindBinding(name: Ident, env: Env): (r: Option<Expr>)
    ensures r.None? <==> name !in Keys(env)
    ensures r.Some? ==> exists i :: 0 <= i < |env| && env[i] == Binding(name, r.value) &&
                          forall j :: 0 <= j < i ==> env[j].param != name
  {
    if env == [] then None
    else if env[0].param == name then Some(env[0].expr)
    else
      var r := FindBinding(name, env[1..]);
      KeysCons(env);
      if r.Some? then
        var i :| 0 <= i < |env[1..]| && env[1..][i] == Binding(name, r.value) &&
                 forall j :: 0 <= j < i ==> env[1..][j].param != name;
        assert env[i + 1] == Binding(name, r.value);
        r
      else r
  }

  /** The keys of a non-empty environment: that of its first entry and those of the rest. */
  lemma KeysCons(env: Env)
    requires env != []
    ensures Keys(env) == {env[0].param} + Keys(env[1..])
  {
    assert env == [env[0]] + env[1..];
    KeysAppend([env[0]], env[1..]);
    assert Keys([env[0]]) == {env[0].param};
  }

  /** The first entry named `name` is at index `i`. */
  lemma {:induction false} FindBindingAt(name: Ident, env: Env, i: nat)
    requires i < |env| && env[i].param == name
    requires forall j :: 0 <= j < i ==> env[j].param != name
    ensures FindBinding(name, env) == Some(env[i].expr)
  {
    if i > 0 {
      FindBindingAt(name, env[1..], i - 1);
    }
  }

  /** Lookup in an extended environment finds an old binding first. */
  lemma {:induction false} FindBindingAppend(name: Ident, env: Env, extra: Env)
    ensures FindBinding(name, env + extra) ==
      if FindBinding(name, env).Some? then FindBinding(name, env) else FindBinding(name, extra)
  {
    if env == [] {
      assert env + extra == extra;
    } else {
      assert (env + extra)[0] == env[0];
      assert (env + extra)[1..] == env[1..] + extra;
      FindBindingAppend(name, env[1..], extra);
    }
  }

  /** The variable names occurring in a term. */
  function VarsOf(e: Expr): set<Ident> {
    match e
    case Zero(_) => {}
    case Var(_, x) => {x}
    case Sexp(_, l) => VarsOfList(l)
  }

  function VarsOfList(l: ExprList): set<Ident> {
    match l
    case Nil => {}
    case Cons(h, t) => VarsOf(h) + VarsOfList(t)
  }

  lemma KeysAppend(env: Env, extra: Env)
    ensures Keys(env + extra) == Keys(env) + Keys(extra)
  {
    forall x | x in Keys(env + extra) ensures x in Keys(env) + Keys(extra) {
      var b :| b in env + extra && b.param == x;
    }
    forall x | x in Keys(env) + Keys(extra) ensures x in Keys(env + extra) {
      if x in Keys(env) {
        var b :| b in env && b.param == x;
        assert b in env + extra;
      } else {
        var b :| b in extra && b.param == x;
        assert b in env + extra;
      }
    }
  }

  /** Extending is transitive. */
  lemma ExtendsTrans(e3: Env, e2: Env, e1: Env, params: seq<Ident>)
    requires Extends(e3, e2, params) && Extends(e2, e1, params)
    ensures Extends(e3, e1, params)
  {
    assert e3[..|e1|] == e3[..|e2|][..|e1|];
    forall b | b in e3[|e1|..] ensures b.param in params {
      var k :| |e1| <= k < |e3| && e3[k] == b;
      if k < |e2| {
        assert b == e2[k] && b in e2[|e1|..];
      } else {
        assert b in e3[|e2|..];
      }
    }
  }

  /** The keys of an extension are the old keys and some parameters. */
  lemma ExtendsKeys(env': Env, env: Env, params: seq<Ident>)
    requires Extends(env', env, params)
    ensures Keys(env) <= Keys(env')
    ensures forall x | x in Keys(env') && x !in Keys(env) :: x in params
  {
    assert env' == env + env'[|env|..];
    KeysAppend(env, env'[|env|..]);
  }

  /** Appending a binding for an unbound parameter extends the environment and keeps keys distinct. */
  lemma Bind(env: Env, p: Ident, e: Expr, params: seq<Ident>)
    requires p !in Keys(env) && p in params
    ensures Extends(env + [Binding(p, e)], env, params)
    ensures Keys(env + [Binding(p, e)]) == Keys(env) + {p}
    ensures DistinctKeys(env) ==> DistinctKeys(env + [Binding(p, e)])
  {
    var env' := env + [Binding(p, e)];
    KeysAppend(env, [Binding(p, e)]);
    assert Keys([Binding(p, e)]) == {p};
    assert env'[..|env|] == env;
    assert env'[|env|..] == [Binding(p, e)];
    if DistinctKeys(env) {
      forall i, j | 0 <= i < j < |env'| ensures env'[i].param != env'[j].param {
        if j == |env| {
          assert env[i] in env;
        }
      }
    }
  }

  /**
   * `expr_matches_pattern`: does `expr` match `pattern`? A bound name must meet
   * a term equal to its binding; an unbound parameter is bound; any other name
   * is a literal symbol; compounds must agree in length and element by element.
   */
  function PatternMatch(expr: Expr, pattern: Expr, params: seq<Ident>, env: Env): (r: MatchState)
    ensures Extends(r.env, env, params)
    ensures DistinctKeys(env) ==> DistinctKeys(r.env)
    ensures r.ok ==> forall x | x in VarsOf(pattern) && x in params :: x in Keys(r.env)
    decreases pattern
  {
    match pattern
    case Zero(_) => MatchState(expr.Zero?, env)
    case Var(_, p) =>
      var bound := FindBinding(p, env);
      if bound.Some? then MatchState(Equal(expr, bound.value), env)
      else if p in params then
        Bind(env, p, expr, params);
        MatchState(true, env + [Binding(p, expr)])
      else MatchState(expr.Var? && expr.name == p, env)
    case Sexp(_, pl) =>
      if expr.Sexp? then PatternMatchList(expr.sexp, pl, params, env) else MatchState(false, env)
  }

  /** `expr_list_matches_pattern`: element-wise matching, threading the environment. */
  function PatternMatchList(l: ExprList, pl: ExprList, params: seq<Ident>, env: Env): (r: MatchState)
    ensures Extends(r.env, env, params)
    ensures DistinctKeys(env) ==> DistinctKeys(r.env)
    ensures r.ok ==> forall x | x in VarsOfList(pl) && x in params :: x in Keys(r.env)
    decreases pl
  {
    if l.Nil? then MatchState(pl.Nil?, env)
    else if pl.Nil? then MatchState(false, env)
    else
      var h := PatternMatch(l.head, pl.head, params, env);
      if h.ok then
        var t := PatternMatchList(l.tail, pl.tail, params, h.env);
        ExtendsTrans(t.env, h.env, env, params);
        ExtendsKeys(t.env, h.env, params);
        t
      else h
  }

  /**
   * `verify_rule_left`: the same match, written with the parameter test first
   * and the binding lookup second.
   */
  function RuleLeft(expr: Expr, pattern: Expr, params: seq<Ident>, env: Env): (r: MatchState)
    ensures Extends(r.env, env, params)
    ensures DistinctKeys(env) ==> DistinctKeys(r.env)
    decreases pattern
  {
    match pattern
    case Zero(_) => MatchState(expr.Zero?, env)
    case Var(_, p) =>
      if p in params then
        var bound := FindBinding(p, env);
        if bound.Some? then MatchState(Equal(expr, bound.value), env)
        else
          Bind(env, p, expr, params);
          MatchState(true, env + [Binding(p, expr)])
      else MatchState(expr.Var? && expr.name == p, env)
    case Sexp(_, pl) =>
      if expr.Sexp? then RuleLeftList(expr.sexp, pl, params, env) else MatchState(false, env)
  }

  /** `verify_rule_left_sexp`. */
  function RuleLeftList(l: ExprList, pl: ExprList, params: seq<Ident>, env: Env): (r: MatchState)
    ensures Extends(r.env, env, params)
    ensures DistinctKeys(env) ==> DistinctKeys(r.env)
    decreases pl
  {
    if l.Nil? then MatchState(pl.Nil?, env)
    else if pl.Nil? then MatchState(false, env)
    else
      var h := RuleLeft(l.head, pl.head, params, env);
      if h.ok then
        var t := RuleLeftList(l.tail, pl.tail, params, h.env);
        ExtendsTrans(t.env, h.env, env, params);
        t
      else h
  }

  // ---------------------------------------------------------------- properties

  /**
   * Structural equality is matching with no parameters and no bindings
   * (`expr_equals(a, b)` is `expr_matches_pattern(a, b, nullptr, nullptr)`).
   */
  lemma {:induction false} EqualIsMatchWithoutParams(a: Expr, b: Expr)
    ensures PatternMatch(a, b, [], []) == MatchState(Equal(a, b), [])
    decreases b
  {
    match b
    case Sexp(_, pl) => if a.Sexp? { EqualListIsMatchWithoutParams(a.sexp, pl); }
    case _ =>
  }

  lemma {:induction false} EqualListIsMatchWithoutParams(l: ExprList, pl: ExprList)
    ensures PatternMatchList(l, pl, [], []) == MatchState(EqualList(l, pl), [])
    decreases pl
  {
    if l.Cons? && pl.Cons? {
      EqualIsMatchWithoutParams(l.head, pl.head);
      EqualListIsMatchWithoutParams(l.tail, pl.tail);
    }
  }

  /**
   * The two matchers of the checker agree whenever every bound name is a
   * parameter, which is always so for the environments the checker builds.
   */
  lemma {:induction false} RuleLeftIsPatternMatch(expr: Expr, pattern: Expr, params: seq<Ident>, env: Env)
    requires KeysIn(env, params)
    ensures RuleLeft(expr, pattern, params, env) == PatternMatch(expr, pattern, params, env)
    decreases pattern
  {
    match pattern
    case Var(_, p) =>
    case Sexp(_, pl) => if expr.Sexp? { RuleLeftListIsPatternMatchList(expr.sexp, pl, params, env); }
    case Zero(_) =>
  }

  lemma {:induction false} RuleLeftListIsPatternMatchList(l: ExprList, pl: ExprList, params: seq<Ident>, env: Env)
    requires KeysIn(env, params)
    ensures RuleLeftList(l, pl, params, env) == PatternMatchList(l, pl, params, env)
    decreases pl
  {
    if l.Cons? && pl.Cons? {
      RuleLeftIsPatternMatch(l.head, pl.head, params, env);
      var h := PatternMatch(l.head, pl.head, params, env);
      if h.ok {
        ExtendsKeysIn(h.env, env, params);
        RuleLeftListIsPatternMatchList(l.tail, pl.tail, params, h.env);
      }
    }
  }

  lemma ExtendsKeysIn(env': Env, env: Env, params: seq<Ident>)
    requires Extends(env', env, params) && KeysIn(env, params)
    ensures KeysIn(env', params)
  {
    forall b | b in env' ensures b.param in params {
      var k :| 0 <= k < |env'| && env'[k] == b;
      if k < |env| { assert env'[..|env|][k] == b; } else { assert b in env'[|env|..]; }
    }
  }

  /**
   * The binding buffer is sized by the number of parameters of the rule, and it
   * never needs more: its keys are distinct parameters.
   */
  lemma {:induction false} BindingsFit(env: Env, params: seq<Ident>)
    requires DistinctKeys(env) && KeysIn(env, params)
    ensures |env| <= |params|
  {
    var all := set x | x in params;
    DistinctKeysCount(env);
    assert Keys(env) <= all;
    assert all == Keys(env) + (all - Keys(env));
    SetOfSeqSize(params);
  }

  lemma {:induction false} DistinctKeysCount(env: Env)
    requires DistinctKeys(env)
    ensures |Keys(env)| == |env|
  {
    if env != [] {
      assert env == [env[0]] + env[1..];
      KeysAppend([env[0]], env[1..]);
      assert Keys([env[0]]) == {env[0].param};
      DistinctKeysCount(env[1..]);
    }
  }

  lemma {:induction false} SetOfSeqSize(s: seq<Ident>)
    ensures |set x | x in s| <= |s|
  {
    if s != [] {
      SetOfSeqSize(s[1..]);
      assert (set x | x in s) == {s[0]} + set x | x in s[1..];
    }
  }

  // ---------------------------------------------------------------- instances

  /** The instance of `pattern` under `env`: every bound variable replaced by its term. */
  function Instantiate(pattern: Expr, env: Env): Expr {
    match pattern
    case Zero(_) => pattern
    case Var(_, x) => FindBinding(x, env).GetOr(pattern)
    case Sexp(m, pl) => Sexp(m, InstantiateList(pl, env))
  }

  function InstantiateList(pl: ExprList, env: Env): ExprList {
    match pl
    case Nil => Nil
    case Cons(h, t) => Cons(Instantiate(h, env), InstantiateList(t, env))
  }

  /** Appending bindings of names that a pattern has no use for leaves its instance unchanged. */
  lemma {:induction false} InstantiateStable(pattern: Expr, env: Env, extra: Env, params: seq<Ident>)
    requires forall x | x in VarsOf(pattern) :: x in Keys(env) || x !in params
    requires KeysIn(extra, params)
    ensures Instantiate(pattern, env + extra) == Instantiate(pattern, env)
    decreases pattern
  {
    match pattern
    case Var(_, x) =>
      FindBindingAppend(x, env, extra);
      if x !in Keys(env) {
        assert x !in params;
        assert x !in Keys(extra);
      }
    case Sexp(_, pl) => InstantiateListStable(pl, env, extra, params);
    case Zero(_) =>
  }

  lemma {:induction false} InstantiateListStable(pl: ExprList, env: Env, extra: Env, params: seq<Ident>)
    requires forall x | x in VarsOfList(pl) :: x in Keys(env) || x !in params
    requires KeysIn(extra, params)
    ensures InstantiateList(pl, env + extra) == InstantiateList(pl, env)
    decreases pl
  {
    if pl.Cons? {
      InstantiateStable(pl.head, env, extra, params);
      InstantiateListStable(pl.tail, env, extra, params);
    }
  }

  /**
   * Soundness of matching: when `expr` matches `pattern`, the pattern
   * instantiated with the resulting bindings equals `expr`.
   */
  lemma {:induction false} MatchSound(expr: Expr, pattern: Expr, params: seq<Ident>, env: Env)
    requires PatternMatch(expr, pattern, params, env).ok
    ensures Equal(Instantiate(pattern, PatternMatch(expr, pattern, params, env).env), expr)
    decreases pattern
  {
    var r := PatternMatch(expr, pattern, params, env);
    match pattern
    case Zero(_) =>
    case Var(_, p) =>
      var bound := FindBinding(p, env);
      if bound.Some? {
        EqualSymmetric(expr, bound.value);
      } else if p in params {
        FindBindingAppend(p, env, [Binding(p, expr)]);
        EqualReflexive(expr);
      }
    case Sexp(_, pl) => MatchListSound(expr.sexp, pl, params, env);
  }

  lemma {:induction false} MatchListSound(l: ExprList, pl: ExprList, params: seq<Ident>, env: Env)
    requires PatternMatchList(l, pl, params, env).ok
    ensures EqualList(InstantiateList(pl, PatternMatchList(l, pl, params, env).env), l)
    decreases pl
  {
    if l.Cons? {
      var h := PatternMatch(l.head, pl.head, params, env);
      var t := PatternMatchList(l.tail, pl.tail, params, h.env);
      MatchSound(l.head, pl.head, params, env);
      MatchListSound(l.tail, pl.tail, params, h.env);
      assert t.env == h.env + t.env[|h.env|..];
      InstantiateStable(pl.head, h.env, t.env[|h.env|..], params);
    }
  }

  /** Every name bound in `env` is bound in `sigma` to an equal term. */
  predicate AgreesWith(env: Env, sigma: Env) {
    forall x | x in Keys(env) :: x in Keys(sigma) && Equal(FindBinding(x, env).value, FindBinding(x, sigma).value)
  }

  /**
   * `sigma` shows `expr` to be an instance of `pattern`: it binds parameters
   * only, binds every parameter the pattern uses, and the instance equals `expr`.
   */
  predicate InstanceBy(expr: Expr, pattern: Expr, params: seq<Ident>, sigma: Env) {
    KeysIn(sigma, params) &&
    (forall x | x in VarsOf(pattern) && x in params :: x in Keys(sigma)) &&
    Equal(Instantiate(pattern, sigma), expr)
  }

  /**
   * Completeness of matching: an instance of the pattern matches it, from any
   * environment that agrees with the instantiating bindings, and the bindings
   * the match leaves still agree with them.
   */
  lemma {:induction false} MatchCompleteFrom(expr: Expr, pattern: Expr, params: seq<Ident>, env: Env, sigma: Env)
    requires KeysIn(sigma, params) && AgreesWith(env, sigma)
    requires forall x | x in VarsOf(pattern) && x in params :: x in Keys(sigma)
    requires Equal(Instantiate(pattern, sigma), expr)
    ensures PatternMatch(expr, pattern, params, env).ok
    ensures AgreesWith(PatternMatch(expr, pattern, params, env).env, sigma)
    decreases pattern
  {
    match pattern
    case Zero(_) =>
    case Var(_, p) =>
      var bound := FindBinding(p, env);
      if bound.Some? {
        var s := FindBinding(p, sigma).value;
        EqualTransitive(bound.value, s, expr);
        EqualSymmetric(bound.value, expr);
      } else if p in params {
        var env' := env + [Binding(p, expr)];
        KeysAppend(env, [Binding(p, expr)]);
        assert Keys([Binding(p, expr)]) == {p};
        forall x | x in Keys(env')
          ensures x in Keys(sigma) && Equal(FindBinding(x, env').value, FindBinding(x, sigma).value)
        {
          FindBindingAppend(x, env, [Binding(p, expr)]);
          if x !in Keys(env) {
            EqualSymmetric(FindBinding(p, sigma).value, expr);
          }
        }
      } else {
        assert p !in Keys(sigma);
      }
    case Sexp(_, pl) => MatchListCompleteFrom(expr.sexp, pl, params, env, sigma);
  }

  lemma {:induction false} MatchListCompleteFrom(l: ExprList, pl: ExprList, params: seq<Ident>, env: Env, sigma: Env)
    requires KeysIn(sigma, params) && AgreesWith(env, sigma)
    requires forall x | x in VarsOfList(pl) && x in params :: x in Keys(sigma)
    requires EqualList(InstantiateList(pl, sigma), l)
    ensures PatternMatchList(l, pl, params, env).ok
    ensures AgreesWith(PatternMatchList(l, pl, params, env).env, sigma)
    decreases pl
  {
    if pl.Cons? {
      MatchCompleteFrom(l.head, pl.head, params, env, sigma);
      var h := PatternMatch(l.head, pl.head, params, env);
      MatchListCompleteFrom(l.tail, pl.tail, params, h.env, sigma);
    }
  }

  /**
   * `expr_matches_pattern` from an empty buffer succeeds exactly when the term
   * is an instance of the pattern; on success the bindings it builds witness it.
   */
  lemma MatchIffInstance(expr: Expr, pattern: Expr, params: seq<Ident>)
    ensures PatternMatch(expr, pattern, params, []).ok <==> exists sigma :: InstanceBy(expr, pattern, params, sigma)
    ensures PatternMatch(expr, pattern, params, []).ok ==>
              InstanceBy(expr, pattern, params, PatternMatch(expr, pattern, params, []).env)
  {
    var r := PatternMatch(expr, pattern, params, []);
    if r.ok {
      MatchSound(expr, pattern, params, []);
      assert r.env[0..] == r.env;
      assert InstanceBy(expr, pattern, params, r.env);
    }
    if exists sigma :: InstanceBy(expr, pattern, params, sigma) {
      var sigma :| InstanceBy(expr, pattern, params, sigma);
      MatchCompleteFrom(expr, pattern, params, [], sigma);
    }
  }

  /** With no bindings, instantiation leaves a pattern as it is. */
  lemma {:induction false} InstantiateEmpty(pattern: Expr)
    ensures Instantiate(pattern, []) == pattern
    decreases pattern
  {
    if pattern.Sexp? { InstantiateListEmpty(pattern.sexp); }
  }

  lemma {:induction false} InstantiateListEmpty(pl: ExprList)
    ensures InstantiateList(pl, []) == pl
    decreases pl
  {
    if pl.Cons? {
      InstantiateEmpty(pl.head);
      InstantiateListEmpty(pl.tail);
    }
  }
}
