/**
 * The checker's binding buffer (`Bindings`): a fixed array sized when a rule
 * is looked up, with a count of the entries in use. Matching appends to it in
 * place as it walks the pattern.
 */
module BindingTable {
  import opened Wrappers
  import opened Terms
  import opened Matching

  class Bindings {
    var bindings: array<Binding>
    var count: nat

    ghost predicate Valid()
      reads this
    {
      count <= bindings.Length
    }

    /** The entries in use, oldest first. */
    function Contents(): Env
      reads this, bindings
      requires Valid()
    {
      bindings[..count]
    }

    /**
     * Room for matching against a rule with parameters `params`: keys are
     * distinct parameters and the buffer holds one entry per parameter.
     */
    ghost predicate Room(params: seq<Ident>)
      reads this, bindings
    {
      Valid() && DistinctKeys(Contents()) && KeysIn(Contents(), params) && |params| <= bindings.Length
    }

    /** `allocate_bindings`: an empty buffer with room for `capacity` entries. */
    constructor (capacity: nat)
      ensures Valid() && fresh(bindings)
      ensures bindings.Length == capacity && Contents() == []
    {
      bindings := new Binding[capacity];
      count := 0;
    }

    /** `add_binding`: append an entry in place. */
    method Add(param: Ident, expr: Expr)
      requires Valid() && count < bindings.Length
      modifies this, bindings
      ensures Valid() && bindings == old(bindings)
      ensures Contents() == old(Contents()) + [Binding(param, expr)]
    {
      bindings[count] := Binding(param, expr);
      count := count + 1;
    }

    /** `find_binding`: the first entry with the given name. */
    method Find(name: Ident) returns (r: Option<Expr>)
      requires Valid()
      ensures r == FindBinding(name, Contents())
    {
      for i := 0 to count
        invariant forall j :: 0 <= j < i ==> bindings[j].param != name
      {
        if bindings[i].param == name {
          FindBindingAt(name, Contents(), i);
          return Some(bindings[i].expr);
        }
      }
      NotBound(name, Contents());
      return None;
    }

    /** Adding an unbound parameter keeps the buffer within its room. */
    method Bind(p: Ident, expr: Expr, ghost params: seq<Ident>)
      requires Room(params) && p in params && p !in Keys(Contents())
      modifies this, bindings
      ensures Room(params) && bindings == old(bindings)
      ensures Contents() == old(Contents()) + [Binding(p, expr)]
    {
      Matching.Bind(Contents(), p, expr, params);
      ExtendsKeysIn(Contents() + [Binding(p, expr)], Contents(), params);
      BindingsFit(Contents() + [Binding(p, expr)], params);
      Add(p, expr);
    }

    /** `expr_matches_pattern`, extending this buffer in place. */
    method MatchPattern(expr: Expr, pattern: Expr, params: seq<Ident>) returns (ok: bool)
      requires Room(params)
      modifies this, bindings
      ensures Room(params) && bindings == old(bindings)
      ensures ok == PatternMatch(expr, pattern, params, old(Contents())).ok
      ensures Contents() == PatternMatch(expr, pattern, params, old(Contents())).env
      decreases pattern
    {
      match pattern
      case Zero(_) =>
        ok := expr.Zero?;
      case Var(_, p) =>
        var bound := Find(p);
        if bound.Some? {
          ok := Equal(expr, bound.value);
        } else if p in params {
          Bind(p, expr, params);
          ok := true;
        } else {
          ok := expr.Var? && expr.name == p;
        }
      case Sexp(_, pl) =>
        if expr.Sexp? {
          ok := MatchList(expr.sexp, pl, params);
        } else {
          ok := false;
        }
    }

    /** `expr_list_matches_pattern`. */
    method MatchList(l: ExprList, pl: ExprList, params: seq<Ident>) returns (ok: bool)
      requires Room(params)
      modifies this, bindings
      ensures Room(params) && bindings == old(bindings)
      ensures ok == PatternMatchList(l, pl, params, old(Contents())).ok
      ensures Contents() == PatternMatchList(l, pl, params, old(Contents())).env
      decreases pl
    {
      if l.Nil? {
        ok := pl.Nil?;
      } else if pl.Nil? {
        ok := false;
      } else {
        ok := MatchPattern(l.head, pl.head, params);
        if ok {
          ok := MatchList(l.tail, pl.tail, params);
        }
      }
    }

    /** `verify_rule_left`, extending this buffer in place. */
    method RuleLeft(expr: Expr, pattern: Expr, params: seq<Ident>) returns (ok: bool)
      requires Room(params)
      modifies this, bindings
      ensures Room(params) && bindings == old(bindings)
      ensures ok == Matching.RuleLeft(expr, pattern, params, old(Contents())).ok
      ensures Contents() == Matching.RuleLeft(expr, pattern, params, old(Contents())).env
      decreases pattern
    {
      match pattern
      case Zero(_) =>
        ok := expr.Zero?;
      case Var(_, p) =>
        if p in params {
          var bound := Find(p);
          if bound.Some? {
            ok := Equal(expr, bound.value);
          } else {
            Bind(p, expr, params);
            ok := true;
          }
        } else {
          ok := expr.Var? && expr.name == p;
        }
      case Sexp(_, pl) =>
        if expr.Sexp? {
          ok := RuleLeftList(expr.sexp, pl, params);
        } else {
          ok := false;
        }
    }

    /** `verify_rule_left_sexp`. */
    method RuleLeftList(l: ExprList, pl: ExprList, params: seq<Ident>) returns (ok: bool)
      requires Room(params)
      modifies this, bindings
      ensures Room(params) && bindings == old(bindings)
      ensures ok == Matching.RuleLeftList(l, pl, params, old(Contents())).ok
      ensures Contents() == Matching.RuleLeftList(l, pl, params, old(Contents())).env
      decreases pl
    {
      if l.Nil? {
        ok := pl.Nil?;
      } else if pl.Nil? {
        ok := false;
      } else {
        ok := RuleLeft(l.head, pl.head, params);
        if ok {
          ok := RuleLeftList(l.tail, pl.tail, params);
        }
      }
    }
  }

  lemma NotBound(name: Ident, env: Env)
    requires forall j :: 0 <= j < |env| ==> env[j].param != name
    ensures FindBinding(name, env) == None
  {
  }
}
