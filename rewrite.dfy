/**
 * Checking one rewrite (`verify_rule_right`): the term before and the claimed
 * term after are walked in lock-step. At the focus the new subterm must match
 * the rule's other side under the bindings made by the left-hand match;
 * everywhere else the two terms must agree. The checker recognises the focus
 * by pointer identity; here it is the path to it, handed down as the path
 * still to go (`None` once the walk has left it).
 */
module Rewrite {
  import opened Wrappers
  import opened Terms
  import opened Matching

  /** The rest of the focus path seen from the `i`-th child, if the focus lies under that child. */
  function Child(focus: Option<Path>, i: nat): Option<Path> {
    if focus.Some? && |focus.value| > 0 && focus.value[0] == i then Some(focus.value[1..]) else None
  }

  /** `verify_rule_right`. */
  function VerifyRuleRight(expr: Expr, focus: Option<Path>, replace: Expr, target: Expr,
                           params: seq<Ident>, env: Env): bool
    decreases expr
  {
    if focus == Some([]) then PatternMatch(target, replace, params, env).ok
    else
      match expr
      case Sexp(_, l) => target.Sexp? && VerifyRuleRightList(l, focus, 0, replace, target.sexp, params, env)
      case _ => Equal(expr, target)
  }

  /** `verify_rule_right_sexp`; `i` is the index of the first element of `l` in its parent. */
  function VerifyRuleRightList(l: ExprList, focus: Option<Path>, i: nat, replace: Expr, tl: ExprList,
                               params: seq<Ident>, env: Env): bool
    decreases l
  {
    if l.Nil? then tl.Nil?
    else if tl.Nil? then false
    else VerifyRuleRight(l.head, Child(focus, i), replace, tl.head, params, env) &&
         VerifyRuleRightList(l.tail, focus, i + 1, replace, tl.tail, params, env)
  }

  // ---------------------------------------------------------------- element-wise views

  /** Two subterm lists are equal exactly when they have the same length and agree at every index. */
  predicate AgreeAt(l: ExprList, tl: ExprList) {
    Len(l) == Len(tl) && forall k :: 0 <= k < Len(l) ==> Equal(Nth(l, k), Nth(tl, k))
  }

  lemma {:induction false} EqualListElementwise(l: ExprList, tl: ExprList)
    ensures EqualList(l, tl) <==> AgreeAt(l, tl)
  {
    if l.Cons? && tl.Cons? {
      EqualListElementwise(l.tail, tl.tail);
      if EqualList(l, tl) {
        forall k | 0 <= k < Len(l) ensures Equal(Nth(l, k), Nth(tl, k)) {
          if k == 0 {
            assert Nth(l, k) == l.head && Nth(tl, k) == tl.head;
          } else {
            assert Nth(l, k) == Nth(l.tail, k - 1) && Nth(tl, k) == Nth(tl.tail, k - 1);
          }
        }
      }
      if AgreeAt(l, tl) {
        assert Equal(Nth(l, 0), Nth(tl, 0));
        assert Nth(l, 0) == l.head && Nth(tl, 0) == tl.head;
        forall k | 0 <= k < Len(l.tail) ensures Equal(Nth(l.tail, k), Nth(tl.tail, k)) {
          assert Nth(l, k + 1) == Nth(l.tail, k) && Nth(tl, k + 1) == Nth(tl.tail, k);
        }
      }
    } else if l.Cons? || tl.Cons? {
      assert Len(l) != Len(tl);
    }
  }

  /** Every element of `l` passes the rewrite check against the element of `tl` at the same index. */
  predicate RightAt(l: ExprList, focus: Option<Path>, i: nat, replace: Expr, tl: ExprList,
                    params: seq<Ident>, env: Env)
  {
    Len(l) == Len(tl) && forall k :: 0 <= k < Len(l) ==>
      VerifyRuleRight(Nth(l, k), Child(focus, i + k), replace, Nth(tl, k), params, env)
  }

  lemma {:induction false} VerifyRuleRightListElementwise(l: ExprList, focus: Option<Path>, i: nat, replace: Expr,
                                                          tl: ExprList, params: seq<Ident>, env: Env)
    ensures VerifyRuleRightList(l, focus, i, replace, tl, params, env) <==> RightAt(l, focus, i, replace, tl, params, env)
    decreases l
  {
    if l.Cons? && tl.Cons? {
      VerifyRuleRightListElementwise(l.tail, focus, i + 1, replace, tl.tail, params, env);
      if VerifyRuleRightList(l, focus, i, replace, tl, params, env) {
        forall k | 0 <= k < Len(l)
          ensures VerifyRuleRight(Nth(l, k), Child(focus, i + k), replace, Nth(tl, k), params, env)
        {
          if k == 0 {
            assert Nth(l, k) == l.head && Nth(tl, k) == tl.head && i + k == i;
          } else {
            assert Nth(l, k) == Nth(l.tail, k - 1) && Nth(tl, k) == Nth(tl.tail, k - 1);
            assert i + k == i + 1 + (k - 1);
            assert VerifyRuleRight(Nth(l.tail, k - 1), Child(focus, i + 1 + (k - 1)), replace, Nth(tl.tail, k - 1), params, env);
          }
        }
      }
      if RightAt(l, focus, i, replace, tl, params, env) {
        assert VerifyRuleRight(Nth(l, 0), Child(focus, i + 0), replace, Nth(tl, 0), params, env);
        assert Nth(l, 0) == l.head && Nth(tl, 0) == tl.head && i + 0 == i;
        forall k | 0 <= k < Len(l.tail)
          ensures VerifyRuleRight(Nth(l.tail, k), Child(focus, i + 1 + k), replace, Nth(tl.tail, k), params, env)
        {
          assert Nth(l, k + 1) == Nth(l.tail, k) && Nth(tl, k + 1) == Nth(tl.tail, k);
          assert i + (k + 1) == i + 1 + k;
        }
      }
    } else if l.Cons? || tl.Cons? {
      assert Len(l) != Len(tl);
    }
  }

  // ---------------------------------------------------------------- properties

  /** The walk along a list starting at index `i` has already left the focus behind. */
  predicate Passed(focus: Option<Path>, i: nat) {
    !(focus.Some? && |focus.value| > 0 && focus.value[0] >= i)
  }

  /** Once the focus is behind, the rest of a list is checked by structural equality alone. */
  lemma {:induction false} PassedListIsEqual(l: ExprList, focus: Option<Path>, i: nat, replace: Expr, tl: ExprList,
                                             params: seq<Ident>, env: Env)
    requires Passed(focus, i)
    ensures VerifyRuleRightList(l, focus, i, replace, tl, params, env) == EqualList(l, tl)
    decreases l
  {
    if l.Cons? && tl.Cons? {
      assert Child(focus, i) == None;
      UnfocusedIsEqual(l.head, replace, tl.head, params, env);
      PassedListIsEqual(l.tail, focus, i + 1, replace, tl.tail, params, env);
    }
  }

  /** Away from the focus, the rewrite check is plain structural equality. */
  lemma {:induction false} UnfocusedIsEqual(expr: Expr, replace: Expr, target: Expr, params: seq<Ident>, env: Env)
    ensures VerifyRuleRight(expr, None, replace, target, params, env) == Equal(expr, target)
    decreases expr
  {
    match expr
    case Sexp(_, l) =>
      if target.Sexp? { UnfocusedListIsEqual(l, 0, replace, target.sexp, params, env); }
    case _ =>
  }

  lemma {:induction false} UnfocusedListIsEqual(l: ExprList, i: nat, replace: Expr, tl: ExprList,
                                                params: seq<Ident>, env: Env)
    ensures VerifyRuleRightList(l, None, i, replace, tl, params, env) == EqualList(l, tl)
    decreases l
  {
    if l.Cons? && tl.Cons? {
      UnfocusedIsEqual(l.head, replace, tl.head, params, env);
      UnfocusedListIsEqual(l.tail, i + 1, replace, tl.tail, params, env);
    }
  }

  /**
   * The rewrite check accepts exactly when the target differs from the term
   * only at the focus, and the target's subterm there matches the rule's
   * other side.
   */
  lemma {:induction false} RewriteCheckIff(expr: Expr, p: Path, replace: Expr, target: Expr,
                                           params: seq<Ident>, env: Env)
    requires ValidPath(expr, p)
    ensures VerifyRuleRight(expr, Some(p), replace, target, params, env) <==>
      ValidPath(target, p) &&
      Equal(ReplaceAt(expr, p, At(target, p)), target) &&
      PatternMatch(At(target, p), replace, params, env).ok
    decreases |p|
  {
    if p == [] {
      EqualReflexive(target);
    } else {
      var j, q := p[0], p[1..];
      var l := expr.sexp;
      var x := Nth(l, j);
      if target.Sexp? {
        var tl := target.sexp;
        VerifyRuleRightListElementwise(l, Some(p), 0, replace, tl, params, env);
        if Len(l) == Len(tl) {
          var t := Nth(tl, j);
          RewriteCheckIff(x, q, replace, t, params, env);
          assert Child(Some(p), 0 + j) == Some(q);
          forall k | 0 <= k < Len(l) && k != j
            ensures VerifyRuleRight(Nth(l, k), Child(Some(p), 0 + k), replace, Nth(tl, k), params, env)
                    == Equal(Nth(l, k), Nth(tl, k))
          {
            assert Child(Some(p), 0 + k) == None;
            UnfocusedIsEqual(Nth(l, k), replace, Nth(tl, k), params, env);
          }
          if ValidPath(t, q) {
            var l' := SetNth(l, j, ReplaceAt(x, q, At(t, q)));
            EqualListElementwise(l', tl);
            assert At(target, p) == At(t, q);
            assert ReplaceAt(expr, p, At(target, p)) == Sexp(expr.marked, l');
          } else {
            assert !ValidPath(target, p);
          }
        } else if ValidPath(target, p) {
          var l' := SetNth(l, j, ReplaceAt(x, q, At(target, p)));
          EqualListElementwise(l', tl);
          assert ReplaceAt(expr, p, At(target, p)) == Sexp(expr.marked, l');
        }
      }
    }
  }
}
