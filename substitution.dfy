/**
 * `clone_expr_and_replace`: a fresh copy of a term in which every variable
 * named `param` is replaced by a copy of `replacement`. With no replacement
 * the copy is exact. The induction checker builds its base and step goals
 * with it.
 */
module Substitution {
  import opened Wrappers
  import opened Terms
  import opened Matching

  function CloneAndReplace(orig: Expr, replacement: Option<Expr>, param: Ident): Expr
    decreases if replacement.Some? then 1 else 0, orig
  {
    match orig
    case Zero(m) => Zero(m)
    case Var(m, x) =>
      if replacement.Some? && x == param then CloneAndReplace(replacement.value, None, "")
      else Var(m, x)
    case Sexp(m, l) => Sexp(m, CloneListAndReplace(l, replacement, param))
  }

  /** `clone_expr_list_and_replace`. */
  function CloneListAndReplace(orig: ExprList, replacement: Option<Expr>, param: Ident): ExprList
    decreases if replacement.Some? then 1 else 0, orig
  {
    match orig
    case Nil => Nil
    case Cons(h, t) => Cons(CloneAndReplace(h, replacement, param), CloneListAndReplace(t, replacement, param))
  }

  /** With no replacement the clone is an exact copy, marks included. */
  lemma {:induction false} CloneIsCopy(e: Expr, param: Ident)
    ensures CloneAndReplace(e, None, param) == e
  {
    match e
    case Sexp(_, l) => CloneListIsCopy(l, param);
    case _ =>
  }

  lemma {:induction false} CloneListIsCopy(l: ExprList, param: Ident)
    ensures CloneListAndReplace(l, None, param) == l
  {
    match l
    case Nil =>
    case Cons(h, t) =>
      CloneIsCopy(h, param);
      CloneListIsCopy(t, param);
  }

  /**
   * Substitution is instantiation with the single binding `param := r`: the
   * induction goals are built by the same operation that applies a rule.
   * In particular the replacement is inserted as it is, never substituted into.
   */
  lemma {:induction false} CloneIsInstance(e: Expr, r: Expr, param: Ident)
    ensures CloneAndReplace(e, Some(r), param) == Instantiate(e, [Binding(param, r)])
  {
    match e
    case Var(_, x) => if x == param { CloneIsCopy(r, ""); }
    case Sexp(_, l) => CloneListIsInstance(l, r, param);
    case Zero(_) =>
  }

  lemma {:induction false} CloneListIsInstance(l: ExprList, r: Expr, param: Ident)
    ensures CloneListAndReplace(l, Some(r), param) == InstantiateList(l, [Binding(param, r)])
  {
    match l
    case Nil =>
    case Cons(h, t) =>
      CloneIsInstance(h, r, param);
      CloneListIsInstance(t, r, param);
  }

  /** A term in which `param` does not occur is copied unchanged. */
  lemma {:induction false} CloneWithoutOccurrence(e: Expr, r: Expr, param: Ident)
    requires param !in VarsOf(e)
    ensures CloneAndReplace(e, Some(r), param) == e
  {
    match e
    case Sexp(_, l) => CloneListWithoutOccurrence(l, r, param);
    case _ =>
  }

  lemma {:induction false} CloneListWithoutOccurrence(l: ExprList, r: Expr, param: Ident)
    requires param !in VarsOfList(l)
    ensures CloneListAndReplace(l, Some(r), param) == l
  {
    match l
    case Nil =>
    case Cons(h, t) =>
      CloneWithoutOccurrence(h, r, param);
      CloneListWithoutOccurrence(t, r, param);
  }

  /**
   * The variables of the result: those of the original other than `param`,
   * plus those of the replacement where `param` occurred.
   */
  lemma {:induction false} CloneVars(e: Expr, r: Expr, param: Ident)
    ensures VarsOf(CloneAndReplace(e, Some(r), param)) ==
      (VarsOf(e) - {param}) + (if param in VarsOf(e) then VarsOf(r) else {})
  {
    match e
    case Var(_, x) => if x == param { CloneIsCopy(r, ""); }
    case Sexp(_, l) => CloneListVars(l, r, param);
    case Zero(_) =>
  }

  lemma {:induction false} CloneListVars(l: ExprList, r: Expr, param: Ident)
    ensures VarsOfList(CloneListAndReplace(l, Some(r), param)) ==
      (VarsOfList(l) - {param}) + (if param in VarsOfList(l) then VarsOf(r) else {})
  {
    match l
    case Nil =>
    case Cons(h, t) =>
      CloneVars(h, r, param);
      CloneListVars(t, r, param);
  }

  /** Replacing a variable by itself gives back the same term, marks aside. */
  lemma {:induction false} CloneByItself(e: Expr, param: Ident)
    ensures Equal(CloneAndReplace(e, Some(Var(false, param)), param), e)
  {
    match e
    case Sexp(_, l) =>
      CloneListByItself(l, param);
    case _ =>
  }

  lemma {:induction false} CloneListByItself(l: ExprList, param: Ident)
    ensures EqualList(CloneListAndReplace(l, Some(Var(false, param)), param), l)
  {
    match l
    case Nil =>
    case Cons(h, t) =>
      CloneByItself(h, param);
      CloneListByItself(t, param);
  }
}
