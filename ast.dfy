/**
 * The older `PF_` syntax tree and its constructors. It has the same three
 * kinds of term as the checker's, without focus marks, and builds numerals
 * with the same encoding: zero wrapped in `n` compounds `(succ ...)`.
 */
module Ast {
  import opened Wrappers
  import opened Terms

  datatype PFExpr = PFZero | PFVar(name: string) | PFSexp(sexp: PFExprs)

  /** Linked lists of terms and identifiers; `PFNil` and `PFIdentNil` play the null pointer. */
  datatype PFExprs = PFNil | PFCons(expr: PFExpr, tail: PFExprs)

  datatype PFIdents = PFIdentNil | PFIdentCons(ident: string, tail: PFIdents)

  function PFLen(l: PFExprs): nat {
    match l
    case PFNil => 0
    case PFCons(_, t) => 1 + PFLen(t)
  }

  function PFNth(l: PFExprs, i: nat): PFExpr
    requires i < PFLen(l)
  {
    if i == 0 then l.expr else PFNth(l.tail, i - 1)
  }

  /** The identifiers of a list, in order. */
  function Idents(l: PFIdents): seq<string> {
    match l
    case PFIdentNil => []
    case PFIdentCons(x, t) => [x] + Idents(t)
  }

  /** `PF_ident_list`: prepend an identifier. */
  function PFIdentList(ident: string, tail: PFIdents): (r: PFIdents)
    ensures Idents(r) == [ident] + Idents(tail)
  {
    PFIdentCons(ident, tail)
  }

  /** `PF_expr_list`: prepend a term; the old list follows it unchanged. */
  function PFExprList(e: PFExpr, tail: PFExprs): (r: PFExprs)
    ensures PFLen(r) == PFLen(tail) + 1 && PFNth(r, 0) == e
    ensures forall k :: 0 <= k < PFLen(tail) ==> PFNth(r, k + 1) == PFNth(tail, k)
  {
    PFCons(e, tail)
  }

  /** The checker's unmarked term for a `PF_` term. */
  function Lower(e: PFExpr): Expr {
    match e
    case PFZero => Zero(false)
    case PFVar(x) => Var(false, x)
    case PFSexp(l) => Sexp(false, LowerList(l))
  }

  function LowerList(l: PFExprs): ExprList {
    match l
    case PFNil => Nil
    case PFCons(h, t) => Cons(Lower(h), LowerList(t))
  }

  /** `PF_expr_var`: a variable node, the checker's unmarked variable of that name. */
  function PFExprVar(v: string): (r: PFExpr)
    ensures Lower(r) == Var(false, v)
  {
    PFVar(v)
  }

  /** `PF_expr_sexp`: a compound node, the checker's unmarked compound of those elements. */
  function PFExprSexp(l: PFExprs): (r: PFExpr)
    ensures Lower(r) == Sexp(false, LowerList(l))
  {
    PFSexp(l)
  }

  /**
   * `PF_expr_num`: the numeral `n`. Zero is the zero node; otherwise it is a
   * compound of exactly two elements, the variable `succ` and the numeral
   * `n - 1`.
   */
  function PFExprNum(n: nat): (r: PFExpr)
    ensures n == 0 <==> r.PFZero?
    ensures n > 0 ==> r.PFSexp? && PFLen(r.sexp) == 2 &&
                      PFNth(r.sexp, 0) == PFVar("succ") && PFNth(r.sexp, 1) == PFExprNum(n - 1)
  {
    if n == 0 then PFZero
    else PFSexp(PFExprList(PFExprVar("succ"), PFExprList(PFExprNum(n - 1), PFNil)))
  }

  /** The number a term stands for: the count of `(succ ...)` wrappers around zero, if it is a numeral. */
  function NumValue(e: PFExpr): Option<nat> {
    match e
    case PFZero => Some(0)
    case PFVar(_) => None
    case PFSexp(l) =>
      if l.PFCons? && l.expr == PFVar("succ") && l.tail.PFCons? && l.tail.tail.PFNil? then
        var v := NumValue(l.tail.expr);
        if v.Some? then Some(v.value + 1) else None
      else None
  }

  /** The numeral `n + 1` as the constructors build it. */
  lemma NumShape(n: nat)
    requires n > 0
    ensures PFExprNum(n) == PFSexp(PFCons(PFVar("succ"), PFCons(PFExprNum(n - 1), PFNil)))
  {
  }

  /** Reading back the numeral `n` gives `n`. */
  lemma {:induction false} NumRoundTrip(n: nat)
    ensures NumValue(PFExprNum(n)) == Some(n)
  {
    if n > 0 {
      NumRoundTrip(n - 1);
      var x := PFExprNum(n - 1);
      NumShape(n);
      assert NumValue(PFSexp(PFCons(PFVar("succ"), PFCons(x, PFNil)))) == Some(n);
    }
  }

  /** A term reads as `n` exactly when it is the numeral `n`. */
  lemma {:induction false} NumValueExact(e: PFExpr, n: nat)
    ensures NumValue(e) == Some(n) <==> e == PFExprNum(n)
    decreases e
  {
    NumRoundTrip(n);
    if NumValue(e) == Some(n) && e.PFSexp? {
      var x := e.sexp.tail.expr;
      NumValueExact(x, n - 1);
    }
  }

  /** Distinct numbers give distinct numerals. */
  lemma NumInjective(m: nat, n: nat)
    ensures PFExprNum(m) == PFExprNum(n) <==> m == n
  {
    NumRoundTrip(m);
    NumRoundTrip(n);
  }

  /** The numeral `n` of the checker's terms: `n` applications of `Succ` to zero. */
  function Numeral(n: nat): Expr {
    if n == 0 then Zero(false) else Succ(Numeral(n - 1))
  }

  /** `PF_expr_num` builds the same encoding the checker uses for induction. */
  lemma {:induction false} NumeralEncoding(n: nat)
    ensures Lower(PFExprNum(n)) == Numeral(n)
  {
    if n > 0 {
      NumeralEncoding(n - 1);
      var rest := PFCons(PFExprNum(n - 1), PFNil);
      assert LowerList(rest) == Cons(Numeral(n - 1), Nil);
      assert LowerList(PFCons(PFVar("succ"), rest)) == Cons(Var(false, "succ"), Cons(Numeral(n - 1), Nil));
    }
  }
}
