/**
 * The term language of the proof checker: zero, variables and compound
 * s-expressions, each node carrying a focus flag (`marked`). Subterm lists
 * are singly linked, as in the checker; `Nil` plays the null pointer.
 * A position inside a term is a path of child indices.
 */
module Terms {

  type Ident = string

  datatype Expr =
    | Zero(marked: bool)
    | Var(marked: bool, name: Ident)
    | Sexp(marked: bool, sexp: ExprList)

  datatype ExprList = Nil | Cons(head: Expr, tail: ExprList)

  /** The compound `(succ e)`, the successor encoding the checker builds for induction. */
  function Succ(e: Expr): Expr {
    Sexp(false, Cons(Var(false, "succ"), Cons(e, Nil)))
  }

  // ---------------------------------------------------------------- lists

  function Len(l: ExprList): nat {
    match l
    case Nil => 0
    case Cons(_, t) => 1 + Len(t)
  }

  function Nth(l: ExprList, i: nat): Expr
    requires i < Len(l)
  {
    if i == 0 then l.head else Nth(l.tail, i - 1)
  }

  /** `l` with its `i`-th element replaced by `x`. */
  function SetNth(l: ExprList, i: nat, x: Expr): (r: ExprList)
    requires i < Len(l)
    ensures Len(r) == Len(l)
    ensures forall k :: 0 <= k < Len(l) ==> Nth(r, k) == if k == i then x else Nth(l, k)
  {
    if i == 0 then Cons(x, l.tail) else Cons(l.head, SetNth(l.tail, i - 1, x))
  }

  // ---------------------------------------------------------------- paths

  type Path = seq<nat>

  /** `p` leads from the root of `e` to one of its nodes. */
  predicate ValidPath(e: Expr, p: Path)
    decreases |p|
  {
    p == [] || (e.Sexp? && p[0] < Len(e.sexp) && ValidPath(Nth(e.sexp, p[0]), p[1..]))
  }

  /** The subterm of `e` at path `p`. */
  function At(e: Expr, p: Path): Expr
    requires ValidPath(e, p)
    decreases |p|
  {
    if p == [] then e else At(Nth(e.sexp, p[0]), p[1..])
  }

  /** `e` with the subterm at path `p` replaced by `s`. */
  function ReplaceAt(e: Expr, p: Path, s: Expr): Expr
    requires ValidPath(e, p)
    decreases |p|
  {
    if p == [] then s
    else Sexp(e.marked, SetNth(e.sexp, p[0], ReplaceAt(Nth(e.sexp, p[0]), p[1..], s)))
  }

  // ---------------------------------------------------------------- marks

  /** The paths of all marked nodes of `e`, in left-to-right pre-order. */
  function MarkedPaths(e: Expr): seq<Path> {
    match e
    case Sexp(m, l) => (if m then [[]] else []) + MarkedPathsList(l, 0)
    case _ => if e.marked then [[]] else []
  }

  /** The marked paths of the elements of `l`, the first element having index `i`. */
  function MarkedPathsList(l: ExprList, i: nat): seq<Path> {
    match l
    case Nil => []
    case Cons(h, t) => Under(i, MarkedPaths(h)) + MarkedPathsList(t, i + 1)
  }

  /** Every path of `ps`, seen from the parent whose `i`-th child they start in. */
  function Under(i: nat, ps: seq<Path>): (r: seq<Path>)
    ensures |r| == |ps| && forall k :: 0 <= k < |ps| ==> r[k] == [i] + ps[k]
  {
    seq(|ps|, k requires 0 <= k < |ps| => [i] + ps[k])
  }

  /** `e` with every focus flag cleared (the value `unmark_expr` leaves behind). */
  function Unmark(e: Expr): (r: Expr)
    ensures MarkedPaths(r) == []
  {
    match e
    case Zero(_) => Zero(false)
    case Var(_, x) => Var(false, x)
    case Sexp(_, l) => Sexp(false, UnmarkList(l))
  }

  function UnmarkList(l: ExprList): (r: ExprList)
    ensures Len(r) == Len(l)
    ensures forall i: nat :: MarkedPathsList(r, i) == []
  {
    match l
    case Nil => Nil
    case Cons(h, t) => Cons(Unmark(h), UnmarkList(t))
  }

  /** A term carries no mark exactly when clearing the marks leaves it unchanged. */
  lemma {:induction false} NoMarksIffUnmarked(e: Expr)
    ensures MarkedPaths(e) == [] <==> Unmark(e) == e
  {
    match e
    case Sexp(m, l) => NoMarksIffUnmarkedList(l, 0);
    case _ =>
  }

  lemma {:induction false} NoMarksIffUnmarkedList(l: ExprList, i: nat)
    ensures MarkedPathsList(l, i) == [] <==> UnmarkList(l) == l
  {
    match l
    case Nil =>
    case Cons(h, t) =>
      NoMarksIffUnmarked(h);
      NoMarksIffUnmarkedList(t, i + 1);
  }

  lemma UnmarkIdempotent(e: Expr)
    ensures Unmark(Unmark(e)) == Unmark(e)
  {
    NoMarksIffUnmarked(Unmark(e));
  }

  // ---------------------------------------------------------------- equality

  /**
   * Structural equality (`expr_equals`): the tags agree, variables have the
   * same name, compounds have the same length and agree element by element.
   * Marks are not looked at. The second argument plays the pattern.
   */
  predicate Equal(a: Expr, b: Expr)
    decreases b
  {
    match b
    case Zero(_) => a.Zero?
    case Var(_, x) => a.Var? && a.name == x
    case Sexp(_, pl) => a.Sexp? && EqualList(a.sexp, pl)
  }

  predicate EqualList(l: ExprList, pl: ExprList)
    decreases pl
  {
    if l.Nil? then pl.Nil?
    else if pl.Nil? then false
    else Equal(l.head, pl.head) && EqualList(l.tail, pl.tail)
  }

  /** Equality holds exactly when the two terms coincide once their marks are cleared. */
  lemma {:induction false} EqualIffSameUnmarked(a: Expr, b: Expr)
    ensures Equal(a, b) <==> Unmark(a) == Unmark(b)
    decreases b
  {
    match b
    case Sexp(_, pl) => if a.Sexp? { EqualListIffSameUnmarked(a.sexp, pl); }
    case _ =>
  }

  lemma {:induction false} EqualListIffSameUnmarked(l: ExprList, pl: ExprList)
    ensures EqualList(l, pl) <==> UnmarkList(l) == UnmarkList(pl)
    decreases pl
  {
    if l.Cons? && pl.Cons? {
      EqualIffSameUnmarked(l.head, pl.head);
      EqualListIffSameUnmarked(l.tail, pl.tail);
    }
  }

  lemma EqualReflexive(a: Expr)
    ensures Equal(a, a)
  {
    EqualIffSameUnmarked(a, a);
  }

  lemma EqualSymmetric(a: Expr, b: Expr)
    ensures Equal(a, b) <==> Equal(b, a)
  {
    EqualIffSameUnmarked(a, b);
    EqualIffSameUnmarked(b, a);
  }

  lemma EqualTransitive(a: Expr, b: Expr, c: Expr)
    requires Equal(a, b) && Equal(b, c)
    ensures Equal(a, c)
  {
    EqualIffSameUnmarked(a, b);
    EqualIffSameUnmarked(b, c);
    EqualIffSameUnmarked(a, c);
  }

  /** Marks never matter to equality: a term equals its unmarked copy. */
  lemma EqualToUnmarked(a: Expr)
    ensures Equal(a, Unmark(a)) && Equal(Unmark(a), a)
  {
    UnmarkIdempotent(a);
    EqualIffSameUnmarked(a, Unmark(a));
    EqualSymmetric(a, Unmark(a));
  }

  // ---------------------------------------------------------------- marks and positions

  lemma {:induction false} UnmarkNth(l: ExprList, i: nat)
    requires i < Len(l)
    ensures Nth(UnmarkList(l), i) == Unmark(Nth(l, i))
  {
    if i > 0 { UnmarkNth(l.tail, i - 1); }
  }

  lemma {:induction false} UnmarkSetNth(l: ExprList, i: nat, x: Expr)
    requires i < Len(l)
    ensures UnmarkList(SetNth(l, i, x)) == SetNth(UnmarkList(l), i, Unmark(x))
  {
    if i > 0 { UnmarkSetNth(l.tail, i - 1, x); }
  }

  /**
   * Positions do not depend on marks: a path is valid in a term exactly when it
   * is valid in its unmarked copy, and selecting or replacing there commutes
   * with clearing the marks.
   */
  lemma {:induction false} UnmarkPath(e: Expr, p: Path, s: Expr)
    ensures ValidPath(e, p) <==> ValidPath(Unmark(e), p)
    ensures ValidPath(e, p) ==> ValidPath(Unmark(e), p) && Unmark(At(e, p)) == At(Unmark(e), p) &&
                                Unmark(ReplaceAt(e, p, s)) == ReplaceAt(Unmark(e), p, Unmark(s))
    decreases |p|
  {
    if p != [] && e.Sexp? && p[0] < Len(e.sexp) {
      var x := Nth(e.sexp, p[0]);
      UnmarkNth(e.sexp, p[0]);
      UnmarkPath(x, p[1..], s);
      if ValidPath(x, p[1..]) { UnmarkSetNth(e.sexp, p[0], ReplaceAt(x, p[1..], s)); }
    }
  }

  /** Equal terms have the same positions, equal subterms there, and stay equal after the same replacement. */
  lemma EqualAtPath(a: Expr, b: Expr, p: Path, s: Expr)
    requires Equal(a, b) && ValidPath(a, p)
    ensures ValidPath(b, p) && Equal(At(a, p), At(b, p)) && Equal(ReplaceAt(a, p, s), ReplaceAt(b, p, s))
  {
    EqualIffSameUnmarked(a, b);
    UnmarkPath(a, p, s);
    UnmarkPath(b, p, s);
    EqualIffSameUnmarked(At(a, p), At(b, p));
    EqualIffSameUnmarked(ReplaceAt(a, p, s), ReplaceAt(b, p, s));
  }

  /** Replacing by equal subterms gives equal terms. */
  lemma ReplaceEqual(a: Expr, p: Path, s: Expr, s': Expr)
    requires ValidPath(a, p) && Equal(s, s')
    ensures Equal(ReplaceAt(a, p, s), ReplaceAt(a, p, s'))
  {
    EqualIffSameUnmarked(s, s');
    UnmarkPath(a, p, s);
    UnmarkPath(a, p, s');
    EqualIffSameUnmarked(ReplaceAt(a, p, s), ReplaceAt(a, p, s'));
  }
}
