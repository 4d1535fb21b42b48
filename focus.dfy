/**
 * Locating the focus of a term (`find_marked_expr`). The checker walks the
 * tree in pre-order, returns the first marked node and clears every other
 * mark on the way (`warn_more_marked_exprs`, which unmarks any later sibling
 * that holds a mark). Here the node is returned as its path and the cleared
 * tree is returned alongside it.
 */
module Focus {
  import opened Wrappers
  import opened Terms

  /** The focus found in a term and the term as the search leaves it. */
  datatype Found = Found(focus: Option<Path>, expr: Expr)

  /** The focus found in a subterm list (paths start with the element index) and the list left behind. */
  datatype FoundInList = FoundInList(focus: Option<Path>, list: ExprList)

  /**
   * `find_marked_expr`: the first marked node in pre-order, if any, and the
   * tree with every other mark cleared.
   */
  function FindMarked(e: Expr): (r: Found)
    ensures r.focus == (if MarkedPaths(e) == [] then None else Some(MarkedPaths(e)[0]))
    ensures Unmark(r.expr) == Unmark(e)
    ensures MarkedPaths(r.expr) == (if r.focus.Some? then [r.focus.value] else [])
    ensures r.focus.Some? ==> ValidPath(r.expr, r.focus.value) && At(r.expr, r.focus.value).marked
  {
    match e
    case Sexp(m, l) =>
      if m then
        var l' := WarnMoreMarked(l);
        assert MarkedPathsList(l', 0) == [];
        Found(Some([]), Sexp(m, l'))
      else
        var f := FindMarkedInList(l, 0);
        Found(f.focus, Sexp(m, f.list))
    case _ => Found(if e.marked then Some([]) else None, e)
  }

  /**
   * `warn_more_marked_exprs`: every element that holds a mark is cleared
   * entirely; the others are left as they are.
   */
  function WarnMoreMarked(l: ExprList): (r: ExprList)
    ensures UnmarkList(r) == UnmarkList(l)
    ensures UnmarkList(r) == r
  {
    match l
    case Nil => Nil
    case Cons(h, t) =>
      var f := FindMarked(h);
      var h' := if f.focus.Some? then Unmark(f.expr) else f.expr;
      UnmarkIdempotent(f.expr);
      NoMarksIffUnmarked(f.expr);
      Cons(h', WarnMoreMarked(t))
  }

  /**
   * `find_marked_expr_in_list`: the first element holding a mark gives the
   * focus; all later elements are cleared. `i` is the index of the first
   * element of `l` in its parent.
   */
  function FindMarkedInList(l: ExprList, i: nat): (r: FoundInList)
    ensures r.focus == (if MarkedPathsList(l, i) == [] then None else Some(MarkedPathsList(l, i)[0]))
    ensures UnmarkList(r.list) == UnmarkList(l)
    ensures MarkedPathsList(r.list, i) == (if r.focus.Some? then [r.focus.value] else [])
    ensures r.focus.Some? ==>
      var p := r.focus.value;
      |p| > 0 && i <= p[0] < i + Len(r.list) &&
      ValidPath(Nth(r.list, p[0] - i), p[1..]) && At(Nth(r.list, p[0] - i), p[1..]).marked
  {
    match l
    case Nil => FoundInList(None, Nil)
    case Cons(h, t) =>
      var f := FindMarked(h);
      assert MarkedPathsList(l, i) == Under(i, MarkedPaths(h)) + MarkedPathsList(t, i + 1);
      if f.focus.Some? then
        var t' := WarnMoreMarked(t);
        NoMarksIffUnmarkedList(t', i + 1);
        assert MarkedPathsList(Cons(f.expr, t'), i) == Under(i, [f.focus.value]);
        FoundInList(Some([i] + f.focus.value), Cons(f.expr, t'))
      else
        var r := FindMarkedInList(t, i + 1);
        assert MarkedPathsList(Cons(f.expr, r.list), i) == MarkedPathsList(r.list, i + 1);
        FoundInList(r.focus, Cons(f.expr, r.list))
  }
}
