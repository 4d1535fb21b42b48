/**
 * Rendering terms, identifier lists and definitions as text. The checker
 * prints; here each printer returns the string it would print.
 *
 * A marked node is rendered in square brackets, a compound in parentheses
 * (square brackets when marked), elements separated by single spaces.
 * Alongside the renderer is a reader for its output, and the two are proved
 * inverse on every term whose text is unambiguous.
 */
module Print {
  import opened Wrappers
  import opened Terms

  // ---------------------------------------------------------------- rendering

  /** `_print_expr`. */
  function ExprToString(e: Expr): string
    decreases e, 2
  {
    match e
    case Zero(m) => if m then "[0]" else "0"
    case Var(m, x) => if m then "[" + x + "]" else x
    case Sexp(m, l) => SexpToString(l, m)
  }

  /** `_print_sexp`. */
  function SexpToString(l: ExprList, marked: bool): string
    decreases l, 1
  {
    (if marked then "[" else "(") + SexpInnerToString(l) + (if marked then "]" else ")")
  }

  /** `_print_sexp_inner`: the elements, one space between each two. */
  function SexpInnerToString(l: ExprList): string
    decreases l, 0
  {
    match l
    case Nil => ""
    case Cons(h, t) => ExprToString(h) + (if t.Cons? then " " else "") + SexpInnerToString(t)
  }

  /** `print_expr`: the term followed by a newline. */
  function PrintExpr(e: Expr): string {
    ExprToString(e) + "\n"
  }

  /** `_print_ident_list`: the identifiers, one space between each two. */
  function IdentListToString(ids: seq<Ident>): string {
    if ids == [] then ""
    else ids[0] + (if |ids| > 1 then " " else "") + IdentListToString(ids[1..])
  }

  /** `print_define`: the parameter list appears in angle brackets only when there are parameters. */
  function DefineToString(name: Ident, params: seq<Ident>, lhs: Expr, rhs: Expr): string {
    "DEFINE " + name + " " + (if params != [] then "<" + IdentListToString(params) + "> " else "") +
    ExprToString(lhs) + " = " + PrintExpr(rhs)
  }

  // ---------------------------------------------------------------- separators

  /** Characters that end a name in rendered text. */
  predicate Delim(c: char) {
    c == ' ' || c == '(' || c == ')' || c == '[' || c == ']' || c == '<' || c == '>' || c == '\n'
  }

  /** A name that reads back as itself: non-empty, not the numeral `0`, and free of delimiters. */
  predicate IsName(x: string) {
    x != [] && x != "0" && forall i :: 0 <= i < |x| ==> !Delim(x[i])
  }

  /** Every variable of the term has a name that reads back as itself. */
  predicate WellNamed(e: Expr) {
    match e
    case Sexp(_, l) => WellNamedList(l)
    case Var(_, x) => IsName(x)
    case Zero(_) => true
  }

  predicate WellNamedList(l: ExprList) {
    match l
    case Nil => true
    case Cons(h, t) => WellNamed(h) && WellNamedList(t)
  }

  /**
   * A marked compound whose only element is an unmarked zero or variable is
   * rendered exactly like that element marked (`[x]`); the reader takes the
   * text to be the marked element.
   */
  predicate MarkedSingleton(l: ExprList) {
    l.Cons? && l.tail.Nil? && !l.head.marked && !l.head.Sexp?
  }

  /** The term has well-named variables and no marked compound that renders like a marked atom. */
  predicate Printable(e: Expr) {
    match e
    case Sexp(m, l) => PrintableList(l) && !(m && MarkedSingleton(l))
    case Var(_, x) => IsName(x)
    case Zero(_) => true
  }

  predicate PrintableList(l: ExprList) {
    match l
    case Nil => true
    case Cons(h, t) => Printable(h) && PrintableList(t)
  }

  /** Elements are separated by exactly one space, and a rendered list neither starts nor ends with one. */
  lemma {:induction false} InnerSpacing(l: ExprList)
    requires WellNamedList(l) && l.Cons?
    ensures var s := SexpInnerToString(l); |s| > 0 && s[0] != ' ' && s[|s| - 1] != ' '
    decreases l
  {
    var s := SexpInnerToString(l);
    var h := ExprToString(l.head);
    RenderedEnds(l.head);
    if l.tail.Cons? {
      InnerSpacing(l.tail);
      var t := SexpInnerToString(l.tail);
      assert s == (h + " ") + t;
      assert s[|s| - 1] == t[|t| - 1];
    } else {
      assert SexpInnerToString(l.tail) == [];
      assert s == h;
    }
    assert s[0] == h[0];
  }

  /** A rendered term is never empty, neither starts nor ends with a space, and does not start with `<`. */
  lemma RenderedEnds(e: Expr)
    requires WellNamed(e)
    ensures var s := ExprToString(e); |s| > 0 && s[0] != ' ' && s[|s| - 1] != ' ' && s[0] != '<'
  {
    match e
    case Var(m, x) =>
      var s := ExprToString(e);
      if !m { assert s == x && !Delim(x[0]) && !Delim(x[|x| - 1]); }
    case _ =>
  }

  // ---------------------------------------------------------------- reading back

  datatype Parsed<T> = Parsed(value: T, rest: string)

  /** The length of the name at the start of `s`: the characters before the first delimiter. */
  function WordLen(s: string): (n: nat)
    ensures n <= |s| && forall i :: 0 <= i < n ==> !Delim(s[i])
    ensures n < |s| ==> Delim(s[n])
  {
    if s == [] || Delim(s[0]) then 0 else 1 + WordLen(s[1..])
  }

  /** What a bracketed group stands for: a single unmarked atom is that atom marked; anything else a marked compound. */
  function Bracket(l: ExprList): Expr {
    if MarkedSingleton(l) then
      (if l.head.Zero? then Zero(true) else Var(true, l.head.name))
    else Sexp(true, l)
  }

  /** Reads one term from the front of `s`, returning the term and the text after it. */
  function ParseExpr(s: string): (r: Option<Parsed<Expr>>)
    ensures r.Some? ==> |r.value.rest| < |s|
    decreases |s|, 0
  {
    if s == [] then None
    else if s[0] == '(' || s[0] == '[' then
      var close := if s[0] == '(' then ')' else ']';
      var l := ParseList(s[1..]);
      if l.Some? && l.value.rest != [] && l.value.rest[0] == close then
        var e := if s[0] == '(' then Sexp(false, l.value.value) else Bracket(l.value.value);
        Some(Parsed(e, l.value.rest[1..]))
      else None
    else
      var n := WordLen(s);
      if n == 0 then None
      else Some(Parsed(if s[..n] == "0" then Zero(false) else Var(false, s[..n]), s[n..]))
  }

  /** Reads space-separated terms up to a closing bracket or the end of `s`. */
  function ParseList(s: string): (r: Option<Parsed<ExprList>>)
    ensures r.Some? ==> |r.value.rest| <= |s|
    decreases |s|, 1
  {
    if s == [] || s[0] == ')' || s[0] == ']' then Some(Parsed(Nil, s))
    else
      var h := ParseExpr(s);
      if h.None? then None
      else if h.value.rest != [] && h.value.rest[0] == ' ' then
        var t := ParseList(h.value.rest[1..]);
        if t.None? then None else Some(Parsed(Cons(h.value.value, t.value.value), t.value.rest))
      else Some(Parsed(Cons(h.value.value, Nil), h.value.rest))
  }

  /** `rest` may follow a term: it is empty or starts with a delimiter. */
  predicate Boundary(rest: string) {
    rest == [] || Delim(rest[0])
  }

  lemma {:induction false} WordLenOfName(x: string, rest: string)
    requires forall i :: 0 <= i < |x| ==> !Delim(x[i])
    requires Boundary(rest)
    ensures WordLen(x + rest) == |x|
    decreases |x|
  {
    if x != [] {
      assert (x + rest)[1..] == x[1..] + rest;
      WordLenOfName(x[1..], rest);
    } else {
      assert x + rest == rest;
    }
  }

  /** An unmarked atom reads back as itself. */
  lemma AtomRoundTrip(e: Expr, rest: string)
    requires !e.Sexp? && !e.marked && Printable(e) && Boundary(rest)
    ensures ParseExpr(ExprToString(e) + rest) == Some(Parsed(e, rest))
  {
    var x := ExprToString(e);
    var s := x + rest;
    WordLenOfName(x, rest);
    assert s[..|x|] == x && s[|x|..] == rest;
  }

  /** A printable term has well-named variables. */
  lemma {:induction false} PrintableWellNamed(e: Expr)
    requires Printable(e)
    ensures WellNamed(e)
    decreases e
  {
    if e.Sexp? { PrintableListWellNamed(e.sexp); }
  }

  lemma {:induction false} PrintableListWellNamed(l: ExprList)
    requires PrintableList(l)
    ensures WellNamedList(l)
    decreases l
  {
    if l.Cons? {
      PrintableWellNamed(l.head);
      PrintableListWellNamed(l.tail);
    }
  }

  /** A rendered group reads back as a compound, or through `Bracket` when in square brackets. */
  lemma GroupRoundTrip(l: ExprList, marked: bool, rest: string)
    requires PrintableList(l) && Boundary(rest)
    decreases l, 1
    ensures ParseExpr(SexpToString(l, marked) + rest) ==
            Some(Parsed(if marked then Bracket(l) else Sexp(false, l), rest))
  {
    var open, close := if marked then '[' else '(', if marked then ']' else ')';
    var tail := [close] + rest;
    ListRoundTrip(l, tail);
    var after := SexpInnerToString(l) + tail;
    GroupText(l, marked, rest);
    DropFirst(close, rest);
    ParseOpen(open, after);
  }

  /** The text of a group followed by `rest`: the opening bracket, the elements, the closing bracket, `rest`. */
  lemma GroupText(l: ExprList, marked: bool, rest: string)
    ensures SexpToString(l, marked) + rest ==
            [if marked then '[' else '('] + (SexpInnerToString(l) + ([if marked then ']' else ')'] + rest))
  {
    var inner := SexpInnerToString(l);
    var open, close := [if marked then '[' else '('], [if marked then ']' else ')'];
    assert SexpToString(l, marked) == open + inner + close;
    assert open + inner + close + rest == open + (inner + (close + rest));
  }

  /** How the reader takes a group apart: the list inside, then the matching closing bracket. */
  lemma ParseOpen(open: char, after: string)
    requires open == '(' || open == '['
    ensures ParseExpr([open] + after) ==
            var close := if open == '(' then ')' else ']';
            var l := ParseList(after);
            if l.Some? && l.value.rest != [] && l.value.rest[0] == close then
              Some(Parsed(if open == '(' then Sexp(false, l.value.value) else Bracket(l.value.value), l.value.rest[1..]))
            else None
  {
    DropFirst(open, after);
  }

  lemma DropFirst(c: char, s: string)
    ensures ([c] + s)[0] == c && ([c] + s)[1..] == s
  {
  }

  /** A marked atom `[x]` reads back as itself. */
  lemma MarkedAtomRoundTrip(e: Expr, rest: string)
    requires !e.Sexp? && e.marked && Printable(e) && Boundary(rest)
    ensures ParseExpr(ExprToString(e) + rest) == Some(Parsed(e, rest))
  {
    InBrackets(Unmark(e), rest);
    assert ExprToString(e) == "[" + ExprToString(Unmark(e)) + "]";
  }

  /** An unmarked atom in square brackets reads back as that atom marked. */
  lemma InBrackets(a: Expr, rest: string)
    requires !a.Sexp? && !a.marked && Printable(a) && Boundary(rest)
    ensures ParseExpr("[" + ExprToString(a) + "]" + rest) ==
            Some(Parsed(if a.Zero? then Zero(true) else Var(true, a.name), rest))
  {
    var x := ExprToString(a);
    var tail := [']'] + rest;
    AtomRoundTrip(a, tail);
    ParseListHead(x + tail, a, tail);
    ParseOpen('[', x + tail);
    DropFirst(']', rest);
    assert "[" + x + "]" + rest == ['['] + (x + tail);
  }

  /** Reading a rendered term gives the term back, followed by the text that came after it. */
  lemma {:induction false} RoundTrip(e: Expr, rest: string)
    requires Printable(e) && Boundary(rest)
    ensures ParseExpr(ExprToString(e) + rest) == Some(Parsed(e, rest))
    decreases e, 2
  {
    match e
    case Sexp(m, l) =>
      GroupRoundTrip(l, m, rest);
    case _ =>
      if e.marked {
        MarkedAtomRoundTrip(e, rest);
      } else {
        AtomRoundTrip(e, rest);
      }
  }

  /** After one term has been read, the list reader either reads on after a space or stops. */
  lemma ParseListHead(s: string, e: Expr, after: string)
    requires ParseExpr(s) == Some(Parsed(e, after))
    ensures ParseList(s) ==
            if after != [] && after[0] == ' ' then
              var t := ParseList(after[1..]);
              if t.None? then None else Some(Parsed(Cons(e, t.value.value), t.value.rest))
            else Some(Parsed(Cons(e, Nil), after))
  {
    assert s != [] && s[0] != ')' && s[0] != ']';
  }

  /** The text of a list of two or more elements: the first, a space, and the rest. */
  lemma ConsText(l: ExprList, rest: string)
    requires l.Cons? && l.tail.Cons?
    ensures SexpInnerToString(l) + rest ==
            ExprToString(l.head) + ([' '] + (SexpInnerToString(l.tail) + rest))
  {
    var h, t := ExprToString(l.head), SexpInnerToString(l.tail);
    assert SexpInnerToString(l) == h + " " + t;
    assert h + " " + t + rest == h + ([' '] + (t + rest));
  }

  /** The text of a list of one element: the element alone. */
  lemma SingleText(l: ExprList, rest: string)
    requires l.Cons? && l.tail.Nil?
    ensures SexpInnerToString(l) + rest == ExprToString(l.head) + rest
  {
    assert SexpInnerToString(l.tail) == [];
    assert SexpInnerToString(l) == ExprToString(l.head) + "" + "";
  }

  lemma {:induction false} ListRoundTrip(l: ExprList, rest: string)
    requires PrintableList(l) && (rest == [] || rest[0] == ')' || rest[0] == ']')
    ensures ParseList(SexpInnerToString(l) + rest) == Some(Parsed(l, rest))
    decreases l, 0
  {
    if l.Nil? {
      assert SexpInnerToString(l) + rest == rest;
    } else if l.tail.Cons? {
      var after := [' '] + (SexpInnerToString(l.tail) + rest);
      ConsText(l, rest);
      RoundTrip(l.head, after);
      ListRoundTrip(l.tail, rest);
      ParseListHead(SexpInnerToString(l) + rest, l.head, after);
      DropFirst(' ', SexpInnerToString(l.tail) + rest);
    } else {
      SingleText(l, rest);
      RoundTrip(l.head, rest);
      ParseListHead(SexpInnerToString(l) + rest, l.head, rest);
    }
  }

  // ---------------------------------------------------------------- marks in the text

  /** How often `c` occurs in `s`. */
  function Count(s: string, c: char): nat {
    if s == [] then 0 else (if s[0] == c then 1 else 0) + Count(s[1..], c)
  }

  lemma {:induction false} CountAppend(a: string, b: string, c: char)
    ensures Count(a + b, c) == Count(a, c) + Count(b, c)
    decreases |a|
  {
    if a == [] {
      assert a + b == b;
    } else {
      assert (a + b)[1..] == a[1..] + b;
      CountAppend(a[1..], b, c);
    }
  }

  lemma {:induction false} CountAbsent(s: string, c: char)
    requires forall i :: 0 <= i < |s| ==> s[i] != c
    ensures Count(s, c) == 0
    decreases |s|
  {
    if s != [] { CountAbsent(s[1..], c); }
  }

  /** Every mark shows as exactly one opening square bracket, and no other `[` is printed. */
  lemma {:induction false} MarksRendered(e: Expr)
    requires WellNamed(e)
    ensures Count(ExprToString(e), '[') == |MarkedPaths(e)|
    decreases e, 1
  {
    match e
    case Zero(m) =>
      if m { assert ExprToString(e) == "[" + "0]"; CountAppend("[", "0]", '['); }
    case Var(m, x) =>
      CountAbsent(x, '[');
      if m {
        assert ExprToString(e) == "[" + x + "]";
        CountAppend("[" + x, "]", '[');
        CountAppend("[", x, '[');
      }
    case Sexp(m, l) =>
      var open, close := if m then "[" else "(", if m then "]" else ")";
      MarksRenderedList(l, 0);
      CountAppend(open + SexpInnerToString(l), close, '[');
      CountAppend(open, SexpInnerToString(l), '[');
  }

  lemma {:induction false} MarksRenderedList(l: ExprList, i: nat)
    requires WellNamedList(l)
    ensures Count(SexpInnerToString(l), '[') == |MarkedPathsList(l, i)|
    decreases l, 0
  {
    if l.Cons? {
      var sep := if l.tail.Cons? then " " else "";
      MarksRendered(l.head);
      MarksRenderedList(l.tail, i + 1);
      CountAppend(ExprToString(l.head) + sep, SexpInnerToString(l.tail), '[');
      CountAppend(ExprToString(l.head), sep, '[');
    }
  }

  /** Why `Printable` excludes some terms: these pairs of distinct terms print alike. */
  lemma AmbiguousRenderings()
    ensures ExprToString(Var(true, "x")) == ExprToString(Sexp(true, Cons(Var(false, "x"), Nil)))
    ensures ExprToString(Zero(false)) == ExprToString(Var(false, "0"))
  {
  }

  // ---------------------------------------------------------------- identifier lists

  /** The position of the first occurrence of `c` in `s`, or `|s|` if there is none. */
  function IndexOf(s: string, c: char): (n: nat)
    ensures n <= |s| && (forall i :: 0 <= i < n ==> s[i] != c) && (n < |s| ==> s[n] == c)
  {
    if s == [] || s[0] == c then 0 else 1 + IndexOf(s[1..], c)
  }

  lemma {:induction false} IndexOfAfter(x: string, c: char, rest: string)
    requires forall i :: 0 <= i < |x| ==> x[i] != c
    requires rest != [] && rest[0] == c
    ensures IndexOf(x + rest, c) == |x|
    decreases |x|
  {
    if x != [] {
      assert (x + rest)[1..] == x[1..] + rest;
      IndexOfAfter(x[1..], c, rest);
    }
  }

  /** The pieces of `s` between single spaces. */
  function SplitSpaces(s: string): (r: seq<string>)
    decreases |s|
  {
    var n := IndexOf(s, ' ');
    if n == |s| then [s] else [s[..n]] + SplitSpaces(s[n + 1..])
  }

  /** `c` occurs in none of the identifiers. */
  predicate Avoids(ids: seq<Ident>, c: char) {
    forall k, i :: 0 <= k < |ids| && 0 <= i < |ids[k]| ==> ids[k][i] != c
  }

  /** Splitting a rendered identifier list at its spaces gives the identifiers back. */
  lemma {:induction false} IdentListRoundTrip(ids: seq<Ident>)
    requires ids != [] && Avoids(ids, ' ')
    ensures SplitSpaces(IdentListToString(ids)) == ids
    decreases |ids|
  {
    var x := ids[0];
    assert forall i :: 0 <= i < |x| ==> x[i] != ' ';
    if |ids| == 1 {
      assert IdentListToString(ids[1..]) == [];
      assert IdentListToString(ids) == x + "" + "" == x;
      IndexOfAbsent(x, ' ');
      assert SplitSpaces(x) == [x];
    } else {
      var t := IdentListToString(ids[1..]);
      assert IdentListToString(ids) == x + " " + t;
      SplitAfterWord(x, t);
      IdentListRoundTrip(ids[1..]);
      assert [x] + ids[1..] == ids;
    }
  }

  /** A word without spaces, a space, and more text split into the word and the pieces of the rest. */
  lemma SplitAfterWord(x: string, t: string)
    requires forall i :: 0 <= i < |x| ==> x[i] != ' '
    ensures SplitSpaces(x + " " + t) == [x] + SplitSpaces(t)
  {
    var s := x + " " + t;
    IndexOfAfter(x, ' ', " " + t);
    assert s == x + (" " + t);
    Cut(x, " " + t);
    assert s[|x| + 1..] == t;
  }

  lemma IndexOfAbsent(x: string, c: char)
    requires forall i :: 0 <= i < |x| ==> x[i] != c
    ensures IndexOf(x, c) == |x|
  {
  }

  /** A character that is neither a space nor in any identifier is not in their rendering. */
  lemma {:induction false} IdentListAvoids(ids: seq<Ident>, c: char)
    requires Avoids(ids, c) && c != ' '
    ensures forall i :: 0 <= i < |IdentListToString(ids)| ==> IdentListToString(ids)[i] != c
    decreases |ids|
  {
    if ids != [] {
      var x := ids[0];
      var sep := if |ids| > 1 then " " else "";
      IdentListAvoids(ids[1..], c);
      var t := IdentListToString(ids[1..]);
      assert IdentListToString(ids) == x + sep + t;
      forall i | 0 <= i < |x + sep + t| ensures (x + sep + t)[i] != c {
        if i < |x| { assert (x + sep + t)[i] == ids[0][i]; }
        else if i < |x + sep| { assert (x + sep + t)[i] == sep[i - |x|]; }
        else { assert (x + sep + t)[i] == t[i - |x + sep|]; }
      }
    }
  }

  // ---------------------------------------------------------------- definitions

  datatype DefineText = DefineText(name: Ident, params: seq<Ident>, lhs: Expr, rhs: Expr)

  /** Reads an optional parameter list `<a b ...> ` from the front of `u`. */
  function ParseParams(u: string): Option<Parsed<seq<Ident>>> {
    if u == [] || u[0] != '<' then Some(Parsed([], u)) else ParseParamList(u[1..])
  }

  /** Reads `a b ...> ` once the opening `<` has been read. */
  function ParseParamList(v: string): Option<Parsed<seq<Ident>>> {
    var j := IndexOf(v, '>');
    var w := v[j..];
    if |w| < 2 || w[1] != ' ' then None else Some(Parsed(SplitSpaces(v[..j]), w[2..]))
  }

  /** Reads `lhs = rhs` and the final newline. */
  function ParseEquation(v: string): Option<(Expr, Expr)> {
    var lhs := ParseExpr(v);
    if lhs.None? || |lhs.value.rest| < 3 || lhs.value.rest[..3] != " = " then None
    else
      var rhs := ParseExpr(lhs.value.rest[3..]);
      if rhs.None? || rhs.value.rest != "\n" then None
      else Some((lhs.value.value, rhs.value.value))
  }

  /** Reads back the text `print_define` prints. */
  function ParseDefine(s: string): Option<DefineText> {
    if |s| < 7 || s[..7] != "DEFINE " then None
    else
      var t := s[7..];
      var n := IndexOf(t, ' ');
      if n == |t| then None
      else
        var ps := ParseParams(t[n + 1..]);
        if ps.None? then None
        else
          var eq := ParseEquation(ps.value.rest);
          if eq.None? then None
          else Some(DefineText(t[..n], ps.value.value, eq.value.0, eq.value.1))
  }

  /** The rendered equation reads back as its two sides. */
  lemma EquationRoundTrip(lhs: Expr, rhs: Expr)
    requires Printable(lhs) && Printable(rhs)
    ensures ParseEquation(ExprToString(lhs) + (" = " + ExprToString(rhs) + "\n")) == Some((lhs, rhs))
  {
    var r := ExprToString(rhs);
    var after := " = " + r + "\n";
    assert after == " = " + (r + "\n");
    Cut(" = ", r + "\n");
    RoundTrip(lhs, after);
    RoundTrip(rhs, "\n");
  }

  /** The rendered parameter list reads back as the parameters, also when there are none. */
  lemma ParamsRoundTrip(params: seq<Ident>, body: string)
    requires Avoids(params, ' ') && Avoids(params, '>')
    requires body != [] && body[0] != '<'
    ensures ParseParams((if params != [] then "<" + IdentListToString(params) + "> " else "") + body) ==
            Some(Parsed(params, body))
  {
    if params != [] {
      var ids := IdentListToString(params);
      var w := "> " + body;
      var v := ids + w;
      assert "<" + ids + "> " + body == ['<'] + v;
      DropFirst('<', v);
      IdentListAvoids(params, '>');
      IndexOfAfter(ids, '>', w);
      Cut(ids, w);
      Cut("> ", body);
      IdentListRoundTrip(params);
    } else {
      assert "" + body == body;
    }
  }

  lemma Cut(a: string, b: string)
    ensures (a + b)[..|a|] == a && (a + b)[|a|..] == b
  {
  }

  /** How the reader takes apart `DEFINE name ...`. */
  lemma ParseDefineOf(name: Ident, u: string)
    requires forall i :: 0 <= i < |name| ==> name[i] != ' '
    ensures ParseDefine("DEFINE " + (name + (" " + u))) ==
            var ps := ParseParams(u);
            if ps.None? then None
            else
              var eq := ParseEquation(ps.value.rest);
              if eq.None? then None else Some(DefineText(name, ps.value.value, eq.value.0, eq.value.1))
  {
    var t := name + (" " + u);
    Cut("DEFINE ", t);
    Cut(name, " " + u);
    Cut(" ", u);
    assert t[|name| + 1..] == (" " + u)[1..];
    IndexOfAfter(name, ' ', " " + u);
  }

  lemma DefineTextShape(name: Ident, params: seq<Ident>, lhs: Expr, rhs: Expr)
    ensures DefineToString(name, params, lhs, rhs) ==
            "DEFINE " + (name + (" " + ((if params != [] then "<" + IdentListToString(params) + "> " else "") +
                                       (ExprToString(lhs) + (" = " + ExprToString(rhs) + "\n")))))
  {
  }

  /** Reading a printed definition gives back its name, parameters and both sides. */
  lemma DefineRoundTrip(name: Ident, params: seq<Ident>, lhs: Expr, rhs: Expr)
    requires forall i :: 0 <= i < |name| ==> name[i] != ' '
    requires Avoids(params, ' ') && Avoids(params, '>')
    requires Printable(lhs) && Printable(rhs)
    ensures ParseDefine(DefineToString(name, params, lhs, rhs)) == Some(DefineText(name, params, lhs, rhs))
  {
    var l := ExprToString(lhs);
    var body := l + (" = " + ExprToString(rhs) + "\n");
    var ps := if params != [] then "<" + IdentListToString(params) + "> " else "";
    var u := ps + body;
    DefineTextShape(name, params, lhs, rhs);
    PrintableWellNamed(lhs);
    RenderedEnds(lhs);
    assert body[0] == l[0];
    ParamsRoundTrip(params, body);
    EquationRoundTrip(lhs, rhs);
    ParseDefineOf(name, u);
  }
}
