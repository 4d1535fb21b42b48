# peanoforte proof checker — a verified model

peanoforte checks equational proofs about Peano-style terms. A term is `0`, a
variable, or a compound s-expression such as `(plus x (succ 0))`. Any node may
carry a focus mark, written `[...]`, which shows where the next rewrite applies.

A program is a sequence of declarations:

- **Definitions** (`DEFINE name <params> lhs = rhs`) are axioms.
- **Theorems** carry a proof. They become usable rules once the proof checks.
- **Examples** carry a proof but are never registered.

A proof takes one of two forms:

- A **direct** proof is a chain of transforms from the left-hand side to the
  right-hand side. Each transform rewrites the focused subterm by one of these:
  - a registered rule, in either direction;
  - the induction hypothesis;
  - a placeholder (`todo`), which is accepted as it is.
- An **induction** proof checks a base case with the induction variable set to
  `0`. It then checks a step case with the variable set to `(succ x)`, where the
  equation being proved is available as the hypothesis.

## What the model covers

The model covers the checking engine of `main.c`, the numeral constructor of
`ast.c` and the term renderer of `print.c`.

| Module (file) | What it models | Definitions that model the C code |
|---|---|---|
| `Terms` (`terms.dfy`) | Terms as values, with subterm lists kept as linked lists. A focus position is a path of child indices, which stands in for the pointer identity the C code uses. Also covers clearing marks and structural equality. | `Unmark`, `UnmarkList` (`unmark_expr`, `unmark_expr_list`); `Equal`, `EqualList` (`expr_equals`) |
| `Focus` (`focus.dfy`) | Finding the focus: the first marked node in pre-order. Every other mark is cleared along the way. | `FindMarked`, `FindMarkedInList`, `WarnMoreMarked` (`find_marked_expr`, `find_marked_expr_in_list`, `warn_more_marked_exprs`) |
| `Matching` (`matching.dfy`) | One-way pattern matching with linear bindings, specified by pure functions. | `PatternMatch`, `PatternMatchList` (`expr_matches_pattern`, `expr_list_matches_pattern`); `RuleLeft`, `RuleLeftList` (`verify_rule_left`, `verify_rule_left_sexp`); `FindBinding` (`find_binding`) |
| `BindingTable` (`bindings.dfy`) | The checker's fixed-size binding buffer as a class over an array. Its matching methods extend the buffer in place and are proved equal to the pure matcher. | class `Bindings` (`allocate_bindings`, `add_binding`, `find_binding`) |
| `Substitution` (`substitution.dfy`) | Cloning a term while replacing a variable by a term. | `CloneAndReplace`, `CloneListAndReplace` (`clone_expr_and_replace`, `clone_expr_list_and_replace`) |
| `Rewrite` (`rewrite.dfy`) | The lock-step check of one rewrite. | `VerifyRuleRight`, `VerifyRuleRightList` (`verify_rule_right`, `verify_rule_right_sexp`) |
| `Proofs` (`proofs.dfy`) | Transform chains, direct proofs, induction proofs, and their soundness. | `StepAccepted`, `VerifyTransform` (`verify_transform`); `VerifyProofDirect`, `VerifyProofInduction`, `VerifyProof` (`verify_proof_direct`, `verify_proof_induction`, `verify_proof`); `FindRule` (`find_rule`) |
| `Registry` (`registry.dfy`) | The rule table as a class over an array, and checking declarations and whole programs in order. | `CountRules` (`count_rules`); `Declare` (`verify_define`, `verify_theorem`); `VerifyExample` (`verify_example`); `RunProgram` (`verify_program`); class `Rules` (`allocate_rules`, `add_rule`, `find_rule`) |
| `Ast` (`ast.dfy`) | The older `PF_` syntax tree's constructors and the numeral encoding. | `PFExprNum` and the `PF...` constructors |
| `Print` (`print.dfy`) | Rendering terms, identifier lists and definitions as strings. Also a reader for that text, proved inverse to the renderer on unambiguous terms. | `ExprToString` (`_print_expr`, `_print_sexp`, `_print_sexp_inner`), `PrintExpr` (`print_expr`), `IdentListToString` (`_print_ident_list`), `DefineToString` (`print_define`) |

### Soundness of proof checking

The model proves that an accepted proof is sound. Every step the checker
accepts in a chain without placeholders is one application of an equation:

- A **rule step** rewrites an instance of the rule's source side into the same
  instance of its destination side, at one position. Everything else is left
  unchanged, marks aside. The rule is the one named, with its sides swapped when
  the step is reversed.
- A **hypothesis step** rewrites with the equation being proved, taken
  literally.

So an accepted direct proof is an equational derivation from the start term to
the right-hand side. An accepted induction proof gives two such derivations:

- the base case, at `x := 0`, from the rules alone;
- the step case, at `x := (succ x)`, from the rules and the hypothesis.

Placeholder steps justify nothing. They are excluded by the `Complete`
condition.

### Behaviour worth knowing

The model keeps each of these behaviours of the C code:

- **Marks on a declaration.** `verify_define`, `verify_theorem` and
  `verify_example` do not reject a side that carries marks. They print a
  warning, clear every mark and go on (`main.c:445-454`, `main.c:467-476`,
  `main.c:488-497`).
- **Several marks in the middle of a proof.** `find_marked_expr` keeps the
  first mark in pre-order and clears the later ones with a warning. The step
  then goes on (`main.c:103-144`).
- **Bindings on the right side.** The right side of a rewrite is checked with
  `expr_matches_pattern` at the focus. That function binds any parameter not
  yet bound (`main.c:212-217`, `main.c:277`). A parameter that occurs only on
  a rule's right side therefore matches whatever the target holds at the
  focus.
- **Steps without a target.** A step with no target ends the chain with
  success. Any steps after it are never examined (`main.c:375-379`).
- **Induction in examples.** An example is checked with no parameter list
  (`main.c:499`), so an induction proof in an example is always rejected.
- **Parameter lists.** Parameters form a list that may contain repeats, not a
  set. The binding buffer has one entry per list element. It is proved never
  to overflow, because keys are distinct parameters.

## Model

| member | source | states |
|---|---|---|
| Registry.Rules.constructor | main.c:47-51 | `allocate_rules` gives an empty table with room for exactly `capacity` rules. |
| Registry.Rules.Add | main.c:53-61 | `add_rule` appends the rule at the end. The earlier rules are unchanged. |
| Proofs.FindRule | main.c:63-69 | `find_rule` returns nothing exactly when no registered rule has the name. Otherwise it returns the first rule with that name. |
| Proofs.FindRuleAt | main.c:63-69 | The rule at the first index carrying a name is the one found. |
| Registry.Rules.Find | main.c:63-69 | The loop over the array returns the first rule with the name, or nothing. |
| BindingTable.Bindings.constructor | main.c:71-75 | `allocate_bindings` gives an empty buffer of the requested capacity. |
| BindingTable.Bindings.Add | main.c:77-83 | `add_binding` appends one entry. The earlier entries are unchanged. |
| Matching.FindBinding | main.c:85-93 | The lookup finds nothing exactly when the name is not a key. Otherwise it returns the value of the first entry with that key. |
| BindingTable.Bindings.Find | main.c:85-93 | The loop over the buffer returns the first entry for the name, or nothing. |
| BindingTable.NotBound | main.c:85-93 | A name that no entry carries is not found. |
| Focus.WarnMoreMarked | main.c:103-111 | Every element holding a mark is cleared entirely, and nothing else changes. |
| Focus.FindMarkedInList | main.c:113-122 | Returns the first marked path of the list in pre-order, or nothing exactly when no element is marked. That path is the only mark left, and the list is unchanged apart from its marks. |
| Focus.FindMarked | main.c:124-144 | Returns the root when the root is marked, otherwise the first marked node in pre-order. Returns nothing exactly when no node is marked. The returned node is the only marked node left, and the term is unchanged apart from its marks. |
| Terms.Unmark | main.c:146-157 | After `unmark_expr` no node is marked. |
| Terms.NoMarksIffUnmarked | main.c:146-157 | A term has no mark exactly when clearing its marks leaves it unchanged. |
| Terms.UnmarkIdempotent | main.c:146-157 | Clearing marks twice is the same as clearing them once. |
| Terms.UnmarkPath | main.c:146-157 | Clearing marks keeps every position: valid paths, subterms at them, and replacements there. |
| Substitution.CloneIsCopy | main.c:168-187 | With no replacement the clone is an exact copy, marks included. |
| Substitution.CloneListIsCopy | main.c:159-166 | The list version of `CloneIsCopy`. |
| Substitution.CloneIsInstance | main.c:168-187 | Substitution is instantiation with the single binding `param := replacement`. The replacement is inserted as it is, never substituted into. |
| Substitution.CloneListIsInstance | main.c:159-166 | The list version of `CloneIsInstance`. |
| Substitution.CloneWithoutOccurrence | main.c:168-187 | A term in which the variable does not occur is copied unchanged. |
| Substitution.CloneVars | main.c:168-187 | The clone's variables are the original's minus `param`, plus the replacement's variables when `param` occurred. |
| Substitution.CloneByItself | main.c:168-187 | Replacing a variable by itself gives an equal term. |
| Terms.EqualIffSameUnmarked | main.c:189 | `expr_equals` holds exactly when the two terms coincide once marks are cleared. So tags, names and list lengths must agree, and marks are ignored. |
| Terms.EqualReflexive | main.c:189 | Equality is reflexive. |
| Terms.EqualSymmetric | main.c:189 | Equality is symmetric. |
| Terms.EqualTransitive | main.c:189 | Equality is transitive. |
| Terms.EqualToUnmarked | main.c:189 | A term equals its unmarked copy in both directions. |
| Terms.EqualAtPath | main.c:189 | Equal terms have the same positions and equal subterms there, and stay equal after the same replacement. |
| Matching.EqualIsMatchWithoutParams | main.c:189 | Matching with no parameters and no bindings succeeds exactly on equal terms and binds nothing. |
| Matching.EqualListIsMatchWithoutParams | main.c:189-201 | The list version of `EqualIsMatchWithoutParams`. |
| Matching.PatternMatchList | main.c:191-201 | Element-wise matching only appends bindings for parameters, and keeps keys distinct. On success every parameter of the pattern list is bound. |
| Matching.PatternMatch | main.c:203-228 | Matching only appends bindings for parameters, and keeps keys distinct. On success every parameter occurring in the pattern is bound. |
| Matching.Bind | main.c:212-217 | Binding an unbound parameter appends exactly that key, and keeps keys distinct. |
| Matching.MatchSound | main.c:203-228 | A successful match is a witness: the pattern under the resulting bindings equals the term. |
| Matching.MatchListSound | main.c:191-201 | The list version of `MatchSound`. |
| Matching.MatchCompleteFrom | main.c:203-228 | An instance of the pattern matches it. This holds from any buffer whose bindings agree, up to equality, with the instantiating bindings, and the bindings the match leaves still agree with them. |
| Matching.MatchListCompleteFrom | main.c:191-201 | The list version of `MatchCompleteFrom`: a list that is an instance of the pattern list matches it element by element. |
| Matching.MatchIffInstance | main.c:203-228 | From an empty buffer, a term matches a pattern exactly when some binding of the parameters makes the pattern equal to the term. On success the bindings the match built are such a binding. |
| Matching.InstantiateStable | main.c:203-228 | Bindings added later never change the instance of a pattern whose parameters are already bound. |
| Matching.RuleLeftList | main.c:230-237 | `verify_rule_left_sexp` only appends bindings for parameters, and keeps keys distinct. |
| Matching.RuleLeft | main.c:239-261 | `verify_rule_left` only appends bindings for parameters, and keeps keys distinct. |
| Matching.RuleLeftIsPatternMatch | main.c:203-261 | `verify_rule_left` and `expr_matches_pattern` agree on every input whose bindings are parameters, in both verdict and bindings. |
| Matching.RuleLeftListIsPatternMatchList | main.c:191-201 | The list version of `RuleLeftIsPatternMatch`. |
| Matching.BindingsFit | main.c:312-313 | Distinct keys drawn from the parameters never outnumber the parameters, so a buffer sized by `ident_list_count` cannot overflow. |
| BindingTable.Bindings.Bind | main.c:212-217 | Appending a fresh parameter keeps the buffer within its capacity. |
| BindingTable.Bindings.MatchPattern | main.c:203-228 | Matching in place gives the verdict and the bindings of `PatternMatch`. |
| BindingTable.Bindings.MatchList | main.c:191-201 | Matching in place gives the verdict and the bindings of `PatternMatchList`. |
| BindingTable.Bindings.RuleLeft | main.c:239-261 | Matching in place gives the verdict and the bindings of `RuleLeft`. |
| BindingTable.Bindings.RuleLeftList | main.c:230-237 | Matching in place gives the verdict and the bindings of `RuleLeftList`. |
| Rewrite.VerifyRuleRightListElementwise | main.c:263-273 | The list check holds exactly when the lengths agree and each element passes against the element at the same index. |
| Rewrite.EqualListElementwise | main.c:191-201 | List equality holds exactly when the lengths agree and the elements are equal index by index. |
| Rewrite.UnfocusedIsEqual | main.c:275-289 | Away from the focus, the rewrite check is plain equality. |
| Rewrite.PassedListIsEqual | main.c:263-273 | Once the walk along a list has passed the focus, the rest of the list is checked by plain equality, whatever the bindings. |
| Rewrite.RewriteCheckIff | main.c:263-289 | The rewrite check accepts exactly when three things hold: the target has the focus position, the target differs from the term only there, and the target's subterm there matches the rule's other side. |
| Proofs.FocusOf | main.c:303-304 | The focus is a valid position of the term, which equals the original apart from marks. |
| Proofs.CheckRight | main.c:275-289 | The walk over the checker's binding buffer gives the verdict of `VerifyRuleRight` under the buffer's bindings at the start. The buffer keeps its old bindings, gains only parameter bindings and keeps its room. It is untouched when there is no focus or the focus path is not a position of the term walked, since the walk then never reaches it. On success at a valid focus, the target has that position too, and the buffer holds exactly the bindings of matching the other side against the target's subterm there. |
| Proofs.CheckRightList | main.c:263-273 | The list walk over the buffer gives the verdict of `VerifyRuleRightList`. The buffer keeps its old bindings, and it is left as it was when the focus does not lie under one of the list's elements (no focus, a focus already behind or beyond the list, or a path invalid in its element). On success with the focus under an element, the target list has that element and position, and the buffer holds exactly the bindings of the match there. |
| Proofs.CheckRuleStep | main.c:302-343 | The rule case run with a fresh binding buffer of one entry per parameter gives the verdict of the pure definition. The left side is matched into the buffer and the right side is checked against the same buffer in place. An accepted step is a rewrite by the rule, with sides swapped when reversed. |
| Proofs.RuleApplicationSound | main.c:318-340 | A matched left side plus an accepted right check is one application of the rule's equation at the focus. |
| Proofs.HypothesisApplicationSound | main.c:345-370 | An accepted appeal to the hypothesis is one application of the equation being proved, taken literally. |
| Proofs.RewritesEqual | main.c:303-304 | A rewrite of a term is a rewrite of every term equal to it, so clearing extra marks loses nothing. |
| Proofs.TransferRewrite | main.c:303-304 | A rewrite found on the term with its extra marks cleared is a rewrite of the term itself. |
| Proofs.StepSound | main.c:301-372 | Every accepted rule step or hypothesis step is justified by a single equational rewrite to its target, or to the right-hand side when no target is given. |
| Proofs.TransformSound | main.c:291-380 | An accepted chain without placeholders is an equational derivation ending in a term equal to the right-hand side. |
| Proofs.HypothesisOnlyInStep | main.c:345-349 | With no induction hypothesis in scope, any chain that reaches an induction step is rejected. |
| Proofs.DirectSound | main.c:382-397 | An accepted direct proof starts from a term equal to the left-hand side and derives the right-hand side. |
| Proofs.InductionSound | main.c:399-427 | An accepted induction proof has three properties. The variable is a declared parameter. The base case starts from a term equal to the left side at `x := 0` and derives the right side there without the hypothesis. The step case starts from a term equal to the left side at `x := (succ x)` and derives the right side there with the hypothesis. |
| Registry.Cleared | main.c:445-454 | A declaration side as kept after the mark warning is exactly its unmarked copy. |
| Registry.Declare | main.c:439-485 | A definition or theorem is accepted exactly when its name is unused and, for a theorem, its proof checks against the rules so far. It then appends exactly its rule, and names stay unique. |
| Registry.Rules.VerifyDeclaration | main.c:439-485 | The in-place check gives the verdict of `Declare`. The table grows by `Declare`'s rule on success and is unchanged on failure. |
| Registry.VerifyExample | main.c:487-500 | An example by induction is always rejected. An example by direct proof is checked on its unmarked sides without a hypothesis. |
| Registry.RunProgram | main.c:517-533 | Earlier rules are kept. At most `count_rules` rules are added, and exactly that many when the program checks. Names stay unique. |
| Registry.Check | main.c:439-500 | One declaration checked against the rules so far. An example passes exactly when its proof verifies, and it registers nothing. A definition or theorem passes exactly as `Declare` says. |
| Registry.RunSeqVerdict | main.c:517-533 | Checking declarations in order with any per-declaration check has two outcomes. The run is accepted exactly when every declaration passes against the rules registered before it, and it then holds all their rules. Otherwise it stops at the first declaration that fails, holding the rules registered before that one. |
| Registry.RunProgramIsRunSeq | main.c:517-533 | `verify_program` is the in-order run with the checker's own per-declaration check. |
| Registry.RunProgramVerdict | main.c:517-533 | The declarations are checked in order. A run is accepted exactly when every declaration passes against the rules registered before it, and it then holds all their rules. Otherwise it stops at the first declaration that fails, holding the rules registered before that one. |
| Registry.AcceptedExamplesVerify | main.c:527-529 | In an accepted program, every example's proof checks against the rules declared before it. |
| Registry.RegisteredAreAdmitted | main.c:502-533 | Every rule a run registers comes from a definition or theorem of the program. For a theorem, its proof checked against exactly the rules registered before it. Examples never register anything. |
| Registry.Rules.VerifyProgram | main.c:517-533 | The in-place run gives the verdict and the table of `RunProgram`, given room for `count_rules` more rules. |
| Registry.CheckProgram | main.c:554-557 | A table sized by `count_rules` is always large enough, and the verdict is that of the run from an empty table. |
| Ast.PFIdentList | ast.c:11-16 | `PF_ident_list` prepends the identifier to the list, leaving the list unchanged behind it. |
| Ast.PFExprNum | ast.c:34-45 | `PF_expr_num(0)` is the zero node. For n > 0 it is a compound of exactly two elements, the variable `succ` and `PF_expr_num(n - 1)`. |
| Ast.NumRoundTrip | ast.c:34-45 | Counting the `succ` wrappers of the numeral `n` gives back `n`. |
| Ast.NumValueExact | ast.c:34-45 | A term counts as `n` exactly when it is the numeral `n`. |
| Ast.NumInjective | ast.c:34-45 | Distinct numbers give distinct numerals. |
| Ast.NumeralEncoding | ast.c:34-45 | The numeral is `n` nested `(succ ...)` compounds around zero, the encoding the checker uses for `(succ x)` in induction. |
| Ast.PFExprVar | ast.c:47-52 | `PF_expr_var(v)` is a variable carrying exactly the name `v`. |
| Ast.PFExprSexp | ast.c:54-59 | `PF_expr_sexp(l)` is the compound of the elements of `l`. |
| Ast.PFExprList | ast.c:61-66 | `PF_expr_list` prepends the term, and the old list follows unchanged. |
| Print.IdentListRoundTrip | print.c:11-16 | Identifiers rendered one space apart split back into the same list. |
| Print.IdentListAvoids | print.c:11-16 | A character other than a space appears in the rendered list only if it appears in an identifier. |
| Print.InnerSpacing | print.c:18-23 | A rendered element list is non-empty, with no leading or trailing space. |
| Print.ListRoundTrip | print.c:18-23 | Elements rendered one space apart read back as the same list. |
| Print.GroupRoundTrip | print.c:25-29 | A compound rendered in parentheses, or in brackets when marked, reads back as the same compound. |
| Print.RenderedEnds | print.c:31-45 | A rendered term is non-empty, does not start or end with a space, and does not start with `<`. |
| Print.AtomRoundTrip | print.c:31-45 | An unmarked `0` or variable reads back as itself. |
| Print.MarkedAtomRoundTrip | print.c:31-45 | `[0]` and `[name]` read back as the marked zero or variable. |
| Print.RoundTrip | print.c:25-45 | For a `Printable` term (names without spaces, brackets, `<`, `>` or newlines, and no marked compound around a lone atom), reading its rendering, followed by any text that starts with a delimiter, gives back the term and the rest of the text. |
| Print.MarksRendered | print.c:31-45 | The rendering holds one `[` per marked node. |
| Print.AmbiguousRenderings | print.c:31-45 | Rendering is not injective. A marked variable prints like a marked one-element compound, and `0` prints like a variable named `0`. These are the cases the round trip excludes. |
| Print.ParamsRoundTrip | print.c:104-106 | The parameter list is wrapped in `<...> ` exactly when it is non-empty, and reads back as the same list. |
| Print.EquationRoundTrip | print.c:107-109 | `lhs = rhs` followed by a newline reads back as the two sides. |
| Print.DefineRoundTrip | print.c:102-110 | For `Printable` sides, a rule name without spaces and parameters without spaces or `>`, the text `print_define` produces reads back as the same name, parameters and sides. |

## Left out

- `main` (`main.c:535-564`) is not modelled: the argument check, the call to the parser, and the exit status. The parser is not part of this model. `Registry.CheckProgram` starts from the parsed program.
- All diagnostics (`printf`, `print_expr` inside the checker, `debug_bindings`) are not modelled. They do not affect any verdict.
- `malloc`/`free` and allocation failure are not modelled. Terms are values, and the two tables are Dafny arrays.
- `ident_list_contains`, `ident_list_count`, `new_expr_*` and `strdup` live in headers that are not part of this model. They are modelled as sequence membership, sequence length and datatype constructors. `strcmp` is string equality.
- Focus.FindMarked: marks are not cleared in place. The cleared tree is returned as a new value, so aliasing and the mutation of the caller's term are not captured. Each term whose marks are cleared is used afterwards only through that same pointer, so no verdict depends on the in-place update.
- Focus.WarnMoreMarked: the same as `FindMarked`. The list is returned cleared instead of being updated in place.
- Terms.Unmark: `unmark_expr` updates flags in place. Here it returns the unmarked copy.
- The C rewrite check locates the focus by pointer identity (`expr == marked`). The model uses the focus path. The two agree because the checker's terms are trees with no shared nodes.
- Ast.PFExprNum: takes a natural number. For a negative `int` the C recursion never reaches `0` and does not terminate, which is not modelled.
- `PF_program`, `PF_axiom` and `PF_axiom_list` (`ast.c:5-32`) are not modelled. They only fill in fields.
- The header `ast.h` and the files `ast_printer.c`/`ast_printer.h` are not modelled.
- The `PF_` list node is modelled with a field named `expr`, as `ast.c:63` assigns it.
- `_print_expr` prints `null expr` for a null pointer and then dereferences it (`print.c:32`). Terms here are never null, so that branch is not modelled.
- `print_transform`, `print_proof*`, `print_theorem`, `print_example`, `print_toplevel` and `print_program` are not modelled. They are debug dumps of proof structure.
- Print.RoundTrip: the round trip is proved only for terms whose rendering is unambiguous (`Printable`). Names must be non-empty, contain no space, bracket, angle bracket or newline, and differ from `0`. A marked compound must not consist of a single unmarked `0` or variable, because `[(x)]` and `[x]` would both print as `[x]`. The C printer places no restriction on names. `Print.AmbiguousRenderings` shows why the excluded cases cannot round-trip.
- Print.DefineRoundTrip: additionally requires that the rule name contains no space and that parameters contain no space or `>`.
- Proofs.TransformSound: soundness is stated for chains without placeholders. A `todo` step is accepted unconditionally and justifies nothing. Completeness of the checker (every derivation is accepted) is not stated.
- Integer widths (`size_t` counts) are unbounded here. Overflow would need more than 2^64 declarations.
