/**
 * Checking a whole program: definitions and theorems are registered as rules
 * in declaration order, so a proof may use every rule declared before it.
 * The rule table is a fixed array sized by counting the definitions and
 * theorems of the program up front.
 */
module Registry {
  import opened Wrappers
  import opened Terms
  import opened Focus
  import opened Proofs

  datatype TopLevel =
    | Define(name: Ident, params: seq<Ident>, lhs: Expr, rhs: Expr)
    | Theorem(name: Ident, params: seq<Ident>, lhs: Expr, rhs: Expr, proof: Proof)
    | Example(lhs: Expr, rhs: Expr, proof: Proof)

  /** A program is a linked list of top-level declarations; `End` is the null pointer. */
  datatype Program = End | Decl(toplevel: TopLevel, rest: Program)

  /** The declarations of a program, in order. */
  function Decls(p: Program): seq<TopLevel> {
    match p
    case End => []
    case Decl(d, rest) => [d] + Decls(rest)
  }

  /** `count_rules`: the number of definitions and theorems. */
  function CountRules(p: Program): nat {
    match p
    case End => 0
    case Decl(d, rest) => (if d.Example? then 0 else 1) + CountRules(rest)
  }

  /**
   * A side of a declaration as the checker keeps it: when it carries a mark,
   * the checker warns and clears every mark.
   */
  function Cleared(e: Expr): (r: Expr)
    ensures r == Unmark(e)
  {
    var f := FindMarked(e);
    if f.focus.Some? then
      Unmark(f.expr)
    else
      NoMarksIffUnmarked(e);
      e
  }

  /** No two rules share a name. */
  predicate UniqueNames(rules: seq<Rule>) {
    forall i, j :: 0 <= i < j < |rules| ==> rules[i].name != rules[j].name
  }

  /** The rule a definition or theorem registers. */
  function RuleOf(name: Ident, params: seq<Ident>, lhs: Expr, rhs: Expr): Rule {
    Rule(name, params, Cleared(lhs), Cleared(rhs))
  }

  /**
   * `verify_define` and `verify_theorem`: a name already in use is an error;
   * a theorem's proof must verify against the rules registered so far; then
   * the rule is appended.
   */
  function Declare(d: TopLevel, rules: seq<Rule>): (r: Option<seq<Rule>>)
    requires !d.Example?
    ensures r.Some? <==> FindRule(d.name, rules).None? &&
                         (d.Theorem? ==> VerifyProof(d.proof, d.params, Cleared(d.lhs), Cleared(d.rhs), rules))
    ensures r.Some? ==> r.value == rules + [RuleOf(d.name, d.params, d.lhs, d.rhs)]
    ensures r.Some? && UniqueNames(rules) ==> UniqueNames(r.value)
  {
    var rule := RuleOf(d.name, d.params, d.lhs, d.rhs);
    if FindRule(d.name, rules).Some? then None
    else if d.Theorem? && !VerifyProof(d.proof, d.params, rule.lhs, rule.rhs, rules) then None
    else Some(rules + [rule])
  }

  /**
   * `verify_example`: the proof is checked against the registered rules and
   * nothing is registered. An example has no parameters, so it cannot be
   * proved by induction.
   */
  function VerifyExample(lhs: Expr, rhs: Expr, proof: Proof, rules: seq<Rule>): (r: bool)
    ensures proof.InductionProof? ==> !r
    ensures proof.DirectProof? ==> r == VerifyProofDirect(proof.direct, Unmark(lhs), Unmark(rhs), rules, None)
  {
    VerifyProof(proof, [], Cleared(lhs), Cleared(rhs), rules)
  }

  /** Outcome of checking a program: the verdict and the rules registered by then. */
  datatype Outcome = Outcome(ok: bool, rules: seq<Rule>)

  /**
   * `verify_program`: the declarations in order, stopping at the first that
   * fails. The rules registered are kept, extended by exactly one rule per
   * definition and theorem when the whole program checks.
   */
  function RunProgram(p: Program, rules: seq<Rule>): (r: Outcome)
    ensures |rules| <= |r.rules| <= |rules| + CountRules(p) && r.rules[..|rules|] == rules
    ensures r.ok ==> |r.rules| == |rules| + CountRules(p)
    ensures UniqueNames(rules) ==> UniqueNames(r.rules)
    decreases p
  {
    match p
    case End => Outcome(true, rules)
    case Decl(d, rest) =>
      if d.Example? then
        if VerifyExample(d.lhs, d.rhs, d.proof, rules) then RunProgram(rest, rules) else Outcome(false, rules)
      else
        var next := Declare(d, rules);
        if next.None? then Outcome(false, rules)
        else
          var r := RunProgram(rest, next.value);
          assert r.rules[..|rules|] == r.rules[..|next.value|][..|rules|];
          r
  }

  // ---------------------------------------------------------------- checking in order

  /** A check of one declaration against the rules so far: the rules afterwards, or `None` when it fails. */
  type Checker = (TopLevel, seq<Rule>) -> Option<seq<Rule>>

  /**
   * The checker's own check of one declaration: an example must verify and
   * registers nothing; a definition or theorem is declared.
   */
  function Check(d: TopLevel, rules: seq<Rule>): (r: Option<seq<Rule>>)
    ensures d.Example? ==> (r.Some? <==> VerifyExample(d.lhs, d.rhs, d.proof, rules)) && (r.Some? ==> r.value == rules)
    ensures !d.Example? ==> r == Declare(d, rules)
  {
    if d.Example? then (if VerifyExample(d.lhs, d.rhs, d.proof, rules) then Some(rules) else None)
    else Declare(d, rules)
  }

  /** Checking `ds` in order with `check`, stopping at the first failure. */
  function RunSeq(ds: seq<TopLevel>, rules: seq<Rule>, check: Checker): Outcome
    decreases |ds|
  {
    if ds == [] then Outcome(true, rules)
    else
      var next := check(ds[0], rules);
      if next.None? then Outcome(false, rules) else RunSeq(ds[1..], next.value, check)
  }

  /** The rules registered once all of `ds` have passed `check`. */
  function RulesAfter(ds: seq<TopLevel>, rules: seq<Rule>, check: Checker): seq<Rule>
    decreases |ds|
  {
    if ds == [] then rules else RulesAfter(ds[1..], check(ds[0], rules).GetOr(rules), check)
  }

  /** The `k`-th declaration passes `check` against the rules its predecessors registered. */
  predicate PassesAt(ds: seq<TopLevel>, rules: seq<Rule>, check: Checker, k: nat)
    requires k < |ds|
  {
    check(ds[k], RulesAfter(ds[..k], rules, check)).Some?
  }

  predicate AllPass(ds: seq<TopLevel>, rules: seq<Rule>, check: Checker) {
    forall k: nat | k < |ds| :: PassesAt(ds, rules, check, k)
  }

  /** The `k`-th declaration is the first to fail. */
  predicate FirstFailure(ds: seq<TopLevel>, rules: seq<Rule>, check: Checker, k: nat) {
    k < |ds| && (forall j: nat | j < k :: PassesAt(ds, rules, check, j)) && !PassesAt(ds, rules, check, k)
  }

  lemma ShiftPasses(d: TopLevel, ds: seq<TopLevel>, rules: seq<Rule>, check: Checker, k: nat)
    requires k < |ds| && check(d, rules).Some?
    ensures PassesAt([d] + ds, rules, check, k + 1) == PassesAt(ds, check(d, rules).value, check, k)
    ensures RulesAfter(([d] + ds)[..k + 1], rules, check) == RulesAfter(ds[..k], check(d, rules).value, check)
  {
    assert ([d] + ds)[..k + 1] == [d] + ds[..k];
    assert ([d] + ds[..k])[1..] == ds[..k];
    assert ([d] + ds)[k + 1] == ds[k];
  }

  /** If `d` passes and the first `n` of `ds` pass after it, the first `n + 1` of `[d] + ds` pass. */
  lemma PrefixPasses(d: TopLevel, ds: seq<TopLevel>, rules: seq<Rule>, check: Checker, n: nat)
    requires n <= |ds| && check(d, rules).Some?
    requires forall j: nat | j < n :: PassesAt(ds, check(d, rules).value, check, j)
    ensures forall j: nat | j < n + 1 :: PassesAt([d] + ds, rules, check, j)
  {
    forall j: nat | j < n + 1 ensures PassesAt([d] + ds, rules, check, j) {
      if j == 0 {
        assert ([d] + ds)[..0] == [] && ([d] + ds)[0] == d;
      } else {
        var i := j - 1;
        assert PassesAt(ds, check(d, rules).value, check, i);
        ShiftPasses(d, ds, rules, check, i);
      }
    }
  }

  /**
   * Checking in order: a run is accepted exactly when every declaration passes
   * against the rules registered before it, and then holds all their rules;
   * otherwise it stops at the first declaration that fails, holding the rules
   * registered before that one.
   */
  lemma {:induction false} RunSeqVerdict(ds: seq<TopLevel>, rules: seq<Rule>, check: Checker)
    ensures RunSeq(ds, rules, check).ok <==> AllPass(ds, rules, check)
    ensures RunSeq(ds, rules, check).ok ==> RunSeq(ds, rules, check).rules == RulesAfter(ds, rules, check)
    ensures !RunSeq(ds, rules, check).ok ==>
              exists k: nat :: FirstFailure(ds, rules, check, k) &&
                               RunSeq(ds, rules, check).rules == RulesAfter(ds[..k], rules, check)
    decreases |ds|
  {
    if ds != [] {
      var d, tail := ds[0], ds[1..];
      assert ds == [d] + tail;
      assert ds[..0] == [];
      if check(d, rules).None? {
        assert FirstFailure(ds, rules, check, 0);
      } else {
        var next := check(d, rules).value;
        RunSeqVerdict(tail, next, check);
        if AllPass(tail, next, check) {
          PrefixPasses(d, tail, rules, check, |tail|);
        }
        if AllPass(ds, rules, check) {
          forall k: nat | k < |tail| ensures PassesAt(tail, next, check, k) {
            assert PassesAt(ds, rules, check, k + 1);
            ShiftPasses(d, tail, rules, check, k);
          }
        }
        if !RunSeq(tail, next, check).ok {
          var k: nat :| FirstFailure(tail, next, check, k) && RunSeq(tail, next, check).rules == RulesAfter(tail[..k], next, check);
          PrefixPasses(d, tail, rules, check, k);
          ShiftPasses(d, tail, rules, check, k);
          assert FirstFailure(ds, rules, check, k + 1);
        }
      }
    }
  }

  /** `verify_program` is checking the declarations in order with `Check`. */
  lemma {:induction false} RunProgramIsRunSeq(p: Program, rules: seq<Rule>)
    ensures RunProgram(p, rules) == RunSeq(Decls(p), rules, Check)
    decreases p
  {
    if p.Decl? {
      var ds := Decls(p);
      assert ds[0] == p.toplevel && ds[1..] == Decls(p.rest);
      var next := Check(p.toplevel, rules);
      if next.Some? {
        RunProgramIsRunSeq(p.rest, next.value);
      }
    }
  }

  /** The rules registered after the declarations `ds`, in order. */
  function RulesBefore(ds: seq<TopLevel>, rules: seq<Rule>): seq<Rule> {
    RulesAfter(ds, rules, Check)
  }

  /**
   * `verify_program` checks the declarations in order: a run is accepted
   * exactly when every declaration passes `Check` against the rules registered
   * before it, and then holds all their rules; otherwise it stops at the first
   * declaration that fails, holding the rules registered before that one.
   */
  lemma RunProgramVerdict(p: Program, rules: seq<Rule>)
    ensures RunProgram(p, rules).ok <==> AllPass(Decls(p), rules, Check)
    ensures RunProgram(p, rules).ok ==> RunProgram(p, rules).rules == RulesBefore(Decls(p), rules)
    ensures !RunProgram(p, rules).ok ==>
              exists k: nat :: FirstFailure(Decls(p), rules, Check, k) &&
                               RunProgram(p, rules).rules == RulesBefore(Decls(p)[..k], rules)
  {
    RunProgramIsRunSeq(p, rules);
    RunSeqVerdict(Decls(p), rules, Check);
  }

  /** In an accepted program every example's proof checks against the rules declared before it. */
  lemma AcceptedExamplesVerify(p: Program, rules: seq<Rule>, k: nat)
    requires RunProgram(p, rules).ok && k < |Decls(p)| && Decls(p)[k].Example?
    ensures var d := Decls(p)[k];
            VerifyExample(d.lhs, d.rhs, d.proof, RulesBefore(Decls(p)[..k], rules))
  {
    RunProgramVerdict(p, rules);
    assert PassesAt(Decls(p), rules, Check, k);
  }

  /**
   * `d` admits `rule` after the rules `before`: it is a definition of that
   * rule, or a theorem of it whose proof verifies against `before`.
   */
  predicate Admits(d: TopLevel, rule: Rule, before: seq<Rule>) {
    match d
    case Define(n, ps, l, r) => rule == RuleOf(n, ps, l, r)
    case Theorem(n, ps, l, r, proof) =>
      rule == RuleOf(n, ps, l, r) && VerifyProof(proof, ps, rule.lhs, rule.rhs, before)
    case Example(_, _, _) => false
  }

  /** The `k`-th rule of `out` is admitted by a declaration of `p` after the rules before it. */
  ghost predicate AdmittedAt(p: Program, out: seq<Rule>, k: nat)
    requires k < |out|
  {
    exists d | d in Decls(p) :: Admits(d, out[k], out[..k])
  }

  /** Every rule of `out` from index `from` on is admitted by the program. */
  ghost predicate AllAdmitted(p: Program, from: nat, out: seq<Rule>) {
    forall k: nat | from <= k < |out| :: AdmittedAt(p, out, k)
  }

  lemma AdmittedByRest(head: TopLevel, rest: Program, from: nat, out: seq<Rule>)
    requires AllAdmitted(rest, from, out)
    ensures AllAdmitted(Decl(head, rest), from, out)
  {
    forall k: nat | from <= k < |out| ensures AdmittedAt(Decl(head, rest), out, k) {
      assert AdmittedAt(rest, out, k);
      var d :| d in Decls(rest) && Admits(d, out[k], out[..k]);
      assert d in Decls(Decl(head, rest));
    }
  }

  lemma AdmittedByHead(d: TopLevel, rest: Program, rules: seq<Rule>, out: seq<Rule>)
    requires !d.Example? && Declare(d, rules).Some?
    requires |rules| < |out| && out[..|rules| + 1] == Declare(d, rules).value
    requires AllAdmitted(rest, |rules| + 1, out)
    ensures AllAdmitted(Decl(d, rest), |rules|, out)
  {
    AdmittedByRest(d, rest, |rules| + 1, out);
    var k := |rules|;
    assert out[k] == out[..|rules| + 1][k];
    assert out[..k] == out[..|rules| + 1][..k];
    assert Admits(d, out[k], out[..k]);
    assert d in Decls(Decl(d, rest));
    assert AdmittedAt(Decl(d, rest), out, k);
  }

  /** Every rule a run registers comes from a declaration of the program that admits it at that point. */
  lemma {:induction false} RegisteredAreAdmitted(p: Program, rules: seq<Rule>)
    ensures AllAdmitted(p, |rules|, RunProgram(p, rules).rules)
    decreases p
  {
    if p.Decl? {
      var d := p.toplevel;
      var next := Check(d, rules);
      if next.None? {
        assert RunProgram(p, rules).rules == rules;
      } else {
        RegisteredAreAdmitted(p.rest, next.value);
        AdmittedAfterStep(p, rules);
      }
    }
  }

  /** One step of the run: what the rest registers is admitted, and so is the rule the first declaration adds. */
  lemma AdmittedAfterStep(p: Program, rules: seq<Rule>)
    requires p.Decl? && Check(p.toplevel, rules).Some?
    requires AllAdmitted(p.rest, |Check(p.toplevel, rules).value|, RunProgram(p.rest, Check(p.toplevel, rules).value).rules)
    ensures AllAdmitted(p, |rules|, RunProgram(p, rules).rules)
  {
    var d := p.toplevel;
    var next := Check(d, rules).value;
    var out := RunProgram(p.rest, next).rules;
    assert RunProgram(p, rules).rules == out;
    if d.Example? {
      AdmittedByRest(d, p.rest, |rules|, out);
    } else {
      assert out[..|rules| + 1] == next;
      AdmittedByHead(d, p.rest, rules, out);
    }
  }

  /** The rule table (`Rules`): a fixed array of rules with a count of those in use. */
  class Rules {
    var rules: array<Rule>
    var count: nat

    ghost predicate Valid()
      reads this
    {
      count <= rules.Length
    }

    /** The registered rules, oldest first. */
    function Contents(): seq<Rule>
      reads this, rules
      requires Valid()
    {
      rules[..count]
    }

    /** `allocate_rules`: an empty table with room for `capacity` rules. */
    constructor (capacity: nat)
      ensures Valid() && fresh(rules)
      ensures rules.Length == capacity && Contents() == []
    {
      rules := new Rule[capacity];
      count := 0;
    }

    /** `add_rule`: append a rule in place. */
    method Add(rule: Rule)
      requires Valid() && count < rules.Length
      modifies this, rules
      ensures Valid() && rules == old(rules)
      ensures Contents() == old(Contents()) + [rule]
    {
      rules[count] := rule;
      count := count + 1;
    }

    /** `find_rule`: the first registered rule with the given name. */
    method Find(name: Ident) returns (r: Option<Rule>)
      requires Valid()
      ensures r == FindRule(name, Contents())
    {
      for i := 0 to count
        invariant forall j :: 0 <= j < i ==> rules[j].name != name
      {
        if rules[i].name == name {
          FindRuleAt(name, Contents(), i);
          return Some(rules[i]);
        }
      }
      assert forall j :: 0 <= j < |Contents()| ==> Contents()[j].name != name;
      return None;
    }

    /** `verify_define` and `verify_theorem`, registering the rule in place. */
    method VerifyDeclaration(d: TopLevel) returns (ok: bool)
      requires Valid() && count < rules.Length && !d.Example?
      modifies this, rules
      ensures Valid() && rules == old(rules)
      ensures ok == Declare(d, old(Contents())).Some?
      ensures Contents() == Declare(d, old(Contents())).GetOr(old(Contents()))
    {
      var existing := Find(d.name);
      if existing.Some? {
        return false;
      }
      var rule := RuleOf(d.name, d.params, d.lhs, d.rhs);
      if d.Theorem? && !VerifyProof(d.proof, d.params, rule.lhs, rule.rhs, Contents()) {
        return false;
      }
      Add(rule);
      ok := true;
    }

    /** `verify_program`, registering rules in place. */
    method VerifyProgram(p: Program) returns (ok: bool)
      requires Valid() && count + CountRules(p) <= rules.Length
      modifies this, rules
      ensures Valid() && rules == old(rules)
      ensures ok == RunProgram(p, old(Contents())).ok
      ensures Contents() == RunProgram(p, old(Contents())).rules
      decreases p
    {
      if p.End? {
        return true;
      }
      var d := p.toplevel;
      if d.Example? {
        ok := VerifyExample(d.lhs, d.rhs, d.proof, Contents());
        if !ok {
          return false;
        }
      } else {
        ok := VerifyDeclaration(d);
        if !ok {
          return false;
        }
      }
      ok := VerifyProgram(p.rest);
    }
  }

  /**
   * The checker's entry point after parsing: a rule table sized by
   * `count_rules` is always large enough, and the verdict is that of the
   * run from no rules.
   */
  method CheckProgram(p: Program) returns (ok: bool)
    ensures ok == RunProgram(p, []).ok
  {
    var table := new Rules(CountRules(p));
    ok := table.VerifyProgram(p);
  }
}
