/** Benchmark policies: the all/any/none combinator over a check's rules and the run over all
    checks of a policy. */
module Benchmark {
  import opened Text
  import opened RuleSyntax
  import opened RuleMeaning
  import RuleEvaluator
  import RuleRoundTrip

  datatype Quantifier = All | Any | NoneOf

  datatype Check = Check(id: int, title: string, remediation: string, condition: string, rules: seq<string>)

  datatype Outcome = Passed | Failed | NotApplicable

  datatype CheckResult = CheckResult(
    policyId: string, checkId: int, title: string, remediation: string, outcome: Outcome, why: Option<Reason>)

  function ReadCondition(condition: string): Option<Quantifier> {
    var word := Lower(TrimSpace(condition));
    if word == "" || word == "all" then Some(All)
    else if word == "any" then Some(Any)
    else if word == "none" then Some(NoneOf)
    else None
  }

  // ---------------------------------------------------------------- what a condition means

  function Verdicts(h: Host, rules: seq<string>): (vs: seq<Verdict>)
    ensures |vs| == |rules| && forall i :: 0 <= i < |rules| ==> vs[i] == RuleVerdict(h, rules[i])
  {
    seq(|rules|, i requires 0 <= i < |rules| => RuleVerdict(h, rules[i]))
  }

  predicate Errs(vs: seq<Verdict>) { exists i :: 0 <= i < |vs| && vs[i].Err? }

  function FirstError(vs: seq<Verdict>): Reason
    requires Errs(vs)
  {
    if vs[0].Err? then vs[0].reason
    else
      assert Errs(vs[1..]) by {
        var i :| 0 <= i < |vs| && vs[i].Err?;
        assert vs[1..][i - 1].Err?;
      }
      FirstError(vs[1..])
  }

  predicate Satisfied(q: Quantifier, vs: seq<Verdict>) {
    match q
    case All => forall i :: 0 <= i < |vs| ==> vs[i] == Yes
    case Any => exists i :: 0 <= i < |vs| && vs[i] == Yes
    case NoneOf => forall i :: 0 <= i < |vs| ==> vs[i] != Yes
  }

  function Combined(condition: string, vs: seq<Verdict>): Verdict {
    if vs == [] then Err(NoRules)
    else if Errs(vs) then Err(FirstError(vs))
    else
      match ReadCondition(condition)
      case None => Err(UnknownCondition(condition))
      case Some(q) => Truth(Satisfied(q, vs))
  }

  function ConditionMeaning(h: Host, condition: string, rules: seq<string>): Verdict {
    Combined(condition, Verdicts(h, rules))
  }

  // ---------------------------------------------------------------- the loops

  method EvalNth(h: Host, rules: seq<string>, k: nat) returns (v: Verdict)
    requires k < |rules|
    ensures v == Verdicts(h, rules)[k]
  {
    v := RuleEvaluator.EvalRule(h, rules[k]);
  }

  /** Evaluates rules in order and stops at the first error. */
  method EvalRules(h: Host, rules: seq<string>) returns (results: seq<Verdict>, err: Option<Reason>)
    ensures err.None? ==> results == Verdicts(h, rules) && !Errs(results)
    ensures err.Some? ==> Errs(Verdicts(h, rules)) && err.value == FirstError(Verdicts(h, rules))
  {
    ghost var all := Verdicts(h, rules);
    results, err := [], None;
    for k := 0 to |rules|
      invariant results == all[..k] && !Errs(all[..k])
    {
      var v := EvalNth(h, rules, k);
      if v.Err? {
        FirstErrorAt(all, k);
        err := Some(v.reason);
        return;
      }
      ExtendPrefix(all, k);
      results := results + [v];
    }
    assert all[..|rules|] == all;
  }

  lemma ExtendPrefix(vs: seq<Verdict>, k: nat)
    requires k < |vs| && !Errs(vs[..k]) && !vs[k].Err?
    ensures vs[..k + 1] == vs[..k] + [vs[k]] && !Errs(vs[..k + 1])
  {
    var longer := vs[..k + 1];
    forall i | 0 <= i < |longer| ensures !longer[i].Err? {
      if i < k { assert longer[i] == vs[..k][i]; }
    }
  }

  lemma {:induction false} FirstErrorAt(vs: seq<Verdict>, k: nat)
    requires k < |vs| && vs[k].Err? && !Errs(vs[..k])
    ensures Errs(vs) && FirstError(vs) == vs[k].reason
  {
    if k > 0 {
      assert vs[..k][0] == vs[0];
      var rest := vs[1..][..k - 1];
      forall i | 0 <= i < |rest| ensures !rest[i].Err? { assert vs[..k][i + 1] == rest[i]; }
      FirstErrorAt(vs[1..], k - 1);
    }
  }

  /** The three result loops with their early exits. */
  method Combine(q: Quantifier, results: seq<Verdict>) returns (ok: bool)
    ensures ok == Satisfied(q, results)
  {
    for k := 0 to |results|
      invariant q.All? ==> forall i :: 0 <= i < k ==> results[i] == Yes
      invariant !q.All? ==> forall i :: 0 <= i < k ==> results[i] != Yes
    {
      if q.All? && results[k] != Yes { return false; }
      if !q.All? && results[k] == Yes { return q.Any?; }
    }
    return !q.Any?;
  }

  method EvalCondition(h: Host, condition: string, rules: seq<string>) returns (v: Verdict)
    ensures v == ConditionMeaning(h, condition, rules)
  {
    if |rules| == 0 { return Err(NoRules); }
    var results, err := EvalRules(h, rules);
    if err.Some? { return Err(err.value); }
    var q := ReadCondition(condition);
    if q.None? { return Err(UnknownCondition(condition)); }
    var ok := Combine(q.value, results);
    return Truth(ok);
  }

  /** A policy without requirements applies; an unevaluable requirement means it does not. */
  method Applies(h: Host, condition: string, rules: seq<string>) returns (ok: bool)
    ensures ok <==> rules == [] || ConditionMeaning(h, condition, rules) == Yes
  {
    if |rules| == 0 { return true; }
    var v := EvalCondition(h, condition, rules);
    return v == Yes;
  }

  function ResultOf(h: Host, policyId: string, c: Check): CheckResult {
    var v := ConditionMeaning(h, c.condition, c.rules);
    CheckResult(policyId, c.id, c.title, c.remediation,
      (match v case Yes => Passed case No => Failed case Err(_) => NotApplicable),
      if v.Err? then Some(v.reason) else None)
  }

  function ResultsOf(h: Host, policyId: string, checks: seq<Check>): (rs: seq<CheckResult>)
    ensures |rs| == |checks| && forall i :: 0 <= i < |checks| ==> rs[i] == ResultOf(h, policyId, checks[i])
  {
    seq(|checks|, i requires 0 <= i < |checks| => ResultOf(h, policyId, checks[i]))
  }

  method EvaluateCheck(h: Host, policyId: string, c: Check) returns (r: CheckResult)
    ensures r == ResultOf(h, policyId, c)
  {
    var v := EvalCondition(h, c.condition, c.rules);
    r := CheckResult(policyId, c.id, c.title, c.remediation, NotApplicable, None);
    match v {
      case Err(reason) => r := r.(why := Some(reason));
      case Yes => r := r.(outcome := Passed);
      case No => r := r.(outcome := Failed);
    }
  }

  /** One result per check, in order. */
  method Evaluate(h: Host, policyId: string, checks: seq<Check>) returns (out: seq<CheckResult>)
    ensures out == ResultsOf(h, policyId, checks)
  {
    ghost var all := ResultsOf(h, policyId, checks);
    out := [];
    for k := 0 to |checks|
      invariant out == all[..k]
    {
      var r := EvaluateCheck(h, policyId, checks[k]);
      assert r == all[k];
      assert all[..k + 1] == all[..k] + [all[k]];
      out := out + [r];
    }
  }

  // ---------------------------------------------------------------- what the words of a condition mean

  /** On rules that are there and do not err: all, the default, asks for every rule, any for some
      rule, none for no rule, in any letter case and with blanks around; any other word errs. */
  lemma ConditionWords(h: Host, condition: string, rules: seq<string>)
    requires rules != [] && forall r :: r in rules ==> !RuleErrs(h, r)
    ensures
      var word, v := Lower(TrimSpace(condition)), ConditionMeaning(h, condition, rules);
      && (word == "any" ==> v == if exists r :: r in rules && RuleVerdict(h, r) == Yes then Yes else No)
      && (word == "none" ==> v == if exists r :: r in rules && RuleVerdict(h, r) == Yes then No else Yes)
      && (word == "" || word == "all" ==> v == if forall r :: r in rules ==> RuleVerdict(h, r) == Yes then Yes else No)
      && (word !in ["", "all", "any", "none"] ==> v.Err?)
  {
    ErrsMembers(h, rules);
    YesMembers(h, rules);
    CombinedWords(condition, Verdicts(h, rules));
  }

  lemma CombinedWords(condition: string, vs: seq<Verdict>)
    requires vs != [] && !Errs(vs)
    ensures
      var word, v := Lower(TrimSpace(condition)), Combined(condition, vs);
      && (word == "any" ==> v == Truth(Yes in vs))
      && (word == "none" ==> v == Truth(Yes !in vs))
      && (word == "" || word == "all" ==> v == Truth(forall v :: v in vs ==> v == Yes))
      && (word !in ["", "all", "any", "none"] ==> v.Err?)
  {
    assert "all"[1] != "any"[1] && |"none"| == 4;
    ByMembership(vs);
  }

  lemma YesMembers(h: Host, rules: seq<string>)
    ensures Yes in Verdicts(h, rules) <==> exists r :: r in rules && RuleVerdict(h, r) == Yes
    ensures (forall v :: v in Verdicts(h, rules) ==> v == Yes) <==> forall r :: r in rules ==> RuleVerdict(h, r) == Yes
  {
    var vs := Verdicts(h, rules);
    forall r | r in rules ensures RuleVerdict(h, r) in vs {
      var i :| 0 <= i < |rules| && rules[i] == r;
      assert vs[i] == RuleVerdict(h, r);
    }
    forall v | v in vs ensures exists r :: r in rules && RuleVerdict(h, r) == v {
      var i :| 0 <= i < |vs| && vs[i] == v;
      assert rules[i] in rules;
    }
  }

  /** A check's result names the policy and the check, passes and fails by its condition, and gives as
      its reason that of the first rule that cannot be evaluated. */
  lemma ResultSays(h: Host, policyId: string, c: Check, k: nat)
    requires k < |c.rules| && forall i :: 0 <= i < k ==> !RuleErrs(h, c.rules[i])
    ensures var r := ResultOf(h, policyId, c);
      && r.policyId == policyId && r.checkId == c.id && r.title == c.title && r.remediation == c.remediation
      && (RuleErrs(h, c.rules[k]) ==> r.outcome == NotApplicable && r.why == Some(RuleVerdict(h, c.rules[k]).reason))
      && (r.outcome == Passed <==> ConditionMeaning(h, c.condition, c.rules) == Yes)
      && (r.outcome == Failed <==> ConditionMeaning(h, c.condition, c.rules) == No)
      && (r.outcome == NotApplicable <==> r.why.Some?)
  {
    if RuleErrs(h, c.rules[k]) {
      var vs := Verdicts(h, c.rules);
      forall i | 0 <= i < k ensures !vs[..k][i].Err? { assert !RuleErrs(h, c.rules[i]); }
      FirstErrorAt(vs, k);
    }
  }

  // ---------------------------------------------------------------- laws of the verdicts

  predicate RuleErrs(h: Host, raw: string) { RuleVerdict(h, raw).Err? }

  lemma ErrsMembers(h: Host, rules: seq<string>)
    ensures Errs(Verdicts(h, rules)) <==> exists r :: r in rules && RuleErrs(h, r)
  {
    var vs := Verdicts(h, rules);
    if Errs(vs) {
      var i :| 0 <= i < |vs| && vs[i].Err?;
      assert rules[i] in rules && RuleErrs(h, rules[i]);
    }
    if r :| r in rules && RuleErrs(h, r) {
      var i :| 0 <= i < |rules| && rules[i] == r;
      assert vs[i].Err?;
    }
  }

  /** A check is failed exactly when it has rules, none of them errs, its condition is known, and
      the condition does not hold: a gap in the evaluator is never reported as a failure. */
  lemma FailedExactlyWhen(h: Host, policyId: string, c: Check)
    ensures ResultOf(h, policyId, c).outcome == Failed <==>
      && c.rules != []
      && (forall r :: r in c.rules ==> !RuleErrs(h, r))
      && ReadCondition(c.condition).Some?
      && !Satisfied(ReadCondition(c.condition).value, Verdicts(h, c.rules))
    ensures ResultOf(h, policyId, c).outcome == NotApplicable <==>
      c.rules == [] || (exists r :: r in c.rules && RuleErrs(h, r)) || ReadCondition(c.condition).None?
  {
    ErrsMembers(h, c.rules);
  }

  function SameClass(v: Verdict, w: Verdict): bool { v == w || (v.Err? && w.Err?) }

  /** The combinator in terms of which verdicts occur. */
  lemma ByMembership(vs: seq<Verdict>)
    ensures Errs(vs) <==> exists v :: v in vs && v.Err?
    ensures Satisfied(All, vs) <==> forall v :: v in vs ==> v == Yes
    ensures Satisfied(Any, vs) <==> Yes in vs
    ensures Satisfied(NoneOf, vs) <==> Yes !in vs
  {
    forall i | 0 <= i < |vs| ensures vs[i] in vs {}
  }

  lemma SameMembersSameClass(condition: string, vs: seq<Verdict>, ws: seq<Verdict>)
    requires forall v :: v in vs <==> v in ws
    ensures SameClass(Combined(condition, vs), Combined(condition, ws))
  {
    if vs != [] { assert vs[0] in ws; }
    if ws != [] { assert ws[0] in vs; }
    ByMembership(vs);
    ByMembership(ws);
  }

  lemma VerdictOfMember(h: Host, rules: seq<string>, others: seq<string>, v: Verdict)
    requires forall r :: r in rules ==> r in others
    requires v in Verdicts(h, rules)
    ensures v in Verdicts(h, others)
  {
    var i :| 0 <= i < |rules| && Verdicts(h, rules)[i] == v;
    assert rules[i] in rules;
    var j :| 0 <= j < |others| && others[j] == rules[i];
    assert Verdicts(h, others)[j] == v;
  }

  /** The verdict class depends only on which rules a check has, so no reordering changes it. */
  lemma OrderDoesNotMatter(h: Host, condition: string, rules: seq<string>, others: seq<string>)
    requires forall r :: r in rules <==> r in others
    ensures SameClass(ConditionMeaning(h, condition, rules), ConditionMeaning(h, condition, others))
  {
    var vs, ws := Verdicts(h, rules), Verdicts(h, others);
    forall v ensures v in vs <==> v in ws {
      if v in vs { VerdictOfMember(h, rules, others, v); }
      if v in ws { VerdictOfMember(h, others, rules, v); }
    }
    SameMembersSameClass(condition, vs, ws);
  }

  lemma NoneNegatesAny(condition: string, other: string, vs: seq<Verdict>)
    requires ReadCondition(condition) == Some(NoneOf) && ReadCondition(other) == Some(Any)
    ensures Combined(condition, vs) == Negate(Combined(other, vs))
  {
  }

  // ---------------------------------------------------------------- not forms

  predicate AlreadyNegated(raw: string) { HasPrefixFold(TrimSpace(raw), "not ") }

  function NotForm(raw: string): string { "not " + raw }

  function NotForms(rules: seq<string>): (r: seq<string>)
    ensures |r| == |rules| && forall i :: 0 <= i < |rules| ==> r[i] == NotForm(rules[i])
  {
    seq(|rules|, i requires 0 <= i < |rules| => NotForm(rules[i]))
  }

  /** How the not form of any text trims: a bare not, or not in front of the same rule. */
  lemma TrimNotForm(raw: string)
    ensures var s := TrimSpace(NotForm(raw));
      if TrimSpace(raw) == "" then s == "not" else HasPrefixFold(s, "not ") && TrimSpace(s[4..]) == TrimSpace(raw)
  {
    var left, right := TrimSpaceSplits(raw);
    if TrimSpace(raw) == "" {
      TrimBareNot(raw);
    } else {
      TrimNotOf(left, TrimSpace(raw), right);
    }
  }

  lemma TrimBareNot(raw: string)
    requires TrimSpace(raw) == ""
    ensures TrimSpace(NotForm(raw)) == "not"
  {
    var pad := " " + raw;
    var left, right := TrimSpaceSplits(raw);
    assert raw == left + right;
    assert AllSpace(pad);
    assert NotForm(raw) == "" + "not" + pad;
    TrimPadded("", "not", pad);
  }

  lemma TrimNotOf(left: string, core: string, right: string)
    requires AllSpace(left) && AllSpace(right) && Trimmed(core) && core != ""
    ensures var s := TrimSpace(NotForm(left + core + right)); HasPrefixFold(s, "not ") && TrimSpace(s[4..]) == core
  {
    var inner := left + core;
    assert inner[|inner| - 1] == core[|core| - 1];
    TrimAfterNot(inner, right);
    RuleRoundTrip.CutsPrefix("not ", inner);
    assert inner == left + core + "";
    TrimPadded(left, core, "");
  }

  lemma TrimAfterNot(inner: string, right: string)
    requires inner != "" && !IsSpace(inner[|inner| - 1]) && AllSpace(right)
    ensures TrimSpace(NotForm(inner + right)) == "not " + inner
  {
    var s := "not " + inner;
    assert s[|s| - 1] == inner[|inner| - 1];
    assert NotForm(inner + right) == "" + s + right;
    TrimPadded("", s, right);
  }

  lemma ParseNotForm(raw: string)
    ensures TrimSpace(raw) == "" ==> ParseRule(NotForm(raw)).Malformed? && ParseRule(raw).Malformed?
    ensures TrimSpace(raw) != "" ==>
      ParseRule(NotForm(raw)) == var r := ParseBody(TrimSpace(raw)); if r.Malformed? then r else r.(negated := true)
  {
    TrimNotForm(raw);
    IndexOfFree("not", ":");
    IndexOfFree("", ":");
  }

  lemma IndexOfFree(s: string, c: string)
    requires |c| == 1 && c[0] !in s
    ensures Index(s, c) < 0
  {
    FreeOfChar(s, c[0]);
    assert c == [c[0]];
  }

  /** A second not is not a type prefix, so the evaluator rejects the rule. */
  lemma DoubleNotIsMalformed(core: string)
    requires HasPrefixFold(core, "not ")
    ensures ParseBody(core).Malformed?
  {
    var head := Cut(core, ":");
    if head.found {
      var i := Index(core, ":");
      assert core[i..i + 1] == ":" && core[i] == ':';
      assert i >= 4;
      var before := head.before;
      assert before[0] == core[0] && before[2] == core[2];
      assert FirstNonSpace(before, 0) == 0;
      assert AfterLastNonSpace(before, 0, |before|) >= 3;
    }
  }

  lemma NotFormPlain(h: Host, raw: string)
    requires !AlreadyNegated(raw)
    ensures SameClass(RuleVerdict(h, NotForm(raw)), Negate(RuleVerdict(h, raw)))
  {
    ParseNotForm(raw);
    var r := ParseBody(TrimSpace(raw));
    assert ParseRule(raw) == r;
    MarkNegated(h, r);
  }

  lemma NotFormDouble(h: Host, raw: string)
    requires AlreadyNegated(raw)
    ensures RuleErrs(h, NotForm(raw))
  {
    ParseNotForm(raw);
    DoubleNotIsMalformed(TrimSpace(raw));
  }

  /** Prefixing not negates a rule exactly when it is not negated already, or errs anyway. */
  lemma NotFormNegates(h: Host, raw: string)
    ensures SameClass(RuleVerdict(h, NotForm(raw)), Negate(RuleVerdict(h, raw))) <==>
      !AlreadyNegated(raw) || RuleErrs(h, raw)
    ensures RuleErrs(h, NotForm(raw)) <==> RuleErrs(h, raw) || AlreadyNegated(raw)
  {
    if AlreadyNegated(raw) { NotFormDouble(h, raw); } else { NotFormPlain(h, raw); }
  }

  /** Rules for which it does not: a negated process rule, such as "not p:x", has a verdict on every
      host, and none once another not is put in front. */
  lemma SecondNotIsRejected(h: Host, name: string)
    requires Trimmed(name) && Free(name, "->")
    ensures var raw := PrintRule(true, Process(name));
      && RuleVerdict(h, raw) == Negate(Truth(h.processRunning(name))) && RuleErrs(h, NotForm(raw))
      && !SameClass(RuleVerdict(h, NotForm(raw)), Negate(RuleVerdict(h, raw)))
  {
    var raw := PrintRule(true, Process(name));
    RuleRoundTrip.RuleReadsBack(true, Process(name));
    assert !AlreadyNegated(raw) ==> ParseRule(raw) == ParseBody(TrimSpace(raw));
    NotFormDouble(h, raw);
  }

  /** all over the rules and none over their not forms agree exactly when no rule is already
      negated, or some rule errs and both are unevaluable. */
  lemma AllIsNoneOfNotForms(h: Host, all: string, none: string, rules: seq<string>)
    requires ReadCondition(all) == Some(All) && ReadCondition(none) == Some(NoneOf)
    ensures SameClass(ConditionMeaning(h, all, rules), ConditionMeaning(h, none, NotForms(rules))) <==>
      (forall r :: r in rules ==> !AlreadyNegated(r)) || (exists r :: r in rules && RuleErrs(h, r))
  {
    var nots := NotForms(rules);
    var vs, ws := Verdicts(h, rules), Verdicts(h, nots);
    ErrsMembers(h, rules);
    ErrsMembers(h, nots);
    forall i | 0 <= i < |rules|
      ensures ws[i].Err? <==> vs[i].Err? || AlreadyNegated(rules[i])
      ensures !ws[i].Err? ==> ws[i] == Negate(vs[i])
    {
      NotFormNegates(h, rules[i]);
    }
    NotFormVerdicts(all, none, rules, vs, ws);
  }

  lemma NotFormVerdicts(all: string, none: string, rules: seq<string>, vs: seq<Verdict>, ws: seq<Verdict>)
    requires ReadCondition(all) == Some(All) && ReadCondition(none) == Some(NoneOf)
    requires |rules| == |vs| == |ws|
    requires forall i :: 0 <= i < |rules| ==> (ws[i].Err? <==> vs[i].Err? || AlreadyNegated(rules[i]))
    requires forall i :: 0 <= i < |rules| ==> !ws[i].Err? ==> ws[i] == Negate(vs[i])
    ensures SameClass(Combined(all, vs), Combined(none, ws)) <==>
      (forall r :: r in rules ==> !AlreadyNegated(r)) || Errs(vs)
  {
    if Errs(vs) {
      var i :| 0 <= i < |vs| && vs[i].Err?;
      assert ws[i].Err?;
    } else if exists i :: 0 <= i < |rules| && AlreadyNegated(rules[i]) {
      var i :| 0 <= i < |rules| && AlreadyNegated(rules[i]);
      assert ws[i].Err? && rules[i] in rules;
    } else if |rules| > 0 {
      forall i | 0 <= i < |vs| ensures !ws[i].Err? && (vs[i] == Yes <==> ws[i] != Yes) {
        assert !vs[i].Err?;
      }
      assert Satisfied(All, vs) <==> Satisfied(NoneOf, ws);
    }
  }
}
