/** What a rule means on a host, stated on syntax trees. */
module RuleMeaning {
  import opened Text
  import opened RuleSyntax

  datatype Verdict = Yes | No | Err(reason: Reason)

  /** Everything a rule asks of its surroundings: the host, and the regular expression engine,
      which may refuse a pattern. captured gives the first group, or the whole match. */
  datatype Host = Host(
    fileContent: string -> Option<string>,
    dirEntries: string -> Option<seq<string>>,
    runCommand: string -> Option<string>,
    processRunning: string -> bool,
    registryValue: (string, string) -> Option<string>,
    compiles: string -> bool,
    matches: (string, string) -> bool,
    captured: (string, string) -> Option<string>)

  function Truth(b: bool): Verdict { if b then Yes else No }

  function Negate(v: Verdict): Verdict {
    match v
    case Yes => No
    case No => Yes
    case Err(_) => v
  }

  predicate Holds(x: int, op: Op, y: int) {
    match op
    case Lt => x < y
    case Le => x <= y
    case Gt => x > y
    case Ge => x >= y
    case Eq => x == y
    case Ne => x != y
  }

  function Search(h: Host, pattern: string, subject: string): Verdict {
    if h.compiles(pattern) then Truth(h.matches(pattern, subject)) else Err(BadPattern(pattern))
  }

  function AtomMeaning(h: Host, a: Atom, subject: string): Verdict {
    match a
    case Match(p) => Search(h, p, subject)
    case NoMatch(p) => Negate(Search(h, p, subject))
    case Capture(p) => Search(h, p, subject)
    case Compare(p, op, target) =>
      if !h.compiles(p) then Err(BadPattern(p))
      else
        (match h.captured(p, subject)
         case None => No
         case Some(text) =>
           match (ParseInt64(TrimSpace(text)), ParseInt64(target))
           case (None, _) => No
           case (Some(_), None) => Err(BadTarget(target))
           case (Some(x), Some(y)) => Truth(Holds(x, op, y)))
    case Absent(t) => Truth(!Contains(subject, t))
    case Present(t) => Truth(Contains(subject, t))
    case Anything => Yes
  }

  /** The first verdict other than the given one, or that one: how && and the search over
      directory entries treat a sequence of answers, errors included. */
  function FirstOther(vs: seq<Verdict>, default: Verdict): Verdict {
    if vs == [] then default
    else if vs[0] != default then vs[0]
    else FirstOther(vs[1..], default)
  }

  function AtomVerdicts(h: Host, t: Test, subject: string): (vs: seq<Verdict>)
    ensures |vs| == |t| && forall i :: 0 <= i < |t| ==> vs[i] == AtomMeaning(h, t[i], subject)
  {
    seq(|t|, i requires 0 <= i < |t| => AtomMeaning(h, t[i], subject))
  }

  function TestMeaning(h: Host, t: Test, subject: string): Verdict {
    FirstOther(AtomVerdicts(h, t, subject), Yes)
  }

  function OptionalMeaning(h: Host, t: Option<Test>, subject: string): Verdict {
    if t.None? then Yes else TestMeaning(h, t.value, subject)
  }

  function WithoutSlashes(dir: string): string {
    if dir != "" && (dir[|dir| - 1] == '/' || dir[|dir| - 1] == '\\') then WithoutSlashes(dir[..|dir| - 1]) else dir
  }

  /** Whether one directory entry satisfies the name test and, if there is one, the content test. */
  function EntryMeaning(h: Host, dir: string, e: EntryTest, name: string): Verdict {
    var byName := TestMeaning(h, e.name, name);
    if byName != Yes || e.content.None? then byName
    else
      match h.fileContent(WithoutSlashes(dir) + "/" + name)
      case None => No
      case Some(content) => TestMeaning(h, e.content.value, content)
  }

  function EntryVerdicts(h: Host, dir: string, e: EntryTest, names: seq<string>): (vs: seq<Verdict>)
    ensures |vs| == |names| && forall i :: 0 <= i < |names| ==> vs[i] == EntryMeaning(h, dir, e, names[i])
  {
    seq(|names|, i requires 0 <= i < |names| => EntryMeaning(h, dir, e, names[i]))
  }

  function EntriesMeaning(h: Host, dir: string, e: EntryTest, names: seq<string>): Verdict {
    FirstOther(EntryVerdicts(h, dir, e, names), No)
  }

  function OnSubject(h: Host, subject: Option<string>, t: Option<Test>): Verdict {
    if subject.None? then No else OptionalMeaning(h, t, subject.value)
  }

  function BodyMeaning(h: Host, b: Body): Verdict {
    match b
    case File(path, test) => OnSubject(h, h.fileContent(path), test)
    case Dir(path, entry) =>
      (match h.dirEntries(path)
       case None => No
       case Some(names) => if entry.None? then Yes else EntriesMeaning(h, path, entry.value, names))
    case Process(name) => Truth(h.processRunning(name))
    case Command(cmd, test) => OnSubject(h, h.runCommand(cmd), test)
    case Registry(key, value) =>
      if value.None? then Truth(h.registryValue(key, "").Some?)
      else OnSubject(h, h.registryValue(key, value.value.name), value.value.content)
  }

  function Meaning(h: Host, r: Rule): Verdict {
    match r
    case Malformed(reason) => Err(reason)
    case Rule(negated, b) => if negated then Negate(BodyMeaning(h, b)) else BodyMeaning(h, b)
  }

  /** The verdict of a rule text. */
  function RuleVerdict(h: Host, raw: string): Verdict { Meaning(h, ParseRule(raw)) }

  lemma MarkNegated(h: Host, r: Rule)
    requires r.Rule? ==> !r.negated
    ensures Meaning(h, if r.Malformed? then r else r.(negated := true)) == Negate(Meaning(h, r))
  {
  }

  /** One turn of a loop that looks for the first verdict other than the given one. */
  lemma FirstOtherStep(vs: seq<Verdict>, default: Verdict, k: nat)
    requires k < |vs|
    ensures FirstOther(vs[k..], default) == if vs[k] != default then vs[k] else FirstOther(vs[k + 1..], default)
  {
    assert vs[k..][1..] == vs[k + 1..];
  }
}

/** The evaluator as the agent runs it: directly on the text, loops and early returns included.
    Every answer is the meaning of the tree the text denotes, on every text and every host. */
module RuleEvaluator {
  import opened Text
  import opened RuleSyntax
  import opened RuleMeaning
  import RuleRoundTrip

  function MatchRegex(h: Host, subject: string, pattern: string): Verdict {
    if !h.compiles(pattern) then Err(BadPattern(pattern)) else Truth(h.matches(pattern, subject))
  }

  function CompareNumber(h: Host, subject: string, pattern: string, op: Op, want: string): Verdict {
    if !h.compiles(pattern) then Err(BadPattern(pattern))
    else
      var m := h.captured(pattern, subject);
      if m.None? then No
      else
        var got := ParseInt64(TrimSpace(m.value));
        if got.None? then No
        else
          var target := ParseInt64(want);
          if target.None? then Err(BadTarget(want)) else Truth(Holds(got.value, op, target.value))
  }

  function MatchOne(h: Host, subject: string, test: string): (v: Verdict)
    ensures v == AtomMeaning(h, ParseAtom(test), subject)
  {
    if test == "" then Yes
    else
      var m := NumCompare(test);
      if m.Some? then CompareNumber(h, subject, m.value.pattern, m.value.op, m.value.target)
      else if HasPrefixFold(test, "!r:") then Negate(MatchRegex(h, subject, test[3..]))
      else if HasPrefixFold(test, "r:") then MatchRegex(h, subject, test[2..])
      else if HasPrefixFold(test, "n:") then MatchRegex(h, subject, test[2..])
      else if HasPrefixFold(test, "!") then Truth(!Contains(subject, test[1..]))
      else Truth(Contains(subject, test))
  }

  method MatchPart(h: Host, subject: string, part: string) returns (v: Verdict)
    ensures v == AtomMeaning(h, ParseAtom(TrimSpace(part)), subject)
  {
    v := MatchOne(h, subject, TrimSpace(part));
  }

  method MatchParts(h: Host, subject: string, parts: seq<string>) returns (v: Verdict)
    ensures v == TestMeaning(h, ParseParts(parts), subject)
  {
    ghost var vs := AtomVerdicts(h, ParseParts(parts), subject);
    assert vs[0..] == vs;
    for k := 0 to |parts|
      invariant FirstOther(vs[k..], Yes) == FirstOther(vs, Yes)
    {
      v := MatchPart(h, subject, parts[k]);
      FirstOtherStep(vs, Yes, k);
      if v != Yes { return; }
    }
    return Yes;
  }

  method MatchTest(h: Host, subject: string, test: string) returns (v: Verdict)
    ensures v == TestMeaning(h, ParseTest(test), subject)
  {
    var trimmed := TrimSpace(test);
    if trimmed == "" { return Yes; }
    v := MatchParts(h, subject, Split(trimmed, "&&"));
  }

  /** One turn of the d: loop. */
  method MatchEntry(h: Host, dir: string, name: string, filePart: string, inner: CutResult) returns (v: Verdict)
    ensures v == EntryMeaning(h, dir, EntryTest(ParseTest(filePart), ParseOptionalTest(inner)), name)
  {
    v := MatchTest(h, name, filePart);
    if v != Yes || !inner.found { return; }
    match h.fileContent(WithoutSlashes(dir) + "/" + name) {
      case None => v := No;
      case Some(content) => v := MatchTest(h, content, inner.after);
    }
  }

  /** The d: loop over directory entries: the first error or success decides. */
  method MatchEntries(h: Host, dir: string, names: seq<string>, test: string) returns (v: Verdict)
    ensures v == EntriesMeaning(h, dir, ParseEntry(CutResult(dir, test, true)).value, names)
  {
    var inner := CutArrow(test);
    var filePart := TrimSpace(inner.before);
    ghost var e := EntryTest(ParseTest(filePart), ParseOptionalTest(inner));
    ghost var vs := EntryVerdicts(h, dir, e, names);
    assert vs[0..] == vs;
    for k := 0 to |names|
      invariant FirstOther(vs[k..], No) == FirstOther(vs, No)
    {
      v := MatchEntry(h, dir, names[k], filePart, inner);
      FirstOtherStep(vs, No, k);
      if v != No { return; }
    }
    return No;
  }

  /** The shared tail of f:, c: and the registry value form. */
  method OnText(h: Host, text: Option<string>, arrow: CutResult) returns (v: Verdict)
    ensures v == OnSubject(h, text, ParseOptionalTest(arrow))
  {
    if text.None? { return No; }
    if !arrow.found { return Yes; }
    v := MatchTest(h, text.value, arrow.after);
  }

  method EvalKind(h: Host, kind: char, arrow: CutResult) returns (v: Verdict)
    requires ParseKind(kind, arrow).Some?
    ensures v == BodyMeaning(h, ParseKind(kind, arrow).value)
  {
    var subject := TrimSpace(arrow.before);
    if kind == 'f' {
      v := OnText(h, h.fileContent(subject), arrow);
    } else if kind == 'd' {
      var names := h.dirEntries(subject);
      if names.None? { return No; }
      if !arrow.found { return Yes; }
      v := MatchEntries(h, subject, names.value, arrow.after);
    } else if kind == 'p' {
      v := Truth(h.processRunning(subject));
    } else if kind == 'c' {
      v := OnText(h, h.runCommand(subject), arrow);
    } else {
      if !arrow.found { return Truth(h.registryValue(subject, "").Some?); }
      var inner := CutArrow(arrow.after);
      v := OnText(h, h.registryValue(subject, TrimSpace(inner.before)), inner);
    }
  }

  method EvalPositive(h: Host, rule: string) returns (v: Verdict)
    ensures v == Meaning(h, ParseBody(rule))
  {
    var head := Cut(rule, ":");
    if !head.found { return Err(NoPrefix(rule)); }
    var arrow := CutArrow(head.after);
    var kind := Lower(TrimSpace(head.before));
    if |kind| == 1 && ParseKind(kind[0], arrow).Some? {
      v := EvalKind(h, kind[0], arrow);
    } else {
      v := Err(Unsupported(head.before, rule));
    }
  }

  method EvalRule(h: Host, raw: string) returns (v: Verdict)
    ensures v == RuleVerdict(h, raw)
  {
    var rule := TrimSpace(raw);
    var negate := HasPrefixFold(rule, "not ");
    if negate { rule := TrimSpace(rule[4..]); }
    MarkNegated(h, ParseBody(rule));
    v := EvalPositive(h, rule);
    if negate { v := Negate(v); }
  }

  /** Evaluating the printed form of a tree (EvalRule returns this verdict) gives the tree's own
      meaning, errors included. */
  lemma PrintedRuleMeans(h: Host, negated: bool, b: Body)
    requires WritableBody(b)
    ensures Meaning(h, ParseRule(PrintRule(negated, b)))
      == if negated then Negate(BodyMeaning(h, b)) else BodyMeaning(h, b)
  {
    RuleRoundTrip.RuleReadsBack(negated, b);
  }
}
