/** What rules say about a host, on their text and in the host's own terms: no tree, no helper of the
    evaluator. The verdict of a text is what the evaluator answers for it. */
module RuleLaws {
  import opened Text
  import opened RuleSyntax
  import opened RuleMeaning
  import opened RuleRoundTrip

  // ---------------------------------------------------------------- texts

  /** A subject: trimmed, not blank, no arrow in it. */
  predicate Subject(s: string) { s != "" && Trimmed(s) && Free(s, "->") }

  /** A single content test: trimmed, not blank, no && in it. */
  predicate Single(t: string) { t != "" && Trimmed(t) && Free(t, "&&") }

  function WithArrow(s: string, test: string): string { (s + " ") + "->" + (" " + test) }

  function FileRule(path: string, test: string): string { "f:" + WithArrow(path, test) }
  function CommandRule(cmd: string, test: string): string { "c:" + WithArrow(cmd, test) }
  function DirRule(dir: string, test: string): string { "d:" + WithArrow(dir, test) }
  function ValueRule(key: string, name: string, test: string): string { "r:" + WithArrow(key, WithArrow(name, test)) }

  // ---------------------------------------------------------------- how such texts parse

  predicate IsKind(kind: char) { kind == 'f' || kind == 'd' || kind == 'p' || kind == 'c' || kind == 'r' }

  /** What each letter stands for. */
  lemma Kinds(c: CutResult)
    ensures ParseKind('f', c) == Some(File(TrimSpace(c.before), ParseOptionalTest(c)))
    ensures ParseKind('d', c) == Some(Dir(TrimSpace(c.before), ParseEntry(c)))
    ensures ParseKind('p', c) == Some(Process(TrimSpace(c.before)))
    ensures ParseKind('c', c) == Some(Command(TrimSpace(c.before), ParseOptionalTest(c)))
    ensures ParseKind('r', c) == Some(Registry(TrimSpace(c.before), ParseValue(c)))
  {
  }

  lemma ParsesTrimmed(text: string)
    requires Trimmed(text) && !HasPrefixFold(text, "not ")
    ensures ParseRule(text) == ParseBody(text)
  {
    TrimmedIsFixed(text);
  }

  /** Any spelling of not in front of a trimmed text. */
  lemma ParsesNot(word: string, text: string)
    requires |word| == 4 && HasPrefixFold(word, "not ") && !IsSpace(word[0]) && text != "" && Trimmed(text)
    ensures ParseRule(word + text) == var r := ParseBody(text); if r.Malformed? then r else r.(negated := true)
  {
    CutsNot(word, text);
    TrimmedIsFixed(word + text);
    TrimmedIsFixed(text);
    ParsesCut(word + text, text);
  }

  lemma CutsNot(word: string, text: string)
    requires |word| == 4 && HasPrefixFold(word, "not ") && !IsSpace(word[0]) && text != "" && Trimmed(text)
    ensures Trimmed(word + text) && CutPrefixFold(word + text, "not ") == Some(text)
  {
    var raw := word + text;
    assert raw[0] == word[0] && raw[|raw| - 1] == text[|text| - 1];
    assert raw[4..] == text;
    assert forall i :: 0 <= i < 4 ==> raw[i] == word[i];
  }

  lemma ParsesCut(raw: string, rest: string)
    requires TrimSpace(raw) == raw && CutPrefixFold(raw, "not ") == Some(rest) && TrimSpace(rest) == rest
    ensures ParseRule(raw) == var r := ParseBody(rest); if r.Malformed? then r else r.(negated := true)
  {
  }

  lemma ParsesPlain(kind: char, text: string, after: string, b: Body)
    requires IsKind(kind) && text == [kind, ':'] + after && EndsWell(after) && ParseKind(kind, CutArrow(after)) == Some(b)
    ensures ParseRule(text) == Rule(false, b) && ParseRule("not " + text) == Rule(true, b)
    ensures ParseBody(text) == Rule(false, b) && text != "" && Trimmed(text)
  {
    assert text == [kind] + ":" + after;
    KindReadsBack(kind, after, b);
    PrefixedTrimmed(kind, after);
    PrefixDiffers(text, "not ", 0);
    ParsesTrimmed(text);
    ParsesNot("not ", text);
  }

  lemma VerdictOf(h: Host, kind: char, raw: string, after: string, b: Body, v: Verdict)
    requires IsKind(kind) && raw == [kind, ':'] + after
    requires EndsWell(after) && ParseKind(kind, CutArrow(after)) == Some(b) && v == BodyMeaning(h, b)
    ensures RuleVerdict(h, raw) == v
    ensures RuleVerdict(h, "not " + raw) == Negate(v)
  {
    ParsesPlain(kind, raw, after, b);
  }

  function IfThere(h: Host, text: Option<string>, test: string): Verdict {
    if text.None? then No else TestMeaning(h, ParseTest(test), text.value)
  }

  /** What each kind of body asks of the host. */
  lemma Bodies(h: Host, s: string, name: string, test: string)
    ensures BodyMeaning(h, File(s, Some(ParseTest(test)))) == IfThere(h, h.fileContent(s), test)
    ensures BodyMeaning(h, Command(s, Some(ParseTest(test)))) == IfThere(h, h.runCommand(s), test)
    ensures BodyMeaning(h, Registry(s, Some(ValueTest(name, Some(ParseTest(test)))))) == IfThere(h, h.registryValue(s, name), test)
  {
  }

  lemma BareBodies(h: Host, s: string, name: string)
    ensures BodyMeaning(h, Registry(s, Some(ValueTest(name, None)))) == Truth(h.registryValue(s, name).Some?)
    ensures BodyMeaning(h, File(s, None)) == Truth(h.fileContent(s).Some?)
    ensures BodyMeaning(h, Dir(s, None)) == Truth(h.dirEntries(s).Some?)
    ensures BodyMeaning(h, Process(s)) == Truth(h.processRunning(s))
    ensures BodyMeaning(h, Command(s, None)) == Truth(h.runCommand(s).Some?)
    ensures BodyMeaning(h, Registry(s, None)) == Truth(h.registryValue(s, "").Some?)
  {
  }

  lemma CutsArrow(s: string, test: string)
    requires Subject(s) && test != "" && Trimmed(test)
    ensures var c := CutArrow(WithArrow(s, test)); c.found && TrimSpace(c.before) == s && c.after == test
    ensures EndsWell(WithArrow(s, test)) && Trimmed(WithArrow(s, test)) && WithArrow(s, test) != ""
  {
    assert WithArrow(s, test) == Arrow(s, test);
    ArrowReadsBack(s, test);
  }

  lemma CutsNone(s: string)
    requires Subject(s)
    ensures var c := CutArrow(s); !c.found && TrimSpace(c.before) == s
  {
    NoArrow(s);
  }

  lemma ParsesSingle(t: string)
    requires Single(t)
    ensures ParseTest(t) == [ParseAtom(t)]
  {
    TrimmedIsFixed(t);
    assert Split(t, "&&") == [t];
  }

  lemma FirstOfOne(v: Verdict, default: Verdict)
    ensures FirstOther([v], default) == v
  {
    assert [v][1..] == [];
  }

  lemma SingleMeaning(h: Host, t: string, subject: string)
    requires Single(t)
    ensures TestMeaning(h, ParseTest(t), subject) == AtomMeaning(h, ParseAtom(t), subject)
  {
    ParsesSingle(t);
    var v := AtomMeaning(h, ParseAtom(t), subject);
    assert AtomVerdicts(h, ParseTest(t), subject) == [v];
    FirstOfOne(v, Yes);
  }

  lemma FileVerdict(h: Host, path: string, test: string)
    requires Subject(path) && test != "" && Trimmed(test)
    ensures RuleVerdict(h, FileRule(path, test)) == IfThere(h, h.fileContent(path), test)
  {
    var after := WithArrow(path, test);
    CutsArrow(path, test);
    Kinds(CutArrow(after));
    Bodies(h, path, "", test);
    VerdictOf(h, 'f', FileRule(path, test), after, File(path, Some(ParseTest(test))), IfThere(h, h.fileContent(path), test));
  }

  lemma SingleVerdict(h: Host, path: string, c: string, test: string, v: Verdict)
    requires Subject(path) && h.fileContent(path) == Some(c) && Single(test) && v == AtomMeaning(h, ParseAtom(test), c)
    ensures RuleVerdict(h, FileRule(path, test)) == v
  {
    FileVerdict(h, path, test);
    SingleMeaning(h, test, c);
  }

  // ---------------------------------------------------------------- existence

  /** Rules without a test: the file, directory, command output or key is there, the process runs;
      and each negated. */
  lemma BareRules(h: Host, s: string)
    requires Subject(s)
    ensures RuleVerdict(h, "f:" + s) == (if h.fileContent(s).Some? then Yes else No)
    ensures RuleVerdict(h, "d:" + s) == (if h.dirEntries(s).Some? then Yes else No)
    ensures RuleVerdict(h, "p:" + s) == (if h.processRunning(s) then Yes else No)
    ensures RuleVerdict(h, "c:" + s) == (if h.runCommand(s).Some? then Yes else No)
    ensures RuleVerdict(h, "r:" + s) == (if h.registryValue(s, "").Some? then Yes else No)
    ensures RuleVerdict(h, "not " + ("f:" + s)) == (if h.fileContent(s).Some? then No else Yes)
    ensures RuleVerdict(h, "not " + ("p:" + s)) == (if h.processRunning(s) then No else Yes)
  {
    CutsNone(s);
    Kinds(CutArrow(s));
    BareBodies(h, s, "");
    VerdictOf(h, 'f', "f:" + s, s, File(s, None), Truth(h.fileContent(s).Some?));
    VerdictOf(h, 'd', "d:" + s, s, Dir(s, None), Truth(h.dirEntries(s).Some?));
    VerdictOf(h, 'p', "p:" + s, s, Process(s), Truth(h.processRunning(s)));
    VerdictOf(h, 'c', "c:" + s, s, Command(s, None), Truth(h.runCommand(s).Some?));
    VerdictOf(h, 'r', "r:" + s, s, Registry(s, None), Truth(h.registryValue(s, "").Some?));
  }

  /** A subject that is missing makes a rule with any test false, never unevaluable. */
  lemma MissingIsNo(h: Host, s: string, name: string, test: string)
    requires Subject(s) && Subject(name) && test != "" && Trimmed(test)
    ensures h.fileContent(s).None? ==> RuleVerdict(h, FileRule(s, test)) == No
    ensures h.runCommand(s).None? ==> RuleVerdict(h, CommandRule(s, test)) == No
    ensures h.dirEntries(s).None? ==> RuleVerdict(h, DirRule(s, test)) == No
    ensures h.registryValue(s, name).None? ==> RuleVerdict(h, ValueRule(s, name, test)) == No
  {
    FileVerdict(h, s, test);
    CommandVerdict(h, s, test);
    ValueVerdict(h, s, name, test);
    DirVerdict(h, s, test);
  }

  lemma CommandVerdict(h: Host, cmd: string, test: string)
    requires Subject(cmd) && test != "" && Trimmed(test)
    ensures RuleVerdict(h, CommandRule(cmd, test)) == IfThere(h, h.runCommand(cmd), test)
  {
    var after := WithArrow(cmd, test);
    CutsArrow(cmd, test);
    Kinds(CutArrow(after));
    Bodies(h, cmd, "", test);
    VerdictOf(h, 'c', CommandRule(cmd, test), after, Command(cmd, Some(ParseTest(test))), IfThere(h, h.runCommand(cmd), test));
  }

  lemma ParsesValue(key: string, name: string, test: string)
    requires Subject(key) && Subject(name) && test != "" && Trimmed(test)
    ensures var after := WithArrow(key, WithArrow(name, test));
      EndsWell(after) && ParseKind('r', CutArrow(after)) == Some(Registry(key, Some(ValueTest(name, Some(ParseTest(test))))))
  {
    CutsArrow(name, test);
    CutsArrow(key, WithArrow(name, test));
    Kinds(CutArrow(WithArrow(key, WithArrow(name, test))));
  }

  lemma ValueVerdict(h: Host, key: string, name: string, test: string)
    requires Subject(key) && Subject(name) && test != "" && Trimmed(test)
    ensures RuleVerdict(h, ValueRule(key, name, test)) == IfThere(h, h.registryValue(key, name), test)
  {
    ParsesValue(key, name, test);
    Bodies(h, key, name, test);
    VerdictOf(h, 'r', ValueRule(key, name, test), WithArrow(key, WithArrow(name, test)),
              Registry(key, Some(ValueTest(name, Some(ParseTest(test))))), IfThere(h, h.registryValue(key, name), test));
  }

  /** A registry value without a test: it is there. */
  lemma ValuePresent(h: Host, key: string, name: string)
    requires Subject(key) && Subject(name)
    ensures RuleVerdict(h, "r:" + WithArrow(key, name)) == if h.registryValue(key, name).Some? then Yes else No
  {
    CutsNone(name);
    CutsArrow(key, name);
    Kinds(CutArrow(WithArrow(key, name)));
    BareBodies(h, key, name);
    VerdictOf(h, 'r', "r:" + WithArrow(key, name), WithArrow(key, name), Registry(key, Some(ValueTest(name, None))),
              Truth(h.registryValue(key, name).Some?));
  }

  /** The same test on the same text gives the same verdict, whether the text is a file's content, a
      command's output or a registry value. */
  lemma TestsAreUniform(h: Host, path: string, cmd: string, key: string, name: string, test: string)
    requires Subject(path) && Subject(cmd) && Subject(key) && Subject(name) && test != "" && Trimmed(test)
    ensures h.runCommand(cmd) == h.fileContent(path) ==>
      RuleVerdict(h, CommandRule(cmd, test)) == RuleVerdict(h, FileRule(path, test))
    ensures h.registryValue(key, name) == h.fileContent(path) ==>
      RuleVerdict(h, ValueRule(key, name, test)) == RuleVerdict(h, FileRule(path, test))
  {
    FileVerdict(h, path, test);
    CommandVerdict(h, cmd, test);
    ValueVerdict(h, key, name, test);
  }

  // ---------------------------------------------------------------- single tests

  /** r: is true exactly when the pattern compiles and matches, !r: exactly when it compiles and does
      not, and a pattern that does not compile makes both unevaluable. */
  lemma SearchRules(h: Host, path: string, c: string, p: string)
    requires Subject(path) && h.fileContent(path) == Some(c) && Single("r:" + p) && Single("!r:" + p)
    ensures var v := RuleVerdict(h, FileRule(path, "r:" + p));
      (v == Yes <==> h.compiles(p) && h.matches(p, c)) && (v == No <==> h.compiles(p) && !h.matches(p, c))
    ensures var v := RuleVerdict(h, FileRule(path, "!r:" + p));
      (v == Yes <==> h.compiles(p) && !h.matches(p, c)) && (v == No <==> h.compiles(p) && h.matches(p, c))
  {
    MatchReadsBack(p);
    NoMatchReadsBack(p);
    SingleVerdict(h, path, c, "r:" + p, AtomMeaning(h, Match(p), c));
    SingleVerdict(h, path, c, "!r:" + p, AtomMeaning(h, NoMatch(p), c));
  }

  /** n: without a comparison searches like r:. */
  lemma CaptureSearches(h: Host, path: string, c: string, p: string)
    requires Subject(path) && h.fileContent(path) == Some(c) && Single("n:" + p) && NumCompare("n:" + p).None?
    ensures var v := RuleVerdict(h, FileRule(path, "n:" + p));
      (v == Yes <==> h.compiles(p) && h.matches(p, c)) && (v == No <==> h.compiles(p) && !h.matches(p, c))
  {
    CaptureReadsBack(p);
    SingleVerdict(h, path, c, "n:" + p, AtomMeaning(h, Capture(p), c));
  }

  ghost predicate Occurs(t: string, c: string) { exists left, right :: c == left + t + right }

  lemma OccursIsContains(t: string, c: string)
    ensures Occurs(t, c) <==> Contains(c, t)
  {
    if Contains(c, t) {
      var i := Index(c, t);
      assert c == c[..i] + t + c[i + |t|..];
    }
    if Occurs(t, c) {
      var left, right :| c == left + t + right;
      assert OccursAt(c, t, |left|);
    }
  }

  /** Text that is none of the special forms. */
  predicate Literal(t: string) {
    Single(t) && t[0] != '!' && !HasPrefixFold(t, "r:") && !HasPrefixFold(t, "n:")
  }

  /** Plain text is looked for literally, and !text is its negation. */
  lemma LiteralRules(h: Host, path: string, c: string, t: string)
    requires Subject(path) && h.fileContent(path) == Some(c) && Literal(t) && Single("!" + t)
    ensures RuleVerdict(h, FileRule(path, t)) == if Occurs(t, c) then Yes else No
    ensures RuleVerdict(h, FileRule(path, "!" + t)) == if Occurs(t, c) then No else Yes
  {
    LiteralMeaning(h, c, t);
    SingleVerdict(h, path, c, t, Truth(Occurs(t, c)));
    SingleVerdict(h, path, c, "!" + t, Truth(!Occurs(t, c)));
  }

  lemma LiteralMeaning(h: Host, c: string, t: string)
    requires Literal(t)
    ensures AtomMeaning(h, ParseAtom(t), c) == Truth(Occurs(t, c))
    ensures AtomMeaning(h, ParseAtom("!" + t), c) == Truth(!Occurs(t, c))
  {
    OccursIsContains(t, c);
    PresentReadsBack(t);
    AbsentReadsBack(t);
  }

  /** The relation an operator names. */
  ghost predicate Stands(x: int, operator: string, y: int) {
    || (operator == "<" && x < y) || (operator == "<=" && x <= y)
    || (operator == ">" && x > y) || (operator == ">=" && x >= y)
    || ((operator == "==" || operator == "=") && x == y) || (operator == "!=" && x != y)
  }

  const OPERATORS := ["<", "<=", ">", ">=", "==", "=", "!="]

  function OpOf(operator: string): (op: Op)
    requires operator in OPERATORS
    ensures Spells(operator, op)
  {
    if operator == "<" then Lt else if operator == "<=" then Le else if operator == ">" then Gt
    else if operator == ">=" then Ge else if operator == "!=" then Ne else Eq
  }

  lemma StandsIsHolds(x: int, operator: string, y: int)
    requires operator in OPERATORS
    ensures Stands(x, operator, y) <==> Holds(x, OpOf(operator), y)
  {
    assert "<"[0] == '<' && "<="[0] == '<' && ">"[0] == '>' && ">="[0] == '>' && "="[0] == '=' && "=="[0] == '=' && "!="[0] == '!';
  }

  /** A numeric comparison is true exactly when the pattern compiles and finds a number that stands in
      the named relation to the target; text found that is no number makes it false, a target out of
      range unevaluable. */
  lemma ComparisonRules(h: Host, path: string, c: string, p: string, operator: string, t: string)
    requires Subject(path) && h.fileContent(path) == Some(c) && operator in OPERATORS && PatternText(p) && TargetText(t)
    requires Single("n:" + (p + ClauseText(operator, t)))
    ensures
      var v := RuleVerdict(h, FileRule(path, "n:" + (p + ClauseText(operator, t))));
      var found := h.captured(p, c);
      var number := if found.Some? then ParseInt64(TrimSpace(found.value)) else None;
      && (!h.compiles(p) ==> v.Err?)
      && (h.compiles(p) && number.None? ==> v == No)
      && (h.compiles(p) && number.Some? ==>
           if ParseInt64(t).None? then v.Err? else v == if Stands(number.value, operator, ParseInt64(t).value) then Yes else No)
  {
    var test := "n:" + (p + ClauseText(operator, t));
    ComparisonReadsBack(p, OpOf(operator), operator, t);
    var v := AtomMeaning(h, Compare(p, OpOf(operator), t), c);
    SingleVerdict(h, path, c, test, v);
    ComparisonMeaning(h, c, p, operator, t, v);
  }

  lemma ComparisonMeaning(h: Host, c: string, p: string, operator: string, t: string, v: Verdict)
    requires operator in OPERATORS && v == AtomMeaning(h, Compare(p, OpOf(operator), t), c)
    ensures
      var found := h.captured(p, c);
      var number := if found.Some? then ParseInt64(TrimSpace(found.value)) else None;
      && (!h.compiles(p) ==> v.Err?)
      && (h.compiles(p) && number.None? ==> v == No)
      && (h.compiles(p) && number.Some? ==>
           if ParseInt64(t).None? then v.Err? else v == if Stands(number.value, operator, ParseInt64(t).value) then Yes else No)
  {
    var found := h.captured(p, c);
    if found.Some? && ParseInt64(TrimSpace(found.value)).Some? && ParseInt64(t).Some? {
      StandsIsHolds(ParseInt64(TrimSpace(found.value)).value, operator, ParseInt64(t).value);
    }
  }

  function Numeral(x: int): string { if x < 0 then "-" + Decimal(-x) else Decimal(x) }

  lemma NumeralIsTarget(x: int)
    requires MIN_INT64 <= x <= MAX_INT64
    ensures TargetText(Numeral(x)) && ParseInt64(Numeral(x)) == Some(x)
  {
    var n: nat := if x < 0 then -x else x;
    NumeralParses(n);
    var d := Decimal(n);
    forall i | 0 <= i < |d| ensures IsDigit(d[i]) { assert d[i] in d; }
  }

  /** Between two written numbers the comparison is the one the operator names. */
  lemma NumbersCompare(h: Host, path: string, c: string, p: string, operator: string, x: int, y: int)
    requires Subject(path) && h.fileContent(path) == Some(c) && operator in OPERATORS && PatternText(p)
    requires MIN_INT64 <= x <= MAX_INT64 && MIN_INT64 <= y <= MAX_INT64
    requires h.compiles(p) && h.captured(p, c) == Some(Numeral(x)) && Single("n:" + (p + ClauseText(operator, Numeral(y))))
    ensures RuleVerdict(h, FileRule(path, "n:" + (p + ClauseText(operator, Numeral(y))))) ==
      if Stands(x, operator, y) then Yes else No
  {
    NumeralIsTarget(x);
    NumeralIsTarget(y);
    NumeralTrimmed(x);
    ComparisonRules(h, path, c, p, operator, Numeral(y));
  }

  lemma NumeralTrimmed(x: int)
    ensures TrimSpace(Numeral(x)) == Numeral(x)
  {
    var s := Numeral(x);
    var d := Decimal(if x < 0 then -x else x);
    assert d[0] in d && d[|d| - 1] in d;
    assert s[|s| - 1] == d[|d| - 1];
    TrimmedIsFixed(s);
  }

  // ---------------------------------------------------------------- chains

  function AtomThere(h: Host, text: Option<string>, a: Atom): Verdict {
    if text.None? then No else AtomMeaning(h, a, text.value)
  }

  lemma SingleThere(h: Host, path: string, t: string)
    requires Subject(path) && Single(t)
    ensures RuleVerdict(h, FileRule(path, t)) == AtomThere(h, h.fileContent(path), ParseAtom(t))
  {
    FileVerdict(h, path, t);
    if h.fileContent(path).Some? { SingleMeaning(h, t, h.fileContent(path).value); }
  }

  lemma PairThere(h: Host, path: string, chain: string, a: Atom, b: Atom)
    requires Subject(path) && chain != "" && Trimmed(chain) && ParseTest(chain) == [a, b]
    ensures var text := h.fileContent(path);
      RuleVerdict(h, FileRule(path, chain)) == if AtomThere(h, text, a) == Yes then AtomThere(h, text, b) else AtomThere(h, text, a)
  {
    FileVerdict(h, path, chain);
    if h.fileContent(path).Some? { PairMeaning(h, a, b, h.fileContent(path).value); }
  }

  lemma PairMeaning(h: Host, a: Atom, b: Atom, c: string)
    ensures TestMeaning(h, [a, b], c) == if AtomMeaning(h, a, c) == Yes then AtomMeaning(h, b, c) else AtomMeaning(h, a, c)
  {
    var v, w := AtomMeaning(h, a, c), AtomMeaning(h, b, c);
    assert AtomVerdicts(h, [a, b], c) == [v, w];
    assert [v, w][1..] == [w];
    FirstOfOne(w, Yes);
  }

  /** A chain of a test and another or a blank one. */
  lemma ParsesPair(t: string, u: string)
    requires Single(t) && (u == "" || Single(u))
    ensures var chain := Leading(t) + "&&" + Trailing(u);
      chain != "" && Trimmed(chain) && ParseTest(chain) == [ParseAtom(t), ParseAtom(u)]
  {
    if u == "" { BlankIsFree(); }
    var chain := PrintChain([t, u]);
    assert [t, u][1..] == [u];
    ChainTrimmed([t, u]);
    TrimmedIsFixed(chain);
    ChainSplits("", [t, u]);
    assert "" + chain == chain;
    PairOfParts(Split(chain, "&&"), t, u);
  }

  lemma PairOfParts(parts: seq<string>, t: string, u: string)
    requires TrimmedParts(parts, [t, u])
    ensures ParseParts(parts) == [ParseAtom(t), ParseAtom(u)]
  {
    assert TrimSpace(parts[0]) == [t, u][0] && TrimSpace(parts[1]) == [t, u][1];
  }

  /** t && u is true exactly when both tests are, and unevaluable exactly when the first is, or the
      first is true and the second is unevaluable. */
  lemma ChainRules(h: Host, path: string, t: string, u: string)
    requires Subject(path) && Single(t) && Single(u)
    ensures
      var first, second := RuleVerdict(h, FileRule(path, t)), RuleVerdict(h, FileRule(path, u));
      RuleVerdict(h, FileRule(path, (t + " ") + "&&" + (" " + u))) == if first == Yes then second else first
  {
    ParsesPair(t, u);
    SingleThere(h, path, t);
    SingleThere(h, path, u);
    PairThere(h, path, Leading(t) + "&&" + Trailing(u), ParseAtom(t), ParseAtom(u));
  }

  /** A blank test in a chain is true. */
  lemma BlankTests(h: Host, path: string, t: string, chain: string)
    requires Subject(path) && Single(t) && chain == (t + " ") + "&&"
    ensures RuleVerdict(h, FileRule(path, chain)) == RuleVerdict(h, FileRule(path, t))
  {
    ParsesPair(t, "");
    assert chain == Leading(t) + "&&" + Trailing("");
    SingleThere(h, path, t);
    BlankThere(h, path, chain, ParseAtom(t));
  }

  lemma BlankThere(h: Host, path: string, chain: string, a: Atom)
    requires Subject(path) && chain != "" && Trimmed(chain) && ParseTest(chain) == [a, Anything]
    ensures RuleVerdict(h, FileRule(path, chain)) == AtomThere(h, h.fileContent(path), a)
  {
    BlankIsTrue(h, h.fileContent(path), a);
    PairThere(h, path, chain, a, Anything);
  }

  lemma BlankIsTrue(h: Host, text: Option<string>, a: Atom)
    ensures (if AtomThere(h, text, a) == Yes then AtomThere(h, text, Anything) else AtomThere(h, text, a)) == AtomThere(h, text, a)
  {
  }

  // ---------------------------------------------------------------- directories

  lemma DirVerdict(h: Host, dir: string, test: string)
    requires Subject(dir) && test != "" && Trimmed(test)
    ensures RuleVerdict(h, DirRule(dir, test)) ==
      if h.dirEntries(dir).None? then No
      else EntriesMeaning(h, dir, ParseEntry(CutResult(dir, test, true)).value, h.dirEntries(dir).value)
  {
    CutsArrow(dir, test);
    var c := CutArrow(WithArrow(dir, test));
    SameEntry(c, CutResult(dir, test, true));
    Kinds(CutArrow(WithArrow(dir, test)));
    var entries := h.dirEntries(dir);
    var v := if entries.None? then No else EntriesMeaning(h, dir, ParseEntry(c).value, entries.value);
    VerdictOf(h, 'd', DirRule(dir, test), WithArrow(dir, test), Dir(dir, ParseEntry(c)), v);
  }

  lemma SameEntry(c: CutResult, d: CutResult)
    requires c.found && d.found && c.after == d.after
    ensures ParseEntry(c) == ParseEntry(d)
  {
  }

  /** A search that no entry makes unevaluable. */
  lemma {:induction false} SearchAll(vs: seq<Verdict>)
    requires forall i :: 0 <= i < |vs| ==> !vs[i].Err?
    ensures FirstOther(vs, No) == if Yes in vs then Yes else No
  {
    if vs != [] { SearchAll(vs[1..]); }
  }

  /** A directory rule with a pattern for the name is true exactly when some entry matches it. */
  lemma DirNameRules(h: Host, dir: string, names: seq<string>, p: string)
    requires Subject(dir) && h.dirEntries(dir) == Some(names) && Single("r:" + p) && Free("r:" + p, "->") && h.compiles(p)
    ensures RuleVerdict(h, DirRule(dir, "r:" + p)) ==
      if exists n :: n in names && h.matches(p, n) then Yes else No
  {
    var test := "r:" + p;
    DirVerdict(h, dir, test);
    CutsNone(test);
    TrimmedIsFixed(test);
    MatchReadsBack(p);
    var e := EntryTest(ParseTest(test), None);
    assert ParseEntry(CutResult(dir, test, true)) == Some(e);
    var vs := EntryVerdicts(h, dir, e, names);
    forall i | 0 <= i < |names| ensures vs[i] == if h.matches(p, names[i]) then Yes else No { SingleMeaning(h, test, names[i]); }
    SearchAll(vs);
    if n :| n in names && h.matches(p, n) {
      var i :| 0 <= i < |names| && names[i] == n;
      assert vs[i] in vs;
    }
  }

  /** With a second pattern it is true exactly when some matching entry can be read, under the
      directory's name with one slash in between, and its content matches. */
  lemma DirContentRules(h: Host, dir: string, names: seq<string>, p: string, q: string)
    requires Subject(dir) && h.dirEntries(dir) == Some(names) && h.compiles(p) && h.compiles(q)
    requires Single("r:" + p) && Free("r:" + p, "->") && Single("r:" + q)
    requires dir[|dir| - 1] != '/' && dir[|dir| - 1] != '\\'
    ensures RuleVerdict(h, DirRule(dir, WithArrow("r:" + p, "r:" + q))) ==
      if exists n :: n in names && h.matches(p, n) && Readable(h, dir, n, q) then Yes else No
  {
    var test := WithArrow("r:" + p, "r:" + q);
    CutsArrow("r:" + p, "r:" + q);
    DirVerdict(h, dir, test);
    TrimmedIsFixed("r:" + p);
    var e := EntryTest(ParseTest("r:" + p), Some(ParseTest("r:" + q)));
    assert ParseEntry(CutResult(dir, test, true)) == Some(e);
    var vs := EntryVerdicts(h, dir, e, names);
    forall i | 0 <= i < |names|
      ensures vs[i] == if h.matches(p, names[i]) && Readable(h, dir, names[i], q) then Yes else No
    {
      EntryAnswer(h, dir, names[i], p, q);
    }
    SearchAll(vs);
    if n :| n in names && h.matches(p, n) && Readable(h, dir, n, q) {
      var i :| 0 <= i < |names| && names[i] == n;
      assert vs[i] in vs;
    }
  }

  /** The entry's content can be read and matches. */
  ghost predicate Readable(h: Host, dir: string, n: string, q: string) {
    var content := h.fileContent(dir + "/" + n);
    content.Some? && h.matches(q, content.value)
  }

  lemma EntryAnswer(h: Host, dir: string, n: string, p: string, q: string)
    requires Single("r:" + p) && Single("r:" + q) && h.compiles(p) && h.compiles(q)
    requires dir != "" && dir[|dir| - 1] != '/' && dir[|dir| - 1] != '\\'
    ensures EntryMeaning(h, dir, EntryTest(ParseTest("r:" + p), Some(ParseTest("r:" + q))), n) ==
      if h.matches(p, n) && Readable(h, dir, n, q) then Yes else No
  {
    SearchMeaning(h, p, n);
    var content := h.fileContent(dir + "/" + n);
    if content.Some? { SearchMeaning(h, q, content.value); }
    assert WithoutSlashes(dir) == dir;
  }

  lemma SearchMeaning(h: Host, p: string, subject: string)
    requires Single("r:" + p) && h.compiles(p)
    ensures TestMeaning(h, ParseTest("r:" + p), subject) == if h.matches(p, subject) then Yes else No
  {
    MatchReadsBack(p);
    SingleMeaning(h, "r:" + p, subject);
  }

  /** Slashes at the end of the directory do not matter to where its entries are read. */
  lemma {:induction false} TrailingSlashes(dir: string, slashes: string)
    requires dir != "" && dir[|dir| - 1] != '/' && dir[|dir| - 1] != '\\'
    requires forall i :: 0 <= i < |slashes| ==> slashes[i] == '/' || slashes[i] == '\\'
    ensures WithoutSlashes(dir + slashes) == dir
    decreases |slashes|
  {
    if slashes == "" {
      assert dir + slashes == dir;
    } else {
      var n := |slashes| - 1;
      assert (dir + slashes)[..|dir + slashes| - 1] == dir + slashes[..n];
      TrailingSlashes(dir, slashes[..n]);
    }
  }

  /** The first entry that cannot be evaluated, before any that is true, makes the rule unevaluable. */
  lemma DirFirstError(h: Host, dir: string, names: seq<string>, p: string)
    requires Subject(dir) && h.dirEntries(dir) == Some(names) && names != [] && Single("r:" + p) && Free("r:" + p, "->")
    requires !h.compiles(p)
    ensures RuleVerdict(h, DirRule(dir, "r:" + p)).Err?
  {
    var test := "r:" + p;
    DirVerdict(h, dir, test);
    CutsNone(test);
    TrimmedIsFixed(test);
    MatchReadsBack(p);
    var e := EntryTest(ParseTest(test), None);
    assert ParseEntry(CutResult(dir, test, true)) == Some(e);
    SingleMeaning(h, test, names[0]);
    assert EntryVerdicts(h, dir, e, names)[0].Err?;
  }

  // ---------------------------------------------------------------- spelling

  /** Letter case in not and in the rule type, and blanks around a rule, do not matter. */
  lemma SpellingDoesNotMatter(h: Host, word: string, kind: char, after: string, left: string, right: string)
    requires Lower(word) == "not " && IsKind(kind) && EndsWell(after)
    requires AllSpace(left) && AllSpace(right)
    ensures RuleVerdict(h, [(kind as int - 32) as char] + ":" + after) == RuleVerdict(h, [kind] + ":" + after)
    ensures RuleVerdict(h, word + ([kind] + ":" + after)) == RuleVerdict(h, "not " + ([kind] + ":" + after))
    ensures RuleVerdict(h, left + ([kind] + ":" + after) + right) == RuleVerdict(h, [kind] + ":" + after)
  {
    NotParses(word, kind, after);
    KindParses(kind, after);
    BlanksAround([kind] + ":" + after, left, right);
  }

  lemma NotParses(word: string, kind: char, after: string)
    requires Lower(word) == "not " && IsKind(kind) && EndsWell(after)
    ensures var text := [kind] + ":" + after; ParseRule(word + text) == ParseRule("not " + text)
  {
    var text := [kind] + ":" + after;
    PrefixedTrimmed(kind, after);
    LowerNot(word);
    NotSpelling(word, "not ", text);
  }

  lemma NotSpelling(word: string, other: string, text: string)
    requires |word| == 4 && HasPrefixFold(word, "not ") && !IsSpace(word[0])
    requires |other| == 4 && HasPrefixFold(other, "not ") && !IsSpace(other[0]) && text != "" && Trimmed(text)
    ensures ParseRule(word + text) == ParseRule(other + text)
  {
    ParsesNot(word, text);
    ParsesNot(other, text);
  }

  lemma KindParses(kind: char, after: string)
    requires IsKind(kind) && EndsWell(after)
    ensures ParseRule([(kind as int - 32) as char] + ":" + after) == ParseRule([kind] + ":" + after)
  {
    var b, text := ParseKind(kind, CutArrow(after)).value, [kind, ':'] + after;
    assert text == [kind] + ":" + after;
    ParsesPlain(kind, text, after, b);
    UpperKind(kind, after, b);
  }

  lemma LowerNot(word: string)
    requires Lower(word) == "not "
    ensures |word| == 4 && HasPrefixFold(word, "not ") && !IsSpace(word[0])
  {
    LowerPrefix(word, "not ");
    LetterN(word[0]);
  }

  lemma LetterN(c: char)
    ensures LowerChar(c) == 'n' ==> !IsSpace(c)
  {
  }

  lemma LowerPrefix(word: string, prefix: string)
    requires Lower(word) == prefix
    ensures |word| == |prefix| && HasPrefixFold(word, prefix) && (prefix != "" ==> LowerChar(word[0]) == prefix[0])
  {
    forall i | 0 <= i < |prefix| ensures LowerChar(word[i]) == LowerChar(prefix[i]) {
      assert prefix[i] == LowerChar(word[i]);
    }
  }

  lemma BlanksAround(text: string, left: string, right: string)
    requires AllSpace(left) && AllSpace(right)
    ensures ParseRule(left + text + right) == ParseRule(text)
  {
    TrimAround(text, left, right);
    TrimDecides(left + text + right, text);
  }

  lemma TrimAround(text: string, left: string, right: string)
    requires AllSpace(left) && AllSpace(right)
    ensures TrimSpace(left + text + right) == TrimSpace(text)
  {
    var l, r := TrimSpaceSplits(text);
    var core := TrimSpace(text);
    SpacesJoin(left, l);
    SpacesJoin(r, right);
    Regrouped(left, l, core, r, right);
    TrimPadded(left + l, core, r + right);
  }

  lemma SpacesJoin(x: string, y: string)
    requires AllSpace(x) && AllSpace(y)
    ensures AllSpace(x + y)
  {
  }

  lemma Regrouped(a: string, b: string, c: string, d: string, e: string)
    ensures a + (b + c + d) + e == (a + b) + c + (d + e)
  {
  }

  lemma TrimDecides(a: string, b: string)
    requires TrimSpace(a) == TrimSpace(b)
    ensures ParseRule(a) == ParseRule(b)
  {
  }

  lemma UpperKind(kind: char, after: string, b: Body)
    requires IsKind(kind) && EndsWell(after) && ParseKind(kind, CutArrow(after)) == Some(b)
    ensures ParseRule([(kind as int - 32) as char] + ":" + after) == Rule(false, b)
  {
    var upper := (kind as int - 32) as char;
    var text := [upper] + ":" + after;
    LetterReadsBack(upper, kind, after, b);
    if after != "" { assert text[|text| - 1] == after[|after| - 1]; }
    PrefixDiffers(text, "not ", 0);
    ParsesTrimmed(text);
  }

  lemma LetterReadsBack(letter: char, kind: char, after: string, b: Body)
    requires LowerChar(letter) == kind && !IsSpace(letter) && letter != ':' && ParseKind(kind, CutArrow(after)) == Some(b)
    ensures ParseBody([letter] + ":" + after) == Rule(false, b)
  {
    var text := [letter] + ":" + after;
    IndexOfChar([letter], ':', after);
    assert text[..1] == [letter] && text[2..] == after;
    TrimmedIsFixed([letter]);
    assert Lower([letter]) == [kind];
  }

  // ---------------------------------------------------------------- text that is no rule

  /** A text without a colon, or with a type that is none of the five letters, is unevaluable. */
  lemma UnknownRulesErr(h: Host, text: string, kind: string, after: string)
    requires ':' !in text && !HasPrefixFold(TrimSpace(text), "not ")
    requires ':' !in kind && Trimmed(kind) && (|kind| != 1 || !IsKind(LowerChar(kind[0])))
    ensures RuleVerdict(h, text).Err?
    ensures ParseBody(kind + ":" + after).Malformed?
  {
    NoColon(text);
    UnknownKind(kind, after);
  }

  lemma NoColon(text: string)
    requires ':' !in text && !HasPrefixFold(TrimSpace(text), "not ")
    ensures ParseRule(text).Malformed?
  {
    var left, right := TrimSpaceSplits(text);
    assert ':' !in TrimSpace(text);
    FreeOfChar(TrimSpace(text), ':');
    assert [':'] == ":";
  }

  lemma UnknownKind(kind: string, after: string)
    requires ':' !in kind && Trimmed(kind) && (|kind| != 1 || !IsKind(LowerChar(kind[0])))
    ensures ParseBody(kind + ":" + after).Malformed?
  {
    var text := kind + ":" + after;
    IndexOfChar(kind, ':', after);
    assert [':'] == ":" && text[..|kind|] == kind;
    TrimmedIsFixed(kind);
  }
}
