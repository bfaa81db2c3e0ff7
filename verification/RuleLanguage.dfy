/** The benchmark rule language: rules written as text, evaluated directly on that text. The
    syntax tree below gives the language a meaning that does not mention text at all. */
module RuleSyntax {
  import opened Text

  datatype Op = Lt | Le | Gt | Ge | Eq | Ne

  /** One content test. Anything is the blank test, which holds of every subject. */
  datatype Atom =
    | Match(pattern: string)
    | NoMatch(pattern: string)
    | Capture(pattern: string)
    | Compare(pattern: string, op: Op, target: string)
    | Absent(text: string)
    | Present(text: string)
    | Anything

  type Test = seq<Atom>

  datatype Body =
    | File(path: string, test: Option<Test>)
    | Dir(path: string, entry: Option<EntryTest>)
    | Process(name: string)
    | Command(cmd: string, test: Option<Test>)
    | Registry(key: string, value: Option<ValueTest>)

  datatype EntryTest = EntryTest(name: Test, content: Option<Test>)
  datatype ValueTest = ValueTest(name: string, content: Option<Test>)

  datatype Reason =
    | NoPrefix(rule: string)
    | Unsupported(kind: string, rule: string)
    | BadPattern(pattern: string)
    | BadTarget(target: string)
    | NoRules
    | UnknownCondition(condition: string)

  datatype Rule = Rule(negated: bool, body: Body) | Malformed(reason: Reason)

  // ---------------------------------------------------------------- reading text

  predicate HasPrefixFold(s: string, prefix: string) {
    |s| >= |prefix| && forall i :: 0 <= i < |prefix| ==> LowerChar(s[i]) == LowerChar(prefix[i])
  }

  function CutPrefixFold(s: string, prefix: string): Option<string> {
    if HasPrefixFold(s, prefix) then Some(s[|prefix|..]) else None
  }

  /** Cut on the first arrow; only the part after it is trimmed. */
  function CutArrow(s: string): CutResult {
    var c := Cut(s, "->");
    CutResult(c.before, TrimSpace(c.after), c.found)
  }

  /** \s of the regular expression language. */
  predicate RegexSpace(c: char) { c == ' ' || c == '\t' || c == '\n' || c == '\r' || c == '\U{000C}' }

  function SpaceEnd(s: string, i: nat): (r: nat)
    requires i <= |s|
    ensures i <= r <= |s| && (r < |s| ==> !RegexSpace(s[r]))
    ensures forall k :: i <= k < r ==> RegexSpace(s[k])
    decreases |s| - i
  {
    if i < |s| && RegexSpace(s[i]) then SpaceEnd(s, i + 1) else i
  }

  function SkipSpaces(s: string): string { s[SpaceEnd(s, 0)..] }

  function DigitsEnd(s: string, i: nat): (r: nat)
    requires i <= |s|
    ensures i <= r <= |s| && (r < |s| ==> !IsDigit(s[r]))
    ensures forall k :: i <= k < r ==> IsDigit(s[k])
    decreases |s| - i
  {
    if i < |s| && IsDigit(s[i]) then DigitsEnd(s, i + 1) else i
  }

  function TwoCharOp(c: char): Option<Op> {
    if c == '<' then Some(Le) else if c == '>' then Some(Ge)
    else if c == '=' then Some(Eq) else if c == '!' then Some(Ne) else None
  }

  function OneCharOp(c: char): Option<Op> {
    if c == '<' then Some(Lt) else if c == '>' then Some(Gt) else if c == '=' then Some(Eq) else None
  }

  /** The first alternative of <=|>=|==|!=|<|>|= that starts s, and how long it is. */
  function ReadOp(s: string): Option<(Op, nat)> {
    if |s| >= 2 && s[1] == '=' && TwoCharOp(s[0]).Some? then Some((TwoCharOp(s[0]).value, 2))
    else if |s| >= 1 && OneCharOp(s[0]).Some? then Some((OneCharOp(s[0]).value, 1))
    else None
  }

  function SignLength(s: string): nat { if s != "" && s[0] == '-' then 1 else 0 }

  /** (-?\d+)\s*$ */
  function ReadTarget(s: string): Option<string> {
    var d := DigitsEnd(s, SignLength(s));
    if d == SignLength(s) || SpaceEnd(s, d) != |s| then None else Some(s[..d])
  }

  /** \s+(op)\s+(target)$, after the word compare */
  function AfterCompare(s: string): Option<(Op, string)> {
    if s == "" || !RegexSpace(s[0]) then None
    else
      match ReadOp(SkipSpaces(s))
      case None => None
      case Some((op, n)) =>
        var rest := SkipSpaces(s)[n..];
        if rest == "" || !RegexSpace(rest[0]) then None
        else
          match ReadTarget(SkipSpaces(rest))
          case None => None
          case Some(target) => Some((op, target))
  }

  /** \s+compare\s+(op)\s+(target)\s*$ */
  function CompareTail(s: string): Option<(Op, string)> {
    if s == "" || !RegexSpace(s[0]) then None
    else
      match CutPrefixFold(SkipSpaces(s), "compare")
      case None => None
      case Some(rest) => AfterCompare(rest)
  }

  /** The lazy (.*?) in front of the tail: the shortest newline-free pattern that leaves a tail. */
  function ShortestPattern(s: string, k: nat): (r: Option<Atom>)
    requires k <= |s|
    ensures r.Some? ==> r.value.Compare?
    decreases |s| - k
  {
    match CompareTail(s[k..])
    case Some((op, target)) => Some(Compare(s[..k], op, target))
    case None => if k < |s| && s[k] != '\n' then ShortestPattern(s, k + 1) else None
  }

  /** n:<pattern> compare <op> <number>, case-insensitively. */
  function NumCompare(test: string): Option<Atom> {
    match CutPrefixFold(test, "n:")
    case None => None
    case Some(rest) => ShortestPattern(rest, 0)
  }

  function ParseAtom(test: string): Atom {
    if test == "" then Anything
    else match NumCompare(test)
      case Some(a) => a
      case None =>
        match CutPrefixFold(test, "!r:")
        case Some(rest) => NoMatch(rest)
        case None =>
          match CutPrefixFold(test, "r:")
          case Some(rest) => Match(rest)
          case None =>
            match CutPrefixFold(test, "n:")
            case Some(rest) => Capture(rest)
            case None => if test[0] == '!' then Absent(test[1..]) else Present(test)
  }

  function ParseParts(parts: seq<string>): (atoms: seq<Atom>)
    ensures |atoms| == |parts|
    ensures forall i :: 0 <= i < |parts| ==> atoms[i] == ParseAtom(TrimSpace(parts[i]))
  {
    seq(|parts|, i requires 0 <= i < |parts| => ParseAtom(TrimSpace(parts[i])))
  }

  function ParseTest(test: string): Test {
    if TrimSpace(test) == "" then [] else ParseParts(Split(TrimSpace(test), "&&"))
  }

  function ParseOptionalTest(c: CutResult): Option<Test> {
    if c.found then Some(ParseTest(c.after)) else None
  }

  /** The five kinds, given the text before and after the first arrow. */
  function ParseKind(kind: char, arrow: CutResult): Option<Body> {
    var subject := TrimSpace(arrow.before);
    if kind == 'f' then Some(File(subject, ParseOptionalTest(arrow)))
    else if kind == 'd' then Some(Dir(subject, ParseEntry(arrow)))
    else if kind == 'p' then Some(Process(subject))
    else if kind == 'c' then Some(Command(subject, ParseOptionalTest(arrow)))
    else if kind == 'r' then Some(Registry(subject, ParseValue(arrow)))
    else None
  }

  function ParseEntry(arrow: CutResult): Option<EntryTest> {
    var inner := CutArrow(arrow.after);
    if arrow.found then Some(EntryTest(ParseTest(TrimSpace(inner.before)), ParseOptionalTest(inner))) else None
  }

  function ParseValue(arrow: CutResult): Option<ValueTest> {
    var inner := CutArrow(arrow.after);
    if arrow.found then Some(ValueTest(TrimSpace(inner.before), ParseOptionalTest(inner))) else None
  }

  function ParseBody(rule: string): (r: Rule)
    ensures r.Rule? ==> !r.negated
  {
    var head := Cut(rule, ":");
    if !head.found then Malformed(NoPrefix(rule))
    else
      var arrow := CutArrow(head.after);
      var kind := Lower(TrimSpace(head.before));
      if |kind| == 1 && ParseKind(kind[0], arrow).Some? then Rule(false, ParseKind(kind[0], arrow).value)
      else Malformed(Unsupported(head.before, rule))
  }

  function ParseRule(raw: string): Rule {
    var rule := TrimSpace(raw);
    match CutPrefixFold(rule, "not ")
    case None => ParseBody(rule)
    case Some(rest) =>
      var r := ParseBody(TrimSpace(rest));
      if r.Malformed? then r else r.(negated := true)
  }

  // ---------------------------------------------------------------- writing text

  function OpText(op: Op): string {
    match op
    case Lt => "<"
    case Le => "<="
    case Gt => ">"
    case Ge => ">="
    case Eq => "=="
    case Ne => "!="
  }

  function ClauseText(operator: string, target: string): string {
    " " + ("compare" + (" " + (operator + (" " + target))))
  }

  function CompareClause(op: Op, target: string): string { ClauseText(OpText(op), target) }

  /** Equality has a second spelling. */
  predicate Spells(operator: string, op: Op) { operator == OpText(op) || (op.Eq? && operator == "=") }

  function PrintAtom(a: Atom): string {
    match a
    case Match(p) => "r:" + p
    case NoMatch(p) => "!r:" + p
    case Capture(p) => "n:" + p
    case Compare(p, op, target) => "n:" + (p + CompareClause(op, target))
    case Absent(t) => "!" + t
    case Present(t) => t
    case Anything => ""
  }

  function PrintAtoms(atoms: seq<Atom>): (r: seq<string>)
    ensures |r| == |atoms| && forall i :: 0 <= i < |atoms| ==> r[i] == PrintAtom(atoms[i])
  {
    seq(|atoms|, i requires 0 <= i < |atoms| => PrintAtom(atoms[i]))
  }

  /** Text in front of a separator or after it, set off by a blank unless there is none. */
  function Leading(s: string): string { if s == "" then "" else s + " " }

  function Trailing(s: string): string { if s == "" then "" else " " + s }

  function PrintChain(texts: seq<string>): string {
    if texts == [] then ""
    else if |texts| == 1 then texts[0]
    else Leading(texts[0]) + "&&" + Trailing(PrintChain(texts[1..]))
  }

  function PrintTest(t: Test): string { PrintChain(PrintAtoms(t)) }

  function Arrow(s: string, test: string): string { Leading(s) + "->" + Trailing(test) }

  function WithTest(s: string, t: Option<Test>): string {
    if t.None? then s else Arrow(s, PrintTest(t.value))
  }

  function KindChar(b: Body): char {
    match b
    case File(_, _) => 'f'
    case Dir(_, _) => 'd'
    case Process(_) => 'p'
    case Command(_, _) => 'c'
    case Registry(_, _) => 'r'
  }

  /** What follows the type prefix. */
  function PrintAfterKind(b: Body): string {
    match b
    case File(path, test) => WithTest(path, test)
    case Dir(path, None) => path
    case Dir(path, Some(e)) => Arrow(path, WithTest(PrintTest(e.name), e.content))
    case Process(name) => name
    case Command(cmd, test) => WithTest(cmd, test)
    case Registry(key, None) => key
    case Registry(key, Some(v)) => Arrow(key, WithTest(v.name, v.content))
  }

  function PrintBody(b: Body): string { [KindChar(b)] + ":" + PrintAfterKind(b) }

  function PrintRule(negated: bool, b: Body): string {
    (if negated then "not " else "") + PrintBody(b)
  }

  // ---------------------------------------------------------------- which trees can be written down

  predicate TargetText(t: string) {
    SignLength(t) < |t| && forall i :: SignLength(t) <= i < |t| ==> IsDigit(t[i])
  }

  /** The text of the atom reads back as this kind of atom and does not collide with && or the
      white space around it. */
  ghost predicate WritableAtom(a: Atom) {
    && PrintAtom(a) != "" && Trimmed(PrintAtom(a)) && Free(PrintAtom(a), "&&")
    && match a
       case Match(_) => true
       case NoMatch(_) => true
       case Capture(p) => NumCompare("n:" + p).None?
       case Compare(p, _, target) =>
         '\n' !in p && (p == "" || !RegexSpace(p[|p| - 1])) && TargetText(target)
       case Absent(t) => !HasPrefixFold(t, "r:")
       case Present(t) => t[0] != '!' && !HasPrefixFold(t, "r:") && !HasPrefixFold(t, "n:")
       case Anything => false
  }

  /** Blank tests may stand in a chain; a blank alone is written as the empty test. */
  ghost predicate WritableTest(t: Test) {
    t != [Anything] && forall a :: a in t ==> a == Anything || WritableAtom(a)
  }

  ghost predicate WritableOptional(t: Option<Test>) {
    t.Some? ==> WritableTest(t.value)
  }

  ghost predicate WritableSubject(s: string) {
    Trimmed(s) && Free(s, "->")
  }

  /** Only the subject, and whatever is followed by another arrow, must avoid arrows: the last
      test of a chain may contain them. */
  ghost predicate WritableBody(b: Body) {
    match b
    case File(path, test) => WritableSubject(path) && WritableOptional(test)
    case Dir(path, entry) =>
      WritableSubject(path) && (entry.Some? ==>
        WritableTest(entry.value.name) && Free(PrintTest(entry.value.name), "->") && WritableOptional(entry.value.content))
    case Process(name) => WritableSubject(name)
    case Command(cmd, test) => WritableSubject(cmd) && WritableOptional(test)
    case Registry(key, value) =>
      WritableSubject(key) && (value.Some? ==> WritableSubject(value.value.name) && WritableOptional(value.value.content))
  }
}

/** Printing a writable tree and parsing the text gives the tree back. */
module RuleRoundTrip {
  import opened Text
  import opened RuleSyntax

  // ---------------------------------------------------------------- the compare form

  lemma SkipOneBlank(s: string)
    requires s == "" || !RegexSpace(s[0])
    ensures SkipSpaces(" " + s) == s
  {
    var t := " " + s;
    assert SpaceEnd(t, 0) == 1;
    assert t[1..] == s;
  }

  lemma ReadOpReadsBack(op: Op, operator: string, rest: string)
    requires Spells(operator, op) && rest != "" && rest[0] == ' '
    ensures var s := operator + rest;
      ReadOp(s) == Some((op, |operator|)) && s[|operator|..] == rest && !RegexSpace(s[0])
  {
    var s := operator + rest;
    assert s[|operator|] == ' ';
  }

  lemma ReadTargetReadsBack(t: string)
    requires TargetText(t)
    ensures ReadTarget(t) == Some(t) && !RegexSpace(t[0])
  {
    assert DigitsEnd(t, SignLength(t)) == |t| && t[..|t|] == t;
  }

  lemma AfterCompareReadsBack(op: Op, operator: string, t: string)
    requires Spells(operator, op) && TargetText(t)
    ensures AfterCompare(" " + (operator + (" " + t))) == Some((op, t))
  {
    ReadOpReadsBack(op, operator, " " + t);
    SkipOneBlank(operator + (" " + t));
    ReadTargetReadsBack(t);
    SkipOneBlank(t);
  }

  lemma CutsPrefix(prefix: string, rest: string)
    ensures CutPrefixFold(prefix + rest, prefix) == Some(rest)
  {
    assert (prefix + rest)[..|prefix|] == prefix;
    assert (prefix + rest)[|prefix|..] == rest;
  }

  lemma CompareTailReadsBack(op: Op, operator: string, t: string)
    requires Spells(operator, op) && TargetText(t)
    ensures CompareTail(ClauseText(operator, t)) == Some((op, t))
  {
    var rest := " " + (operator + (" " + t));
    SkipOneBlank("compare" + rest);
    CutsPrefix("compare", rest);
    AfterCompareReadsBack(op, operator, t);
  }

  ghost predicate NoC(s: string) { forall i :: 0 <= i < |s| ==> s[i] != 'c' }

  lemma NoCAfter(s: string, n: nat)
    requires n <= |s| && NoC(s[n..])
    requires forall i :: 0 <= i < n ==> s[i] != 'c'
    ensures NoC(s)
  {
    forall i | n <= i < |s| ensures s[i] != 'c' { assert s[i] == s[n..][i - n]; }
  }

  lemma ReadTargetHasNoC(s: string)
    requires ReadTarget(s).Some?
    ensures NoC(s)
  {
    var d := DigitsEnd(s, SignLength(s));
    forall i | 0 <= i < |s| ensures s[i] != 'c' {
      if SignLength(s) <= i < d { assert IsDigit(s[i]); }
      if d <= i { assert RegexSpace(s[i]); }
    }
  }

  /** What follows the word compare never holds a letter c. */
  lemma AfterCompareHasNoC(s: string)
    requires AfterCompare(s).Some?
    ensures NoC(s)
  {
    var s1 := SkipSpaces(s);
    var n := ReadOp(s1).value.1;
    var rest := s1[n..];
    ReadTargetHasNoC(SkipSpaces(rest));
    NoCAfter(rest, SpaceEnd(rest, 0));
    NoCAfter(s1, n);
    NoCAfter(s, SpaceEnd(s, 0));
  }

  /** The word compare cannot straddle the blank that ends the pattern. */
  lemma WordEndsInPattern(s: string, q: nat, blank: nat)
    requires q <= blank < |s| && s[blank] == ' '
    requires HasPrefixFold(s[q..], "compare")
    ensures q + 7 <= blank
  {
  }

  /** A compare word before the real one cannot be followed by an operator and a number. */
  lemma OnlyLastCompareCounts(s: string, q: nat, blank: nat)
    requires q <= blank && blank + 1 < |s| && s[blank] == ' ' && s[blank + 1] == 'c'
    requires HasPrefixFold(s[q..], "compare")
    ensures AfterCompare(s[q..][7..]).None?
  {
    WordEndsInPattern(s, q, blank);
    var after := s[q..][7..];
    assert after[blank + 1 - q - 7] == s[blank + 1];
    if AfterCompare(after).Some? { AfterCompareHasNoC(after); }
  }

  lemma SkipFrom(s: string, k: nat)
    requires k <= |s|
    ensures SkipSpaces(s[k..]) == s[SpaceEnd(s, k)..]
  {
    var u := s[k..];
    var e := SpaceEnd(u, 0);
    assert e == SpaceEnd(s, k) - k by {
      if e < |u| { assert u[e] == s[k + e]; }
      if SpaceEnd(s, k) < |s| { assert u[SpaceEnd(s, k) - k] == s[SpaceEnd(s, k)]; }
    }
    assert u[e..] == s[k + e..];
  }

  /** No shorter pattern can be followed by a tail: it would need two compare words. */
  lemma NoEarlierTail(p: string, tail: string, k: nat)
    requires k < |p| && !RegexSpace(p[|p| - 1])
    requires |tail| >= 2 && tail[0] == ' ' && tail[1] == 'c'
    ensures CompareTail((p + tail)[k..]).None?
  {
    var s := p + tail;
    var q := SpaceEnd(s, k);
    SkipFrom(s, k);
    assert s[|p| - 1] == p[|p| - 1];
    if HasPrefixFold(s[q..], "compare") {
      OnlyLastCompareCounts(s, q, |p|);
    }
  }

  lemma {:induction false} ShortestPatternIs(p: string, tail: string, op: Op, t: string, k: nat)
    requires '\n' !in p && (p == "" || !RegexSpace(p[|p| - 1]))
    requires |tail| >= 2 && tail[0] == ' ' && tail[1] == 'c' && CompareTail(tail) == Some((op, t))
    requires k <= |p|
    ensures ShortestPattern(p + tail, k) == Some(Compare(p, op, t))
    decreases |p| - k
  {
    var s := p + tail;
    if k == |p| {
      assert s[k..] == tail && s[..k] == p;
    } else {
      NoEarlierTail(p, tail, k);
      assert s[k] == p[k] && p[k] in p;
      ShortestPatternIs(p, tail, op, t, k + 1);
    }
  }

  lemma PrefixDiffers(s: string, prefix: string, i: nat)
    requires i < |s| && i < |prefix| && LowerChar(s[i]) != LowerChar(prefix[i])
    ensures CutPrefixFold(s, prefix).None?
  {
  }

  lemma MatchReadsBack(p: string)
    ensures ParseAtom("r:" + p) == Match(p)
  {
    var s := "r:" + p;
    PrefixDiffers(s, "n:", 0);
    PrefixDiffers(s, "!r:", 0);
    CutsPrefix("r:", p);
  }

  lemma NoMatchReadsBack(p: string)
    ensures ParseAtom("!r:" + p) == NoMatch(p)
  {
    PrefixDiffers("!r:" + p, "n:", 0);
    CutsPrefix("!r:", p);
  }

  lemma CaptureReadsBack(p: string)
    requires NumCompare("n:" + p).None?
    ensures ParseAtom("n:" + p) == Capture(p)
  {
    var s := "n:" + p;
    PrefixDiffers(s, "!r:", 0);
    PrefixDiffers(s, "r:", 0);
    CutsPrefix("n:", p);
  }

  /** A pattern the lazy prefix of the numeric comparison can stand for. */
  predicate PatternText(p: string) { '\n' !in p && (p == "" || !RegexSpace(p[|p| - 1])) }

  /** Every operator in either spelling. */
  lemma ComparisonReadsBack(p: string, op: Op, operator: string, t: string)
    requires Spells(operator, op) && PatternText(p) && TargetText(t)
    ensures ParseAtom("n:" + (p + ClauseText(operator, t))) == Compare(p, op, t)
  {
    CutsPrefix("n:", p + ClauseText(operator, t));
    CompareTailReadsBack(op, operator, t);
    ShortestPatternIs(p, ClauseText(operator, t), op, t, 0);
  }

  lemma CompareReadsBack(p: string, op: Op, t: string)
    requires WritableAtom(Compare(p, op, t))
    ensures ParseAtom(PrintAtom(Compare(p, op, t))) == Compare(p, op, t)
  {
    ComparisonReadsBack(p, op, OpText(op), t);
  }

  lemma AbsentReadsBack(t: string)
    requires !HasPrefixFold(t, "r:")
    ensures ParseAtom("!" + t) == Absent(t)
  {
    var s := "!" + t;
    PrefixDiffers(s, "n:", 0);
    PrefixDiffers(s, "r:", 0);
    assert s[1..] == t;
    if |t| >= 2 { assert s[1] == t[0] && s[2] == t[1]; }
  }

  lemma PresentReadsBack(t: string)
    requires t != "" && t[0] != '!' && !HasPrefixFold(t, "r:") && !HasPrefixFold(t, "n:")
    ensures ParseAtom(t) == Present(t)
  {
    PrefixDiffers(t, "!r:", 0);
  }

  lemma AtomReadsBack(a: Atom)
    requires WritableAtom(a)
    ensures ParseAtom(PrintAtom(a)) == a
  {
    match a {
      case Match(p) => MatchReadsBack(p);
      case NoMatch(p) => NoMatchReadsBack(p);
      case Capture(p) => CaptureReadsBack(p);
      case Compare(p, op, t) => CompareReadsBack(p, op, t);
      case Absent(t) => AbsentReadsBack(t);
      case Present(t) => PresentReadsBack(t);
    }
  }

  // ---------------------------------------------------------------- && chains

  ghost predicate Separate(texts: seq<string>) {
    forall i :: 0 <= i < |texts| ==> Trimmed(texts[i]) && Free(texts[i], "&&")
  }

  lemma OccursTwo(s: string, sep: string, k: nat)
    requires |sep| == 2
    ensures OccursAt(s, sep, k) <==> k + 2 <= |s| && s[k] == sep[0] && s[k + 1] == sep[1]
  {
    if k + 2 <= |s| {
      assert s[k..k + 2] == [s[k], s[k + 1]] && sep == [sep[0], sep[1]];
    }
  }

  /** A two-character separator after a blank starts exactly where it was written. */
  lemma SeparatorIndex(x: string, sep: string, rest: string)
    requires |sep| == 2 && sep[0] != ' ' && sep[1] != ' '
    requires Free(x, sep)
    ensures Index((x + " ") + sep + rest, sep) == |x| + 1
  {
    var s := (x + " ") + sep + rest;
    OccursTwo(s, sep, |x| + 1);
    forall k: nat | k < |x| + 1 ensures !OccursAt(s, sep, k) {
      OccursTwo(s, sep, k);
      OccursTwo(x, sep, k);
      assert s[|x|] == ' ';
    }
    IndexIs(s, sep, |x| + 1);
  }

  lemma BlankStaysFree(t: string, sep: string)
    requires |sep| == 2 && sep[0] != ' ' && Free(t, sep)
    ensures Free(" " + t, sep)
  {
    forall k: nat ensures !OccursAt(" " + t, sep, k) {
      OccursTwo(" " + t, sep, k);
      if k > 0 { OccursTwo(t, sep, k - 1); }
    }
  }

  lemma LeadFree(lead: string, t: string)
    requires lead == "" || lead == " "
    requires Free(t, "&&")
    ensures Free(lead + t, "&&")
  {
    if lead == "" { assert lead + t == t; } else { BlankStaysFree(t, "&&"); }
  }

  ghost predicate TrimmedParts(parts: seq<string>, texts: seq<string>) {
    |parts| == |texts| && forall i :: 0 <= i < |texts| ==> TrimSpace(parts[i]) == texts[i]
  }

  lemma TrimmedPartsCons(x: string, parts: seq<string>, texts: seq<string>)
    requires texts != [] && TrimSpace(x) == texts[0] && TrimmedParts(parts, texts[1..])
    ensures TrimmedParts([x] + parts, texts)
  {
    forall i | 0 < i < |texts| ensures TrimSpace(([x] + parts)[i]) == texts[i] {
      assert ([x] + parts)[i] == parts[i - 1] && texts[i] == texts[1..][i - 1];
    }
  }

  /** A separator after optional text is found where it was written. */
  lemma LeadingIndex(lead: string, t: string, sep: string, rest: string)
    requires lead == "" || lead == " "
    requires |sep| == 2 && sep[0] != ' ' && sep[1] != ' ' && Free(lead + t, sep)
    ensures Index((lead + Leading(t)) + sep + rest, sep) == |lead + Leading(t)|
  {
    if t != "" {
      assert lead + Leading(t) == (lead + t) + " ";
      SeparatorIndex(lead + t, sep, rest);
    } else if lead == " " {
      assert lead + Leading(t) == "" + " ";
      SeparatorIndex("", sep, rest);
    } else {
      var s := (lead + Leading(t)) + sep + rest;
      assert s[..2] == sep;
      IndexIs(s, sep, 0);
    }
  }

  lemma LeadingTrims(lead: string, t: string)
    requires (lead == "" || lead == " ") && Trimmed(t)
    ensures TrimSpace(lead + Leading(t)) == t
  {
    if t == "" {
      TrimPadded(lead, "", "");
      assert lead + "" + "" == lead + Leading(t);
    } else {
      TrimPadded(lead, t, " ");
      assert lead + t + " " == lead + Leading(t);
    }
  }

  lemma {:induction false} ChainSplits(lead: string, texts: seq<string>)
    requires lead == "" || lead == " "
    requires texts != [] && Separate(texts)
    ensures TrimmedParts(Split(lead + PrintChain(texts), "&&"), texts)
    decreases |texts|
  {
    var t := texts[0];
    LeadFree(lead, t);
    if |texts| == 1 {
      TrimPadded(lead, t, "");
      assert lead + t + "" == lead + t;
    } else {
      var next := PrintChain(texts[1..]);
      var lead' := if next == "" then "" else " ";
      ChainText(lead, t, lead', next);
      SplitsFirst(lead, t, lead' + next);
      ChainSplits(lead', texts[1..]);
      TrimmedPartsCons(lead + Leading(t), Split(lead' + next, "&&"), texts);
    }
  }

  lemma ChainText(lead: string, t: string, lead': string, next: string)
    requires lead' == if next == "" then "" else " "
    ensures lead + (Leading(t) + "&&" + Trailing(next)) == (lead + Leading(t)) + "&&" + (lead' + next)
  {
    assert Trailing(next) == lead' + next;
    assert lead + (Leading(t) + "&&" + Trailing(next)) == (lead + Leading(t)) + "&&" + Trailing(next);
  }

  /** The first test of a chain, up to the first separator. */
  lemma SplitsFirst(lead: string, t: string, rest: string)
    requires (lead == "" || lead == " ") && Trimmed(t) && Free(lead + t, "&&")
    ensures Split((lead + Leading(t)) + "&&" + rest, "&&") == [lead + Leading(t)] + Split(rest, "&&")
    ensures TrimSpace(lead + Leading(t)) == t
  {
    LeadingIndex(lead, t, "&&", rest);
    SplitCons(lead + Leading(t), "&&", rest);
    LeadingTrims(lead, t);
  }

  lemma {:induction false} ChainTrimmed(texts: seq<string>)
    requires texts != [] && Separate(texts)
    ensures Trimmed(PrintChain(texts))
    ensures |texts| > 1 || texts[0] != "" ==> PrintChain(texts) != ""
  {
    if |texts| > 1 {
      ChainTrimmed(texts[1..]);
      SeparatedTrimmed(texts[0], "&&", PrintChain(texts[1..]));
    }
  }

  /** Trimmed text around a separator stays trimmed. */
  lemma SeparatedTrimmed(s: string, sep: string, t: string)
    requires Trimmed(s) && Trimmed(t) && |sep| == 2 && !IsSpace(sep[0]) && !IsSpace(sep[1])
    ensures var text := Leading(s) + sep + Trailing(t); text != "" && Trimmed(text)
  {
    var text := Leading(s) + sep + Trailing(t);
    assert text[0] == if s == "" then sep[0] else s[0];
    assert text[|text| - 1] == if t == "" then sep[1] else t[|t| - 1];
  }

  lemma AtomsSeparate(t: Test)
    requires WritableTest(t)
    ensures Separate(PrintAtoms(t))
    ensures |t| == 1 ==> PrintAtoms(t)[0] != ""
  {
    var texts := PrintAtoms(t);
    forall i | 0 <= i < |texts| ensures Trimmed(texts[i]) && Free(texts[i], "&&") {
      assert t[i] == Anything || WritableAtom(t[i]);
      if t[i] == Anything { BlankIsFree(); }
    }
    if |t| == 1 {
      assert t == [t[0]];
      assert t[0] == Anything || WritableAtom(t[0]);
    }
  }

  lemma BlankIsFree()
    ensures Free("", "&&")
  {
  }

  lemma AtomsReadBack(t: Test, parts: seq<string>)
    requires WritableTest(t) && TrimmedParts(parts, PrintAtoms(t))
    ensures ParseParts(parts) == t
  {
    forall i | 0 <= i < |t| ensures ParseAtom(TrimSpace(parts[i])) == t[i] {
      PartReadsBack(t[i], TrimSpace(parts[i]));
    }
  }

  lemma PartReadsBack(a: Atom, text: string)
    requires (a == Anything || WritableAtom(a)) && text == PrintAtom(a)
    ensures ParseAtom(text) == a
  {
    if a != Anything { AtomReadsBack(a); }
  }

  lemma TestReadsBack(t: Test)
    requires WritableTest(t)
    ensures Trimmed(PrintTest(t))
    ensures ParseTest(PrintTest(t)) == t
  {
    if t != [] {
      var texts := PrintAtoms(t);
      AtomsSeparate(t);
      ChainTrimmed(texts);
      var s := PrintChain(texts);
      TrimmedIsFixed(s);
      ChainSplits("", texts);
      assert "" + s == s;
      AtomsReadBack(t, Split(s, "&&"));
    }
  }

  // ---------------------------------------------------------------- arrows and whole rules

  lemma ArrowIndex(s: string, test: string)
    requires Free(s, "->")
    ensures Index(Arrow(s, test), "->") == |Leading(s)|
  {
    assert "" + s == s && "" + Leading(s) == Leading(s);
    LeadingIndex("", s, "->", Trailing(test));
  }

  /** Only the first arrow splits: a test that holds arrows itself survives whole. */
  lemma ArrowSplits(s: string, test: string)
    requires WritableSubject(s) && Trimmed(test)
    ensures var c := CutArrow(Arrow(s, test));
      c.found && TrimSpace(c.before) == s && c.after == test
  {
    ArrowIndex(s, test);
    var text := Arrow(s, test);
    var x := Leading(s);
    assert text[..|x|] == x == "" + x;
    LeadingTrims("", s);
    assert text[|x| + 2..] == Trailing(test);
    TrailingTrims(test);
  }

  lemma TrailingTrims(t: string)
    requires Trimmed(t)
    ensures TrimSpace(Trailing(t)) == t
  {
    if t != "" {
      TrimPadded(" ", t, "");
      assert " " + t + "" == Trailing(t);
    }
  }

  lemma NoArrow(s: string)
    requires WritableSubject(s)
    ensures var c := CutArrow(s); !c.found && TrimSpace(c.before) == s
  {
    TrimmedIsFixed(s);
  }

  predicate EndsWell(s: string) { s == "" || !IsSpace(s[|s| - 1]) }

  /** A subject with an optional last test, as it follows the type prefix. */
  lemma OptionalTestReadsBack(s: string, t: Option<Test>)
    requires WritableSubject(s) && WritableOptional(t)
    ensures var c := CutArrow(WithTest(s, t));
      TrimSpace(c.before) == s && c.found == t.Some? && ParseOptionalTest(c) == t
    ensures Trimmed(WithTest(s, t))
  {
    if t.Some? {
      TestReadsBack(t.value);
      ArrowReadsBack(s, PrintTest(t.value));
    } else {
      NoArrow(s);
    }
  }

  lemma ArrowReadsBack(s: string, rest: string)
    requires WritableSubject(s) && Trimmed(rest)
    ensures var c := CutArrow(Arrow(s, rest));
      c.found && TrimSpace(c.before) == s && c.after == rest && Trimmed(Arrow(s, rest))
  {
    ArrowSplits(s, rest);
    SeparatedTrimmed(s, "->", rest);
  }

  /** A chain of two arrows: the middle part is itself followed by an optional test. */
  lemma ChainReadsBack(s: string, middle: string, t: Option<Test>)
    requires WritableSubject(s) && WritableSubject(middle) && WritableOptional(t)
    ensures var rest := WithTest(middle, t);
      var c := CutArrow(Arrow(s, rest));
      c.found && TrimSpace(c.before) == s && c.after == rest && EndsWell(Arrow(s, rest))
  {
    var rest := WithTest(middle, t);
    OptionalTestReadsBack(middle, t);
    ArrowReadsBack(s, rest);
  }

  lemma KindReadsBack(kind: char, after: string, b: Body)
    requires 'a' <= kind <= 'z'
    requires ParseKind(kind, CutArrow(after)) == Some(b)
    ensures ParseBody([kind] + ":" + after) == Rule(false, b)
  {
    IndexOfChar([kind], ':', after);
    var s := [kind] + ":" + after;
    assert s[..1] == [kind] && s[2..] == after;
    TrimmedIsFixed([kind]);
    assert Lower([kind]) == [kind];
  }

  lemma BodyReadsBack(b: Body)
    requires WritableBody(b)
    ensures ParseBody(PrintBody(b)) == Rule(false, b)
    ensures PrintBody(b) != "" && Trimmed(PrintBody(b)) && LowerChar(PrintBody(b)[0]) != 'n'
  {
    AfterKindReadsBack(b);
    KindReadsBack(KindChar(b), PrintAfterKind(b), b);
    PrefixedTrimmed(KindChar(b), PrintAfterKind(b));
  }

  lemma PrefixedTrimmed(kind: char, after: string)
    requires 'a' <= kind <= 'z' && kind != 'n' && EndsWell(after)
    ensures var s := [kind] + ":" + after; s != "" && Trimmed(s) && LowerChar(s[0]) != 'n'
  {
    var s := [kind] + ":" + after;
    if after != "" { assert s[|s| - 1] == after[|after| - 1]; }
  }

  lemma AfterKindReadsBack(b: Body)
    requires WritableBody(b)
    ensures ParseKind(KindChar(b), CutArrow(PrintAfterKind(b))) == Some(b)
    ensures EndsWell(PrintAfterKind(b))
  {
    match b {
      case File(path, test) => OptionalTestReadsBack(path, test);
      case Command(cmd, test) => OptionalTestReadsBack(cmd, test);
      case Process(name) => NoArrow(name);
      case Dir(path, entry) =>
        if entry.None? { NoArrow(path); } else { EntryReadsBack(path, entry.value); }
      case Registry(key, value) =>
        if value.None? { NoArrow(key); } else { ValueReadsBack(key, value.value); }
    }
  }

  lemma EntryReadsBack(path: string, e: EntryTest)
    requires WritableBody(Dir(path, Some(e)))
    ensures var after := Arrow(path, WithTest(PrintTest(e.name), e.content));
      var c := CutArrow(after);
      TrimSpace(c.before) == path && ParseEntry(c) == Some(e) && EndsWell(after)
  {
    TestReadsBack(e.name);
    ChainReadsBack(path, PrintTest(e.name), e.content);
    OptionalTestReadsBack(PrintTest(e.name), e.content);
  }

  lemma ValueReadsBack(key: string, v: ValueTest)
    requires WritableBody(Registry(key, Some(v)))
    ensures var after := Arrow(key, WithTest(v.name, v.content));
      var c := CutArrow(after);
      TrimSpace(c.before) == key && ParseValue(c) == Some(v) && EndsWell(after)
  {
    ChainReadsBack(key, v.name, v.content);
    OptionalTestReadsBack(v.name, v.content);
  }

  /** Every writable rule, negated or not, reads back as itself. */
  lemma RuleReadsBack(negated: bool, b: Body)
    requires WritableBody(b)
    ensures ParseRule(PrintRule(negated, b)) == Rule(negated, b)
  {
    var text := PrintBody(b);
    BodyReadsBack(b);
    TrimmedIsFixed(text);
    if negated {
      var s := "not " + text;
      assert s[|s| - 1] == text[|text| - 1];
      TrimmedIsFixed(s);
      CutsPrefix("not ", text);
    } else {
      assert PrintRule(negated, b) == text;
      PrefixDiffers(text, "not ", 0);
    }
  }
}
