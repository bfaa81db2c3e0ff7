/** The two parsers of /proc/<pid>/stat. Field 2 is the process name in parentheses and may hold
    blanks and parentheses itself; fields 3 on are separated by blanks. */
module ProcStat {
  import opened Text

  /** Fields 3, 4 and 22 by their position after the name. */
  const PPID_INDEX := 1
  const START_INDEX := 19

  // ---------------------------------------------------------------- fields

  function FieldEnd(s: string, i: nat): (r: nat)
    requires i <= |s|
    ensures i <= r <= |s| && (r < |s| ==> IsSpace(s[r]))
    ensures forall k :: i <= k < r ==> !IsSpace(s[k])
    decreases |s| - i
  {
    if i < |s| && !IsSpace(s[i]) then FieldEnd(s, i + 1) else i
  }

  /** strings.Fields from position i on. */
  function FieldsFrom(s: string, i: nat): seq<string>
    requires i <= |s|
    decreases |s| - i
  {
    var b := FirstNonSpace(s, i);
    if b == |s| then []
    else
      var e := FieldEnd(s, b);
      [s[b..e]] + FieldsFrom(s, e)
  }

  function Fields(s: string): seq<string> { FieldsFrom(s, 0) }

  function IndexFrom(s: string, c: char, i: nat): (r: nat)
    requires i <= |s|
    ensures i <= r <= |s| && (r < |s| ==> s[r] == c)
    ensures forall k :: i <= k < r ==> s[k] != c
    decreases |s| - i
  {
    if i < |s| && s[i] != c then IndexFrom(s, c, i + 1) else i
  }

  /** strings.IndexByte, with -1 for absent. */
  function FirstIndex(s: string, c: char): int {
    var i := IndexFrom(s, c, 0);
    if i == |s| then -1 else i
  }

  /** strings.LastIndexByte within the first n bytes. */
  function LastIndexIn(s: string, c: char, n: nat): (r: int)
    requires n <= |s|
    ensures -1 <= r < n && (r >= 0 ==> s[r] == c)
    ensures forall k :: r < k < n ==> s[k] != c
  {
    if n == 0 then -1 else if s[n - 1] == c then n - 1 else LastIndexIn(s, c, n - 1)
  }

  function LastIndex(s: string, c: char): int { LastIndexIn(s, c, |s|) }

  // ---------------------------------------------------------------- the parsers

  datatype Stat = Stat(comm: string, ppid: string, start: string)

  /** parseProcStat, used by the kill-switch. */
  function ParseProcStat(s: string): Option<Stat> {
    var open, close := FirstIndex(s, '('), LastIndex(s, ')');
    if open < 0 || close < 0 || close < open then None
    else
      var rest := Fields(s[close + 1..]);
      if |rest| <= START_INDEX then None
      else Some(Stat(s[open + 1..close], rest[PPID_INDEX], rest[START_INDEX]))
  }

  /** The layout part of readStat, used by the process snapshot: it trims the line first. */
  function ReadStatLayout(data: string): Option<Stat> {
    var line := TrimSpace(data);
    if line == "" then None
    else
      var open, close := FirstIndex(line, '('), LastIndex(line, ')');
      if open < 0 || close < 0 || close < open then None
      else
        var fields := Fields(line[close + 1..]);
        if |fields| < 20 then None
        else Some(Stat(line[open + 1..close], fields[1], fields[19]))
  }

  /** start is in jiffies since boot. */
  datatype StatInfo = StatInfo(name: string, ppid: int, start: nat)

  /** readStat: the layout, then the two conversions. */
  function ReadStat(data: string): Option<StatInfo> {
    match ReadStatLayout(data)
    case None => None
    case Some(st) =>
      var ppid := ParseInt64(st.ppid);
      if ppid.None? then None
      else
        var start := ParseUint64(st.start);
        if start.None? then None else Some(StatInfo(st.comm, ppid.value, start.value))
  }

  // ---------------------------------------------------------------- the format

  ghost predicate IsField(f: string) {
    f != "" && forall i :: 0 <= i < |f| ==> !IsSpace(f[i]) && f[i] != ')'
  }

  /** Each field after one blank. */
  function Tail(fields: seq<string>): string {
    if fields == [] then "" else " " + (fields[0] + Tail(fields[1..]))
  }

  function Line(head: string, comm: string, rest: string): string { head + ("(" + (comm + (")" + rest))) }

  /** A line of the format: pid, name in parentheses, the other fields, a newline. */
  function Format(pid: string, comm: string, fields: seq<string>): string {
    Line(pid + " ", comm, Tail(fields) + "\n")
  }

  // ---------------------------------------------------------------- reading fields back

  lemma {:induction false} FieldsOfTail(prefix: string, fields: seq<string>, end: string)
    requires forall i :: 0 <= i < |fields| ==> IsField(fields[i])
    requires AllSpace(end)
    ensures FieldsFrom(prefix + (Tail(fields) + end), |prefix|) == fields
    decreases |fields|
  {
    var s := prefix + (Tail(fields) + end);
    var b := FirstNonSpace(s, |prefix|);
    if fields == [] {
      assert s == prefix + end;
      assert forall k :: |prefix| <= k < |s| ==> s[k] == end[k - |prefix|];
      assert b == |s|;
    } else {
      var f, rest := fields[0], Tail(fields[1..]);
      var p := prefix + " " + f;
      assert s == p + (rest + end);
      NextIsSpace(rest, fields[1..], end);
      FieldAfterBlank(prefix, f, rest + end);
      FieldsOfTail(p, fields[1..], end);
    }
  }

  /** One field after a blank, up to the next blank or the end. */
  lemma FieldAfterBlank(prefix: string, f: string, after: string)
    requires IsField(f) && (after != "" ==> IsSpace(after[0]))
    ensures var s := prefix + " " + f + after;
      var b := FirstNonSpace(s, |prefix|);
      b == |prefix| + 1 && b < |s| && FieldEnd(s, b) == b + |f| && s[b..b + |f|] == f
  {
    var s := prefix + " " + f + after;
    assert s[|prefix|] == ' ';
    assert forall k :: 0 <= k < |f| ==> s[|prefix| + 1 + k] == f[k];
    assert FirstNonSpace(s, |prefix|) == |prefix| + 1;
    var e := |prefix| + 1 + |f|;
    if after != "" { assert s[e] == after[0]; }
  }

  lemma NextIsSpace(rest: string, fields: seq<string>, end: string)
    requires rest == Tail(fields) && AllSpace(end)
    ensures rest + end != "" ==> IsSpace((rest + end)[0])
  {
    if rest == "" { assert rest + end == end; } else { assert (rest + end)[0] == rest[0]; }
  }

  lemma {:induction false} TailHasNoParen(fields: seq<string>)
    requires forall i :: 0 <= i < |fields| ==> IsField(fields[i])
    ensures forall k :: 0 <= k < |Tail(fields)| ==> Tail(fields)[k] != ')'
  {
    if fields != [] {
      TailHasNoParen(fields[1..]);
      var t := Tail(fields);
      var f, rest := fields[0], Tail(fields[1..]);
      forall k | 0 <= k < |t| ensures t[k] != ')' {
        if 1 <= k <= |f| { assert t[k] == f[k - 1]; }
        if |f| < k { assert t[k] == rest[k - 1 - |f|]; }
      }
    }
  }

  /** The first opening and the last closing parenthesis are the ones around the name. */
  lemma NameIsAnchored(head: string, comm: string, rest: string)
    requires '(' !in head && ')' !in rest
    ensures var s := Line(head, comm, rest);
      && FirstIndex(s, '(') == |head| && LastIndex(s, ')') == |head| + 1 + |comm|
      && s[|head| + 1..|head| + 1 + |comm|] == comm && s[|head| + 2 + |comm|..] == rest
  {
    var s := Line(head, comm, rest);
    var close := |head| + 1 + |comm|;
    assert s[|head|] == '(' && s[close] == ')';
    forall k | 0 <= k < |head| ensures s[k] != '(' { assert s[k] == head[k] && head[k] in head; }
    forall k | close < k < |s| ensures s[k] != ')' { assert s[k] == rest[k - close - 1] && rest[k - close - 1] in rest; }
  }

  lemma ParsesLine(head: string, comm: string, rest: string)
    requires '(' !in head && ')' !in rest && |Fields(rest)| > START_INDEX
    ensures ParseProcStat(Line(head, comm, rest)) == Some(Stat(comm, Fields(rest)[PPID_INDEX], Fields(rest)[START_INDEX]))
  {
    NameIsAnchored(head, comm, rest);
  }

  lemma PartsAreClean(pid: string, fields: seq<string>)
    requires forall i :: 0 <= i < |pid| ==> IsDigit(pid[i])
    requires forall i :: 0 <= i < |fields| ==> IsField(fields[i])
    ensures '(' !in pid + " " && ')' !in Tail(fields) + "\n"
  {
    TailHasNoParen(fields);
  }

  /** Whatever a process calls itself, blanks and parentheses included, the parser gives back the
      same name, parent and start time that were written: fields 4 and 22, of which the third comes
      first after the name. */
  lemma StatRoundTrip(pid: string, comm: string, fields: seq<string>)
    requires forall i :: 0 <= i < |pid| ==> IsDigit(pid[i])
    requires |fields| >= 20 && forall i :: 0 <= i < |fields| ==> IsField(fields[i])
    ensures ParseProcStat(Format(pid, comm, fields)) == Some(Stat(comm, fields[4 - 3], fields[22 - 3]))
  {
    PartsAreClean(pid, fields);
    FieldsOfTail("", fields, "\n");
    assert "" + (Tail(fields) + "\n") == Tail(fields) + "\n";
    ParsesLine(pid + " ", comm, Tail(fields) + "\n");
  }

  // ---------------------------------------------------------------- the two parsers agree

  /** Blanks at the end add no field. */
  lemma {:induction false} FieldsIgnoreTrailing(s: string, pad: string, i: nat)
    requires i <= |s| && AllSpace(pad)
    ensures FieldsFrom(s + pad, i) == FieldsFrom(s, i)
    decreases |s| - i
  {
    var t := s + pad;
    var b, b' := FirstNonSpace(s, i), FirstNonSpace(t, i);
    assert forall k :: |s| <= k < |t| ==> t[k] == pad[k - |s|];
    if b == |s| {
      assert b' == |t|;
    } else {
      assert t[b] == s[b] && b' == b;
      var e := FieldEnd(s, b);
      assert forall k :: b <= k < e ==> t[k] == s[k];
      if e < |t| { assert t[e] == if e < |s| then s[e] else pad[0]; }
      assert FieldEnd(t, b) == e;
      assert t[b..e] == s[b..e];
      FieldsIgnoreTrailing(s, pad, e);
    }
  }

  /** On every input the two parsers accept the same layouts and extract the same fields; readStat
      refuses a line of a good layout exactly when one of its two numbers does not convert. */
  lemma ParsersAgree(data: string)
    ensures ReadStatLayout(data) == ParseProcStat(data)
    ensures ReadStat(data).Some? <==>
      ParseProcStat(data).Some? && ParseInt64(ParseProcStat(data).value.ppid).Some? && ParseUint64(ParseProcStat(data).value.start).Some?
    ensures ReadStat(data).Some? ==>
      var st := ParseProcStat(data).value;
      ReadStat(data).value == StatInfo(st.comm, ParseInt64(st.ppid).value, ParseUint64(st.start).value)
  {
    var left, right := TrimSpaceSplits(data);
    PaddingIsIgnored(data, left, TrimSpace(data), right);
  }

  /** A line written for a process, whatever its name, gives readStat the name and both numbers. */
  lemma ReadStatRoundTrip(pid: string, comm: string, fields: seq<string>, ppid: nat, start: nat)
    requires forall i :: 0 <= i < |pid| ==> IsDigit(pid[i])
    requires |fields| >= 20 && forall i :: 0 <= i < |fields| ==> IsField(fields[i])
    requires fields[4 - 3] == Decimal(ppid) && ppid < 0x8000_0000_0000_0000
    requires fields[22 - 3] == Decimal(start) && start < 0x1_0000_0000_0000_0000
    ensures ReadStat(Format(pid, comm, fields)) == Some(StatInfo(comm, ppid, start))
  {
    StatRoundTrip(pid, comm, fields);
    ParsersAgree(Format(pid, comm, fields));
    NumeralParses(ppid);
    NumeralParses(start);
  }

  lemma PaddingIsIgnored(s: string, left: string, line: string, right: string)
    requires s == left + line + right && AllSpace(left) && AllSpace(right)
    ensures ParseProcStat(s) == ParseProcStat(line)
  {
    var open, close := FirstIndex(line, '('), LastIndex(line, ')');
    FirstInside(s, left, line, right, '(');
    LastInside(s, left, line, right, ')');
    if 0 <= open < close { RestInside(s, left, line, right, open, close); }
    SameLayout(s, line, |left|);
  }

  lemma SameLayout(s: string, line: string, l: nat)
    requires FirstIndex(s, '(') == (if FirstIndex(line, '(') < 0 then -1 else l + FirstIndex(line, '('))
    requires LastIndex(s, ')') == (if LastIndex(line, ')') < 0 then -1 else l + LastIndex(line, ')'))
    requires 0 <= FirstIndex(line, '(') < LastIndex(line, ')') ==>
      SameRest(s, line, l, FirstIndex(line, '('), LastIndex(line, ')'))
    ensures ParseProcStat(s) == ParseProcStat(line)
  {
  }

  /** From l on, s has the same name and the same fields as the line. */
  ghost predicate SameRest(s: string, line: string, l: nat, i: nat, j: nat)
    requires i < j < |line|
  {
    l + j < |s| && Fields(s[l + j + 1..]) == Fields(line[j + 1..]) && s[l + i + 1..l + j] == line[i + 1..j]
  }

  lemma RestInside(s: string, left: string, line: string, right: string, i: nat, j: nat)
    requires s == left + line + right && AllSpace(right) && i < j < |line|
    ensures SameRest(s, line, |left|, i, j)
  {
    assert s[|left| + j + 1..] == line[j + 1..] + right;
    FieldsIgnoreTrailing(line[j + 1..], right, 0);
  }

  /** Padding holds no mark, so a mark of s is a mark of the line. */
  lemma OnlyInside(s: string, left: string, line: string, right: string, c: char, k: nat)
    requires s == left + line + right && AllSpace(left) && AllSpace(right) && !IsSpace(c)
    requires k < |s| && s[k] == c
    ensures |left| <= k < |left| + |line| && line[k - |left|] == c
  {
  }

  lemma FirstInside(s: string, left: string, line: string, right: string, c: char)
    requires s == left + line + right && AllSpace(left) && AllSpace(right) && !IsSpace(c)
    ensures FirstIndex(s, c) == if FirstIndex(line, c) < 0 then -1 else |left| + FirstIndex(line, c)
  {
    var i, k := IndexFrom(line, c, 0), IndexFrom(s, c, 0);
    if k < |s| { OnlyInside(s, left, line, right, c, k); }
    if i < |line| { assert s[|left| + i] == line[i]; }
  }

  lemma LastInside(s: string, left: string, line: string, right: string, c: char)
    requires s == left + line + right && AllSpace(left) && AllSpace(right) && !IsSpace(c)
    ensures LastIndex(s, c) == if LastIndex(line, c) < 0 then -1 else |left| + LastIndex(line, c)
  {
    var i, k := LastIndex(line, c), LastIndex(s, c);
    if k >= 0 { OnlyInside(s, left, line, right, c, k); }
    if i >= 0 { assert s[|left| + i] == line[i]; }
  }
}
