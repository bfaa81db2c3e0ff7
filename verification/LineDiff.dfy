/** The line diff of the file-integrity monitor: an LCS table, the walk that reads an edit script
    off it, the 200-line cap, and the multiset summary used above the cell limit. */
module LineDiff {
  import opened Text

  type Line = string

  const MAX_DIFF_LINES := 200
  const MAX_DIFF_CELLS := 2_000_000
  const TRUNCATED := "… (diff truncated)"

  // ---------------------------------------------------------------- common subsequences

  /** s can be obtained from a by deleting lines. */
  ghost predicate Subsequence(s: seq<Line>, a: seq<Line>)
    decreases |a|
  {
    s == [] || (a != [] && ((s[0] == a[0] && Subsequence(s[1..], a[1..])) || Subsequence(s, a[1..])))
  }

  ghost predicate Common(s: seq<Line>, a: seq<Line>, b: seq<Line>) {
    Subsequence(s, a) && Subsequence(s, b)
  }

  /** k is the length of a longest common subsequence of a and b. */
  ghost predicate IsLongest(k: nat, a: seq<Line>, b: seq<Line>) {
    (exists s :: Common(s, a, b) && |s| == k) && (forall s :: Common(s, a, b) ==> |s| <= k)
  }

  function Max(x: nat, y: nat): nat { if x >= y then x else y }

  ghost function LcsLen(a: seq<Line>, b: seq<Line>): nat
    decreases |a| + |b|
  {
    if a == [] || b == [] then 0
    else if a[0] == b[0] then LcsLen(a[1..], b[1..]) + 1
    else Max(LcsLen(a[1..], b), LcsLen(a, b[1..]))
  }

  lemma {:induction false} DropHead(s: seq<Line>, a: seq<Line>)
    requires s != [] && Subsequence(s, a)
    ensures a != [] && Subsequence(s[1..], a[1..])
    ensures s[0] != a[0] ==> Subsequence(s, a[1..])
    decreases |a|
  {
    if !(s[0] == a[0] && Subsequence(s[1..], a[1..])) {
      DropHead(s, a[1..]);
    }
  }

  lemma {:induction false} CommonAtMostLcs(s: seq<Line>, a: seq<Line>, b: seq<Line>)
    requires Common(s, a, b)
    ensures |s| <= LcsLen(a, b)
    decreases |a| + |b|
  {
    if s != [] {
      DropHead(s, a);
      DropHead(s, b);
      if a[0] == b[0] {
        CommonAtMostLcs(s[1..], a[1..], b[1..]);
      } else if s[0] != a[0] {
        CommonAtMostLcs(s, a[1..], b);
      } else {
        CommonAtMostLcs(s, a, b[1..]);
      }
    }
  }

  lemma {:induction false} LcsAttained(a: seq<Line>, b: seq<Line>) returns (s: seq<Line>)
    ensures Common(s, a, b) && |s| == LcsLen(a, b)
    decreases |a| + |b|
  {
    if a == [] || b == [] {
      s := [];
    } else if a[0] == b[0] {
      var t := LcsAttained(a[1..], b[1..]);
      s := [a[0]] + t;
      assert s[1..] == t;
    } else if LcsLen(a[1..], b) >= LcsLen(a, b[1..]) {
      s := LcsAttained(a[1..], b);
    } else {
      s := LcsAttained(a, b[1..]);
    }
  }

  lemma LcsLenIsLongest(a: seq<Line>, b: seq<Line>)
    ensures IsLongest(LcsLen(a, b), a, b)
  {
    var s := LcsAttained(a, b);
    forall s | Common(s, a, b) ensures |s| <= LcsLen(a, b) {
      CommonAtMostLcs(s, a, b);
    }
  }

  /** The LCS table. Every cell is the best achievable length for the two suffixes. */
  method FillTable(a: seq<Line>, b: seq<Line>) returns (lcs: array2<nat>)
    ensures fresh(lcs) && Filled(lcs, a, b)
    ensures forall i, j :: 0 <= i <= |a| && 0 <= j <= |b| ==> IsLongest(lcs[i, j], a[i..], b[j..])
  {
    var m, n := |a|, |b|;
    lcs := new nat[m + 1, n + 1]((_, _) => 0);
    var i := m;
    while i > 0
      invariant 0 <= i <= m
      invariant forall x, y :: i <= x <= m && 0 <= y <= n ==> lcs[x, y] == LcsLen(a[x..], b[y..])
      invariant forall x :: 0 <= x <= m ==> lcs[x, n] == 0
    {
      i := i - 1;
      var j := n;
      while j > 0
        invariant 0 <= j <= n
        invariant forall x, y :: i < x <= m && 0 <= y <= n ==> lcs[x, y] == LcsLen(a[x..], b[y..])
        invariant forall y :: j <= y <= n ==> lcs[i, y] == LcsLen(a[i..], b[y..])
        invariant forall x :: 0 <= x <= m ==> lcs[x, n] == 0
      {
        j := j - 1;
        assert a[i..][1..] == a[i + 1..] && b[j..][1..] == b[j + 1..];
        if a[i] == b[j] {
          lcs[i, j] := lcs[i + 1, j + 1] + 1;
        } else if lcs[i + 1, j] >= lcs[i, j + 1] {
          lcs[i, j] := lcs[i + 1, j];
        } else {
          lcs[i, j] := lcs[i, j + 1];
        }
      }
    }
    forall i, j | 0 <= i <= m && 0 <= j <= n ensures IsLongest(lcs[i, j], a[i..], b[j..]) {
      LcsLenIsLongest(a[i..], b[j..]);
    }
  }

  // ---------------------------------------------------------------- edit scripts

  datatype Edit = Keep(line: Line) | Remove(line: Line) | Add(line: Line)

  /** The lines an edit script reads. */
  ghost function Source(script: seq<Edit>): seq<Line> {
    if script == [] then []
    else (if script[0].Add? then [] else [script[0].line]) + Source(script[1..])
  }

  /** The lines an edit script writes. */
  ghost function Target(script: seq<Edit>): seq<Line> {
    if script == [] then []
    else (if script[0].Remove? then [] else [script[0].line]) + Target(script[1..])
  }

  ghost function Kept(script: seq<Edit>): seq<Line> {
    if script == [] then []
    else (if script[0].Keep? then [script[0].line] else []) + Kept(script[1..])
  }

  ghost function Changes(script: seq<Edit>): seq<Edit> {
    if script == [] then []
    else (if script[0].Keep? then [] else [script[0]]) + Changes(script[1..])
  }

  ghost function CountAdds(script: seq<Edit>): nat {
    if script == [] then 0 else (if script[0].Add? then 1 else 0) + CountAdds(script[1..])
  }

  ghost function CountRemoves(script: seq<Edit>): nat {
    if script == [] then 0 else (if script[0].Remove? then 1 else 0) + CountRemoves(script[1..])
  }

  ghost predicate Turns(script: seq<Edit>, a: seq<Line>, b: seq<Line>) {
    Source(script) == a && Target(script) == b
  }

  /** The script the walk over the table follows, without the output cap. */
  ghost function Walk(a: seq<Line>, b: seq<Line>): seq<Edit>
    decreases |a| + |b|
  {
    if a != [] && b != [] then
      if a[0] == b[0] then [Keep(a[0])] + Walk(a[1..], b[1..])
      else if LcsLen(a[1..], b) >= LcsLen(a, b[1..]) then [Remove(a[0])] + Walk(a[1..], b)
      else [Add(b[0])] + Walk(a, b[1..])
    else if a != [] then [Remove(a[0])] + Walk(a[1..], b)
    else if b != [] then [Add(b[0])] + Walk(a, b[1..])
    else []
  }

  lemma {:induction false} WalkTurns(a: seq<Line>, b: seq<Line>)
    ensures Turns(Walk(a, b), a, b)
    ensures |Kept(Walk(a, b))| == LcsLen(a, b)
    decreases |a| + |b|
  {
    WalkKeeps(a, b);
    if a != [] || b != [] {
      var w := Walk(a, b);
      var a', b' := if w[0].Add? then a else a[1..], if w[0].Remove? then b else b[1..];
      WalkTurns(a', b');
      assert w == [w[0]] + Walk(a', b');
      SidesCons(w[0], Walk(a', b'));
      assert a == (if w[0].Add? then [] else [w[0].line]) + a';
      assert b == (if w[0].Remove? then [] else [w[0].line]) + b';
    }
  }

  lemma SidesCons(e: Edit, rest: seq<Edit>)
    ensures Source([e] + rest) == (if e.Add? then [] else [e.line]) + Source(rest)
    ensures Target([e] + rest) == (if e.Remove? then [] else [e.line]) + Target(rest)
  {
    assert ([e] + rest)[1..] == rest;
  }

  lemma {:induction false} WalkKeeps(a: seq<Line>, b: seq<Line>)
    ensures |Kept(Walk(a, b))| == LcsLen(a, b)
    decreases |a| + |b|
  {
    if a != [] || b != [] {
      var w := Walk(a, b);
      var a', b' := if w[0].Add? then a else a[1..], if w[0].Remove? then b else b[1..];
      WalkKeeps(a', b');
      assert w[1..] == Walk(a', b');
    }
  }

  lemma {:induction false} KeptIsCommon(script: seq<Edit>)
    ensures Common(Kept(script), Source(script), Target(script))
  {
    if script != [] {
      var rest := script[1..];
      KeptIsCommon(rest);
      var s, a, b := Kept(script), Source(script), Target(script);
      assert !script[0].Add? ==> a[1..] == Source(rest);
      assert !script[0].Remove? ==> b[1..] == Target(rest);
      assert script[0].Keep? ==> s[1..] == Kept(rest);
      assert !script[0].Keep? ==> s == Kept(rest);
      assert script[0].Add? ==> a == Source(rest);
      assert script[0].Remove? ==> b == Target(rest);
    }
  }

  lemma {:induction false} KeptIsContained(script: seq<Edit>)
    ensures multiset(Kept(script)) <= multiset(Source(script))
    ensures multiset(Kept(script)) <= multiset(Target(script))
  {
    if script != [] {
      KeptIsContained(script[1..]);
    }
  }

  /** Every line a script does not keep is a change. */
  lemma {:induction false} ChangeCounts(script: seq<Edit>)
    ensures CountRemoves(script) == |Source(script)| - |Kept(script)|
    ensures CountAdds(script) == |Target(script)| - |Kept(script)|
    ensures |Changes(script)| == CountAdds(script) + CountRemoves(script)
  {
    if script != [] {
      ChangeCounts(script[1..]);
    }
  }

  /** The uncapped walk is a shortest script from a to b. */
  lemma WalkIsShortest(a: seq<Line>, b: seq<Line>, script: seq<Edit>)
    requires Turns(script, a, b)
    ensures |Changes(Walk(a, b))| == |a| + |b| - 2 * LcsLen(a, b)
    ensures |Changes(Walk(a, b))| <= |Changes(script)|
  {
    WalkTurns(a, b);
    ChangeCounts(Walk(a, b));
    ChangeCounts(script);
    KeptIsCommon(script);
    CommonAtMostLcs(Kept(script), a, b);
  }

  // ---------------------------------------------------------------- rendering

  function Render(e: Edit): string {
    (if e.Add? then "+ " else if e.Remove? then "- " else "  ") + e.line
  }

  function RenderAll(es: seq<Edit>): (r: seq<string>)
    ensures |r| == |es| && forall i :: 0 <= i < |es| ==> r[i] == Render(es[i])
  {
    seq(|es|, i requires 0 <= i < |es| => Render(es[i]))
  }

  /** The reported lines: the first 200 changes, then a marker when there are at least 200. */
  ghost function Report(changes: seq<Edit>): seq<string> {
    if |changes| < MAX_DIFF_LINES then RenderAll(changes)
    else RenderAll(changes[..MAX_DIFF_LINES]) + [TRUNCATED]
  }

  /** The rendered changes the walk still has to make from position (i, j). */
  ghost function ToEmit(a: seq<Line>, b: seq<Line>, i: nat, j: nat): seq<string>
    requires i <= |a| && j <= |b|
  {
    RenderAll(Changes(Walk(a[i..], b[j..])))
  }

  lemma ChangesCons(e: Edit, rest: seq<Edit>)
    ensures RenderAll(Changes([e] + rest)) ==
      if e.Keep? then RenderAll(Changes(rest)) else [Render(e)] + RenderAll(Changes(rest))
  {
    assert ([e] + rest)[1..] == rest;
  }

  /** One step of the walk, on the changes it makes. */
  lemma WalkStep(a: seq<Line>, b: seq<Line>)
    requires a != [] || b != []
    ensures var now := RenderAll(Changes(Walk(a, b)));
      if a != [] && b != [] && a[0] == b[0] then now == RenderAll(Changes(Walk(a[1..], b[1..])))
      else if b == [] || (a != [] && LcsLen(a[1..], b) >= LcsLen(a, b[1..])) then
        now == ["- " + a[0]] + RenderAll(Changes(Walk(a[1..], b)))
      else now == ["+ " + b[0]] + RenderAll(Changes(Walk(a, b[1..])))
  {
    if a != [] && b != [] && a[0] == b[0] {
      ChangesCons(Keep(a[0]), Walk(a[1..], b[1..]));
    } else if b == [] || (a != [] && LcsLen(a[1..], b) >= LcsLen(a, b[1..])) {
      ChangesCons(Remove(a[0]), Walk(a[1..], b));
    } else {
      ChangesCons(Add(b[0]), Walk(a, b[1..]));
    }
  }

  lemma NextToEmit(a: seq<Line>, b: seq<Line>, i: nat, j: nat) returns (next: seq<string>)
    requires i <= |a| && j <= |b| && (i < |a| || j < |b|)
    ensures
      if i < |a| && j < |b| && a[i] == b[j] then
        ToEmit(a, b, i, j) == next == ToEmit(a, b, i + 1, j + 1)
      else if j == |b| || (i < |a| && LcsLen(a[i + 1..], b[j..]) >= LcsLen(a[i..], b[j + 1..])) then
        ToEmit(a, b, i, j) == ["- " + a[i]] + next && next == ToEmit(a, b, i + 1, j)
      else
        ToEmit(a, b, i, j) == ["+ " + b[j]] + next && next == ToEmit(a, b, i, j + 1)
  {
    WalkStep(a[i..], b[j..]);
    if i < |a| { assert a[i..][1..] == a[i + 1..]; }
    if j < |b| { assert b[j..][1..] == b[j + 1..]; }
    if i < |a| && j < |b| && a[i] == b[j] {
      next := ToEmit(a, b, i + 1, j + 1);
    } else if j == |b| || (i < |a| && LcsLen(a[i + 1..], b[j..]) >= LcsLen(a[i..], b[j + 1..])) {
      next := ToEmit(a, b, i + 1, j);
    } else {
      next := ToEmit(a, b, i, j + 1);
    }
  }

  ghost predicate Filled(lcs: array2<nat>, a: seq<Line>, b: seq<Line>)
    reads lcs
  {
    lcs.Length0 == |a| + 1 && lcs.Length1 == |b| + 1
    && forall i, j :: 0 <= i <= |a| && 0 <= j <= |b| ==> lcs[i, j] == LcsLen(a[i..], b[j..])
  }

  lemma Advance(all: seq<string>, out: seq<string>, x: string, next: seq<string>)
    requires all == out + ([x] + next)
    ensures all == (out + [x]) + next
  {
  }

  /** The walk with its early exit: out collects rendered changes and stops at the cap. */
  method EmitChanges(a: seq<Line>, b: seq<Line>, lcs: array2<nat>) returns (out: seq<string>)
    requires Filled(lcs, a, b)
    ensures out == Report(Changes(Walk(a, b)))
  {
    ghost var all := ToEmit(a, b, 0, 0);
    ghost var todo;
    var i, j;
    out, i, j, todo := EmitBoth(a, b, lcs, all);
    if |out| < MAX_DIFF_LINES {
      out, todo := EmitRest(a, b, i, j, out, all);
    }
    assert a[0..] == a && b[0..] == b;
    CapReport(Changes(Walk(a, b)), out, todo);
    if |out| >= MAX_DIFF_LINES {
      out := out + [TRUNCATED];
    }
  }

  /** The loop while both sides have lines left. */
  method EmitBoth(a: seq<Line>, b: seq<Line>, lcs: array2<nat>, ghost all: seq<string>)
    returns (out: seq<string>, i: nat, j: nat, ghost todo: seq<string>)
    requires Filled(lcs, a, b) && all == ToEmit(a, b, 0, 0)
    ensures all == out + todo && |out| <= MAX_DIFF_LINES
    ensures |out| < MAX_DIFF_LINES ==>
      i <= |a| && j <= |b| && (i == |a| || j == |b|) && todo == ToEmit(a, b, i, j)
  {
    out, i, j, todo := [], 0, 0, all;
    while i < |a| && j < |b|
      invariant i <= |a| && j <= |b| && |out| < MAX_DIFF_LINES
      invariant all == out + todo && todo == ToEmit(a, b, i, j)
      decreases |a| - i + |b| - j
    {
      todo := NextToEmit(a, b, i, j);
      if a[i] == b[j] {
        i, j := i + 1, j + 1;
      } else if lcs[i + 1, j] >= lcs[i, j + 1] {
        Advance(all, out, "- " + a[i], todo);
        out := out + ["- " + a[i]];
        if |out| >= MAX_DIFF_LINES { return; }
        i := i + 1;
      } else {
        Advance(all, out, "+ " + b[j], todo);
        out := out + ["+ " + b[j]];
        if |out| >= MAX_DIFF_LINES { return; }
        j := j + 1;
      }
    }
  }

  lemma CapReport(changes: seq<Edit>, out: seq<string>, todo: seq<string>)
    requires RenderAll(changes) == out + todo
    requires |out| == MAX_DIFF_LINES || (|out| < MAX_DIFF_LINES && todo == [])
    ensures Report(changes) == if |out| >= MAX_DIFF_LINES then out + [TRUNCATED] else out
  {
    if |out| == MAX_DIFF_LINES {
      assert out == RenderAll(changes[..MAX_DIFF_LINES]);
    }
  }

  /** The two loops after one side has run out. */
  method EmitRest(a: seq<Line>, b: seq<Line>, i0: nat, j0: nat, out0: seq<string>, ghost all: seq<string>)
    returns (out: seq<string>, ghost todo: seq<string>)
    requires i0 <= |a| && j0 <= |b| && (i0 == |a| || j0 == |b|) && |out0| < MAX_DIFF_LINES
    requires all == out0 + ToEmit(a, b, i0, j0)
    ensures all == out + todo
    ensures |out| <= MAX_DIFF_LINES && (|out| == MAX_DIFF_LINES || todo == [])
  {
    var i, j := i0, j0;
    out, todo := out0, ToEmit(a, b, i0, j0);
    while i < |a|
      invariant i <= |a| && |out| < MAX_DIFF_LINES && (i == |a| || j == |b|)
      invariant all == out + todo && todo == ToEmit(a, b, i, j)
    {
      todo := NextToEmit(a, b, i, j);
      Advance(all, out, "- " + a[i], todo);
      out := out + ["- " + a[i]];
      if |out| >= MAX_DIFF_LINES { return; }
      i := i + 1;
    }
    while j < |b|
      invariant j <= |b| && |out| < MAX_DIFF_LINES
      invariant all == out + todo && todo == ToEmit(a, b, i, j)
    {
      todo := NextToEmit(a, b, i, j);
      Advance(all, out, "+ " + b[j], todo);
      out := out + ["+ " + b[j]];
      if |out| >= MAX_DIFF_LINES { return; }
      j := j + 1;
    }
  }

  // ---------------------------------------------------------------- the large-file summary

  function CountOf(counts: map<Line, nat>, l: Line): nat {
    if l in counts then counts[l] else 0
  }

  ghost function Tally(counts: map<Line, nat>): multiset<Line>
    decreases |counts|
  {
    if counts == map[] then multiset{}
    else
      var l :| l in counts;
      multiset{}[l := counts[l]] + Tally(counts - {l})
  }

  lemma {:induction false} TallyCounts(counts: map<Line, nat>, x: Line)
    ensures Tally(counts)[x] == CountOf(counts, x)
    decreases |counts|
  {
    if counts != map[] {
      var l :| l in counts && Tally(counts) == multiset{}[l := counts[l]] + Tally(counts - {l});
      TallyCounts(counts - {l}, x);
    }
  }

  ghost predicate Counts(counts: map<Line, nat>, m: multiset<Line>) {
    forall l :: CountOf(counts, l) == m[l]
  }

  method CountLines(a: seq<Line>) returns (counts: map<Line, nat>)
    ensures Counts(counts, multiset(a))
  {
    counts := map[];
    for i := 0 to |a|
      invariant Counts(counts, multiset(a[..i]))
    {
      assert a[..i + 1] == a[..i] + [a[i]];
      counts := counts[a[i] := CountOf(counts, a[i]) + 1];
    }
    assert a[..|a|] == a;
  }

  /** One more line of b uses up an unmatched line of a, if there is one... */
  lemma MatchOld(ma: multiset<Line>, mb: multiset<Line>, l: Line)
    requires (ma - mb)[l] > 0
    ensures (mb + multiset{l}) - ma == mb - ma
    ensures ma - (mb + multiset{l}) == (ma - mb) - multiset{l}
  {
  }

  /** ... and is a new line otherwise. */
  lemma MatchNew(ma: multiset<Line>, mb: multiset<Line>, l: Line)
    requires (ma - mb)[l] == 0
    ensures |(mb + multiset{l}) - ma| == |mb - ma| + 1
    ensures ma - (mb + multiset{l}) == ma - mb
  {
    assert (mb + multiset{l}) - ma == (mb - ma) + multiset{l};
  }

  /** Cancelling mb against ma leaves these counts and this many new lines. */
  ghost predicate Cancelled(ma: multiset<Line>, mb: multiset<Line>, counts: map<Line, nat>, added: nat) {
    Counts(counts, ma - mb) && added == |mb - ma|
  }

  /** The second counting loop: each line of b uses up one equal line of a, or is new. */
  method CancelLines(a: seq<Line>, b: seq<Line>, counts0: map<Line, nat>)
    returns (added: nat, counts: map<Line, nat>)
    requires Counts(counts0, multiset(a))
    ensures Cancelled(multiset(a), multiset(b), counts, added)
  {
    ghost var ma := multiset(a);
    ghost var mb: multiset<Line> := multiset{};
    added, counts := 0, counts0;
    NothingCancelled(ma, counts);
    for i := 0 to |b|
      invariant mb == multiset(b[..i]) && Cancelled(ma, mb, counts, added)
    {
      PrefixPlus(b, i);
      added, counts := CancelLine(counts, added, b[i], ma, mb);
      mb := mb + multiset{b[i]};
    }
    assert b[..|b|] == b;
  }

  lemma NothingCancelled(ma: multiset<Line>, counts: map<Line, nat>)
    requires Counts(counts, ma)
    ensures Cancelled(ma, multiset{}, counts, 0)
  {
    assert ma - multiset{} == ma && multiset{} - ma == multiset{};
  }

  /** One more line of b uses up an equal unmatched line of a, or is new. */
  method CancelLine(counts0: map<Line, nat>, added0: nat, l: Line, ghost ma: multiset<Line>, ghost mb: multiset<Line>)
    returns (added: nat, counts: map<Line, nat>)
    requires Cancelled(ma, mb, counts0, added0)
    ensures Cancelled(ma, mb + multiset{l}, counts, added)
  {
    assert CountOf(counts0, l) == (ma - mb)[l];
    if CountOf(counts0, l) == 0 {
      MatchNew(ma, mb, l);
      added, counts := added0 + 1, counts0;
    } else {
      MatchOld(ma, mb, l);
      Uncount(counts0, ma - mb, l);
      added, counts := added0, counts0[l := counts0[l] - 1];
    }
  }

  lemma PrefixPlus(b: seq<Line>, i: nat)
    requires i < |b|
    ensures multiset(b[..i + 1]) == multiset(b[..i]) + multiset{b[i]}
  {
    assert b[..i + 1] == b[..i] + [b[i]];
  }

  lemma Uncount(counts: map<Line, nat>, m: multiset<Line>, l: Line)
    requires Counts(counts, m) && CountOf(counts, l) > 0
    ensures Counts(counts[l := counts[l] - 1], m - multiset{l})
  {
  }

  /** The counting loops: added and removed are the two line-multiset differences. */
  method CountDifferences(a: seq<Line>, b: seq<Line>) returns (added: nat, removed: nat)
    ensures added == |multiset(b) - multiset(a)|
    ensures removed == |multiset(a) - multiset(b)|
  {
    var counts := CountLines(a);
    added, counts := CancelLines(a, b, counts);
    removed := SumCounts(counts);
    CountsDetermine(counts, multiset(a) - multiset(b));
  }

  lemma CountsDetermine(counts: map<Line, nat>, m: multiset<Line>)
    requires Counts(counts, m)
    ensures Tally(counts) == m
  {
    forall x ensures Tally(counts)[x] == m[x] { TallyCounts(counts, x); }
  }

  /** Ranging over the leftover counts in whatever order the map yields them. */
  method SumCounts(counts: map<Line, nat>) returns (removed: nat)
    ensures removed == |Tally(counts)|
  {
    var todo := counts;
    removed := 0;
    while todo != map[]
      invariant todo.Keys <= counts.Keys && forall l :: l in todo ==> todo[l] == counts[l]
      invariant removed + |Tally(todo)| == |Tally(counts)|
      decreases |todo|
    {
      var l :| l in todo;
      SplitTally(todo, l);
      removed := removed + todo[l];
      todo := todo - {l};
    }
  }

  lemma SplitTally(counts: map<Line, nat>, l: Line)
    requires l in counts
    ensures |Tally(counts)| == counts[l] + |Tally(counts - {l})|
  {
    var one := multiset{}[l := counts[l]];
    forall x ensures Tally(counts)[x] == (one + Tally(counts - {l}))[x] {
      TallyCounts(counts, x);
      TallyCounts(counts - {l}, x);
    }
    assert Tally(counts) == one + Tally(counts - {l});
  }

  /** The summary's counts balance, and no edit script between the two sides (the full diff
      included) can do with fewer additions or removals. */
  lemma SummaryIsLowerBound(a: seq<Line>, b: seq<Line>, script: seq<Edit>)
    requires Turns(script, a, b)
    ensures |a| - |multiset(a) - multiset(b)| == |b| - |multiset(b) - multiset(a)|
    ensures |multiset(a) - multiset(b)| <= CountRemoves(script)
    ensures |multiset(b) - multiset(a)| <= CountAdds(script)
  {
    ChangeCounts(script);
    KeptIsContained(script);
    var kept := multiset(Kept(script));
    MatchedAndUnmatched(multiset(a), multiset(b), kept);
    MatchedAndUnmatched(multiset(b), multiset(a), kept);
    assert multiset(a) * multiset(b) == multiset(b) * multiset(a);
  }

  lemma MatchedAndUnmatched(ma: multiset<Line>, mb: multiset<Line>, kept: multiset<Line>)
    requires kept <= ma && kept <= mb
    ensures |ma| == |ma - mb| + |ma * mb|
    ensures |kept| <= |ma * mb|
  {
    assert ma == (ma - mb) + ma * mb;
    assert ma * mb == kept + (ma * mb - kept);
  }

  function SummaryText(added: nat, removed: nat, oldLines: nat, newLines: nat): string {
    var lengths := Decimal(oldLines) + (" → " + (Decimal(newLines) + " lines)"));
    var counts := Decimal(added) + (" line(s) added, ~" + (Decimal(removed) + (" line(s) removed (full diff omitted; " + lengths)));
    "… large file: " + ("~" + counts)
  }

  // ---------------------------------------------------------------- the whole operation

  /** strings.ReplaceAll(s, "\r\n", "\n") */
  function UnixText(s: string): string {
    if |s| >= 2 && s[0] == '\r' && s[1] == '\n' then "\n" + UnixText(s[2..])
    else if s == "" then "" else [s[0]] + UnixText(s[1..])
  }

  function SplitLines(s: string): seq<Line> {
    if s == "" then [] else Split(UnixText(s), "\n")
  }

  method UnifiedDiff(oldText: string, newText: string) returns (out: string)
    ensures out == DiffText(oldText, newText)
  {
    if oldText == newText { return ""; }
    var a, b := SplitLines(oldText), SplitLines(newText);
    if |a| * |b| > MAX_DIFF_CELLS {
      var added, removed := CountDifferences(a, b);
      return SummaryText(added, removed, |a|, |b|);
    }
    var lcs := FillTable(a, b);
    var lines := EmitChanges(a, b, lcs);
    return Join(lines, "\n");
  }

  /** What the diff text is, in terms of the shortest script and the multiset differences. */
  ghost function DiffText(oldText: string, newText: string): string {
    var a, b := SplitLines(oldText), SplitLines(newText);
    if oldText == newText then ""
    else if |a| * |b| > MAX_DIFF_CELLS then
      SummaryText(|multiset(b) - multiset(a)|, |multiset(a) - multiset(b)|, |a|, |b|)
    else Join(Report(Changes(Walk(a, b))), "\n")
  }

  // ---------------------------------------------------------------- what the text tells a reader

  lemma SplitLinesFaithful(s: string)
    ensures Join(SplitLines(s), "\n") == UnixText(s)
    ensures SplitLines(s) == [] <==> s == ""
    ensures forall l :: l in SplitLines(s) ==> '\n' !in l
  {
    if s != "" {
      JoinSplit(UnixText(s), "\n");
      SplitPartsFree(UnixText(s), '\n');
    }
  }

  lemma SameLinesIffSameText(s: string, t: string)
    ensures SplitLines(s) == SplitLines(t) <==> UnixText(s) == UnixText(t)
  {
    SplitLinesFaithful(s);
    SplitLinesFaithful(t);
    if UnixText(s) == UnixText(t) {
      assert s == "" <==> UnixText(s) == "";
      assert t == "" <==> UnixText(t) == "";
    }
  }

  lemma {:induction false} WalkOfEqual(a: seq<Line>)
    ensures Changes(Walk(a, a)) == []
  {
    if a != [] {
      WalkOfEqual(a[1..]);
      assert Walk(a, a)[1..] == Walk(a[1..], a[1..]);
    }
  }

  lemma NoChangesMeansEqual(a: seq<Line>, b: seq<Line>)
    requires Changes(Walk(a, b)) == []
    ensures a == b
  {
    WalkTurns(a, b);
    NoChangesSameSides(Walk(a, b));
  }

  lemma {:induction false} NoChangesSameSides(script: seq<Edit>)
    requires Changes(script) == []
    ensures Source(script) == Target(script)
  {
    if script != [] {
      assert script[0].Keep?;
      NoChangesSameSides(script[1..]);
    }
  }

  lemma NonEmptyJoin(parts: seq<string>, sep: string)
    requires parts != [] && parts[0] != ""
    ensures Join(parts, sep) != ""
  {
    assert parts[0] <= Join(parts, sep);
  }

  /** The diff is empty exactly when the texts are the same or, below the cell limit, agree up to
      line endings: there, a change that only rewrites line endings is reported as no change. */
  lemma EmptyIffSameUpToLineEndings(oldText: string, newText: string)
    ensures DiffText(oldText, newText) == "" <==>
      oldText == newText
      || (|SplitLines(oldText)| * |SplitLines(newText)| <= MAX_DIFF_CELLS && UnixText(oldText) == UnixText(newText))
  {
    var a, b := SplitLines(oldText), SplitLines(newText);
    SameLinesIffSameText(oldText, newText);
    if oldText != newText && |a| * |b| <= MAX_DIFF_CELLS {
      if a == b {
        WalkOfEqual(a);
        assert Report([]) == [];
      } else {
        var changes := Changes(Walk(a, b));
        if changes == [] { NoChangesMeansEqual(a, b); }
        NonEmptyJoin(Report(changes), "\n");
      }
    }
  }

  lemma {:induction false} ChangesComeFromSides(script: seq<Edit>, e: Edit)
    requires e in Changes(script)
    ensures !e.Keep? && (e.line in Source(script) || e.line in Target(script))
  {
    if e != script[0] || script[0].Keep? {
      ChangesComeFromSides(script[1..], e);
    }
  }

  /** Splitting a non-empty diff text gives back the reported lines, so the text determines them. */
  lemma ReportReadsBack(oldText: string, newText: string)
    requires |SplitLines(oldText)| * |SplitLines(newText)| <= MAX_DIFF_CELLS
    requires DiffText(oldText, newText) != ""
    ensures var changes := Changes(Walk(SplitLines(oldText), SplitLines(newText)));
      Split(DiffText(oldText, newText), "\n") == Report(changes)
  {
    var a, b := SplitLines(oldText), SplitLines(newText);
    var changes := Changes(Walk(a, b));
    SplitLinesFaithful(oldText);
    SplitLinesFaithful(newText);
    WalkTurns(a, b);
    forall e | e in changes ensures !e.Keep? && '\n' !in e.line {
      ChangesComeFromSides(Walk(a, b), e);
    }
    ReportIsClean(changes);
    SplitJoinChar(Report(changes), '\n');
  }

  lemma ReportIsClean(changes: seq<Edit>)
    requires forall e :: e in changes ==> !e.Keep? && '\n' !in e.line
    ensures forall p :: p in Report(changes) ==> '\n' !in p
  {
    forall e | e in changes ensures '\n' !in Render(e) {
      assert Render(e) == (if e.Add? then "+ " else "- ") + e.line;
    }
    assert '\n' !in TRUNCATED;
  }

  /** The marker appears exactly from 200 changes on, while something is left out only from 201
      on: at exactly 200 changes a complete diff is labelled as truncated. */
  lemma MarkerVersusTruncation(changes: seq<Edit>)
    requires forall e :: e in changes ==> !e.Keep?
    ensures TRUNCATED in Report(changes) <==> |changes| >= MAX_DIFF_LINES
    ensures RenderAll(changes) <= Report(changes) <==> |changes| <= MAX_DIFF_LINES
    ensures |changes| == MAX_DIFF_LINES ==> Report(changes) == RenderAll(changes) + [TRUNCATED]
  {
    var r := Report(changes);
    if |changes| < MAX_DIFF_LINES {
      forall i | 0 <= i < |r| ensures r[i] != TRUNCATED {
        assert r[i][0] != TRUNCATED[0];
      }
    } else {
      assert r[|r| - 1] == TRUNCATED;
      assert changes[..MAX_DIFF_LINES] + changes[MAX_DIFF_LINES..] == changes;
      if |changes| > MAX_DIFF_LINES {
        assert RenderAll(changes)[MAX_DIFF_LINES][0] != TRUNCATED[0];
        assert r[MAX_DIFF_LINES] == TRUNCATED;
      }
    }
  }

  // ---------------------------------------------------------------- two texts the diff misleads about

  predicate OneLine(l: Line) { '\n' !in l && '\r' !in l }

  lemma {:induction false} UnixTextOfLine(l: Line, end: string)
    requires OneLine(l)
    ensures UnixText(l + end) == l + UnixText(end)
  {
    if l == "" {
      assert l + end == end;
    } else {
      assert l[0] in l;
      assert (l + end)[1..] == l[1..] + end;
      UnixTextOfLine(l[1..], end);
    }
  }

  lemma UnixEnd(end: string)
    requires end == "\r\n" || end == "\n"
    ensures UnixText(end) == "\n"
  {
    if end == "\r\n" { assert end[2..] == ""; } else { assert end[1..] == ""; }
  }

  lemma LinesOfOne(l: Line, end: string)
    requires OneLine(l) && (end == "\r\n" || end == "\n")
    ensures SplitLines(l + end) == [l, ""]
  {
    UnixEnd(end);
    UnixTextOfLine(l, end);
    assert [l, ""][1..] == [""];
    assert Join([l, ""], "\n") == l + "\n";
    SplitJoinChar([l, ""], '\n');
  }

  lemma SameLinesEmptyDiff(s: string, t: string, lines: seq<Line>)
    requires SplitLines(s) == lines && SplitLines(t) == lines && |lines| == 2
    ensures DiffText(s, t) == ""
  {
    SameLinesIffSameText(s, t);
    EmptyIffSameUpToLineEndings(s, t);
  }

  /** Only the line ending of a text of one line changes, and the diff is empty. */
  lemma LineEndingsGoUnreported(l: Line)
    requires OneLine(l)
    ensures l + "\r\n" != l + "\n" && DiffText(l + "\r\n", l + "\n") == ""
  {
    var dos, unix := l + "\r\n", l + "\n";
    assert |dos| != |unix|;
    LinesOfOne(l, "\r\n");
    LinesOfOne(l, "\n");
    SameLinesEmptyDiff(dos, unix, [l, ""]);
  }

  lemma {:induction false} UnixTextOfJoin(lines: seq<Line>)
    requires forall l :: l in lines ==> OneLine(l)
    ensures UnixText(Join(lines, "\n")) == Join(lines, "\n")
  {
    if |lines| == 1 {
      UnixTextOfLine(lines[0], "");
      assert lines[0] + "" == lines[0];
    } else if lines != [] {
      var rest := Join(lines[1..], "\n");
      UnixTextOfJoin(lines[1..]);
      assert ("\n" + rest)[1..] == rest;
      assert UnixText("\n" + rest) == "\n" + rest;
      UnixTextOfLine(lines[0], "\n" + rest);
      assert lines[0] + "\n" + rest == lines[0] + ("\n" + rest);
    }
  }

  lemma {:induction false} WalkFromNothing(b: seq<Line>)
    ensures |Changes(Walk([], b))| == |b| && forall i :: 0 <= i < |b| ==> Changes(Walk([], b))[i] == Add(b[i])
  {
    if b != [] {
      WalkFromNothing(b[1..]);
      assert Walk([], b) == [Add(b[0])] + Walk([], b[1..]);
      assert Walk([], b)[1..] == Walk([], b[1..]);
    }
  }

  lemma FilledLines(lines: seq<Line>)
    requires |lines| > 1 && forall l :: l in lines ==> OneLine(l)
    ensures SplitLines(Join(lines, "\n")) == lines
  {
    UnixTextOfJoin(lines);
    SplitJoinChar(lines, '\n');
    assert |Join(lines, "\n")| > 0;
  }

  /** An empty text file gets 200 lines: all of them are shown, and the diff is marked as truncated. */
  lemma CompleteDiffIsMarked(lines: seq<Line>)
    requires |lines| == 200 && forall l :: l in lines ==> OneLine(l)
    ensures var shown := Split(DiffText("", Join(lines, "\n")), "\n");
      && |shown| == 201 && shown[200] == "… (diff truncated)"
      && forall i :: 0 <= i < 200 ==> shown[i] == "+ " + lines[i]
  {
    var newText := Join(lines, "\n");
    FilledLines(lines);
    var changes := Changes(Walk([], lines));
    WalkFromNothing(lines);
    FilledDiff(newText, lines, changes);
    assert changes[..MAX_DIFF_LINES] == changes;
  }

  lemma FilledDiff(newText: string, lines: seq<Line>, changes: seq<Edit>)
    requires SplitLines(newText) == lines != [] && changes == Changes(Walk([], lines)) != []
    ensures Split(DiffText("", newText), "\n") == Report(changes)
  {
    assert SplitLines("") == [] && newText != "";
    assert DiffText("", newText) == Join(Report(changes), "\n");
    NonEmptyJoin(Report(changes), "\n");
    ReportReadsBack("", newText);
  }

  // ---------------------------------------------------------------- reading the texts

  /** A separator whose first character does not occur before it cuts where it was written. */
  lemma CutsThere(x: string, sep: string, y: string)
    requires sep != "" && sep[0] !in x
    ensures Cut(x + (sep + y), sep) == CutResult(x, y, true)
  {
    var s := x + (sep + y);
    assert s[|x|..|x| + |sep|] == sep;
    forall j: nat | j < |x| ensures !OccursAt(s, sep, j) {
      assert s[j] == x[j] && x[j] in x;
      if j + |sep| <= |s| { assert s[j..j + |sep|][0] == s[j]; }
    }
    IndexIs(s, sep, |x|);
    assert s[..|x|] == x && s[|x| + |sep|..] == y;
  }

  lemma DigitsCut(n: nat, sep: string, y: string)
    requires sep != "" && sep[0] == ' '
    ensures Cut(Decimal(n) + (sep + y), sep) == CutResult(Decimal(n), y, true)
  {
    CutsThere(Decimal(n), sep, y);
  }

  /** Above two million cells, cutting the text at its phrases gives back four numbers: the lines
      added, the lines removed, and the lengths of the two texts. */
  lemma SummaryReadsBack(oldText: string, newText: string)
    requires oldText != newText && |SplitLines(oldText)| * |SplitLines(newText)| > 2_000_000
    ensures
      var a, b := SplitLines(oldText), SplitLines(newText);
      var intro := Cut(DiffText(oldText, newText), "~");
      var added := Cut(intro.after, " line(s) added, ~");
      var removed := Cut(added.after, " line(s) removed (full diff omitted; ");
      var before := Cut(removed.after, " → ");
      var after := Cut(before.after, " lines)");
      && intro.found && added.found && removed.found && before.found && after.found && after.after == ""
      && added.before == Decimal(|multiset(b) - multiset(a)|) && removed.before == Decimal(|multiset(a) - multiset(b)|)
      && before.before == Decimal(|a|) && after.before == Decimal(|b|)
  {
    var a, b := SplitLines(oldText), SplitLines(newText);
    SummaryCuts(|multiset(b) - multiset(a)|, |multiset(a) - multiset(b)|, |a|, |b|);
  }

  /** The numbers d1 to d4 between phrases that start with a blank. */
  lemma PhrasesCut(d1: nat, p1: string, d2: nat, p2: string, d3: nat, p3: string, d4: nat, p4: string)
    requires p1 != "" && p1[0] == ' ' && p2 != "" && p2[0] == ' ' && p3 != "" && p3[0] == ' ' && p4 != "" && p4[0] == ' '
    ensures
      var text := Decimal(d1) + (p1 + (Decimal(d2) + (p2 + (Decimal(d3) + (p3 + (Decimal(d4) + p4))))));
      var c1 := Cut(text, p1);
      var c2 := Cut(c1.after, p2);
      var c3 := Cut(c2.after, p3);
      var c4 := Cut(c3.after, p4);
      && c1 == CutResult(Decimal(d1), c1.after, true) && c2 == CutResult(Decimal(d2), c2.after, true)
      && c3 == CutResult(Decimal(d3), c3.after, true) && c4 == CutResult(Decimal(d4), "", true)
  {
    var t4 := Decimal(d4) + p4;
    var t3 := Decimal(d3) + (p3 + t4);
    var t2 := Decimal(d2) + (p2 + t3);
    DigitsCut(d1, p1, t2);
    DigitsCut(d2, p2, t3);
    DigitsCut(d3, p3, t4);
    DigitsCut(d4, p4, "");
    assert p4 + "" == p4;
  }

  lemma SummaryCuts(n1: nat, n2: nat, n3: nat, n4: nat)
    ensures
      var intro := Cut(SummaryText(n1, n2, n3, n4), "~");
      var added := Cut(intro.after, " line(s) added, ~");
      var removed := Cut(added.after, " line(s) removed (full diff omitted; ");
      var before := Cut(removed.after, " → ");
      var after := Cut(before.after, " lines)");
      && intro.found && added.found && removed.found && before.found && after.found && after.after == ""
      && added.before == Decimal(n1) && removed.before == Decimal(n2) && before.before == Decimal(n3) && after.before == Decimal(n4)
  {
    var lengths := Decimal(n3) + (" → " + (Decimal(n4) + " lines)"));
    var counts := Decimal(n1) + (" line(s) added, ~" + (Decimal(n2) + (" line(s) removed (full diff omitted; " + lengths)));
    IntroHasNoMark();
    CutsThere("… large file: ", "~", counts);
    PhrasesCut(n1, " line(s) added, ~", n2, " line(s) removed (full diff omitted; ", n3, " → ", n4, " lines)");
  }

  lemma IntroHasNoMark()
    ensures '~' !in "… large file: "
  {
  }

  /** Up to the cap every line of the diff says what it is: + and a blank in front of a line that only
      the new text has at that place, - and a blank in front of one that only the old text has. */
  lemma ReportSays(oldText: string, newText: string, i: nat)
    requires |SplitLines(oldText)| * |SplitLines(newText)| <= 2_000_000 && DiffText(oldText, newText) != ""
    requires var script := Walk(SplitLines(oldText), SplitLines(newText)); i < |Changes(script)| && i < 200
    ensures
      var change := Changes(Walk(SplitLines(oldText), SplitLines(newText)))[i];
      var shown := Split(DiffText(oldText, newText), "\n");
      && i < |shown|
      && (change.Add? ==> shown[i] == "+ " + change.line && change.line in SplitLines(newText))
      && (change.Remove? ==> shown[i] == "- " + change.line && change.line in SplitLines(oldText))
  {
    var a, b := SplitLines(oldText), SplitLines(newText);
    var changes := Changes(Walk(a, b));
    ReportReadsBack(oldText, newText);
    WalkTurns(a, b);
    AddsComeFromNew(Walk(a, b), changes[i]);
  }

  lemma {:induction false} AddsComeFromNew(script: seq<Edit>, e: Edit)
    requires e in Changes(script)
    ensures !e.Keep? && (e.Add? ==> e.line in Target(script)) && (e.Remove? ==> e.line in Source(script))
  {
    if e != script[0] || script[0].Keep? {
      AddsComeFromNew(script[1..], e);
    }
  }

  /** Where the texts have no line in common, what was removed is shown before what was added. */
  lemma {:induction false} RemovalsFirst(a: seq<Line>, b: seq<Line>)
    requires forall x :: x in a ==> x !in b
    ensures LcsLen(a, b) == 0
    ensures Changes(Walk(a, b)) == seq(|a|, i requires 0 <= i < |a| => Remove(a[i])) + seq(|b|, i requires 0 <= i < |b| => Add(b[i]))
    decreases |a| + |b|
  {
    var removed, added := seq(|a|, i requires 0 <= i < |a| => Remove(a[i])), seq(|b|, i requires 0 <= i < |b| => Add(b[i]));
    if a == [] {
      WalkFromNothing(b);
      assert Changes(Walk(a, b)) == removed + added;
    } else {
      var rest := a[1..];
      RemovalsFirst(rest, b);
      if b != [] {
        assert a[0] in a;
        NothingInCommon(a, b[1..]);
      }
      assert Walk(a, b) == [Remove(a[0])] + Walk(rest, b);
      assert Walk(a, b)[1..] == Walk(rest, b);
      assert removed == [Remove(a[0])] + seq(|rest|, i requires 0 <= i < |rest| => Remove(rest[i]));
    }
  }

  lemma {:induction false} NothingInCommon(a: seq<Line>, b: seq<Line>)
    requires forall x :: x in a ==> x !in b
    ensures LcsLen(a, b) == 0
    decreases |a| + |b|
  {
    if a != [] && b != [] {
      assert a[0] in a;
      NothingInCommon(a[1..], b);
      NothingInCommon(a, b[1..]);
    }
  }

  /** Line endings are replaced the way strings.ReplaceAll does it: cut at every \r\n, join with \n. */
  lemma {:induction false} UnixTextReplaces(s: string)
    ensures UnixText(s) == Join(Split(s, "\r\n"), "\n")
    decreases |s|
  {
    var i := Index(s, "\r\n");
    if i < 0 {
      NoEndings(s);
    } else {
      var x, y := s[..i], s[i + 2..];
      assert s == x + ("\r\n" + y) by { assert s[i..i + 2] == "\r\n"; }
      UnixTextReplaces(y);
      EndingsBefore(s, x, y);
      JoinCons(x, Split(y, "\r\n"), "\n");
    }
  }

  lemma JoinCons(x: string, rest: seq<string>, sep: string)
    requires rest != []
    ensures Join([x] + rest, sep) == x + (sep + Join(rest, sep))
  {
    assert ([x] + rest)[1..] == rest;
  }

  lemma {:induction false} NoEndings(s: string)
    requires Index(s, "\r\n") < 0
    ensures UnixText(s) == s
    decreases |s|
  {
    if s != "" {
      assert !OccursAt(s, "\r\n", 0);
      if |s| >= 2 { assert s[0..2] == [s[0], s[1]]; }
      TailHasNone(s);
      NoEndings(s[1..]);
    }
  }

  lemma TailHasNone(s: string)
    requires s != "" && Index(s, "\r\n") < 0
    ensures Index(s[1..], "\r\n") < 0
  {
    forall k: nat ensures !OccursAt(s[1..], "\r\n", k) {
      assert !OccursAt(s, "\r\n", k + 1);
      if k + 3 <= |s| { assert s[1..][k..k + 2] == s[k + 1..k + 3]; }
    }
  }

  lemma {:induction false} EndingsBefore(s: string, x: string, y: string)
    requires s == x + ("\r\n" + y) && forall k: nat :: k < |x| ==> !OccursAt(s, "\r\n", k)
    ensures UnixText(s) == x + ("\n" + UnixText(y))
    decreases |x|
  {
    if x == "" {
      assert s == "\r\n" + y;
      assert s[2..] == y;
    } else {
      assert !OccursAt(s, "\r\n", 0);
      assert s[0..2] == [s[0], s[1]];
      forall k: nat | k < |x| - 1 ensures !OccursAt(s[1..], "\r\n", k) {
        assert !OccursAt(s, "\r\n", k + 1);
        if k + 2 <= |s[1..]| { assert s[1..][k..k + 2] == s[k + 1..k + 3]; }
      }
      assert s[1..] == x[1..] + ("\r\n" + y);
      EndingsBefore(s[1..], x[1..], y);
    }
  }
}
