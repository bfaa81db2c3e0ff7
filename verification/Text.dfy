/** The string operations of Go's `strings` package that the agent leans on, with the laws the
    other modules need about them. Strings are sequences of code points. */
module Text {

  datatype Option<+T> = None | Some(value: T)

  // ---------------------------------------------------------------- searching and cutting

  predicate OccursAt(s: string, sep: string, k: nat) {
    k + |sep| <= |s| && s[k..k + |sep|] == sep
  }

  /** Position of the first occurrence of sep, or -1. */
  function Index(s: string, sep: string): (i: int)
    ensures -1 <= i
    ensures i >= 0 ==> OccursAt(s, sep, i)
    ensures forall k: nat :: (i < 0 || k < i) ==> !OccursAt(s, sep, k)
  {
    if |s| < |sep| then -1
    else if s[..|sep|] == sep then 0
    else if s == "" then -1
    else
      var i := Index(s[1..], sep);
      assert forall k: nat :: 0 < k ==> OccursAt(s, sep, k) == OccursAt(s[1..], sep, k - 1) by {
        forall k: nat | 0 < k ensures OccursAt(s, sep, k) == OccursAt(s[1..], sep, k - 1) {
          if k + |sep| <= |s| {
            assert s[1..][k - 1..k - 1 + |sep|] == s[k..k + |sep|];
          }
        }
      }
      if i < 0 then -1 else i + 1
  }

  lemma IndexIs(s: string, sep: string, k: nat)
    requires OccursAt(s, sep, k)
    requires forall j: nat :: j < k ==> !OccursAt(s, sep, j)
    ensures Index(s, sep) == k
  {
    var i := Index(s, sep);
    assert i >= 0;
    assert !(k < i);
    assert !(i < k);
  }

  predicate Contains(s: string, sub: string) {
    Index(s, sub) >= 0
  }

  predicate Free(s: string, sep: string) {
    Index(s, sep) < 0
  }

  datatype CutResult = CutResult(before: string, after: string, found: bool)

  /** strings.Cut */
  function Cut(s: string, sep: string): CutResult {
    var i := Index(s, sep);
    if i < 0 then CutResult(s, "", false) else CutResult(s[..i], s[i + |sep|..], true)
  }

  // ---------------------------------------------------------------- splitting and joining

  function Join(parts: seq<string>, sep: string): string {
    if parts == [] then ""
    else if |parts| == 1 then parts[0]
    else parts[0] + sep + Join(parts[1..], sep)
  }

  /** strings.Split for a non-empty separator. */
  function Split(s: string, sep: string): (parts: seq<string>)
    requires sep != ""
    ensures parts != []
    decreases |s|
  {
    var i := Index(s, sep);
    if i < 0 then [s] else [s[..i]] + Split(s[i + |sep|..], sep)
  }

  lemma {:induction false} JoinSplit(s: string, sep: string)
    requires sep != ""
    ensures Join(Split(s, sep), sep) == s
    decreases |s|
  {
    var i := Index(s, sep);
    if i >= 0 {
      JoinSplit(s[i + |sep|..], sep);
      assert s == s[..i] + sep + s[i + |sep|..];
      assert Split(s, sep)[1..] == Split(s[i + |sep|..], sep);
    }
  }

  lemma SplitCons(x: string, sep: string, y: string)
    requires sep != ""
    requires Index(x + sep + y, sep) == |x|
    ensures Split(x + sep + y, sep) == [x] + Split(y, sep)
  {
    assert (x + sep + y)[..|x|] == x;
    assert (x + sep + y)[|x| + |sep|..] == y;
  }

  lemma FreeOfChar(x: string, c: char)
    ensures Free(x, [c]) <==> c !in x
  {
    var i := Index(x, [c]);
    forall k: nat ensures OccursAt(x, [c], k) <==> k < |x| && x[k] == c {
      if k < |x| { assert x[k..k + 1] == [x[k]]; }
    }
  }

  lemma IndexOfChar(x: string, c: char, y: string)
    requires c !in x
    ensures Index(x + [c] + y, [c]) == |x|
  {
    var s := x + [c] + y;
    assert s[|x|..|x| + 1] == [c];
    forall j: nat | j < |x| ensures !OccursAt(s, [c], j) {
      assert s[j..j + 1] == [x[j]];
    }
    IndexIs(s, [c], |x|);
  }

  lemma {:induction false} SplitJoinChar(parts: seq<string>, c: char)
    requires parts != []
    requires forall p :: p in parts ==> c !in p
    ensures Split(Join(parts, [c]), [c]) == parts
  {
    if |parts| == 1 {
      FreeOfChar(parts[0], c);
    } else {
      var rest := Join(parts[1..], [c]);
      IndexOfChar(parts[0], c, rest);
      SplitCons(parts[0], [c], rest);
      SplitJoinChar(parts[1..], c);
    }
  }

  lemma {:induction false} SplitPartsFree(s: string, c: char)
    ensures forall p :: p in Split(s, [c]) ==> c !in p
    decreases |s|
  {
    var i := Index(s, [c]);
    if i < 0 {
      FreeOfChar(s, c);
    } else {
      assert Free(s[..i], [c]) by {
        forall k: nat ensures !OccursAt(s[..i], [c], k) {
          if k < i { assert s[..i][k..k + 1] == s[k..k + 1]; assert !OccursAt(s, [c], k); }
        }
      }
      FreeOfChar(s[..i], c);
      SplitPartsFree(s[i + 1..], c);
    }
  }

  // ---------------------------------------------------------------- white space

  /** unicode.IsSpace */
  predicate IsSpace(c: char) {
    c == ' ' || '\t' <= c <= '\r' || c == '\U{0085}' || c == '\U{00A0}'
    || c == '\U{1680}' || '\U{2000}' <= c <= '\U{200A}' || c == '\U{2028}' || c == '\U{2029}'
    || c == '\U{202F}' || c == '\U{205F}' || c == '\U{3000}'
  }

  predicate AllSpace(s: string) {
    forall i :: 0 <= i < |s| ==> IsSpace(s[i])
  }

  predicate Trimmed(s: string) {
    s == "" || (!IsSpace(s[0]) && !IsSpace(s[|s| - 1]))
  }

  function FirstNonSpace(s: string, i: nat): (r: nat)
    requires i <= |s|
    ensures i <= r <= |s| && (r < |s| ==> !IsSpace(s[r]))
    ensures forall k :: i <= k < r ==> IsSpace(s[k])
    decreases |s| - i
  {
    if i < |s| && IsSpace(s[i]) then FirstNonSpace(s, i + 1) else i
  }

  function AfterLastNonSpace(s: string, lo: nat, n: nat): (r: nat)
    requires lo <= n <= |s|
    ensures lo <= r <= n && (lo < r ==> !IsSpace(s[r - 1]))
    ensures forall k :: r <= k < n ==> IsSpace(s[k])
  {
    if lo < n && IsSpace(s[n - 1]) then AfterLastNonSpace(s, lo, n - 1) else n
  }

  /** strings.TrimSpace */
  function TrimSpace(s: string): (r: string)
    ensures Trimmed(r)
  {
    var i := FirstNonSpace(s, 0);
    s[i..AfterLastNonSpace(s, i, |s|)]
  }

  /** TrimSpace takes white space off both ends and nothing else. */
  lemma TrimSpaceSplits(s: string) returns (left: string, right: string)
    ensures s == left + TrimSpace(s) + right
    ensures AllSpace(left) && AllSpace(right)
  {
    var i := FirstNonSpace(s, 0);
    var j := AfterLastNonSpace(s, i, |s|);
    left, right := s[..i], s[j..];
  }

  /** Trimming removes exactly the padding around trimmed text. */
  lemma TrimPadded(left: string, s: string, right: string)
    requires AllSpace(left) && AllSpace(right) && Trimmed(s)
    ensures TrimSpace(left + s + right) == s
  {
    var t := left + s + right;
    var i := FirstNonSpace(t, 0);
    var j := AfterLastNonSpace(t, i, |t|);
    if s != "" {
      assert t[|left|] == s[0] && t[|left| + |s| - 1] == s[|s| - 1];
      assert i == |left|;
      assert j == |left| + |s|;
    }
  }

  lemma TrimmedIsFixed(s: string)
    requires Trimmed(s)
    ensures TrimSpace(s) == s
  {
    TrimPadded("", s, "");
    assert "" + s + "" == s;
  }

  // ---------------------------------------------------------------- case folding

  function LowerChar(c: char): char {
    if 'A' <= c <= 'Z' then (c as int + 32) as char else c
  }

  /** ASCII case folding: every word the rule language compares against is plain ASCII, and no
      other code point folds to one of the letters in those words. */
  function Lower(s: string): (r: string)
    ensures |r| == |s| && forall i :: 0 <= i < |s| ==> r[i] == LowerChar(s[i])
  {
    if s == "" then "" else [LowerChar(s[0])] + Lower(s[1..])
  }

  // ---------------------------------------------------------------- numbers

  predicate IsDigit(c: char) { '0' <= c <= '9' }

  function DigitChar(d: nat): (c: char)
    requires d < 10
    ensures IsDigit(c) && c as int - '0' as int == d
  {
    ('0' as int + d) as char
  }

  /** Decimal rendering, as %d prints a non-negative number. */
  function Decimal(n: nat): (s: string)
    ensures s != "" && forall c :: c in s ==> IsDigit(c)
  {
    if n < 10 then [DigitChar(n)] else Decimal(n / 10) + [DigitChar(n % 10)]
  }

  function DigitsValue(s: string): nat
    requires forall c :: c in s ==> IsDigit(c)
  {
    if s == "" then 0
    else
      assert s[|s| - 1] in s && IsDigit(s[|s| - 1]);
      10 * DigitsValue(s[..|s| - 1]) + (s[|s| - 1] as int - '0' as int)
  }

  const MIN_INT64 := -0x8000_0000_0000_0000
  const MAX_INT64 := 0x7fff_ffff_ffff_ffff

  /** strconv.ParseInt(s, 10, 64); strconv.Atoi does the same on a 64-bit platform. */
  function ParseInt64(s: string): Option<int> {
    var signed := s != "" && (s[0] == '-' || s[0] == '+');
    var digits := if signed then s[1..] else s;
    if digits == "" || exists i :: 0 <= i < |digits| && !IsDigit(digits[i]) then None
    else
      assert forall c :: c in digits ==> IsDigit(c);
      var n: int := if signed && s[0] == '-' then -(DigitsValue(digits) as int) else DigitsValue(digits);
      if MIN_INT64 <= n <= MAX_INT64 then Some(n) else None
  }

  /** strconv.ParseUint(s, 10, 64) */
  function ParseUint64(s: string): Option<nat> {
    if s == "" || exists i :: 0 <= i < |s| && !IsDigit(s[i]) then None
    else
      assert forall c :: c in s ==> IsDigit(c);
      var n := DigitsValue(s);
      if n < 0x1_0000_0000_0000_0000 then Some(n) else None
  }

  lemma {:induction false} DecimalValue(n: nat)
    ensures DigitsValue(Decimal(n)) == n
  {
    var s := Decimal(n);
    if n < 10 {
      assert s[..0] == "";
    } else {
      DecimalValue(n / 10);
      assert s[..|s| - 1] == Decimal(n / 10);
    }
  }

  /** Decimal numerals convert to their numbers within the range of the type, and not beyond. */
  lemma NumeralParses(n: nat)
    ensures ParseUint64(Decimal(n)) == if n < 0x1_0000_0000_0000_0000 then Some(n) else None
    ensures ParseInt64(Decimal(n)) == if n <= 0x7fff_ffff_ffff_ffff then Some(n) else None
    ensures ParseInt64("-" + Decimal(n)) == if n <= 0x8000_0000_0000_0000 then Some(-(n as int)) else None
  {
    DecimalValue(n);
    var s := Decimal(n);
    forall i | 0 <= i < |s| ensures IsDigit(s[i]) { assert s[i] in s; }
    DigitsParse(s, n);
    MinusParses(s, n);
  }

  lemma DigitsParse(s: string, n: nat)
    requires s != "" && (forall i :: 0 <= i < |s| ==> IsDigit(s[i])) && DigitsValue(s) == n
    ensures ParseUint64(s) == if n < 0x1_0000_0000_0000_0000 then Some(n) else None
    ensures ParseInt64(s) == if n <= 0x7fff_ffff_ffff_ffff then Some(n) else None
  {
    assert s[0] != '-' && s[0] != '+';
  }

  lemma MinusParses(s: string, n: nat)
    requires s != "" && (forall i :: 0 <= i < |s| ==> IsDigit(s[i])) && DigitsValue(s) == n
    ensures ParseInt64("-" + s) == if n <= 0x8000_0000_0000_0000 then Some(-(n as int)) else None
  {
    assert ("-" + s)[1..] == s;
  }
}
