/** The handful of Go standard-library string operations the synchroniser relies on
    (package strings, strconv.Atoi / FormatInt and bufio.Reader.ReadLine), stated
    over `string` = seq<char>, where one char stands for one byte of the file. */
module GoStrings {
  import opened Wrappers

  predicate HasPrefix(s: string, p: string) {
    |p| <= |s| && s[..|p|] == p
  }

  predicate HasSuffix(s: string, p: string) {
    |p| <= |s| && s[|s| - |p|..] == p
  }

  /** `sub` occurs in `s` starting at position `j`. */
  predicate OccursAt(s: string, sub: string, j: int) {
    0 <= j && j + |sub| <= |s| && s[j..j + |sub|] == sub
  }

  /** strings.Index: the first position where `sub` occurs, or -1. */
  function Index(s: string, sub: string): (i: int)
    ensures -1 <= i <= |s|
    ensures i >= 0 ==> OccursAt(s, sub, i)
    ensures i >= 0 ==> forall j :: 0 <= j < i ==> !OccursAt(s, sub, j)
    ensures i == -1 ==> forall j :: !OccursAt(s, sub, j)
    decreases |s|
  {
    if HasPrefix(s, sub) then
      assert OccursAt(s, sub, 0);
      0
    else if s == [] then
      -1
    else
      var i := Index(s[1..], sub);
      forall j | 1 <= j && j + |sub| <= |s|
        ensures OccursAt(s, sub, j) == OccursAt(s[1..], sub, j - 1)
      {
        assert s[j..j + |sub|] == s[1..][j - 1..j - 1 + |sub|];
      }
      if i < 0 then -1 else i + 1
  }

  /** strings.Contains. */
  predicate Contains(s: string, sub: string) {
    Index(s, sub) >= 0
  }

  lemma ContainsAt(s: string, sub: string, j: int)
    requires OccursAt(s, sub, j)
    ensures Contains(s, sub)
  {
  }

  lemma ContainsShorter(s: string, sub: string)
    requires |s| < |sub|
    ensures !Contains(s, sub)
  {
  }

  /** A one-byte needle occurs exactly when the byte does. */
  lemma ContainsChar(s: string, c: char)
    ensures Contains(s, [c]) <==> c in s
  {
    if c in s {
      var j :| 0 <= j < |s| && s[j] == c;
      assert s[j..j + 1] == [c];
      ContainsAt(s, [c], j);
    }
    if Contains(s, [c]) {
      var j := Index(s, [c]);
      assert s[j..j + 1] == [c];
      assert s[j] == c;
    }
  }

  lemma {:induction false} ContainsInLeft(a: string, b: string, sub: string)
    requires Contains(a, sub)
    ensures Contains(a + b, sub)
  {
    var j := Index(a, sub);
    assert (a + b)[j..j + |sub|] == a[j..j + |sub|];
    ContainsAt(a + b, sub, j);
  }

  lemma {:induction false} ContainsInRight(a: string, b: string, sub: string)
    requires Contains(b, sub)
    ensures Contains(a + b, sub)
  {
    var j := Index(b, sub);
    assert OccursAt(b, sub, j);
    var ab := a + b;
    assert ab[|a| + j..|a| + j + |sub|] == b[j..j + |sub|];
    assert OccursAt(ab, sub, |a| + j);
    ContainsAt(ab, sub, |a| + j);
  }

  /** The first position holding `c`, or -1 (strings.Index with a one-byte needle). */
  function IndexChar(s: string, c: char): (i: int)
    ensures -1 <= i < |s|
    ensures i >= 0 ==> s[i] == c && forall j :: 0 <= j < i ==> s[j] != c
    ensures i == -1 ==> forall j :: 0 <= j < |s| ==> s[j] != c
  {
    if s == [] then -1
    else if s[0] == c then 0
    else
      var i := IndexChar(s[1..], c);
      if i < 0 then -1 else i + 1
  }

  /** The last position holding `c`, or -1 (strings.LastIndex with a one-byte needle). */
  function LastIndexChar(s: string, c: char): (i: int)
    ensures -1 <= i < |s|
    ensures i >= 0 ==> s[i] == c && forall j :: i < j < |s| ==> s[j] != c
    ensures i == -1 ==> forall j :: 0 <= j < |s| ==> s[j] != c
  {
    if s == [] then -1
    else if s[|s| - 1] == c then |s| - 1
    else LastIndexChar(s[..|s| - 1], c)
  }

  predicate IsUpper(c: char) {
    'A' <= c <= 'Z'
  }

  function LowerChar(c: char): (d: char)
    ensures !IsUpper(d)
    ensures !IsUpper(c) ==> d == c
  {
    if IsUpper(c) then (c as int + 32) as char else c
  }

  /** strings.ToLower, on ASCII letters only. */
  function ToLower(s: string): (r: string)
    ensures |r| == |s|
    ensures forall i :: 0 <= i < |s| ==> r[i] == LowerChar(s[i])
    ensures forall i :: 0 <= i < |r| ==> !IsUpper(r[i])
  {
    seq(|s|, i requires 0 <= i < |s| => LowerChar(s[i]))
  }

  /** Lower-case text is left alone. */
  lemma ToLowerOfLower(s: string)
    requires forall i :: 0 <= i < |s| ==> !IsUpper(s[i])
    ensures ToLower(s) == s
  {
  }

  lemma ToLowerIdempotent(s: string)
    ensures ToLower(ToLower(s)) == ToLower(s)
  {
  }

  /** The ASCII white space of unicode.IsSpace. */
  predicate IsSpace(c: char) {
    c == ' ' || c == '\t' || c == '\n' || c == '\r' || c == '\U{000B}' || c == '\U{000C}'
  }

  predicate AllSpace(s: string) {
    forall i :: 0 <= i < |s| ==> IsSpace(s[i])
  }

  function TrimLeft(s: string): (r: string)
    ensures |r| <= |s| && r == s[|s| - |r|..]
    ensures AllSpace(s[..|s| - |r|])
    ensures r == [] || !IsSpace(r[0])
  {
    if s != [] && IsSpace(s[0]) then
      var r := TrimLeft(s[1..]);
      assert s[..|s| - |r|] == [s[0]] + s[1..][..|s| - 1 - |r|];
      r
    else s
  }

  function TrimRight(s: string): (r: string)
    ensures |r| <= |s| && r == s[..|r|]
    ensures AllSpace(s[|r|..])
    ensures r == [] || !IsSpace(r[|r| - 1])
  {
    if s != [] && IsSpace(s[|s| - 1]) then
      var r := TrimRight(s[..|s| - 1]);
      assert s[|r|..] == s[..|s| - 1][|r|..] + [s[|s| - 1]];
      r
    else s
  }

  /** The number of white-space bytes `s` starts with. */
  function LeadingSpace(s: string): (n: nat)
    ensures n <= |s| && AllSpace(s[..n]) && (n == |s| || !IsSpace(s[n]))
  {
    if s != [] && IsSpace(s[0]) then
      var n := LeadingSpace(s[1..]);
      assert s[..n + 1] == [s[0]] + s[1..][..n];
      n + 1
    else 0
  }

  /** strings.TrimSpace: `r` is `s` without its leading and trailing white space:
      the slice after the leading white space, followed only by white space;
      empty exactly when `s` is blank. */
  function TrimSpace(s: string): (r: string)
    ensures r == [] <==> AllSpace(s)
    ensures r != [] ==> !IsSpace(r[0]) && !IsSpace(r[|r| - 1])
    ensures LeadingSpace(s) + |r| <= |s| && r == s[LeadingSpace(s)..LeadingSpace(s) + |r|]
    ensures AllSpace(s[LeadingSpace(s) + |r|..])
  {
    var l := TrimLeft(s);
    var r := TrimRight(l);
    TrimParts(s, l, r, LeadingSpace(s));
    r
  }

  /** The facts TrimLeft, TrimRight and LeadingSpace give, put together. */
  lemma TrimParts(s: string, l: string, r: string, n: nat)
    requires |l| <= |s| && l == s[|s| - |l|..] && AllSpace(s[..|s| - |l|]) && (l == [] || !IsSpace(l[0]))
    requires |r| <= |l| && r == l[..|r|] && AllSpace(l[|r|..]) && (r == [] || !IsSpace(r[|r| - 1]))
    requires n <= |s| && AllSpace(s[..n]) && (n == |s| || !IsSpace(s[n]))
    ensures r == [] <==> AllSpace(s)
    ensures r != [] ==> !IsSpace(r[0]) && !IsSpace(r[|r| - 1])
    ensures n + |r| <= |s| && r == s[n..n + |r|] && AllSpace(s[n + |r|..])
  {
    var i := |s| - |l|;
    if l != [] {
      assert s[i] == l[0];
    }
    SpacePrefixUnique(s, i, n);
    TrimmedSlice(s, l, r);
    if r == [] {
      assert s == s[..i] + l[|r|..];
    } else {
      assert r[0] == l[0];
    }
  }

  /** Only one prefix of white space ends at a non-space or at the end. */
  lemma SpacePrefixUnique(s: string, a: nat, b: nat)
    requires a <= |s| && AllSpace(s[..a]) && (a == |s| || !IsSpace(s[a]))
    requires b <= |s| && AllSpace(s[..b]) && (b == |s| || !IsSpace(s[b]))
    ensures a == b
  {
  }

  /** What TrimRight keeps of what TrimLeft keeps is a slice of the input
      with white space on both sides. */
  lemma TrimmedSlice(s: string, l: string, r: string)
    requires |l| <= |s| && l == s[|s| - |l|..] && AllSpace(s[..|s| - |l|])
    requires |r| <= |l| && r == l[..|r|] && AllSpace(l[|r|..])
    ensures var i := |s| - |l|;
            r == s[i..i + |r|] && AllSpace(s[..i]) && AllSpace(s[i + |r|..])
  {
    var i := |s| - |l|;
    SuffixSlices(s, i, |r|);
  }

  lemma SuffixSlices(s: string, i: nat, k: nat)
    requires i + k <= |s|
    ensures s[i..][..k] == s[i..i + k] && s[i..][k..] == s[i + k..]
  {
  }

  /** A string that TrimSpace leaves as it is. */
  predicate Trimmed(t: string) {
    t == [] || (!IsSpace(t[0]) && !IsSpace(t[|t| - 1]))
  }

  lemma TrimSpaceAfterBlank(b: string, t: string)
    requires AllSpace(b) && Trimmed(t)
    ensures TrimSpace(b + t) == t
  {
    TrimLeftAfterBlank(b, t);
    if t != [] {
      assert TrimRight(t) == t;
    }
  }

  lemma {:induction false} TrimLeftAfterBlank(b: string, t: string)
    requires AllSpace(b) && (t == [] || !IsSpace(t[0]))
    ensures TrimLeft(b + t) == t
    decreases |b|
  {
    if b != [] {
      assert (b + t)[1..] == b[1..] + t;
      assert AllSpace(b[1..]) by {
        assert forall i :: 0 <= i < |b| - 1 ==> b[1..][i] == b[i + 1];
      }
      TrimLeftAfterBlank(b[1..], t);
    } else {
      assert b + t == t;
    }
  }


  /** strings.Split with a one-byte separator: never empty, no piece holds `c`. */
  function Split(s: string, c: char): (parts: seq<string>)
    ensures |parts| >= 1
    ensures forall k :: 0 <= k < |parts| ==> c !in parts[k]
    decreases |s|
  {
    var i := IndexChar(s, c);
    if i < 0 then [s] else [s[..i]] + Split(s[i + 1..], c)
  }

  /** strings.Join, the inverse of Split. */
  function Join(parts: seq<string>, c: char): string
    requires |parts| >= 1
  {
    if |parts| == 1 then parts[0] else parts[0] + [c] + Join(parts[1..], c)
  }

  lemma {:induction false} JoinSplit(s: string, c: char)
    ensures Join(Split(s, c), c) == s
    decreases |s|
  {
    var i := IndexChar(s, c);
    if i >= 0 {
      var rest := s[i + 1..];
      JoinSplit(rest, c);
      var parts := Split(s, c);
      assert parts == [s[..i]] + Split(rest, c);
      assert parts[1..] == Split(rest, c);
      assert Join(parts, c) == s[..i] + [c] + Join(Split(rest, c), c);
      assert s == s[..i] + [c] + rest;
    } else {
      assert Split(s, c) == [s];
    }
  }

  /** Cutting `p + [c] + rest` at its first `c` gives back `p` and `rest`. */
  lemma FirstCut(p: string, c: char, rest: string)
    requires c !in p
    ensures IndexChar(p + [c] + rest, c) == |p|
    ensures (p + [c] + rest)[..|p|] == p
    ensures (p + [c] + rest)[|p| + 1..] == rest
  {
    var s := p + [c] + rest;
    assert s[|p|] == c;
    assert forall j :: 0 <= j < |p| ==> s[j] == p[j];
  }

  lemma {:induction false} SplitJoin(parts: seq<string>, c: char)
    requires |parts| >= 1
    requires forall k :: 0 <= k < |parts| ==> c !in parts[k]
    ensures Split(Join(parts, c), c) == parts
    decreases |parts|
  {
    if |parts| > 1 {
      var rest := Join(parts[1..], c);
      SplitJoin(parts[1..], c);
      FirstCut(parts[0], c, rest);
      assert Split(parts[0] + [c] + rest, c) == [parts[0]] + Split(rest, c);
      assert parts == [parts[0]] + parts[1..];
    } else {
      assert IndexChar(parts[0], c) == -1;
    }
  }

  /** strings.Replace(s, pat, rep, -1): every non-overlapping occurrence of `pat`,
      scanning left to right, becomes `rep`; an empty `pat` matches before every
      byte and at the end. */
  function ReplaceAll(s: string, pat: string, rep: string): string
    decreases |s|
  {
    if pat == [] then
      if s == [] then rep else rep + [s[0]] + ReplaceAll(s[1..], pat, rep)
    else if HasPrefix(s, pat) then
      rep + ReplaceAll(s[|pat|..], pat, rep)
    else if s == [] then
      []
    else
      [s[0]] + ReplaceAll(s[1..], pat, rep)
  }

  lemma {:induction false} ReplaceAbsent(s: string, pat: string, rep: string)
    requires pat != [] && !Contains(s, pat)
    ensures ReplaceAll(s, pat, rep) == s
    decreases |s|
  {
    assert !OccursAt(s, pat, 0);
    if s != [] {
      forall j ensures OccursAt(s[1..], pat, j) ==> OccursAt(s, pat, j + 1) {
        if 0 <= j && j + |pat| <= |s| - 1 {
          assert s[1..][j..j + |pat|] == s[j + 1..j + 1 + |pat|];
        }
      }
      ReplaceAbsent(s[1..], pat, rep);
    }
  }

  lemma {:induction false} ReplaceBySelf(s: string, pat: string)
    ensures ReplaceAll(s, pat, pat) == s
    decreases |s|
  {
    if pat == [] {
      if s != [] {
        ReplaceBySelf(s[1..], pat);
        assert s == [s[0]] + s[1..];
      }
    } else if HasPrefix(s, pat) {
      ReplaceBySelf(s[|pat|..], pat);
      assert s == pat + s[|pat|..];
    } else if s != [] {
      ReplaceBySelf(s[1..], pat);
      assert s == [s[0]] + s[1..];
    }
  }

  /** strings.Replace(s, pat, rep, 1): only the first occurrence is replaced. */
  function ReplaceFirst(s: string, pat: string, rep: string): (r: string)
    ensures (forall j :: !OccursAt(s, pat, j)) ==> r == s
    ensures forall i :: OccursAt(s, pat, i) && (forall j :: 0 <= j < i ==> !OccursAt(s, pat, j)) ==>
              r == s[..i] + rep + s[i + |pat|..]
  {
    var i := Index(s, pat);
    if i < 0 then s else s[..i] + rep + s[i + |pat|..]
  }

  lemma ReplaceFirstAtFront(p: string, t: string, rep: string)
    ensures ReplaceFirst(p + t, p, rep) == rep + t
  {
    var s := p + t;
    assert s[..|p|] == p;
    assert OccursAt(s, p, 0);
    assert s[|p|..] == t;
    assert s[..0] + rep + s[|p|..] == rep + t;
  }

  predicate IsDigit(c: char) {
    '0' <= c <= '9'
  }

  predicate AllDigits(s: string) {
    forall i :: 0 <= i < |s| ==> IsDigit(s[i])
  }

  function DigitValue(c: char): nat
    requires IsDigit(c)
  {
    c as int - '0' as int
  }

  function DigitChar(d: nat): (c: char)
    requires d < 10
    ensures IsDigit(c) && DigitValue(c) == d
  {
    ('0' as int + d) as char
  }

  /** The decimal value of a run of digits, most significant first. */
  function DigitsValue(ds: string): nat
    requires AllDigits(ds)
  {
    if ds == [] then 0 else DigitsValue(ds[..|ds| - 1]) * 10 + DigitValue(ds[|ds| - 1])
  }

  /** strconv.Atoi in base 10 over unbounded integers: an optional sign and at least
      one digit; anything else is a syntax error. */
  function ParseInt(s: string): (r: Option<int>)
    ensures r.Some? <==> (s != [] && AllDigits(s)) ||
                         (|s| > 1 && (s[0] == '+' || s[0] == '-') && AllDigits(s[1..]))
  {
    if |s| > 0 && (s[0] == '+' || s[0] == '-') then
      if |s| > 1 && AllDigits(s[1..]) then
        var v: int := DigitsValue(s[1..]);
        Some(if s[0] == '-' then -v else v)
      else None
    else if s != [] && AllDigits(s) then Some(DigitsValue(s))
    else None
  }

  /** The value the source keeps from `v, _ := strconv.Atoi(s)`: 0 on a syntax error. */
  function Atoi(s: string): int {
    ParseInt(s).GetOr(0)
  }

  /** strconv.FormatInt(n, 10) for n >= 0: the shortest decimal spelling. */
  function NatToString(n: nat): (r: string)
    ensures |r| >= 1 && AllDigits(r)
    ensures |r| > 1 ==> r[0] != '0'
    decreases n
  {
    if n < 10 then [DigitChar(n)] else NatToString(n / 10) + [DigitChar(n % 10)]
  }

  /** strconv.FormatInt(n, 10) / fmt's %d. */
  function Itoa(n: int): string {
    if n < 0 then "-" + NatToString(-n) else NatToString(n)
  }

  lemma {:induction false} DigitsOfNat(n: nat)
    ensures DigitsValue(NatToString(n)) == n
    decreases n
  {
    if n >= 10 {
      DigitsOfNat(n / 10);
      var s := NatToString(n);
      assert s[..|s| - 1] == NatToString(n / 10);
    }
  }

  lemma ParseItoa(n: int)
    ensures ParseInt(Itoa(n)) == Some(n)
  {
    if n < 0 {
      DigitsOfNat(-n);
      assert Itoa(n)[1..] == NatToString(-n);
    } else {
      DigitsOfNat(n);
    }
  }

  /** bufio.Reader.ReadLine: the next line without its "\n" or "\r\n", and what
      follows; None (io.EOF) once nothing is left. A final line without a newline
      is returned as it is. */
  function ReadLine(s: string): (r: Option<(string, string)>)
    ensures r.None? <==> s == []
    ensures r.Some? ==> '\n' !in r.value.0 && |r.value.1| < |s|
  {
    if s == [] then None
    else
      var i := IndexChar(s, '\n');
      if i < 0 then Some((s, []))
      else if i > 0 && s[i - 1] == '\r' then Some((s[..i - 1], s[i + 1..]))
      else Some((s[..i], s[i + 1..]))
  }

  lemma ReadLineOf(line: string, rest: string)
    requires '\n' !in line
    requires line == [] || line[|line| - 1] != '\r'
    ensures ReadLine(line + "\n" + rest) == Some((line, rest))
  {
    var s := line + "\n" + rest;
    assert s[|line|] == '\n';
    assert forall j :: 0 <= j < |line| ==> s[j] == line[j];
    assert IndexChar(s, '\n') == |line|;
    assert s[..|line|] == line;
    assert s[|line| + 1..] == rest;
  }
}
