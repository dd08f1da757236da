/** pkg/tool.go: the small helpers every command uses. File and HTTP plumbing
    (GetFileMd5, CopyFile, HttpPost, Write2File, PathExists, GetFileSize,
    DownLoadFile) is not modelled here: the commands see their effect on the
    repository's maps and receive replies as parameters. */
module Tool {
  import opened Wrappers
  import opened GoStrings
  import opened Timestamp

  // ---------------------------------------------------------------------
  // GetExt

  /** The part of `src` before its last '?', or all of it. */
  function StripQuery(src: string): (r: string)
    ensures '?' !in src ==> r == src
    ensures '?' in src ==> |r| < |src| && r == src[..|r|] && src[|r|] == '?' && '?' !in src[|r| + 1..]
  {
    var j := LastIndexChar(src, '?');
    if j != -1 then src[..j] else src
  }

  /** GetExt: the lower-cased suffix of the query-stripped name from its last
      '.', or "" when it has no '.'. */
  function GetExt(src: string): string {
    var s := StripQuery(src);
    var i := LastIndexChar(s, '.');
    if i != -1 then ToLower(s[i..]) else []
  }

  /** The extension is empty exactly when the name has no '.', otherwise it
      starts at the last '.', and it holds no upper-case letter. */
  lemma GetExtShape(src: string)
    ensures var e := GetExt(src);
            (e == [] <==> '.' !in StripQuery(src)) &&
            (e != [] ==> e[0] == '.' && '.' !in e[1..]) &&
            (forall i :: 0 <= i < |e| ==> !IsUpper(e[i]))
  {
    var s := StripQuery(src);
    var i := LastIndexChar(s, '.');
    if i != -1 {
      assert forall k :: 0 <= k < |s[i..][1..]| ==> s[i..][1..][k] == s[i + 1 + k];
    } else {
      assert forall k :: 0 <= k < |s| ==> s[k] != '.';
    }
  }

  /** A name that ends in an extension, with no query part, has that
      extension in lower case. */
  lemma {:induction false} GetExtOfSuffix(base: string, ext: string)
    requires ext != [] && ext[0] == '.' && '.' !in ext[1..]
    requires '?' !in base && '?' !in ext
    ensures GetExt(base + ext) == ToLower(ext)
  {
    var s := base + ext;
    assert forall k :: 0 <= k < |s| ==> s[k] != '?' by {
      forall k | 0 <= k < |s| ensures s[k] != '?' {
        if k < |base| { assert s[k] == base[k]; } else { assert s[k] == ext[k - |base|]; }
      }
    }
    assert StripQuery(s) == s;
    assert s[|base|] == '.';
    forall k | |base| < k < |s| ensures s[k] != '.' {
      assert s[k] == ext[1..][k - |base| - 1];
    }
    assert LastIndexChar(s, '.') == |base|;
    assert s[|base|..] == ext;
  }

  /** A name that ends in a lower-case extension, with no query part, has
      exactly that extension. */
  lemma GetExtOfLowerSuffix(base: string, ext: string)
    requires ext != [] && ext[0] == '.' && '.' !in ext[1..]
    requires '?' !in base && '?' !in ext
    requires forall i :: 0 <= i < |ext| ==> !IsUpper(ext[i])
    ensures GetExt(base + ext) == ext
  {
    GetExtOfSuffix(base, ext);
    ToLowerOfLower(ext);
  }

  /** A query string after the last '?' does not change the extension. */
  lemma {:induction false} GetExtIgnoresQuery(s: string, q: string)
    requires '?' !in s && '?' !in q
    ensures GetExt(s + "?" + q) == GetExt(s)
  {
    var t := s + "?" + q;
    assert t[|s|] == '?';
    forall k | |s| < k < |t| ensures t[k] != '?' {
      assert t[k] == q[k - |s| - 1];
    }
    assert LastIndexChar(t, '?') == |s|;
    assert t[..|s|] == s;
    assert StripQuery(s) == s;
  }

  // ---------------------------------------------------------------------
  // TimeCompare

  /** TimeCompare(a, b): a's parsed instant is strictly later than b's, an
      unparsable string counting as the zero time. */
  predicate TimeCompare(a: string, b: string) {
    Seconds(TimeOf(a)) > Seconds(TimeOf(b))
  }

  lemma TimeCompareStrict(a: string, b: string, c: string)
    ensures !TimeCompare(a, a)
    ensures TimeCompare(a, b) ==> !TimeCompare(b, a)
    ensures TimeCompare(a, b) && TimeCompare(b, c) ==> TimeCompare(a, c)
  {
  }

  /** On the timestamps the program itself writes, TimeCompare is the
      calendar order, year first. */
  lemma TimeCompareFormatted(a: Instant, b: Instant)
    requires Valid(a) && Valid(b) && a.year <= 9999 && b.year <= 9999
    ensures TimeCompare(Format(a), Format(b)) <==> After(a, b)
  {
    ParseFormat(a);
    ParseFormat(b);
    SecondsOrder(a, b);
  }

  /** An unparsable timestamp is never later than one from year 1 on. */
  lemma TimeCompareUnparsable(a: string, b: string)
    requires Parse(a).None? && TimeOf(b).year >= 1
    ensures !TimeCompare(a, b)
  {
    SecondsOrder(Zero, TimeOf(b));
  }

  // ---------------------------------------------------------------------
  // VersionCompare

  /** Part `i` of the first version is numerically greater than part `i` of
      the second (non-numeric parts count as 0). */
  predicate GreaterAt(a: seq<string>, b: seq<string>, i: int) {
    0 <= i < |a| && i < |b| && Atoi(a[i]) > Atoi(b[i])
  }

  /** What VersionCompare(v1, v2) does: true when some part of v1 is greater
      than the same part of v2, false when none is, and None where the loop
      runs past the end of v2's parts (an index-out-of-range panic). */
  function VersionOrder(v1: string, v2: string): Option<bool> {
    var a, b := Split(v1, '.'), Split(v2, '.');
    if exists i :: 0 <= i < |a| && GreaterAt(a, b, i) then Some(true)
    else if |a| > |b| then None
    else Some(false)
  }

  method VersionCompare(v1: string, v2: string) returns (r: Option<bool>)
    ensures r == VersionOrder(v1, v2)
  {
    var a, b := Split(v1, '.'), Split(v2, '.');
    var i := 0;
    while i < |a|
      invariant 0 <= i <= |a|
      invariant forall j :: 0 <= j < i ==> !GreaterAt(a, b, j)
      invariant i <= |b|
    {
      if i >= |b| {
        return None;
      }
      if Atoi(a[i]) > Atoi(b[i]) {
        assert GreaterAt(a, b, i);
        return Some(true);
      }
      i := i + 1;
    }
    return Some(false);
  }

  /** The comparison is not lexicographic: a later part can win even though
      an earlier part is smaller. */
  lemma VersionNotLexicographic()
    ensures VersionOrder("1.0.5", "2.0.0") == Some(true)
  {
    var a := Split("1.0.5", '.');
    var b := Split("2.0.0", '.');
    assert IndexChar("5", '.') == -1 && IndexChar("0", '.') == -1;
    assert IndexChar("0.5", '.') == 1 && IndexChar("0.0", '.') == 1;
    assert "0.5"[..1] == "0" && "0.5"[2..] == "5";
    assert "0.0"[..1] == "0" && "0.0"[2..] == "0";
    assert Split("0.5", '.') == ["0", "5"];
    assert Split("0.0", '.') == ["0", "0"];
    assert IndexChar("1.0.5", '.') == 1 && IndexChar("2.0.0", '.') == 1;
    assert "1.0.5"[..1] == "1" && "1.0.5"[2..] == "0.5";
    assert "2.0.0"[..1] == "2" && "2.0.0"[2..] == "0.0";
    assert a == ["1", "0", "5"];
    assert b == ["2", "0", "0"];
    assert DigitsValue("5") == 5 && DigitsValue("0") == 0;
    assert GreaterAt(a, b, 2);
  }

  /** A version is never newer than itself. */
  lemma VersionIrreflexive(v: string)
    ensures VersionOrder(v, v) == Some(false)
  {
  }

  // ---------------------------------------------------------------------
  // GetRandomString and GetKey

  const Alphabet := "0123456789abcdefghijklmnopqrstuvwxyz"

  predicate KeyChar(c: char) {
    IsDigit(c) || 'a' <= c <= 'z'
  }

  lemma AlphabetChars(k: nat)
    requires k < |Alphabet|
    ensures KeyChar(Alphabet[k])
  {
  }

  /** GetRandomString(n): the characters Alphabet[d] for the first n draws of
      r.Intn(36). */
  method GetRandomString(n: nat, draws: seq<nat>) returns (s: string)
    requires n <= |draws|
    requires forall i :: 0 <= i < |draws| ==> draws[i] < |Alphabet|
    ensures |s| == n
    ensures forall i :: 0 <= i < n ==> s[i] == Alphabet[draws[i]] && KeyChar(s[i])
  {
    s := [];
    var i := 0;
    while i < n
      invariant 0 <= i <= n && |s| == i
      invariant forall j :: 0 <= j < i ==> s[j] == Alphabet[draws[j]] && KeyChar(s[j])
    {
      AlphabetChars(draws[i]);
      s := s + [Alphabet[draws[i]]];
      i := i + 1;
    }
  }

  /** GetKey: three random characters, the Unix time in decimal, three more. */
  method GetKey(now: nat, head: seq<nat>, tail: seq<nat>) returns (k: string)
    requires |head| >= 3 && forall i :: 0 <= i < |head| ==> head[i] < |Alphabet|
    requires |tail| >= 3 && forall i :: 0 <= i < |tail| ==> tail[i] < |Alphabet|
    ensures |k| >= 7
    ensures forall i :: 0 <= i < 3 ==> KeyChar(k[i])
    ensures forall i :: |k| - 3 <= i < |k| ==> KeyChar(k[i])
    ensures ParseInt(k[3..|k| - 3]) == Some(now)
  {
    var a := GetRandomString(3, head);
    var b := GetRandomString(3, tail);
    var mid := Itoa(now);
    k := a + mid + b;
    assert k[3..|k| - 3] == mid;
    ParseItoa(now);
    assert forall i :: 0 <= i < 3 ==> k[i] == a[i];
    assert forall i :: |k| - 3 <= i < |k| ==> k[i] == b[i - (|k| - 3)];
  }

  // ---------------------------------------------------------------------
  // postCall and ClientCall

  /** What one HTTP POST can come back with: no answer, a body that is not
      the JSON envelope, or the envelope {msg, data, response_status}. */
  datatype Reply<D> = Unreachable(reason: string) | Garbled(body: string) | Envelope(msg: string, data: D, status: string)

  /** postCall: the data of a "success" envelope; every other reply is an
      error. */
  function PostCall<D>(reply: Reply<D>): (r: Result<D>)
    ensures r.Success? <==> reply.Envelope? && reply.status == "success"
    ensures r.Success? ==> r.value == reply.data
  {
    match reply
    case Unreachable(reason) => Failure(reason)
    case Garbled(body) => Failure("err:" + body)
    case Envelope(msg, data, status) => if status == "success" then Success(data) else Failure("errMsg:" + msg)
  }

  /** ClientCall: at most three attempts, `replies[i]` being what attempt i
      would receive; the first success is returned, otherwise the last
      attempt's error. */
  method ClientCall<D>(replies: seq<Reply<D>>) returns (r: Result<D>, tries: nat)
    requires |replies| >= 3
    ensures 1 <= tries <= 3
    ensures r == PostCall(replies[tries - 1])
    ensures forall i :: 0 <= i < tries - 1 ==> PostCall(replies[i]).Failure?
    ensures r.Failure? ==> tries == 3
  {
    tries := 0;
    r := Failure("");
    while tries < 3
      invariant 0 <= tries <= 3
      invariant forall i :: 0 <= i < tries ==> PostCall(replies[i]).Failure?
      invariant tries > 0 ==> r == PostCall(replies[tries - 1])
    {
      r := PostCall(replies[tries]);
      tries := tries + 1;
      if r.Success? {
        return;
      }
    }
  }
}
