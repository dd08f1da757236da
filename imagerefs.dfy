/** The Markdown image references every image rewriter works on: the targets
    that the regular expression `\!\[.*?\]\((.*?)\)` captures, found left to
    right without overlap, and the tests the rewriters apply to a target. */
module ImageRefs {
  import opened Wrappers
  import opened GoStrings
  import Tool

  /** The first ')' at or after `i` on the same line. */
  function CloseAt(s: string, i: nat): (r: Option<nat>)
    ensures r.Some? ==> i <= r.value < |s| && s[r.value] == ')'
    ensures r.Some? ==> forall k :: i <= k < r.value ==> s[k] != ')' && s[k] != '\n'
    decreases |s| - i
  {
    if i >= |s| || s[i] == '\n' then None
    else if s[i] == ')' then Some(i)
    else CloseAt(s, i + 1)
  }

  lemma SliceAvoids(s: string, i: nat, e: nat, c: char)
    requires i <= e <= |s|
    requires forall k :: i <= k < e ==> s[k] != c
    ensures c !in s[i..e]
  {
    forall j | 0 <= j < e - i ensures s[i..e][j] != c {
      assert s[i..e][j] == s[i + j];
    }
  }

  /** The rest of one match once "![" has been read: the alt text `.*?` is
      extended one byte at a time up to the first "](" after which a ')'
      closes the target on the same line. Neither group crosses a newline.
      Gives the captured target and the position after the match. */
  function MatchFrom(s: string, q: nat): (r: Option<(string, nat)>)
    ensures r.Some? ==> q < r.value.1 <= |s|
    ensures r.Some? ==> ')' !in r.value.0 && '\n' !in r.value.0
    decreases |s| - q
  {
    if q + 1 >= |s| || s[q] == '\n' then None
    else if s[q] == ']' && s[q + 1] == '(' then
      match CloseAt(s, q + 2)
      case Some(e) =>
        SliceAvoids(s, q + 2, e, ')');
        SliceAvoids(s, q + 2, e, '\n');
        Some((s[q + 2..e], e + 1))
      case None => MatchFrom(s, q + 1)
    else MatchFrom(s, q + 1)
  }

  /** FindAllSubmatch from position `p`: the leftmost match, then the next
      one after its end. */
  function Scan(s: string, p: nat): (ts: seq<string>)
    ensures forall i :: 0 <= i < |ts| ==> ')' !in ts[i] && '\n' !in ts[i]
    decreases |s| - p
  {
    if p + 1 >= |s| then []
    else if s[p] == '!' && s[p + 1] == '[' then
      match MatchFrom(s, p + 2)
      case Some(m) => [m.0] + Scan(s, m.1)
      case None => Scan(s, p + 1)
    else Scan(s, p + 1)
  }

  /** The captured image targets of a document, in order of appearance. */
  function Targets(s: string): (ts: seq<string>)
    ensures forall i :: 0 <= i < |ts| ==> ')' !in ts[i] && '\n' !in ts[i]
  {
    Scan(s, 0)
  }

  /** Without an "![" there is nothing to rewrite. */
  lemma {:induction false} ScanWithoutBang(s: string, p: nat)
    requires forall k :: p <= k && k + 1 < |s| ==> !(s[k] == '!' && s[k + 1] == '[')
    ensures Scan(s, p) == []
    decreases |s| - p
  {
    if p + 1 < |s| {
      ScanWithoutBang(s, p + 1);
    }
  }

  lemma TargetsOfPlainText(s: string)
    requires !Contains(s, "![")
    ensures Targets(s) == []
  {
    forall k | 0 <= k && k + 1 < |s| ensures !(s[k] == '!' && s[k + 1] == '[') {
      if s[k] == '!' && s[k + 1] == '[' {
        assert s[k..k + 2] == "![";
        ContainsAt(s, "![", k);
      }
    }
    ScanWithoutBang(s, 0);
  }

  /** A document holding the single reference "![alt](t)" yields its
      target whole. */
  lemma TargetsOfOneImage(alt: string, t: string)
    requires ']' !in alt && '\n' !in alt && ')' !in t && '\n' !in t
    ensures Targets("![" + alt + "](" + t + ")") == [t]
  {
    var s := "![" + alt + "](" + t + ")";
    var m := 2 + |alt|;
    assert forall k :: 2 <= k < m ==> s[k] == alt[k - 2];
    assert forall k :: m + 2 <= k < |s| - 1 ==> s[k] == t[k - m - 2];
    assert s[m] == ']' && s[m + 1] == '(' && s[|s| - 1] == ')';
    CloseAtFirst(s, m + 2, |s| - 1);
    assert s[m + 2..|s| - 1] == t;
    assert MatchFrom(s, m) == Some((t, |s|));
    MatchFromSkips(s, 2, m);
    assert s[0] == '!' && s[1] == '[';
    assert Scan(s, 0) == [t] + Scan(s, |s|);
  }

  /** CloseAt finds the first ')' when nothing before it ends the line. */
  lemma {:induction false} CloseAtFirst(s: string, i: nat, e: nat)
    requires i <= e < |s| && s[e] == ')'
    requires forall k :: i <= k < e ==> s[k] != ')' && s[k] != '\n'
    ensures CloseAt(s, i) == Some(e)
    decreases e - i
  {
    if i < e {
      CloseAtFirst(s, i + 1, e);
    }
  }

  /** The alt text is skipped up to the first ']' on the line. */
  lemma {:induction false} MatchFromSkips(s: string, q: nat, m: nat)
    requires q <= m && m + 1 < |s|
    requires forall k :: q <= k < m ==> s[k] != ']' && s[k] != '\n'
    ensures MatchFrom(s, q) == MatchFrom(s, m)
    decreases m - q
  {
    if q < m {
      MatchFromSkips(s, q + 1, m);
    }
  }

  /** isSupportImg: the four image extensions a rewriter uploads. */
  predicate IsSupportImg(ext: string) {
    ext == ".jpeg" || ext == ".gif" || ext == ".png" || ext == ".jpg"
  }

  /** A target whose extension (after GetExt) is a supported image type. */
  predicate Supported(t: string) {
    IsSupportImg(Tool.GetExt(t))
  }

  const OldHost := "https://zpic.jiaoliuqu.com/"
  const NewHost := "https://zpic.xiaoy.name/"

  /** A target already on one of the two permanent image domains. */
  predicate Permanent(t: string) {
    Contains(t, "jiaoliuqu.com") || Contains(t, "xiaoy.name")
  }

  /** Every URL a rewriter produces is on a permanent domain, so a later run
      leaves it alone. */
  lemma RewrittenIsPermanent(key: string)
    ensures Contains(OldHost + key, "jiaoliuqu.com")
    ensures Contains(NewHost + key, "xiaoy.name")
    ensures Permanent(OldHost + key) && Permanent(NewHost + key)
  {
    HostDomains();
    HostContains(OldHost, "jiaoliuqu.com", 13, key);
    HostContains(NewHost, "xiaoy.name", 13, key);
  }

  lemma HostDomains()
    ensures |OldHost| >= 26 && OldHost[13..26] == "jiaoliuqu.com"
    ensures |NewHost| >= 23 && NewHost[13..23] == "xiaoy.name"
  {
  }

  /** A domain inside the host prefix stays inside the URL. */
  lemma HostContains(host: string, domain: string, j: nat, key: string)
    requires j + |domain| <= |host| && host[j..j + |domain|] == domain
    ensures Contains(host + key, domain)
  {
    var a := host + key;
    assert a[j..j + |domain|] == host[j..j + |domain|];
    ContainsAt(a, domain, j);
  }

  /** How one rewriter treats a target: whether it uploads it, which local
      path it hands to the uploader, and the URL prefix of the returned key. */
  datatype Rule = Rule(eligible: string -> bool, source: string -> string, host: string)

  /** The target is uploaded and the upload succeeds. */
  predicate Hit(rule: Rule, t: string, upload: string -> Option<string>) {
    rule.eligible(t) && upload(rule.source(t)).Some?
  }

  /** The local paths handed to the uploader, in order. */
  function Uploads(rule: Rule, ts: seq<string>): (us: seq<string>)
    ensures |us| <= |ts|
  {
    if ts == [] then []
    else
      var t := ts[|ts| - 1];
      Uploads(rule, ts[..|ts| - 1]) + (if rule.eligible(t) then [rule.source(t)] else [])
  }

  /** Some upload succeeded. */
  predicate Changed(rule: Rule, ts: seq<string>, upload: string -> Option<string>) {
    exists i :: 0 <= i < |ts| && Hit(rule, ts[i], upload)
  }

  /** One target: after a successful upload every occurrence of it becomes
      the URL of the returned key; otherwise nothing changes. */
  function Step(rule: Rule, content: string, t: string, upload: string -> Option<string>): string {
    if Hit(rule, t, upload) then ReplaceAll(content, t, rule.host + upload(rule.source(t)).value)
    else content
  }

  /** The document after the targets `ts`, in order. */
  function After(rule: Rule, content: string, ts: seq<string>, upload: string -> Option<string>): string {
    if ts == [] then content
    else Step(rule, After(rule, content, ts[..|ts| - 1], upload), ts[|ts| - 1], upload)
  }

  /** One more target: After takes one more Step, and Uploads one more
      path when the target is eligible. */
  lemma Snoc(rule: Rule, content: string, ts: seq<string>, i: nat, upload: string -> Option<string>)
    requires i < |ts|
    ensures After(rule, content, ts[..i + 1], upload) == Step(rule, After(rule, content, ts[..i], upload), ts[i], upload)
    ensures Uploads(rule, ts[..i + 1]) == Uploads(rule, ts[..i]) + (if rule.eligible(ts[i]) then [rule.source(ts[i])] else [])
  {
    assert ts[..i + 1][..i] == ts[..i];
  }

  lemma ChangedSnoc(rule: Rule, ts: seq<string>, t: string, upload: string -> Option<string>)
    ensures Changed(rule, ts + [t], upload) <==> Changed(rule, ts, upload) || Hit(rule, t, upload)
  {
    var s := ts + [t];
    if Changed(rule, s, upload) {
      var i :| 0 <= i < |s| && Hit(rule, s[i], upload);
      if i < |ts| {
        assert s[i] == ts[i];
      }
    }
    if Changed(rule, ts, upload) {
      var i :| 0 <= i < |ts| && Hit(rule, ts[i], upload);
      assert s[i] == ts[i];
    }
    if Hit(rule, t, upload) {
      assert s[|ts|] == t;
    }
  }

  /** Without a successful upload the text is what it was. */
  lemma {:induction false} UnchangedText(rule: Rule, content: string, ts: seq<string>, upload: string -> Option<string>)
    requires !Changed(rule, ts, upload)
    ensures After(rule, content, ts, upload) == content
  {
    if ts != [] {
      var init := ts[..|ts| - 1];
      assert forall i :: 0 <= i < |init| ==> init[i] == ts[i];
      UnchangedText(rule, content, init, upload);
    }
  }

  /** The effect of a rewriter that writes the file back whenever it has
      targets and a token (replaceImg of post.go and of main.go): a Failure,
      Success(None) when the file is left as it is, or Success(Some(text))
      when `text` is written back. `file` is None when it cannot be read. */
  function RewriteAlways(rule: Rule, file: Option<string>, token: Option<string>, upload: string -> Option<string>): (r: Result<Option<string>>)
    ensures file.None? ==> r.Failure?
  {
    if file.None? then Failure("read")
    else if file.value == [] || Targets(file.value) == [] then Success(None)
    else if token.None? then Failure("token")
    else Success(Some(After(rule, file.value, Targets(file.value), upload)))
  }

  /** Each upload is the local path of an eligible target of the document. */
  lemma {:induction false} UploadsEligible(rule: Rule, ts: seq<string>)
    ensures forall u :: u in Uploads(rule, ts) ==> exists t :: t in ts && rule.eligible(t) && u == rule.source(t)
  {
    if ts != [] {
      var init := ts[..|ts| - 1];
      UploadsEligible(rule, init);
      assert forall u :: u in init ==> u in ts;
    }
  }
}
