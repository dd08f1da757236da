/** internal/doc/doc.go: the `Doc` rewriter of image references (the variant
    that tracks whether anything changed), the reader of already-rewritten
    image paths, and the shape check on the server's version string. */
module Doc {
  import opened Wrappers
  import opened GoStrings
  import opened ImageRefs
  import Tool

  // ---------------------------------------------------------------------
  // Doc.replaceImg

  /** A target this rewriter uploads: a supported image not yet on either
      permanent domain. */
  predicate Eligible(t: string) {
    Supported(t) && !Permanent(t)
  }

  /** Doc.replaceImg uploads the target itself and links the key on the
      xiaoy.name domain. */
  function DocRule(): Rule {
    Rule(Eligible, t => t, NewHost)
  }

  /** Doc.replaceImg on the file's bytes (None when the file cannot be read).
      `token` is getUploadToken's answer (None for any error), `upload` maps a
      target to the key the image store returns, or None when the upload
      fails. The result is Success(Some(text)) when the file is rewritten
      with `text`, Success(None) when it is left alone; `uploads` lists the
      upload calls made. */
  method ReplaceImg(file: Option<string>, token: Option<string>, upload: string -> Option<string>)
    returns (r: Result<Option<string>>, uploads: seq<string>)
    ensures file.None? ==> r.Failure? && uploads == []
    ensures file.Some? && (file.value == [] || Targets(file.value) == []) ==>
              r == Success(None) && uploads == []
    ensures file.Some? && file.value != [] && Targets(file.value) != [] && token.None? ==>
              r.Failure? && uploads == []
    ensures file.Some? && file.value != [] && Targets(file.value) != [] && token.Some? ==>
              uploads == Uploads(DocRule(), Targets(file.value)) &&
              r == (if Changed(DocRule(), Targets(file.value), upload)
                    then Success(Some(After(DocRule(), file.value, Targets(file.value), upload)))
                    else Success(None))
  {
    uploads := [];
    if file.None? {
      return Failure("read"), [];
    }
    var content := file.value;
    if |content| == 0 {
      return Success(None), [];
    }
    var c := Targets(content);
    if |c| == 0 {
      return Success(None), [];
    }
    if token.None? {
      return Failure("token"), [];
    }
    var change := false;
    var i := 0;
    while i < |c|
      invariant 0 <= i <= |c|
      invariant content == After(DocRule(), file.value, c[..i], upload)
      invariant change == Changed(DocRule(), c[..i], upload)
      invariant uploads == Uploads(DocRule(), c[..i])
    {
      var t := c[i];
      assert c[..i + 1] == c[..i] + [t];
      ChangedSnoc(DocRule(), c[..i], t, upload);
      if Eligible(t) {
        uploads := uploads + [t];
        var ret := upload(t);
        if ret.Some? {
          change := true;
          content := ReplaceAll(content, t, NewHost + ret.value);
        }
      }
      i := i + 1;
    }
    assert c[..i] == c;
    if change {
      r := Success(Some(content));
    } else {
      r := Success(None);
    }
  }

  /** Without a successful upload the text is what it was, so leaving the
      file unwritten loses nothing. */
  lemma UnwrittenLosesNothing(content: string, upload: string -> Option<string>)
    requires !Changed(DocRule(), Targets(content), upload)
    ensures After(DocRule(), content, Targets(content), upload) == content
  {
    UnchangedText(DocRule(), content, Targets(content), upload);
  }

  /** Only supported images off the permanent domains are uploaded, each one
      a target of the document. */
  lemma DocUploads(content: string)
    ensures forall u :: u in Uploads(DocRule(), Targets(content)) ==>
              u in Targets(content) && Supported(u) && !Permanent(u)
  {
    UploadsEligible(DocRule(), Targets(content));
  }

  // ---------------------------------------------------------------------
  // Doc.readImgPath

  /** The stored path of a permanent URL: the first "https://zpic.xiaoy.name/"
      and then the first "https://zpic.jiaoliuqu.com/" removed. */
  function StripHost(t: string): string {
    ReplaceFirst(ReplaceFirst(t, NewHost, ""), OldHost, "")
  }

  /** The permanent targets, stripped, in order. */
  function Kept(ts: seq<string>): (ks: seq<string>)
    ensures |ks| <= |ts|
  {
    if ts == [] then []
    else
      var t := ts[|ts| - 1];
      Kept(ts[..|ts| - 1]) + (if Permanent(t) then [StripHost(t)] else [])
  }

  /** Doc.readImgPath: the image paths of the file that already live on a
      permanent domain, domain removed; an unreadable or empty file gives
      none. */
  method ReadImgPath(file: Option<string>) returns (imgs: seq<string>)
    ensures file.None? || file.value == [] ==> imgs == []
    ensures file.Some? ==> imgs == Kept(Targets(file.value))
  {
    imgs := [];
    if file.None? {
      return;
    }
    var c := Targets(file.value);
    var i := 0;
    while i < |c|
      invariant 0 <= i <= |c|
      invariant imgs == Kept(c[..i])
    {
      assert c[..i + 1][..i] == c[..i] && c[..i + 1][i] == c[i];
      if Permanent(c[i]) {
        imgs := imgs + [StripHost(c[i])];
      }
      i := i + 1;
    }
    assert c[..i] == c;
  }

  /** Each returned path comes from a permanent target of the document. */
  lemma {:induction false} KeptFromPermanent(ts: seq<string>)
    ensures forall k :: k in Kept(ts) ==> exists t :: t in ts && Permanent(t) && k == StripHost(t)
  {
    if ts != [] {
      var init := ts[..|ts| - 1];
      KeptFromPermanent(init);
      assert forall u :: u in init ==> u in ts;
    }
  }

  /** readImgPath gives back the key that replaceImg put into a URL. */
  lemma ReadBackKey(key: string)
    requires !Contains(key, OldHost)
    ensures Permanent(NewHost + key)
    ensures StripHost(NewHost + key) == key
  {
    RewrittenIsPermanent(key);
    ReplaceFirstAtFront(NewHost, key, "");
    assert "" + key == key;
  }

  // ---------------------------------------------------------------------
  // Doc.getRemoteVersion

  /** The client's own version. */
  const Version := "0.4.7"

  /** The version check of getRemoteVersion: the reply's version field is
      accepted only when non-empty and made of exactly three dot-separated
      parts. */
  function CheckVersion(v: string): (r: Result<string>)
    ensures r.Success? <==> v != [] && |Split(v, '.')| == 3
    ensures r.Success? ==> r.value == v
  {
    if v == [] then Failure("empty version")
    else if |Split(v, '.')| != 3 then Failure("bad version")
    else Success(v)
  }

  /** Three dot-free, non-empty parts joined by dots pass the check. */
  lemma CheckJoined(a: string, b: string, c: string)
    requires a != [] && '.' !in a && '.' !in b && '.' !in c
    ensures CheckVersion(a + "." + b + "." + c) == Success(a + "." + b + "." + c)
  {
    var parts := [a, b, c];
    assert Join(parts[2..], '.') == c;
    assert Join(parts[1..], '.') == b + "." + c;
    assert Join(parts, '.') == a + "." + b + "." + c;
    SplitJoin(parts, '.');
  }

  /** An accepted remote version compared with the client's own one never
      runs past the end of the client's parts. */
  lemma AcceptedVersionComparable(v: string)
    requires CheckVersion(v).Success?
    ensures Tool.VersionOrder(v, Version).Some?
  {
    assert IndexChar("7", '.') == -1;
    assert IndexChar("4.7", '.') == 1;
    assert "4.7"[..1] == "4" && "4.7"[2..] == "7";
    assert IndexChar(Version, '.') == 1;
    assert Version[..1] == "0" && Version[2..] == "4.7";
    assert |Split(Version, '.')| == 3;
  }
}
