/** internal/doc/post.go: posts kept under ./posts, committed to the local
    object store, and synchronised with the blog server. */
module Post {
  import opened Wrappers
  import opened GoStrings
  import opened IndexFile
  import opened ImageRefs
  import opened Repo
  import Tool
  import Timestamp

  const StatusUserDel := "-2"
  const StatusAdmDel := "-3"

  /** A descriptor whose post was deleted by its author or by an admin. */
  predicate Tombstone(status: string) {
    status == StatusUserDel || status == StatusAdmDel
  }

  // ---------------------------------------------------------------------
  // Names

  /** checkFilePath: a post is named by a single Markdown file of the
      working directory, without blanks. */
  function CheckFilePath(path: string): (r: Result<string>)
    ensures r.Success? <==> ' ' !in path && '/' !in path && '\\' !in path && Tool.GetExt(path) == ".md"
    ensures r.Success? ==> r.value == path
  {
    // strings.Contains with a one-byte needle is membership, and GetExt is
    // already lower case, so the ToLower of the source changes nothing.
    if ' ' in path then Failure("blank in path")
    else if '/' in path || '\\' in path then Failure("nested path")
    else if Tool.GetExt(path) != ".md" then Failure("not markdown")
    else Success(path)
  }

  /** The file name NewDoc creates: the given name up to its first '.'
      (kept whole when that '.' is its first byte or it has none), then
      ".md". */
  function NormalizeName(fileName: string): (r: string)
    ensures HasSuffix(r, ".md")
  {
    var i := Index(fileName, ".");
    (if i > 0 then fileName[..i] else fileName) + ".md"
  }

  /** A base name without blanks, slashes or '?' followed by ".md" is a
      valid post name. */
  lemma MarkdownNameAccepted(base: string)
    requires ' ' !in base && '/' !in base && '\\' !in base && '?' !in base
    ensures CheckFilePath(base + ".md").Success?
  {
    Tool.GetExtOfLowerSuffix(base, ".md");
    assert ' ' !in ".md" && '/' !in ".md" && '\\' !in ".md";
  }

  /** A name without blanks, slashes or '?' always becomes one that
      checkFilePath accepts. */
  lemma NormalizedNameAccepted(fileName: string)
    requires ' ' !in fileName && '/' !in fileName && '\\' !in fileName && '?' !in fileName
    ensures CheckFilePath(NormalizeName(fileName)).Success?
  {
    var i := Index(fileName, ".");
    if i > 0 {
      var base := fileName[..i];
      assert forall k :: 0 <= k < |base| ==> base[k] == fileName[k];
      MarkdownNameAccepted(base);
    } else {
      MarkdownNameAccepted(fileName);
    }
  }

  /** The skeleton NewDoc writes: the front matter with the name without
      ".md" as title and the chosen category. */
  function NewDocContent(fileName: string, category: string): string
    requires |fileName| >= 3
  {
    "---\ntitle: " + fileName[..|fileName| - 3] + "\ncategory: " + category + "\n" + "---"
  }

  // ---------------------------------------------------------------------
  // getMDTileCategory

  /** A header line "key value": the value trimmed, when the line is
      longer than the key, starts with it and the value is not blank. */
  function Field(line: string, key: string): (r: Option<string>)
    ensures r.Some? ==> r.value != [] && Trimmed(r.value)
  {
    if |line| <= |key| || line[..|key|] != key then None
    else
      var v := TrimSpace(line[|key|..]);
      if v == [] then None else Some(v)
  }

  lemma FieldOf(key: string, v: string)
    requires v != [] && Trimmed(v)
    ensures Field(key + " " + v, key) == Some(v)
  {
    var line := key + " " + v;
    assert line[..|key|] == key;
    assert line[|key|..] == " " + v;
    TrimSpaceAfterBlank(" ", v);
  }

  /** getMDTileCategory on a file's content: the first line is "---", the
      second "title:" and a non-blank title, the third "category:" and a
      non-blank category; both are returned trimmed. */
  function ParseHeader(content: string): (r: Result<(string, string)>)
    ensures r.Success? ==> r.value.0 != [] && Trimmed(r.value.0)
    ensures r.Success? ==> r.value.1 != [] && Trimmed(r.value.1)
  {
    match ReadLine(content)
    case None => Failure("line 1")
    case Some((line1, rest1)) =>
      if line1 != "---" then Failure("no front matter")
      else
        match ReadLine(rest1)
        case None => Failure("line 2")
        case Some((line2, rest2)) =>
          match Field(line2, "title:")
          case None => Failure("no title")
          case Some(title) =>
            match ReadLine(rest2)
            case None => Failure("line 3")
            case Some((line3, _)) =>
              match Field(line3, "category:")
              case None => Failure("no category")
              case Some(category) => Success((title, category))
  }

  /** A header written as "title: T" and "category: C" reads back as T and
      C. */
  lemma HeaderRoundTrip(title: string, category: string, body: string)
    requires title != [] && Trimmed(title) && '\n' !in title
    requires category != [] && Trimmed(category) && '\n' !in category
    ensures ParseHeader("---\ntitle: " + title + "\ncategory: " + category + "\n" + body) == Success((title, category))
  {
    HeaderLines(title, category, body);
    FieldOf("title:", title);
    FieldOf("category:", category);
  }

  /** A header is read only from where it was written: the first line is
      "---", the second starts with "title:" and the title is the rest of
      that line trimmed, and the third starts with "category:" and the
      category is the rest of that line trimmed. */
  lemma HeaderSound(content: string)
    requires ParseHeader(content).Success?
    ensures ReadLine(content).Some? && ReadLine(content).value.0 == "---"
    ensures var rest1 := ReadLine(content).value.1;
            ReadLine(rest1).Some? &&
            var line2 := ReadLine(rest1).value.0;
            HasPrefix(line2, "title:") && ParseHeader(content).value.0 == TrimSpace(line2[6..])
    ensures var rest2 := ReadLine(ReadLine(content).value.1).value.1;
            ReadLine(rest2).Some? &&
            var line3 := ReadLine(rest2).value.0;
            HasPrefix(line3, "category:") && ParseHeader(content).value.1 == TrimSpace(line3[9..])
  {
  }

  /** The three lines of such a header, as ReadLine splits them. */
  lemma HeaderLines(title: string, category: string, body: string)
    requires title != [] && Trimmed(title) && '\n' !in title
    requires category != [] && Trimmed(category) && '\n' !in category
    ensures var rest2 := "category:" + " " + category + "\n" + body;
            var rest1 := "title:" + " " + title + "\n" + rest2;
            ReadLine("---\ntitle: " + title + "\ncategory: " + category + "\n" + body) == Some(("---", rest1)) &&
            ReadLine(rest1) == Some(("title:" + " " + title, rest2)) &&
            ReadLine(rest2) == Some(("category:" + " " + category, body))
  {
    var rest2 := "category:" + " " + category + "\n" + body;
    var rest1 := "title:" + " " + title + "\n" + rest2;
    HeaderText(title, category, body);
    HeaderKeys();
    ReadLineOf("---", rest1);
    LineOf("title:", title, rest2);
    LineOf("category:", category, body);
  }

  lemma HeaderText(title: string, category: string, body: string)
    ensures "---\ntitle: " + title + "\ncategory: " + category + "\n" + body ==
            "---" + "\n" + ("title:" + " " + title + "\n" + ("category:" + " " + category + "\n" + body))
  {
  }

  lemma HeaderKeys()
    ensures '\n' !in "title:" && '\n' !in "category:" && '\n' !in "---" && "---"[2] != '\r'
  {
  }

  /** A line "key value" with a non-blank value is read up to its newline. */
  lemma LineOf(key: string, v: string, rest: string)
    requires v != [] && Trimmed(v) && '\n' !in v && '\n' !in key
    ensures ReadLine(key + " " + v + "\n" + rest) == Some((key + " " + v, rest))
  {
    var line := key + " " + v;
    assert line[|line| - 1] == v[|v| - 1];
    assert '\n' !in line;
    ReadLineOf(line, rest);
  }

  /** NewDoc's skeleton passes the header check that doAdd applies. */
  lemma NewDocAccepted(fileName: string, category: string)
    requires |fileName| > 3
    requires Trimmed(fileName[..|fileName| - 3]) && '\n' !in fileName
    requires category != [] && Trimmed(category) && '\n' !in category
    ensures ParseHeader(NewDocContent(fileName, category)) == Success((fileName[..|fileName| - 3], category))
  {
    var title := fileName[..|fileName| - 3];
    assert '\n' !in title by {
      assert forall k :: 0 <= k < |title| ==> title[k] == fileName[k];
    }
    HeaderRoundTrip(title, category, "---");
  }

  // ---------------------------------------------------------------------
  // inIgnoreList

  /** The names Add and Status pass over: the lines of ./.ignore, when it is
      not empty, and ".DS_Store". */
  function IgnoreList(ignore: string): (names: seq<string>)
    ensures ".DS_Store" in names
  {
    (if |ignore| > 0 then Split(ignore, '\n') else []) + [".DS_Store"]
  }

  predicate InIgnoreList(ignore: string, name: string) {
    name in IgnoreList(ignore)
  }

  /** Every line of a non-empty ./.ignore is ignored. */
  lemma IgnoredWhenListed(lines: seq<string>, i: nat)
    requires i < |lines|
    requires forall k :: 0 <= k < |lines| ==> '\n' !in lines[k]
    requires Join(lines, '\n') != []
    ensures InIgnoreList(Join(lines, '\n'), lines[i])
  {
    SplitJoin(lines, '\n');
    assert IgnoreList(Join(lines, '\n')) == lines + [".DS_Store"];
    assert (lines + [".DS_Store"])[i] == lines[i];
  }

  // ---------------------------------------------------------------------
  // replaceImg of post.go

  /** The path check at post.go:659 as written: it turns away only targets
      that start with `..\img\`. */
  predicate PathAcceptedAsWritten(t: string) {
    !(!HasPrefix(t, "../img/") && HasPrefix(t, "..\\img\\"))
  }

  /** The check its log message describes: only images under ../img/ (or
      ..\img\) next to the posts directory are uploaded. */
  predicate PathAccepted(t: string) {
    HasPrefix(t, "../img/") || HasPrefix(t, "..\\img\\")
  }

  /** The file handed to the uploader: the target without its first byte,
      which turns ../img/x, relative to ./posts, into ./img/x, relative to
      the working tree. */
  function UploadPath(t: string): string {
    if t == [] then [] else t[1..]
  }

  /** A target this rewriter uploads, with the path check as written. */
  predicate PostEligible(t: string) {
    Supported(t) && !Contains(t, "jiaoliuqu.com") && PathAcceptedAsWritten(t)
  }

  /** replaceImg of post.go links the returned key on the jiaoliuqu.com
      image domain. */
  function PostRule(): Rule {
    Rule(PostEligible, UploadPath, OldHost)
  }

  /** A target the rewriter would upload with the check its log message
      describes. */
  predicate IntendedEligible(t: string) {
    Supported(t) && !Contains(t, "jiaoliuqu.com") && PathAccepted(t)
  }

  /** The corrected rewriter: the intended path check, otherwise as
      PostRule. */
  function IntendedRule(): Rule {
    Rule(IntendedEligible, UploadPath, OldHost)
  }

  /** With the intended check, every uploaded file lies in ./img. */
  lemma AcceptedPathInImageDir(t: string)
    requires PathAccepted(t)
    ensures HasPrefix(UploadPath(t), "./img/") || HasPrefix(UploadPath(t), ".\\img\\")
  {
    if HasPrefix(t, "../img/") {
      assert UploadPath(t)[..6] == t[1..7];
    } else {
      assert UploadPath(t)[..6] == t[1..7];
    }
  }

  lemma PngSupported(base: string)
    requires '?' !in base
    ensures Supported(base + ".png")
  {
    Tool.GetExtOfLowerSuffix(base, ".png");
  }

  lemma BarePathChecks()
    ensures PostEligible("img/a.png") && !IntendedEligible("img/a.png")
  {
    assert "img/a.png"[..7][0] == 'i';
    PngSupported("img/a");
    ImageNames();
    ContainsShorter("img/a.png", "jiaoliuqu.com");
  }

  lemma BackslashPathChecks()
    ensures !PostEligible("..\\img\\a.png") && IntendedEligible("..\\img\\a.png")
  {
    BackslashPrefix();
    PngSupported("..\\img\\a");
    ImageNames();
    ContainsShorter("..\\img\\a.png", "jiaoliuqu.com");
  }

  lemma BackslashPrefix()
    ensures !PathAcceptedAsWritten("..\\img\\a.png") && PathAccepted("..\\img\\a.png")
  {
    var t := "..\\img\\a.png";
    assert t[..7] == "..\\img\\";
    assert t[..7][2] == '\\';
  }

  lemma ImageNames()
    ensures "img/a" + ".png" == "img/a.png" && "..\\img\\a" + ".png" == "..\\img\\a.png"
  {
  }

  lemma OneImage(alt: string, t: string, doc: string)
    requires ']' !in alt && '\n' !in alt && ')' !in t && '\n' !in t
    requires doc == "![" + alt + "](" + t + ")"
    ensures Targets(doc) == [t]
  {
    TargetsOfOneImage(alt, t);
  }

  /** As written, the reference "![a](img/a.png)", which has no "../", is
      uploaded with its first letter cut off: the uploader is handed
      "mg/a.png". The corrected rewriter leaves it alone. */
  lemma BarePathUploadedAsWritten()
    ensures Uploads(PostRule(), Targets("![a](img/a.png)")) == ["mg/a.png"]
    ensures Uploads(IntendedRule(), Targets("![a](img/a.png)")) == []
  {
    OneImage("a", "img/a.png", "![a](img/a.png)");
    BarePathChecks();
    assert ["img/a.png"][..0] == [];
  }

  /** As written, "![a](..\img\a.png)" is never uploaded, where the
      corrected rewriter uploads ".\img\a.png". */
  lemma BackslashPathSkippedAsWritten()
    ensures Uploads(PostRule(), Targets("![a](..\\img\\a.png)")) == []
    ensures Uploads(IntendedRule(), Targets("![a](..\\img\\a.png)")) == [".\\img\\a.png"]
  {
    OneImage("a", "..\\img\\a.png", "![a](..\\img\\a.png)");
    BackslashPathChecks();
    assert ["..\\img\\a.png"][..0] == [];
  }

  /** replaceImg's effect on a file (None when it cannot be read): a
      Failure, Success(None) when the file is left as it is, or
      Success(Some(text)) when `text` is written back. */
  function Rewrite(file: Option<string>, token: Option<string>, upload: string -> Option<string>): (r: Result<Option<string>>)
    ensures file.None? ==> r.Failure?
  {
    RewriteAlways(PostRule(), file, token, upload)
  }

  /** replaceImg: every eligible target is uploaded, in order; a successful
      upload replaces all occurrences of the target by the image URL; once
      there are targets and a token, the file is written back even when no
      upload succeeded. */
  method ReplaceImg(file: Option<string>, token: Option<string>, upload: string -> Option<string>)
    returns (r: Result<Option<string>>, uploads: seq<string>)
    ensures r == Rewrite(file, token, upload)
    ensures r.Success? && r.value.Some? ==> uploads == Uploads(PostRule(), Targets(file.value))
    ensures !(r.Success? && r.value.Some?) ==> uploads == []
  {
    uploads := [];
    if file.None? {
      return Failure("read"), [];
    }
    var content := file.value;
    if |content| == 0 {
      return Success(None), [];
    }
    var c := Targets(content);
    if |c| == 0 {
      return Success(None), [];
    }
    if token.None? {
      return Failure("token"), [];
    }
    content, uploads := UploadTargets(content, c, upload);
    r := Success(Some(content));
  }

  /** The loop of replaceImg over the targets `c` of `content0`. */
  method UploadTargets(content0: string, c: seq<string>, upload: string -> Option<string>)
    returns (content: string, uploads: seq<string>)
    ensures content == After(PostRule(), content0, c, upload)
    ensures uploads == Uploads(PostRule(), c)
  {
    content, uploads := content0, [];
    var i := 0;
    while i < |c|
      invariant 0 <= i <= |c|
      invariant content == After(PostRule(), content0, c[..i], upload)
      invariant uploads == Uploads(PostRule(), c[..i])
    {
      var t := c[i];
      Snoc(PostRule(), content0, c, i, upload);
      var tried;
      content, tried := UploadTarget(content, t, upload);
      uploads := uploads + tried;
      i := i + 1;
    }
    assert c[..i] == c;
  }

  /** One target of the loop: an eligible target is uploaded from the path
      without its first byte, and a successful upload replaces every
      occurrence of it by the image URL. `tried` is the upload attempted, if
      any. */
  method UploadTarget(content0: string, t: string, upload: string -> Option<string>)
    returns (content: string, tried: seq<string>)
    ensures content == Step(PostRule(), content0, t, upload)
    ensures tried == if PostEligible(t) then [UploadPath(t)] else []
  {
    content, tried := content0, [];
    if PostEligible(t) {
      var path := UploadPath(t);
      tried := [path];
      var ret := upload(path);
      if ret.Some? {
        content := ReplaceAll(content, t, OldHost + ret.value);
      }
    }
  }

  /** Every file the rewriter uploads is a target, without its first byte,
      that is a supported image not on the image domain yet and not under
      ..\img\. */
  lemma RewriteUploads(content: string)
    ensures forall u :: u in Uploads(PostRule(), Targets(content)) ==>
              exists t :: t in Targets(content) && Supported(t) && !Contains(t, "jiaoliuqu.com") &&
                          !HasPrefix(t, "..\\img\\") && u == UploadPath(t)
  {
    UploadsEligible(PostRule(), Targets(content));
    forall u | u in Uploads(PostRule(), Targets(content))
      ensures exists t :: t in Targets(content) && Supported(t) && !Contains(t, "jiaoliuqu.com") &&
                          !HasPrefix(t, "..\\img\\") && u == UploadPath(t)
    {
      var t :| t in Targets(content) && PostEligible(t) && u == UploadPath(t);
      BackslashImgNotSlash(t);
    }
  }

  /** No target starts with both ../img/ and ..\img\. */
  lemma BackslashImgNotSlash(t: string)
    ensures !(HasPrefix(t, "../img/") && HasPrefix(t, "..\\img\\"))
  {
    if HasPrefix(t, "..\\img\\") {
      assert t[2] == '\\';
    }
  }

  /** With the intended check, every file the corrected rewriter uploads
      comes from a supported image target under ../img/ (or ..\img\) that
      is not on the image domain yet, and lies in ./img. */
  lemma IntendedUploadsInImageDir(content: string)
    ensures forall u :: u in Uploads(IntendedRule(), Targets(content)) ==>
              (HasPrefix(u, "./img/") || HasPrefix(u, ".\\img\\")) &&
              exists t :: t in Targets(content) && Supported(t) && !Contains(t, "jiaoliuqu.com") && u == UploadPath(t)
  {
    UploadsEligible(IntendedRule(), Targets(content));
    forall u | u in Uploads(IntendedRule(), Targets(content))
      ensures HasPrefix(u, "./img/") || HasPrefix(u, ".\\img\\")
    {
      var t :| t in Targets(content) && IntendedEligible(t) && u == UploadPath(t);
      AcceptedPathInImageDir(t);
    }
  }

  /** A document without image references is not touched. */
  lemma RewritePlainText(content: string, token: Option<string>, upload: string -> Option<string>)
    requires !Contains(content, "![")
    ensures Rewrite(Some(content), token, upload) == Success(None)
  {
    TargetsOfPlainText(content);
  }

  /** When no upload succeeds the text written back is the text read. */
  lemma RewriteWithoutUploads(content: string, token: string, upload: string -> Option<string>)
    requires !Changed(PostRule(), Targets(content), upload)
    ensures Rewrite(Some(content), Some(token), upload) in {Success(None), Success(Some(content))}
  {
    UnchangedText(PostRule(), content, Targets(content), upload);
  }

  // ---------------------------------------------------------------------
  // The repository as a value

  /** What the post commands read and change: the index as a map, the
      object store and the working copies. */
  datatype Store = Store(idx: map<string, PostDesc>, objects: map<string, string>, posts: map<string, string>)

  /** An element of the server's post list: a JSON object, whose missing or
      non-string fields read as "", or anything else. */
  datatype Item = Object(desc: PostDesc) | NotObject

  /** A server entry with a name, a digest and a time; others are skipped. */
  predicate Complete(d: PostDesc) {
    d.fileName != [] && d.md5 != [] && d.updateTime != []
  }

  /** Two descriptors of the same content and status. */
  predicate InSync(a: PostDesc, b: PostDesc) {
    a.md5 == b.md5 && a.status == b.status
  }

  /** A deletion on the server, as Pull and Push both apply it: a live local
      post loses its object and working file, and the index takes the
      server's descriptor. */
  function DropDeleted(s: Store, r: PostDesc): (t: Store)
    ensures t.idx == s.idx[r.fileName := r]
  {
    var n := r.fileName;
    var s1 := if n in s.idx && !Tombstone(s.idx[n].status)
              then s.(objects := s.objects - {s.idx[n].md5}, posts := s.posts - {s.idx[n].fileName})
              else s;
    s1.(idx := s1.idx[n := r])
  }

  // ---------------------------------------------------------------------
  // Pull

  /** One element of the server's list, in Pull. `fetched` is the content
      the "get" call returns, or None when the call fails or its data is not
      an object (a missing content field reads as ""). */
  function PullItem(s: Store, item: Item, fetched: Option<string>): Store {
    if item.NotObject? || !Complete(item.desc) then s
    else
      var r := item.desc;
      var n := r.fileName;
      if Tombstone(r.status) then DropDeleted(s, r)
      else if n in s.idx && (InSync(s.idx[n], r) || Tool.TimeCompare(s.idx[n].updateTime, r.updateTime)) then s
      else if n in s.idx && s.idx[n].md5 == r.md5 then s.(idx := s.idx[n := r])
      else if fetched.None? then s.(idx := s.idx[n := r])
      else
        var objects := s.objects[r.md5 := fetched.value];
        Store(s.idx[n := r],
              if n in s.idx then objects - {s.idx[n].md5} else objects,
              s.posts[n := fetched.value])
  }

  /** Pull over the list, in order; `fetch(i)` answers the "get" call made
      for element i. */
  function PullAll(s: Store, items: seq<Item>, fetch: nat -> Option<string>): Store {
    if items == [] then s
    else PullItem(PullAll(s, items[..|items| - 1], fetch), items[|items| - 1], fetch(|items| - 1))
  }

  /** The names of the usable entries of a list. */
  function Names(items: seq<Item>): set<string> {
    set i | 0 <= i < |items| && items[i].Object? && Complete(items[i].desc) :: items[i].desc.fileName
  }

  /** Pull never drops an index entry, and adds exactly the names on the
      server's list. */
  lemma {:induction false} PullKeys(s: Store, items: seq<Item>, fetch: nat -> Option<string>)
    ensures PullAll(s, items, fetch).idx.Keys == s.idx.Keys + Names(items)
  {
    if items != [] {
      var init := items[..|items| - 1];
      var last := items[|items| - 1];
      PullKeys(s, init, fetch);
      PullItemKeys(PullAll(s, init, fetch), last, fetch(|items| - 1));
      var added := if last.Object? && Complete(last.desc) then {last.desc.fileName} else {};
      forall n | n in Names(items) ensures n in Names(init) + added {
        var i :| 0 <= i < |items| && items[i].Object? && Complete(items[i].desc) && items[i].desc.fileName == n;
        if i < |init| {
          assert init[i] == items[i];
        }
      }
      forall n | n in Names(init) + added ensures n in Names(items) {
        if n in Names(init) {
          var i :| 0 <= i < |init| && init[i].Object? && Complete(init[i].desc) && init[i].desc.fileName == n;
          assert items[i] == init[i];
        } else {
          assert items[|items| - 1] == last;
        }
      }
    }
  }

  /** One element adds its name to the index when it is usable, and no
      other. */
  lemma PullItemKeys(s: Store, item: Item, fetched: Option<string>)
    ensures PullItem(s, item, fetched).idx.Keys ==
              s.idx.Keys + (if item.Object? && Complete(item.desc) then {item.desc.fileName} else {})
  {
  }

  /** A post edited later on this machine is left as it is. */
  lemma LocalNewerKept(s: Store, r: PostDesc, fetched: Option<string>)
    requires Complete(r) && !Tombstone(r.status)
    requires r.fileName in s.idx && Tool.TimeCompare(s.idx[r.fileName].updateTime, r.updateTime)
    ensures PullItem(s, Object(r), fetched) == s
  {
  }

  /** A deletion on the server removes a live local post: its working file
      and object go, and the index records the deletion. */
  lemma PullDeletes(s: Store, r: PostDesc, fetched: Option<string>)
    requires Complete(r) && Tombstone(r.status) && Keyed(s.idx, PostName)
    requires r.fileName in s.idx && !Tombstone(s.idx[r.fileName].status)
    ensures var t := PullItem(s, Object(r), fetched);
            t.idx[r.fileName] == r && r.fileName !in t.posts && s.idx[r.fileName].md5 !in t.objects
  {
  }

  /** A fetched post lands in both the object store and the working copy. */
  lemma PullFetched(s: Store, r: PostDesc, content: string)
    requires Complete(r) && !Tombstone(r.status)
    requires r.fileName in s.idx ==> !InSync(s.idx[r.fileName], r) && !Tool.TimeCompare(s.idx[r.fileName].updateTime, r.updateTime)
    requires r.fileName in s.idx ==> s.idx[r.fileName].md5 != r.md5
    ensures var t := PullItem(s, Object(r), Some(content));
            t.idx[r.fileName] == r && t.posts[r.fileName] == content && t.objects[r.md5] == content
  {
  }

  /** Pulling the same entry twice changes nothing the second time. In
      particular a fetch that failed is not retried: the index already
      records the server's descriptor. */
  lemma PullItemIdempotent(s: Store, item: Item, f: Option<string>, g: Option<string>)
    ensures PullItem(PullItem(s, item, f), item, g) == PullItem(s, item, f)
  {
    if item.Object? && Complete(item.desc) {
      var r := item.desc;
      var t := PullItem(s, item, f);
      if Tombstone(r.status) {
        assert t.idx[r.fileName] == r;
      } else if !(r.fileName in s.idx && (InSync(s.idx[r.fileName], r) || Tool.TimeCompare(s.idx[r.fileName].updateTime, r.updateTime))) {
        assert t.idx[r.fileName] == r;
        assert InSync(t.idx[r.fileName], r);
      }
    }
  }

  /** Pull: read the index, ask the server for its list (None when the call
      fails; a reply that is not a list counts as the empty list), apply
      every element in order, and write the index back. */
  method Pull(w: Workspace, list: Option<seq<Item>>, fetch: nat -> Option<string>)
    modifies w
    ensures w.kindex == old(w.kindex) && w.knowledge == old(w.knowledge) && w.ignore == old(w.ignore)
    ensures Read(old(w.index), PostName).Failure? || list.None? ==>
              w.index == old(w.index) && w.objects == old(w.objects) && w.posts == old(w.posts)
    ensures Read(old(w.index), PostName).Success? && list.Some? ==>
              var t := PullAll(Store(Read(old(w.index), PostName).value, old(w.objects), old(w.posts)), list.value, fetch);
              Read(w.index, PostName) == Success(t.idx) && w.objects == t.objects && w.posts == t.posts
  {
    var loaded := Load(w.index, PostName);
    if loaded.Failure? || list.None? {
      return;
    }
    PullKeys(Store(loaded.value, w.objects, w.posts), list.value, fetch);
    var m, objects, posts := PullItems(loaded.value, w.objects, w.posts, list.value, fetch);
    w.objects, w.posts := objects, posts;
    w.index := Write(w.index, m, PostName);
  }

  /** The loop of Pull over the server's list. */
  method PullItems(m0: map<string, PostDesc>, objects0: map<string, string>, posts0: map<string, string>,
                   items: seq<Item>, fetch: nat -> Option<string>)
    returns (m: map<string, PostDesc>, objects: map<string, string>, posts: map<string, string>)
    requires Keyed(m0, PostName)
    ensures Store(m, objects, posts) == PullAll(Store(m0, objects0, posts0), items, fetch)
    ensures Keyed(m, PostName)
  {
    m, objects, posts := m0, objects0, posts0;
    var i := 0;
    while i < |items|
      invariant 0 <= i <= |items|
      invariant Store(m, objects, posts) == PullAll(Store(m0, objects0, posts0), items[..i], fetch)
      invariant Keyed(m, PostName)
    {
      assert items[..i + 1][..i] == items[..i];
      m, objects, posts := PullOne(m, objects, posts, items[i], fetch, i);
      i := i + 1;
    }
    assert items[..i] == items;
  }

  /** One element `item`, at position `i` of the list. */
  method PullOne(m0: map<string, PostDesc>, objects0: map<string, string>, posts0: map<string, string>,
                 item: Item, fetch: nat -> Option<string>, i: nat)
    returns (m: map<string, PostDesc>, objects: map<string, string>, posts: map<string, string>)
    requires Keyed(m0, PostName)
    ensures Store(m, objects, posts) == PullItem(Store(m0, objects0, posts0), item, fetch(i))
    ensures Keyed(m, PostName)
  {
    m, objects, posts := m0, objects0, posts0;
    if item.Object? && Complete(item.desc) {
      var r := item.desc;
      var n := r.fileName;
      if Tombstone(r.status) {
        if n in m && !Tombstone(m[n].status) {
          objects := objects - {m[n].md5};
          posts := posts - {m[n].fileName};
        }
        m := m[n := r];
      } else if n in m && (InSync(m[n], r) || Tool.TimeCompare(m[n].updateTime, r.updateTime)) {
      } else {
        var local := if n in m then Some(m[n]) else None;
        m := m[n := r];
        if !(local.Some? && local.value.md5 == r.md5) {
          var fetched := fetch(i);
          if fetched.Some? {
            objects := objects[r.md5 := fetched.value];
            posts := posts[n := objects[r.md5]];
            if local.Some? {
              objects := objects - {local.value.md5};
            }
          }
        }
      }
    }
  }

  // ---------------------------------------------------------------------
  // Push

  /** What Push asks the server to do for one post. */
  datatype Call =
    | Delete(fileName: string)
    | Add(fileName: string, md5: string, content: string, title: string, category: string, updateTime: string)

  /** Push's first pass over the server's list: the last usable entry per
      name, with every deletion applied locally as in Pull. */
  datatype Gathered = Gathered(store: Store, remote: map<string, PostDesc>)

  function GatherItem(g: Gathered, item: Item): Gathered {
    if item.NotObject? || !Complete(item.desc) then g
    else
      var r := item.desc;
      var remote := g.remote[r.fileName := r];
      if Tombstone(r.status) then Gathered(DropDeleted(g.store, r), remote)
      else Gathered(g.store, remote)
  }

  function Gather(g: Gathered, items: seq<Item>): Gathered {
    if items == [] then g
    else GatherItem(Gather(g, items[..|items| - 1]), items[|items| - 1])
  }

  /** The position of the first element that is not an object (where Push's
      type assertion panics), or the length of the list. */
  function FirstNotObject(items: seq<Item>): (k: nat)
    ensures k <= |items|
    ensures forall j :: 0 <= j < k ==> items[j].Object?
    ensures k < |items| ==> items[k].NotObject?
  {
    if items == [] then 0
    else if items[0].NotObject? then 0
    else 1 + FirstNotObject(items[1..])
  }

  /** Push's decision for one local post against the server's entries. */
  function PushCall(v: PostDesc, remote: map<string, PostDesc>, objects: map<string, string>): Option<Call> {
    if v.fileName in remote && (InSync(remote[v.fileName], v) || Tool.TimeCompare(remote[v.fileName].updateTime, v.updateTime)) then None
    else if v.fileName in remote && v.status == StatusUserDel && remote[v.fileName].status != StatusUserDel then Some(Delete(v.fileName))
    else if v.status == StatusUserDel || v.md5 !in objects then None
    else
      match ParseHeader(objects[v.md5])
      case Failure(_) => None
      case Success((title, category)) => Some(Add(v.fileName, v.md5, objects[v.md5], title, category, v.updateTime))
  }

  /** The calls Push makes, by post name. */
  function PushPlan(idx: map<string, PostDesc>, remote: map<string, PostDesc>, objects: map<string, string>): map<string, Call> {
    map n | n in idx && PushCall(idx[n], remote, objects).Some? :: PushCall(idx[n], remote, objects).value
  }

  /** A post deleted here is never uploaded; an upload carries the object's
      content and the header read from it. */
  lemma PushUploadsLive(v: PostDesc, remote: map<string, PostDesc>, objects: map<string, string>)
    requires PushCall(v, remote, objects).Some? && PushCall(v, remote, objects).value.Add?
    ensures v.status != StatusUserDel && v.md5 in objects
    ensures var c := PushCall(v, remote, objects).value;
            c.content == objects[v.md5] && ParseHeader(c.content) == Success((c.title, c.category))
  {
  }

  /** The server is asked to delete a post exactly when it was deleted here,
      the server's copy is not, and the server's copy is not the newer one. */
  lemma PushDeletes(v: PostDesc, remote: map<string, PostDesc>, objects: map<string, string>)
    ensures PushCall(v, remote, objects) == Some(Delete(v.fileName)) <==>
              v.fileName in remote && v.status == StatusUserDel && remote[v.fileName].status != StatusUserDel &&
              !Tool.TimeCompare(remote[v.fileName].updateTime, v.updateTime)
  {
  }

  /** A post the server holds in a strictly newer version is not pushed. */
  lemma RemoteNewerKept(v: PostDesc, remote: map<string, PostDesc>, objects: map<string, string>)
    requires v.fileName in remote && Tool.TimeCompare(remote[v.fileName].updateTime, v.updateTime)
    ensures PushCall(v, remote, objects).None?
  {
  }

  /** Push: read the index, ask the server for its list, apply its deletions
      locally and write the index, then make one call per post that needs
      one. An element that is not an object stops the command (a panic)
      after the deletions before it, without writing the index. */
  method Push(w: Workspace, list: Option<seq<Item>>) returns (r: Result<map<string, Call>>)
    modifies w
    ensures w.kindex == old(w.kindex) && w.knowledge == old(w.knowledge) && w.ignore == old(w.ignore)
    ensures Read(old(w.index), PostName).Failure? || list.None? ==>
              r.Failure? && w.index == old(w.index) && w.objects == old(w.objects) && w.posts == old(w.posts)
    ensures Read(old(w.index), PostName).Success? && list.Some? ==>
              var k := FirstNotObject(list.value);
              var g := Gather(Gathered(Store(Read(old(w.index), PostName).value, old(w.objects), old(w.posts)), map[]), list.value[..k]);
              w.objects == g.store.objects && w.posts == g.store.posts &&
              (k < |list.value| ==> r.Failure? && w.index == old(w.index)) &&
              (k == |list.value| ==> Read(w.index, PostName) == Success(g.store.idx) &&
                                     r == Success(PushPlan(g.store.idx, g.remote, g.store.objects)))
  {
    var loaded := Load(w.index, PostName);
    if loaded.Failure? {
      return Failure("index");
    }
    if list.None? {
      return Failure("list");
    }
    var items := list.value;
    var m, objects, posts, remote, k := GatherItems(loaded.value, w.objects, w.posts, items);
    w.objects, w.posts := objects, posts;
    if k < |items| {
      return Failure("panic");
    }
    w.index := Write(w.index, m, PostName);
    var calls := PlanCalls(m, remote, objects);
    return Success(calls);
  }

  /** Push's first pass over the server's list, up to the first element
      that is not an object (position `k`). */
  method GatherItems(m0: map<string, PostDesc>, objects0: map<string, string>, posts0: map<string, string>, items: seq<Item>)
    returns (m: map<string, PostDesc>, objects: map<string, string>, posts: map<string, string>,
             remote: map<string, PostDesc>, k: nat)
    requires Keyed(m0, PostName)
    ensures k == FirstNotObject(items)
    ensures Gathered(Store(m, objects, posts), remote) == Gather(Gathered(Store(m0, objects0, posts0), map[]), items[..k])
    ensures Keyed(m, PostName) && m0.Keys <= m.Keys
  {
    ghost var g0 := Gathered(Store(m0, objects0, posts0), map[]);
    m, objects, posts, remote := m0, objects0, posts0, map[];
    k := 0;
    while k < |items|
      invariant 0 <= k <= |items|
      invariant forall j :: 0 <= j < k ==> items[j].Object?
      invariant Gathered(Store(m, objects, posts), remote) == Gather(g0, items[..k])
      invariant Keyed(m, PostName) && m0.Keys <= m.Keys
    {
      if items[k].NotObject? {
        FirstNotObjectAt(items, k);
        return;
      }
      assert items[..k + 1][..k] == items[..k];
      var p := items[k].desc;
      if Complete(p) {
        remote := remote[p.fileName := p];
        if Tombstone(p.status) {
          var n := p.fileName;
          if n in m && !Tombstone(m[n].status) {
            objects := objects - {m[n].md5};
            posts := posts - {m[n].fileName};
          }
          m := m[n := p];
        }
      }
      k := k + 1;
    }
    FirstNotObjectAt(items, k);
  }

  /** Push's second pass: over the index, in the map's order, the call each
      post needs. */
  method PlanCalls(m: map<string, PostDesc>, remote: map<string, PostDesc>, objects: map<string, string>)
    returns (calls: map<string, Call>)
    ensures calls == PushPlan(m, remote, objects)
  {
    calls := map[];
    var todo := m.Keys;
    while todo != {}
      invariant todo <= m.Keys
      invariant forall n :: n in calls <==> n in m && n !in todo && PushCall(m[n], remote, objects).Some?
      invariant forall n :: n in calls ==> calls[n] == PushCall(m[n], remote, objects).value
      decreases |todo|
    {
      var n :| n in todo;
      var call := PlanCall(m[n], remote, objects);
      if call.Some? {
        calls := calls[n := call.value];
      }
      todo := todo - {n};
    }
    PlanOf(calls, m, remote, objects);
  }

  /** A map holding exactly the calls PushCall gives for the index is the
      plan. */
  lemma PlanOf(calls: map<string, Call>, m: map<string, PostDesc>, remote: map<string, PostDesc>, objects: map<string, string>)
    requires forall n :: n in calls <==> n in m && PushCall(m[n], remote, objects).Some?
    requires forall n :: n in calls ==> calls[n] == PushCall(m[n], remote, objects).value
    ensures calls == PushPlan(m, remote, objects)
  {
  }

  /** The loop body of Push for one local post. */
  method PlanCall(v: PostDesc, remote: map<string, PostDesc>, objects: map<string, string>) returns (call: Option<Call>)
    ensures call == PushCall(v, remote, objects)
  {
    call := None;
    var skip := false;
    if v.fileName in remote {
      var rp := remote[v.fileName];
      if InSync(rp, v) || Tool.TimeCompare(rp.updateTime, v.updateTime) {
        skip := true;
      } else if v.status == StatusUserDel && rp.status != StatusUserDel {
        call := Some(Delete(v.fileName));
        skip := true;
      }
    }
    if !skip && v.status != StatusUserDel && v.md5 in objects {
      var header := ParseHeader(objects[v.md5]);
      if header.Success? {
        call := Some(Add(v.fileName, v.md5, objects[v.md5], header.value.0, header.value.1, v.updateTime));
      }
    }
  }

  /** The first non-object position, once the elements before `i` are all
      objects. */
  lemma {:induction false} FirstNotObjectAt(items: seq<Item>, i: nat)
    requires i <= |items|
    requires forall j :: 0 <= j < i ==> items[j].Object?
    requires i < |items| ==> items[i].NotObject?
    ensures FirstNotObject(items) == i
  {
    if i > 0 {
      FirstNotObjectAt(items[1..], i - 1);
    }
  }

  /** For a post edited on both sides at different times, exactly one of
      Pull and Push moves it: Pull when the server's copy is at least as
      new, Push otherwise. */
  lemma OneWayWhenTimesDiffer(s: Store, l: PostDesc, r: PostDesc, f: Option<string>)
    requires Complete(r) && !Tombstone(r.status) && l.status != StatusUserDel
    requires l.fileName == r.fileName && r.fileName in s.idx && s.idx[r.fileName] == l && l.md5 != r.md5
    requires l.md5 in s.objects && ParseHeader(s.objects[l.md5]).Success?
    requires Timestamp.Seconds(Timestamp.TimeOf(l.updateTime)) != Timestamp.Seconds(Timestamp.TimeOf(r.updateTime))
    ensures PullItem(s, Object(r), f) == s <==> PushCall(l, map[r.fileName := r], s.objects).Some?
  {
    var remote := map[r.fileName := r];
    if Tool.TimeCompare(l.updateTime, r.updateTime) {
      LocalNewerKept(s, r, f);
      LocalNewerPushed(l, remote, s.objects);
    } else {
      assert Tool.TimeCompare(r.updateTime, l.updateTime);
      RemoteNewerKept(l, remote, s.objects);
      assert PullItem(s, Object(r), f).idx[r.fileName] == r;
    }
  }

  /** A live post edited later here than on the server, with a valid
      header, is pushed. */
  lemma LocalNewerPushed(v: PostDesc, remote: map<string, PostDesc>, objects: map<string, string>)
    requires v.fileName in remote && remote[v.fileName].md5 != v.md5
    requires !Tool.TimeCompare(remote[v.fileName].updateTime, v.updateTime)
    requires v.status != StatusUserDel && v.md5 in objects && ParseHeader(objects[v.md5]).Success?
    ensures PushCall(v, remote, objects).Some?
  {
  }

  /** With equal times neither side wins: Pull takes the server's copy and
      Push uploads the local one. */
  lemma BothWaysOnTie(s: Store, l: PostDesc, r: PostDesc, f: Option<string>)
    requires Complete(r) && !Tombstone(r.status) && l.status != StatusUserDel
    requires l.fileName == r.fileName && r.fileName in s.idx && s.idx[r.fileName] == l && l.md5 != r.md5
    requires l.md5 in s.objects && ParseHeader(s.objects[l.md5]).Success?
    requires Timestamp.Seconds(Timestamp.TimeOf(l.updateTime)) == Timestamp.Seconds(Timestamp.TimeOf(r.updateTime))
    ensures PullItem(s, Object(r), f).idx[r.fileName] == r
    ensures PushCall(l, map[r.fileName := r], s.objects).Some?
  {
  }

  // ---------------------------------------------------------------------
  // Rm

  /** Rm: a live post of the index is marked deleted by its author at `now`
      and its working file and object are removed; anything else is left
      alone. */
  function RmPost(s: Store, name: string, now: string): Store {
    if CheckFilePath(name).Failure? || name !in s.idx || Tombstone(s.idx[name].status) then s
    else
      var v := s.idx[name];
      Store(s.idx[v.fileName := v.(status := StatusUserDel, updateTime := now)], s.objects - {v.md5}, s.posts - {name})
  }

  /** After Rm the post is a tombstone without a working file, and a second
      Rm changes nothing. */
  lemma RmTombstones(s: Store, name: string, now: string, later: string)
    requires Keyed(s.idx, PostName)
    requires CheckFilePath(name).Success? && name in s.idx && !Tombstone(s.idx[name].status)
    ensures var t := RmPost(s, name, now);
            t.idx[name].status == StatusUserDel && t.idx[name].md5 == s.idx[name].md5 &&
            name !in t.posts && s.idx[name].md5 !in t.objects &&
            RmPost(t, name, later) == t
  {
  }

  /** The deletion reaches the server: unless the server's copy is newer
      than the deletion, the next Push asks for it to be deleted there. */
  lemma RmThenPushDeletes(s: Store, name: string, now: string, remote: map<string, PostDesc>)
    requires Keyed(s.idx, PostName)
    requires CheckFilePath(name).Success? && name in s.idx && !Tombstone(s.idx[name].status)
    requires name in remote && remote[name].status != StatusUserDel
    requires !Tool.TimeCompare(remote[name].updateTime, now)
    ensures var t := RmPost(s, name, now);
            PushCall(t.idx[name], remote, t.objects) == Some(Delete(name))
  {
  }

  method Rm(w: Workspace, name: string, now: string)
    modifies w
    ensures w.kindex == old(w.kindex) && w.knowledge == old(w.knowledge) && w.ignore == old(w.ignore)
    ensures Read(old(w.index), PostName).Failure? ==>
              w.index == old(w.index) && w.objects == old(w.objects) && w.posts == old(w.posts)
    ensures Read(old(w.index), PostName).Success? ==>
              var t := RmPost(Store(Read(old(w.index), PostName).value, old(w.objects), old(w.posts)), name, now);
              Read(w.index, PostName) == Success(t.idx) && w.objects == t.objects && w.posts == t.posts
  {
    var loaded := Load(w.index, PostName);
    if loaded.Failure? {
      return;
    }
    var m, objects, posts := RmEntry(loaded.value, w.objects, w.posts, name, now);
    var index := Write(w.index, m, PostName);
    w.index, w.objects, w.posts := index, objects, posts;
  }

  /** Rm on the loaded index `m0`: a live post named by a valid path becomes
      a tombstone; otherwise nothing changes. */
  method RmEntry(m0: map<string, PostDesc>, objects0: map<string, string>, posts0: map<string, string>, name: string, now: string)
    returns (m: map<string, PostDesc>, objects: map<string, string>, posts: map<string, string>)
    requires Keyed(m0, PostName)
    ensures Store(m, objects, posts) == RmPost(Store(m0, objects0, posts0), name, now)
    ensures Keyed(m, PostName) && m.Keys == m0.Keys
  {
    m, objects, posts := m0, objects0, posts0;
    if CheckFilePath(name).Success? && name in m0 && !Tombstone(m0[name].status) {
      var local := m0[name];
      local := local.(status := StatusUserDel, updateTime := now);
      posts, objects := posts0 - {name}, objects0 - {local.md5};
      m := m0[local.fileName := local];
    }
  }

  // ---------------------------------------------------------------------
  // doAdd, Add

  /** The size limit doAdd means to enforce: its message speaks of 2M. */
  const MaxPostSize := 2 * 1024 * 1024

  /** The limit post.go:435 and main.go:422 compute. */
  const MaxPostSizeAsWritten := 2 * 1024 * 2014

  /** The size test of doAdd as written. */
  predicate TooLarge(content: string) {
    |content| > MaxPostSizeAsWritten
  }

  /** The store's objects are named by their MD5. */
  ghost predicate Addressed(objects: map<string, string>, hash: string -> string) {
    forall d :: d in objects ==> hash(objects[d]) == d
  }

  /** doAdd of one working file, with its size limit and image rule as
      parameters: unless the name is invalid, the file is missing, already
      committed with the same content or longer than `limit`, its images
      are rewritten by `rule` (the file is written back), and when its
      header is valid it is committed: the old object is removed, the new
      one stored under its MD5, and the descriptor records the MD5 and
      `now` (a new post gets an empty status, an existing one keeps its
      own). */
  function AddPostUnder(limit: nat, rule: Rule, s: Store, name: string, now: string, token: Option<string>,
                        upload: string -> Option<string>, hash: string -> string): Store
  {
    if CheckFilePath(name).Failure? || name !in s.posts then s
    else if name in s.idx && s.idx[name].md5 == hash(s.posts[name]) then s
    else if |s.posts[name]| > limit then s
    else
      match RewriteAlways(rule, Some(s.posts[name]), token, upload)
      case Failure(_) => s
      case Success(written) =>
        var text := if written.Some? then written.value else s.posts[name];
        CommitPost(s, name, text, ParseHeader(text).Success?, now, hash)
  }

  /** doAdd as written: the limit of post.go:435 and the path check of
      post.go:659. It changes no other post. */
  function AddPost(s: Store, name: string, now: string, token: Option<string>,
                   upload: string -> Option<string>, hash: string -> string): (t: Store)
    ensures forall n :: n in s.idx && n != name ==> n in t.idx && t.idx[n] == s.idx[n]
    ensures forall n :: n in t.idx && n != name ==> n in s.idx
    ensures forall n :: n in s.posts && n != name ==> n in t.posts && t.posts[n] == s.posts[n]
  {
    AddPostUnder(MaxPostSizeAsWritten, PostRule(), s, name, now, token, upload, hash)
  }

  /** doAdd as its messages describe it: posts over 2M are refused and only
      images under ../img/ are uploaded. */
  function AddPostIntended(s: Store, name: string, now: string, token: Option<string>,
                           upload: string -> Option<string>, hash: string -> string): Store
  {
    AddPostUnder(MaxPostSize, IntendedRule(), s, name, now, token, upload, hash)
  }

  /** As written, a post between 2M and 2*1024*2014 bytes, with a valid
      header and no image references, is committed as a new post; the
      corrected doAdd leaves the store as it was. */
  lemma LargePostCommittedAsWritten(s: Store, name: string, now: string, token: Option<string>,
                                    upload: string -> Option<string>, hash: string -> string)
    requires CheckFilePath(name).Success? && name in s.posts && name !in s.idx
    requires MaxPostSize < |s.posts[name]| <= MaxPostSizeAsWritten
    requires !Contains(s.posts[name], "![") && ParseHeader(s.posts[name]).Success?
    ensures AddPost(s, name, now, token, upload, hash) == CommitPost(s, name, s.posts[name], true, now, hash)
    ensures AddPost(s, name, now, token, upload, hash).idx[name] == PostDesc(name, now, hash(s.posts[name]), "")
    ensures AddPost(s, name, now, token, upload, hash).objects[hash(s.posts[name])] == s.posts[name]
    ensures AddPostIntended(s, name, now, token, upload, hash) == s
  {
    var c := s.posts[name];
    RewritePlainText(c, token, upload);
    assert AddPostUnder(MaxPostSizeAsWritten, PostRule(), s, name, now, token, upload, hash) == CommitPost(s, name, c, true, now, hash);
    CommitNew(s, name, c, now, hash);
    OversizedPostNotCommitted(s, name, now, token, upload, hash);
  }

  lemma CommitNew(s: Store, name: string, text: string, now: string, hash: string -> string)
    requires name !in s.idx
    ensures var t := CommitPost(s, name, text, true, now, hash);
            t.idx[name] == PostDesc(name, now, hash(text), "") && t.objects[hash(text)] == text
  {
  }

  /** The corrected doAdd never commits a post over 2M: the store is left
      exactly as it was. */
  lemma OversizedPostNotCommitted(s: Store, name: string, now: string, token: Option<string>,
                                  upload: string -> Option<string>, hash: string -> string)
    requires name in s.posts && |s.posts[name]| > MaxPostSize
    ensures AddPostIntended(s, name, now, token, upload, hash) == s
  {
  }

  /** The rest of doAdd once the images are rewritten: the working file
      holds `text`, and when its header is valid (`valid`) it is committed: the old
      object is removed, the new one stored under its MD5, and the
      descriptor records the MD5 and `now` (a new post gets an empty
      status, an existing one keeps its own). */
  function CommitPost(s: Store, name: string, text: string, valid: bool, now: string, hash: string -> string): Store {
    var posts := s.posts[name := text];
    if !valid then s.(posts := posts)
    else
      var md5 := hash(text);
      if name !in s.idx then
        Store(s.idx[name := PostDesc(name, now, md5, "")], s.objects[md5 := text], posts)
      else
        var prior := s.idx[name];
        Store(s.idx[name := prior.(md5 := md5, updateTime := now)], (s.objects - {prior.md5})[md5 := text], posts)
  }

  /** doAdd as written gets as far as the commit. */
  predicate Commits(s: Store, name: string, token: Option<string>, upload: string -> Option<string>, hash: string -> string) {
    CheckFilePath(name).Success? && name in s.posts &&
    !(name in s.idx && s.idx[name].md5 == hash(s.posts[name])) && !TooLarge(s.posts[name]) &&
    Rewrite(Some(s.posts[name]), token, upload).Success? &&
    ParseHeader(Committed(PostRule(), s.posts[name], token, upload)).Success?
  }

  /** The text doAdd commits under `rule`, when it gets that far. */
  function Committed(rule: Rule, content: string, token: Option<string>, upload: string -> Option<string>): string {
    match RewriteAlways(rule, Some(content), token, upload)
    case Success(Some(text)) => text
    case _ => content
  }

  /** Status: a working file not in the index. */
  predicate IsNew(s: Store, ignore: string, n: string) {
    n in s.posts && !InIgnoreList(ignore, n) && n !in s.idx
  }

  /** Status: a working file whose MD5 differs from the committed one. */
  predicate IsChanged(s: Store, ignore: string, hash: string -> string, n: string) {
    n in s.posts && !InIgnoreList(ignore, n) && n in s.idx && hash(s.posts[n]) != s.idx[n].md5
  }

  /** Status: a live post whose working file is gone. */
  predicate IsDeleted(s: Store, n: string) {
    n in s.idx && s.idx[n].fileName !in s.posts && !Tombstone(s.idx[n].status)
  }

  /** A committed post is clean: it is in the index with the MD5 of its
      working file, the store holds that text under it, and a second doAdd
      changes nothing. */
  lemma AddCommits(s: Store, name: string, now: string, token: Option<string>,
                   upload: string -> Option<string>, hash: string -> string, ignore: string, later: string)
    requires Commits(s, name, token, upload, hash)
    ensures var t := AddPost(s, name, now, token, upload, hash);
            name in t.idx && t.posts[name] == Committed(PostRule(), s.posts[name], token, upload) &&
            t.idx[name].md5 == hash(t.posts[name]) && t.objects[t.idx[name].md5] == t.posts[name] &&
            t.idx[name].updateTime == now &&
            t.idx[name].status == (if name in s.idx then s.idx[name].status else "") &&
            !IsNew(t, ignore, name) && !IsChanged(t, ignore, hash, name) &&
            AddPost(t, name, later, token, upload, hash) == t
  {
  }

  /** doAdd keeps the object store content-addressed. */
  lemma AddAddressed(s: Store, name: string, now: string, token: Option<string>,
                     upload: string -> Option<string>, hash: string -> string)
    requires Addressed(s.objects, hash)
    ensures Addressed(AddPost(s, name, now, token, upload, hash).objects, hash)
  {
    if CheckFilePath(name).Success? && name in s.posts {
      var r := Rewrite(Some(s.posts[name]), token, upload);
      if r.Success? {
        var text := if r.value.Some? then r.value.value else s.posts[name];
        CommitAddressed(s, name, text, ParseHeader(text).Success?, now, hash);
      }
    }
  }

  lemma CommitAddressed(s: Store, name: string, text: string, valid: bool, now: string, hash: string -> string)
    requires Addressed(s.objects, hash)
    ensures Addressed(CommitPost(s, name, text, valid, now, hash).objects, hash)
  {
  }

  method DoAdd(w: Workspace, name: string, now: string, token: Option<string>, upload: string -> Option<string>)
    modifies w
    ensures w.kindex == old(w.kindex) && w.knowledge == old(w.knowledge) && w.ignore == old(w.ignore)
    ensures Read(old(w.index), PostName).Failure? ==>
              w.index == old(w.index) && w.objects == old(w.objects) && w.posts == old(w.posts)
    ensures Read(old(w.index), PostName).Success? ==>
              var t := AddPost(Store(Read(old(w.index), PostName).value, old(w.objects), old(w.posts)), name, now, token, upload, w.hash);
              Read(w.index, PostName) == Success(t.idx) && w.objects == t.objects && w.posts == t.posts
  {
    var loaded := Load(w.index, PostName);
    if loaded.Failure? {
      return;
    }
    var m := loaded.value;
    var text := Candidate(m, w.objects, w.posts, name, now, token, upload, w.hash);
    if text.None? {
      return;
    }
    Commit(w, m, name, text.value, ParseHeader(text.value).Success?, now);
  }

  /** The checks of doAdd before the commit: the text to commit, or None
      when doAdd stops early and changes nothing. */
  method Candidate(m: map<string, PostDesc>, objects: map<string, string>, posts: map<string, string>, name: string,
                   now: string, token: Option<string>, upload: string -> Option<string>, hash: string -> string)
    returns (text: Option<string>)
    ensures var s := Store(m, objects, posts);
            if text.None? then AddPost(s, name, now, token, upload, hash) == s
            else AddPost(s, name, now, token, upload, hash) == CommitPost(s, name, text.value, ParseHeader(text.value).Success?, now, hash)
  {
    if CheckFilePath(name).Failure? || name !in posts {
      return None;
    }
    if name in m && m[name].md5 == hash(posts[name]) {
      return None;
    }
    if TooLarge(posts[name]) {
      return None;
    }
    var rewritten, _ := ReplaceImg(Some(posts[name]), token, upload);
    if rewritten.Failure? {
      return None;
    }
    text := Some(if rewritten.value.Some? then rewritten.value.value else posts[name]);
  }

  /** The commit step of doAdd on the loaded index `m`. */
  method Commit(w: Workspace, m: map<string, PostDesc>, name: string, text: string, valid: bool, now: string)
    requires Read(w.index, PostName) == Success(m)
    modifies w
    ensures w.kindex == old(w.kindex) && w.knowledge == old(w.knowledge) && w.ignore == old(w.ignore)
    ensures var t := CommitPost(Store(m, old(w.objects), old(w.posts)), name, text, valid, now, w.hash);
            Read(w.index, PostName) == Success(t.idx) && w.objects == t.objects && w.posts == t.posts
  {
    ghost var t := CommitPost(Store(m, w.objects, w.posts), name, text, valid, now, w.hash);
    w.posts := w.posts[name := text];
    if !valid {
      return;
    }
    var fileMd5 := w.hash(text);
    var m', objects;
    if name !in m {
      m' := m[name := PostDesc(name, now, fileMd5, "")];
      objects := w.objects[fileMd5 := text];
    } else {
      var repoPost := m[name];
      m' := m[name := repoPost.(md5 := fileMd5, updateTime := now)];
      objects := (w.objects - {repoPost.md5})[fileMd5 := text];
    }
    assert m' == t.idx && objects == t.objects;
    assert Keyed(m', PostName) by {
      assert Keyed(m, PostName);
    }
    assert name in m';
    w.objects := objects;
    w.index := Write(w.index, m', PostName);
  }

  /** Add "." over the listing of ./posts, in order, skipping ignored
      names: doAdd of each. */
  function AddEach(s: Store, names: seq<string>, ignore: string, now: string, token: Option<string>,
                   upload: string -> Option<string>, hash: string -> string): Store
  {
    if names == [] then s
    else
      var t := AddEach(s, names[..|names| - 1], ignore, now, token, upload, hash);
      var n := names[|names| - 1];
      if InIgnoreList(ignore, n) then t else AddPost(t, n, now, token, upload, hash)
  }

  /** Add ".": `listing` holds the names ioutil.ReadDir returns for
      ./posts (None when it fails). */
  method AddAll(w: Workspace, listing: Option<seq<string>>, now: string, token: Option<string>, upload: string -> Option<string>)
    modifies w
    ensures w.kindex == old(w.kindex) && w.knowledge == old(w.knowledge) && w.ignore == old(w.ignore)
    ensures Read(old(w.index), PostName).Failure? || listing.None? ==>
              Read(w.index, PostName) == Read(old(w.index), PostName) && w.objects == old(w.objects) && w.posts == old(w.posts)
    ensures Read(old(w.index), PostName).Success? && listing.Some? ==>
              var t := AddEach(Store(Read(old(w.index), PostName).value, old(w.objects), old(w.posts)), listing.value, w.ignore, now, token, upload, w.hash);
              Read(w.index, PostName) == Success(t.idx) && w.objects == t.objects && w.posts == t.posts
  {
    if listing.None? {
      return;
    }
    var names := listing.value;
    ghost var r0 := Read(w.index, PostName);
    ghost var s0 := Store(if r0.Success? then r0.value else map[], w.objects, w.posts);
    var i := 0;
    while i < |names|
      invariant 0 <= i <= |names|
      invariant r0.Failure? ==> Read(w.index, PostName) == r0 && w.objects == s0.objects && w.posts == s0.posts
      invariant r0.Success? ==>
                  var t := AddEach(s0, names[..i], w.ignore, now, token, upload, w.hash);
                  Read(w.index, PostName) == Success(t.idx) && w.objects == t.objects && w.posts == t.posts
      invariant w.kindex == old(w.kindex) && w.knowledge == old(w.knowledge) && w.ignore == old(w.ignore)
    {
      assert names[..i + 1][..i] == names[..i];
      if !InIgnoreList(w.ignore, names[i]) {
        DoAdd(w, names[i], now, token, upload);
      }
      i := i + 1;
    }
    assert names[..i] == names;
  }

  // ---------------------------------------------------------------------
  // Checkout

  /** Checkout of one name: a live post whose object exists is copied back
      into the working directory. */
  function CheckoutPost(s: Store, name: string): Store {
    if CheckFilePath(name).Failure? || name !in s.idx || Tombstone(s.idx[name].status) || s.idx[name].md5 !in s.objects then s
    else s.(posts := s.posts[s.idx[name].fileName := s.objects[s.idx[name].md5]])
  }

  /** In a content-addressed store, a checked-out post is clean. */
  lemma CheckoutClean(s: Store, name: string, ignore: string, hash: string -> string)
    requires Keyed(s.idx, PostName) && Addressed(s.objects, hash)
    requires CheckFilePath(name).Success? && name in s.idx && !Tombstone(s.idx[name].status) && s.idx[name].md5 in s.objects
    ensures var t := CheckoutPost(s, name);
            t.idx == s.idx && t.objects == s.objects &&
            !IsChanged(t, ignore, hash, name) && !IsNew(t, ignore, name) && !IsDeleted(t, name)
  {
  }

  method Checkout(w: Workspace, name: string)
    modifies w
    ensures w.index == old(w.index) && w.objects == old(w.objects)
    ensures w.kindex == old(w.kindex) && w.knowledge == old(w.knowledge) && w.ignore == old(w.ignore)
    ensures Read(w.index, PostName).Failure? ==> w.posts == old(w.posts)
    ensures Read(w.index, PostName).Success? ==>
              w.posts == CheckoutPost(Store(Read(w.index, PostName).value, w.objects, old(w.posts)), name).posts
  {
    var loaded := Load(w.index, PostName);
    if loaded.Failure? {
      return;
    }
    w.posts := CheckoutEntry(loaded.value, w.objects, w.posts, name);
  }

  /** Checkout of one name on the loaded index `m`. */
  method CheckoutEntry(m: map<string, PostDesc>, objects: map<string, string>, posts0: map<string, string>, name: string)
    returns (posts: map<string, string>)
    ensures posts == CheckoutPost(Store(m, objects, posts0), name).posts
  {
    posts := posts0;
    if CheckFilePath(name).Failure? || name !in m {
      return;
    }
    var v := m[name];
    if v.status == "-2" || v.status == "-3" {
      return;
    }
    if v.md5 !in objects {
      return;
    }
    posts := posts[v.fileName := objects[v.md5]];
  }

  /** A live post Checkout "." restores. */
  predicate Restorable(idx: map<string, PostDesc>, n: string) {
    n in idx && !Tombstone(idx[n].status)
  }

  /** Checkout ".": every live post is copied back, in the map's order; the
      first one whose object is missing stops the command. */
  method CheckoutAll(w: Workspace)
    modifies w
    ensures w.index == old(w.index) && w.objects == old(w.objects)
    ensures w.kindex == old(w.kindex) && w.knowledge == old(w.knowledge) && w.ignore == old(w.ignore)
    ensures Read(w.index, PostName).Failure? ==> w.posts == old(w.posts)
    ensures Read(w.index, PostName).Success? ==>
              var m := Read(w.index, PostName).value;
              (forall n :: n in old(w.posts) ==> n in w.posts) &&
              (forall n :: n in w.posts ==>
                 (n in old(w.posts) && w.posts[n] == old(w.posts)[n]) ||
                 (Restorable(m, n) && m[n].md5 in w.objects && w.posts[n] == w.objects[m[n].md5])) &&
              ((forall n :: Restorable(m, n) ==> m[n].md5 in w.objects) ==>
                 forall n :: Restorable(m, n) ==> n in w.posts && w.posts[n] == w.objects[m[n].md5])
  {
    var loaded := Load(w.index, PostName);
    if loaded.Failure? {
      return;
    }
    w.posts := RestoreAll(loaded.value, w.objects, w.posts);
  }

  /** The loop of Checkout ".": the working copies after restoring the live
      posts of `m` from `objects` over `posts0`, stopping at the first
      missing object. */
  method RestoreAll(m: map<string, PostDesc>, objects: map<string, string>, posts0: map<string, string>)
    returns (posts: map<string, string>)
    requires Keyed(m, PostName)
    ensures forall n :: n in posts0 ==> n in posts
    ensures forall n :: n in posts ==>
              (n in posts0 && posts[n] == posts0[n]) ||
              (Restorable(m, n) && m[n].md5 in objects && posts[n] == objects[m[n].md5])
    ensures (forall n :: Restorable(m, n) ==> m[n].md5 in objects) ==>
              forall n :: Restorable(m, n) ==> n in posts && posts[n] == objects[m[n].md5]
  {
    posts := posts0;
    var todo := m.Keys;
    while todo != {}
      invariant todo <= m.Keys
      invariant forall n :: n in posts0 ==> n in posts
      invariant forall n :: n in posts ==>
                  (n in posts0 && posts[n] == posts0[n]) ||
                  (Restorable(m, n) && m[n].md5 in objects && posts[n] == objects[m[n].md5])
      invariant forall n :: Restorable(m, n) && n !in todo ==>
                  n in posts && m[n].md5 in objects && posts[n] == objects[m[n].md5]
      decreases |todo|
    {
      var n :| n in todo;
      var v := m[n];
      if !Tombstone(v.status) {
        if v.md5 !in objects {
          return;
        }
        posts := posts[v.fileName := objects[v.md5]];
      }
      todo := todo - {n};
    }
  }

  // ---------------------------------------------------------------------
  // Status

  /** Status: the new, changed and deleted posts of the working tree. An
      unreadable index reports nothing. */
  method Status(w: Workspace) returns (newFiles: set<string>, changed: set<string>, deleted: set<string>)
    ensures Read(w.index, PostName).Failure? ==> newFiles == {} && changed == {} && deleted == {}
    ensures Read(w.index, PostName).Success? ==>
              var s := Store(Read(w.index, PostName).value, w.objects, w.posts);
              (forall n :: n in newFiles <==> IsNew(s, w.ignore, n)) &&
              (forall n :: n in changed <==> IsChanged(s, w.ignore, w.hash, n)) &&
              (forall n :: n in deleted <==> IsDeleted(s, n))
  {
    newFiles, changed, deleted := {}, {}, {};
    var loaded := Load(w.index, PostName);
    if loaded.Failure? {
      return;
    }
    var m := loaded.value;
    ghost var s := Store(m, w.objects, w.posts);
    var files := w.posts.Keys;
    while files != {}
      invariant files <= w.posts.Keys
      invariant forall n :: n in newFiles <==> n !in files && IsNew(s, w.ignore, n)
      invariant forall n :: n in changed <==> n !in files && IsChanged(s, w.ignore, w.hash, n)
      decreases |files|
    {
      var n :| n in files;
      if !InIgnoreList(w.ignore, n) {
        if n !in m {
          newFiles := newFiles + {n};
        } else if w.hash(w.posts[n]) != m[n].md5 {
          changed := changed + {n};
        }
      }
      files := files - {n};
    }
    var entries := m.Keys;
    while entries != {}
      invariant entries <= m.Keys
      invariant forall n :: n in deleted <==> n !in entries && IsDeleted(s, n)
      decreases |entries|
    {
      var n :| n in entries;
      var v := m[n];
      if v.fileName !in w.posts && v.status != "-2" && v.status != "-3" {
        deleted := deleted + {v.fileName};
      }
      entries := entries - {n};
    }
  }
}
