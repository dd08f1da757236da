/** main.go: the older single-directory client. Posts are the Markdown files
    next to the program, committed under repo/<md5> and listed in repo/index;
    descriptors carry a title and no deletion status. The program's
    directory is taken to be the current directory, as the source assumes
    when it mixes bare names with workDir-relative paths. */
module Legacy {
  import opened Wrappers
  import opened GoStrings
  import opened IndexFile
  import opened ImageRefs
  import Tool
  import Post

  /** DocDesc: one post of repo/index, keyed by its file name. */
  datatype DocDesc = DocDesc(title: string, fileName: string, updateTime: string, md5: string)

  function DocName(d: DocDesc): string {
    d.fileName
  }

  /** The program's directory. */
  class WorkDir {
    /** repo/index. */
    var index: Stored<DocDesc>
    /** repo/<md5>: committed contents by their MD5 digest. */
    var objects: map<string, string>
    /** The regular files next to the program, by name. */
    var files: map<string, string>
    /** GetFileMd5 on a file's content. */
    const hash: string -> string

    /** The directory as main() finds it after creating repo/: nothing
        committed and no index yet. */
    constructor (hash: string -> string, files: map<string, string>)
      ensures index == Empty && objects == map[] && this.files == files && this.hash == hash
    {
      index := Empty;
      objects := map[];
      this.files := files;
      this.hash := hash;
    }
  }

  // ---------------------------------------------------------------------
  // checkFilePath and the ignore list

  /** checkFilePath of main.go: a single Markdown file of the directory; a
      blank in the name is allowed here. */
  function CheckFilePath(path: string): (r: Result<string>)
    ensures r.Success? <==> '/' !in path && '\\' !in path && Tool.GetExt(path) == ".md"
    ensures r.Success? ==> r.value == path
  {
    if '/' in path || '\\' in path then Failure("nested path")
    else if Tool.GetExt(path) != ".md" then Failure("not markdown")
    else Success(path)
  }

  /** The later client accepts exactly the names this one accepts that have
      no blank. */
  lemma LaterCheckAddsBlank(path: string)
    ensures Post.CheckFilePath(path).Success? <==> CheckFilePath(path).Success? && ' ' !in path
  {
  }

  /** A Markdown name with a blank in it is accepted here and refused by
      the later client. */
  lemma BlankNameAcceptedHereOnly(base: string)
    requires ' ' in base && '/' !in base && '\\' !in base && '?' !in base
    ensures CheckFilePath(base + ".md").Success? && Post.CheckFilePath(base + ".md").Failure?
  {
    Tool.GetExtOfLowerSuffix(base, ".md");
    assert '/' !in ".md" && '\\' !in ".md";
  }

  /** The program, its Windows build and its configuration. */
  const IgnoreList := ["doc", "doc.exe", "conf.json"]

  predicate Ignored(name: string) {
    name in IgnoreList
  }

  lemma ExtOfBareName()
    ensures Tool.GetExt("doc") == []
  {
    assert LastIndexChar("doc", '?') == -1;
    assert LastIndexChar("doc", '.') == -1;
  }

  lemma ExtOfSuffixed(base: string, ext: string)
    requires '?' !in base
    requires ext == ".exe" || ext == ".json"
    ensures Tool.GetExt(base + ext) == ToLower(ext)
  {
    assert ext[0] == '.' && '.' !in ext[1..] && '?' !in ext;
    Tool.GetExtOfSuffix(base, ext);
  }

  /** None of the ignored names is a Markdown name, so the list never hides
      a post. */
  lemma IgnoredAreNotPosts(name: string)
    requires Ignored(name)
    ensures CheckFilePath(name).Failure?
  {
    if name == "doc" {
      ExtOfBareName();
    } else if name == "doc.exe" {
      assert "doc" + ".exe" == name;
      ExtOfSuffixed("doc", ".exe");
      assert |Tool.GetExt(name)| == 4;
    } else {
      assert "conf" + ".json" == name;
      ExtOfSuffixed("conf", ".json");
      assert |Tool.GetExt(name)| == 5;
    }
  }

  // ---------------------------------------------------------------------
  // getMDTile

  /** getMDTile on a file's content: the first line is "---" and the second
      "title:" followed by a non-blank title, returned trimmed. */
  function ParseTitle(content: string): (r: Result<string>)
    ensures r.Success? ==> r.value != [] && Trimmed(r.value)
  {
    match ReadLine(content)
    case None => Failure("line 1")
    case Some((line1, rest1)) =>
      if line1 != "---" then Failure("no front matter")
      else
        match ReadLine(rest1)
        case None => Failure("line 2")
        case Some((line2, _)) =>
          match Post.Field(line2, "title:")
          case None => Failure("no title")
          case Some(title) => Success(title)
  }

  /** A title line written as "title: T" reads back as T. */
  lemma TitleRoundTrip(title: string, body: string)
    requires title != [] && Trimmed(title) && '\n' !in title
    ensures ParseTitle("---\ntitle: " + title + "\n" + body) == Success(title)
  {
    var line2 := "title:" + " " + title;
    var rest1 := line2 + "\n" + body;
    var content := "---\ntitle: " + title + "\n" + body;
    assert content == "---" + "\n" + rest1;
    ReadLineOf("---", rest1);
    Post.LineOf("title:", title, body);
    Post.FieldOf("title:", title);
  }

  /** A title is read only from where it was written: the first line is
      "---", the second starts with "title:" and the title is the rest of
      that line trimmed. */
  lemma TitleSound(content: string)
    requires ParseTitle(content).Success?
    ensures ReadLine(content).Some? && ReadLine(content).value.0 == "---"
    ensures var rest1 := ReadLine(content).value.1;
            ReadLine(rest1).Some? &&
            var line2 := ReadLine(rest1).value.0;
            HasPrefix(line2, "title:") && ParseTitle(content).value == TrimSpace(line2[6..])
  {
  }

  /** Every header the later client accepts gives this client the same
      title. */
  lemma TitleOfLaterHeader(content: string)
    requires Post.ParseHeader(content).Success?
    ensures ParseTitle(content) == Success(Post.ParseHeader(content).value.0)
  {
  }

  // ---------------------------------------------------------------------
  // replaceImg of main.go

  /** A target that names a web image: it is downloaded before the upload. */
  predicate WebImage(t: string) {
    Contains(t, "http") || Contains(t, "https")
  }

  /** A target this rewriter uploads: a supported image not on the
      jiaoliuqu.com domain, which, when it is a web image, was downloaded
      into ./img (`download(t)` says whether DownLoadFile succeeded). */
  predicate LegacyEligible(t: string, download: string -> bool) {
    Supported(t) && !Contains(t, "jiaoliuqu.com") && (WebImage(t) ==> download(t))
  }

  /** replaceImg of main.go links the returned key on the jiaoliuqu.com
      domain. The uploader is keyed by the target it stands for: the
      downloaded copy of a web image, the file itself otherwise (the random
      object key is not modelled). */
  function LegacyRule(download: string -> bool): Rule {
    Rule(t => LegacyEligible(t, download), t => t, OldHost)
  }

  /** replaceImg's effect on a file: a Failure, Success(None) when the file
      is left as it is, or Success(Some(text)) when `text` is written back. */
  function Rewrite(file: Option<string>, token: Option<string>, upload: string -> Option<string>,
                   download: string -> bool): (r: Result<Option<string>>)
    ensures file.None? ==> r.Failure?
  {
    RewriteAlways(LegacyRule(download), file, token, upload)
  }

  /** replaceImg: every eligible target is uploaded, in order; a successful
      upload replaces all occurrences of the target by the image URL; once
      there are targets and a token the file is written back, changed or
      not. `uploads` lists the targets whose upload was attempted. */
  method ReplaceImg(file: Option<string>, token: Option<string>, upload: string -> Option<string>, download: string -> bool)
    returns (r: Result<Option<string>>, uploads: seq<string>)
    ensures r == Rewrite(file, token, upload, download)
    ensures r.Success? && r.value.Some? ==> uploads == Uploads(LegacyRule(download), Targets(file.value))
    ensures !(r.Success? && r.value.Some?) ==> uploads == []
  {
    uploads := [];
    if file.None? {
      return Failure("read"), [];
    }
    var content := file.value;
    if |content| == 0 {
      return Success(None), [];
    }
    var c := Targets(content);
    if |c| == 0 {
      return Success(None), [];
    }
    if token.None? {
      return Failure("token"), [];
    }
    content, uploads := UploadTargets(content, c, upload, download);
    r := Success(Some(content));
  }

  /** The loop of replaceImg over the targets `c` of `content0`. */
  method UploadTargets(content0: string, c: seq<string>, upload: string -> Option<string>, download: string -> bool)
    returns (content: string, uploads: seq<string>)
    ensures content == After(LegacyRule(download), content0, c, upload)
    ensures uploads == Uploads(LegacyRule(download), c)
  {
    ghost var rule := LegacyRule(download);
    content, uploads := content0, [];
    var i := 0;
    while i < |c|
      invariant 0 <= i <= |c|
      invariant content == After(rule, content0, c[..i], upload)
      invariant uploads == Uploads(rule, c[..i])
    {
      var t := c[i];
      Snoc(rule, content0, c, i, upload);
      var tried;
      content, tried := UploadTarget(content, t, upload, download);
      uploads := uploads + tried;
      i := i + 1;
    }
    assert c[..i] == c;
  }

  /** One target of the loop: a supported image off the jiaoliuqu.com
      domain is downloaded first when it is a web image, then uploaded; a
      successful upload replaces every occurrence of it by the image URL.
      `tried` is the upload attempted, if any. */
  method UploadTarget(content0: string, t: string, upload: string -> Option<string>, download: string -> bool)
    returns (content: string, tried: seq<string>)
    ensures content == Step(LegacyRule(download), content0, t, upload)
    ensures tried == if LegacyEligible(t, download) then [t] else []
  {
    content, tried := content0, [];
    if Supported(t) && !Contains(t, "jiaoliuqu.com") {
      var fetched := true;
      if Contains(t, "http") || Contains(t, "https") {
        fetched := download(t);
      }
      if fetched {
        tried := [t];
        var ret := upload(t);
        if ret.Some? {
          content := ReplaceAll(content, t, OldHost + ret.value);
        }
      }
    }
  }

  /** Every upload is a supported image of the document off the
      jiaoliuqu.com domain, and a web image only once it was downloaded. */
  lemma LegacyUploads(content: string, download: string -> bool)
    ensures forall u :: u in Uploads(LegacyRule(download), Targets(content)) ==>
              u in Targets(content) && Supported(u) && !Contains(u, "jiaoliuqu.com") && (WebImage(u) ==> download(u))
  {
    UploadsEligible(LegacyRule(download), Targets(content));
  }

  /** A URL the rewriter produced is never uploaded again. */
  lemma RewrittenNotUploadedAgain(key: string, download: string -> bool)
    ensures !LegacyEligible(OldHost + key, download)
  {
    RewrittenIsPermanent(key);
  }

  /** With targets and a token the file is written back even when no upload
      succeeded; the text is then unchanged. */
  lemma WrittenBackUnchanged(content: string, token: string, upload: string -> Option<string>, download: string -> bool)
    requires Targets(content) != []
    requires !Changed(LegacyRule(download), Targets(content), upload)
    ensures Rewrite(Some(content), Some(token), upload, download) == Success(Some(content))
  {
    UnchangedText(LegacyRule(download), content, Targets(content), upload);
  }

  // ---------------------------------------------------------------------
  // The directory as a value

  /** What the commands read and change: the index as a map, repo/ and the
      working files. */
  datatype LStore = LStore(idx: map<string, DocDesc>, objects: map<string, string>, files: map<string, string>)

  /** An element of the server's post list: an object with string fields
      file_name, file_md5 and update_time, or anything else, on which the
      type assertions panic. */
  datatype LItem = Entry(fileName: string, md5: string, updateTime: string) | Malformed

  /** The descriptor built from a list entry; its title is empty. */
  function Listed(e: LItem): (d: DocDesc)
    requires e.Entry?
    ensures DocName(d) == e.fileName && d.title == []
  {
    DocDesc("", e.fileName, e.updateTime, e.md5)
  }

  // ---------------------------------------------------------------------
  // Pull

  /** The answer to the "get" call for one post: the content and title, no
      usable answer (the call fails, the reply carries a message, or its data
      is not an object), or an object without string content and title
      fields, on which the type assertions panic. */
  datatype Fetch = Got(content: string, title: string) | Missed | Broken

  /** Pull's state after some elements, and whether it panicked (after which
      nothing more happens and the index is not written). */
  datatype Pulled = Pulled(store: LStore, panicked: bool)

  /** Pull leaves a server entry alone when the local post has the same MD5
      or was updated strictly later. */
  predicate Skipped(idx: map<string, DocDesc>, r: DocDesc) {
    r.fileName in idx && (idx[r.fileName].md5 == r.md5 || Tool.TimeCompare(idx[r.fileName].updateTime, r.updateTime))
  }

  /** One entry: unless skipped, its content is fetched, written under its
      MD5 and copied to the working file, the old object is removed, and
      only then does the index take the entry, titled from the reply. */
  function PullEntry(s: LStore, r: DocDesc, f: Fetch): Pulled {
    if Skipped(s.idx, r) then Pulled(s, false)
    else
      match f
      case Missed => Pulled(s, false)
      case Broken => Pulled(s, true)
      case Got(content, title) =>
        var n := r.fileName;
        var objects := s.objects[r.md5 := content];
        Pulled(LStore(s.idx[n := r.(title := title)],
                      if n in s.idx then objects - {s.idx[n].md5} else objects,
                      s.files[n := content]), false)
  }

  /** Pull over the list, in order, up to the first panic; `fetch(i)`
      answers the "get" call made for element i. */
  function PullAll(s: LStore, items: seq<LItem>, fetch: nat -> Fetch): Pulled {
    if items == [] then Pulled(s, false)
    else
      var p := PullAll(s, items[..|items| - 1], fetch);
      var e := items[|items| - 1];
      if p.panicked then p
      else if e.Malformed? then Pulled(p.store, true)
      else PullEntry(p.store, Listed(e), fetch(|items| - 1))
  }

  /** Once Pull has panicked, the rest of the list changes nothing. */
  lemma {:induction false} PanicFinal(s: LStore, items: seq<LItem>, fetch: nat -> Fetch, i: nat)
    requires i <= |items|
    requires PullAll(s, items[..i], fetch).panicked
    ensures PullAll(s, items, fetch) == PullAll(s, items[..i], fetch)
    decreases |items| - i
  {
    if i < |items| {
      assert items[..i + 1][..i] == items[..i];
      PanicFinal(s, items, fetch, i + 1);
    } else {
      assert items[..i] == items;
    }
  }

  /** The index changes for an entry only once its content is in: the index
      then holds the entry with the fetched title, and both the working file
      and the object hold the fetched content. */
  lemma IndexFollowsContent(s: LStore, r: DocDesc, f: Fetch)
    ensures var p := PullEntry(s, r, f);
            r.fileName in p.store.idx && (r.fileName !in s.idx || p.store.idx[r.fileName] != s.idx[r.fileName]) ==>
              f.Got? && p.store.idx[r.fileName] == r.(title := f.title) &&
              p.store.files[r.fileName] == f.content && p.store.objects[r.md5] == f.content
  {
  }

  /** A fetch that failed is retried by the next Pull; a post pulled once is
      skipped the second time. */
  lemma PullRetriesAndSettles(s: LStore, r: DocDesc, content: string, title: string, f: Fetch)
    requires !Skipped(s.idx, r)
    ensures PullEntry(PullEntry(s, r, Missed).store, r, Got(content, title)) == PullEntry(s, r, Got(content, title))
    ensures var t := PullEntry(s, r, Got(content, title)).store;
            PullEntry(t, r, f) == Pulled(t, false)
  {
  }

  /** A post edited later on this machine is left as it is. */
  lemma LocalNewerKept(s: LStore, r: DocDesc, f: Fetch)
    requires r.fileName in s.idx && Tool.TimeCompare(s.idx[r.fileName].updateTime, r.updateTime)
    ensures PullEntry(s, r, f) == Pulled(s, false)
  {
  }

  /** Pull never drops an index entry. */
  lemma {:induction false} PullKeepsNames(s: LStore, items: seq<LItem>, fetch: nat -> Fetch)
    ensures s.idx.Keys <= PullAll(s, items, fetch).store.idx.Keys
  {
    if items != [] {
      PullKeepsNames(s, items[..|items| - 1], fetch);
    }
  }

  /** Pull: read the index, ask the server for its list (None when the call
      fails or the reply carries a message; data that is not a list counts
      as the empty list), apply every element in order, and write the index
      back, even when it is empty. A panic ends the command with the files
      written so far and the index as it was. */
  method Pull(w: WorkDir, list: Option<seq<LItem>>, fetch: nat -> Fetch)
    modifies w
    ensures Read(old(w.index), DocName).Failure? || list.None? ==>
              w.index == old(w.index) && w.objects == old(w.objects) && w.files == old(w.files)
    ensures Read(old(w.index), DocName).Success? && list.Some? ==>
              var p := PullAll(LStore(Read(old(w.index), DocName).value, old(w.objects), old(w.files)), list.value, fetch);
              w.objects == p.store.objects && w.files == p.store.files &&
              (p.panicked ==> w.index == old(w.index)) &&
              (!p.panicked ==> Read(w.index, DocName) == Success(p.store.idx))
  {
    var loaded := Load(w.index, DocName);
    if loaded.Failure? || list.None? {
      return;
    }
    var m := loaded.value;
    var items := list.value;
    ghost var s0 := LStore(m, w.objects, w.files);
    var i := 0;
    while i < |items|
      invariant 0 <= i <= |items|
      invariant PullAll(s0, items[..i], fetch) == Pulled(LStore(m, w.objects, w.files), false)
      invariant Keyed(m, DocName)
      invariant w.index == old(w.index)
    {
      assert items[..i + 1][..i] == items[..i];
      var e := items[i];
      if e.Malformed? {
        PanicFinal(s0, items, fetch, i + 1);
        return;
      }
      var panicked;
      m, panicked := PullOne(w, m, DocDesc("", e.fileName, e.updateTime, e.md5), fetch, i);
      if panicked {
        PanicFinal(s0, items, fetch, i + 1);
        return;
      }
      i := i + 1;
    }
    assert items[..i] == items;
    WriteIndex(w, m);
  }

  /** WriteIndex: the index is written even when the map is empty, and
      reads back as the map. */
  method WriteIndex(w: WorkDir, m: map<string, DocDesc>)
    requires Keyed(m, DocName)
    modifies w
    ensures w.index.Records? && Read(w.index, DocName) == Success(m)
    ensures w.objects == old(w.objects) && w.files == old(w.files)
  {
    w.index := WriteAlways(m, DocName);
    CollectValues(m, DocName, w.index.list);
  }

  /** The loop body of Pull for the entry `remote` at position `i`. */
  method PullOne(w: WorkDir, m: map<string, DocDesc>, remote: DocDesc, fetch: nat -> Fetch, i: nat)
    returns (m': map<string, DocDesc>, panicked: bool)
    requires Keyed(m, DocName)
    modifies w
    ensures Pulled(LStore(m', w.objects, w.files), panicked) == PullEntry(LStore(m, old(w.objects), old(w.files)), remote, fetch(i))
    ensures Keyed(m', DocName) && w.index == old(w.index)
  {
    m', panicked := m, false;
    var n := remote.fileName;
    if n in m && (m[n].md5 == remote.md5 || Tool.TimeCompare(m[n].updateTime, remote.updateTime)) {
      return;
    }
    var f := fetch(i);
    if f.Broken? {
      return m, true;
    }
    if f.Got? {
      w.objects := w.objects[remote.md5 := f.content];
      w.files := w.files[n := w.objects[remote.md5]];
      if n in m {
        w.objects := w.objects - {m[n].md5};
      }
      m' := m[n := remote.(title := f.title)];
    }
  }

  // ---------------------------------------------------------------------
  // Push

  /** The form Push posts for one post. */
  datatype Upload = Upload(fileName: string, md5: string, content: string, title: string)

  /** The descriptors of the list's entries, in order. */
  function RemoteList(items: seq<LItem>): (ds: seq<DocDesc>)
    ensures |ds| <= |items|
  {
    if items == [] then []
    else
      var e := items[|items| - 1];
      RemoteList(items[..|items| - 1]) + (if e.Entry? then [Listed(e)] else [])
  }

  /** Push's decision for one local post: nothing when the server has the
      same MD5 or a strictly newer copy, or when the object cannot be read;
      otherwise the object's content with the local title. */
  function PushUpload(v: DocDesc, remote: map<string, DocDesc>, objects: map<string, string>): Option<Upload> {
    if v.fileName in remote && (remote[v.fileName].md5 == v.md5 || Tool.TimeCompare(remote[v.fileName].updateTime, v.updateTime)) then None
    else if v.md5 !in objects then None
    else Some(Upload(v.fileName, v.md5, objects[v.md5], v.title))
  }

  /** The uploads Push makes, by post name. */
  function PushPlan(idx: map<string, DocDesc>, remote: map<string, DocDesc>, objects: map<string, string>): map<string, Upload> {
    map n | n in idx && PushUpload(idx[n], remote, objects).Some? :: PushUpload(idx[n], remote, objects).value
  }

  /** An upload carries the committed content and the local descriptor. */
  lemma UploadCarriesObject(v: DocDesc, remote: map<string, DocDesc>, objects: map<string, string>)
    requires PushUpload(v, remote, objects).Some?
    ensures v.md5 in objects
    ensures PushUpload(v, remote, objects).value == Upload(v.fileName, v.md5, objects[v.md5], v.title)
    ensures v.fileName in remote ==> remote[v.fileName].md5 != v.md5
  {
  }

  /** A post the server holds in a strictly newer version is not pushed. */
  lemma RemoteNewerKept(v: DocDesc, remote: map<string, DocDesc>, objects: map<string, string>)
    requires v.fileName in remote && Tool.TimeCompare(remote[v.fileName].updateTime, v.updateTime)
    ensures PushUpload(v, remote, objects).None?
  {
  }

  /** For a post that differs on the two sides and was updated at different
      times, exactly one of Pull and Push moves it. */
  lemma OneWayWhenTimesDiffer(l: DocDesc, r: DocDesc, objects: map<string, string>)
    requires l.fileName == r.fileName && l.md5 != r.md5 && l.md5 in objects
    requires Tool.TimeCompare(l.updateTime, r.updateTime) || Tool.TimeCompare(r.updateTime, l.updateTime)
    ensures Skipped(map[l.fileName := l], r) <==> PushUpload(l, map[r.fileName := r], objects).Some?
  {
    Tool.TimeCompareStrict(l.updateTime, r.updateTime, l.updateTime);
  }

  /** Push: read the index, ask the server for its list, and make one upload
      per post that needs one. An element that is not a well-formed object
      panics before any upload. Nothing local changes. */
  method Push(w: WorkDir, list: Option<seq<LItem>>) returns (r: Result<map<string, Upload>>)
    ensures Read(w.index, DocName).Failure? || list.None? ==> r.Failure?
    ensures Read(w.index, DocName).Success? && list.Some? ==>
              (Malformed in list.value ==> r.Failure?) &&
              (Malformed !in list.value ==>
                 r == Success(PushPlan(Read(w.index, DocName).value, Collect(RemoteList(list.value), DocName), w.objects)))
  {
    var loaded := Load(w.index, DocName);
    if loaded.Failure? {
      return Failure("index");
    }
    if list.None? {
      return Failure("list");
    }
    var items := list.value;
    var remote: map<string, DocDesc> := map[];
    var i := 0;
    while i < |items|
      invariant 0 <= i <= |items|
      invariant Malformed !in items[..i]
      invariant remote == Collect(RemoteList(items[..i]), DocName)
    {
      assert items[..i + 1][..i] == items[..i];
      if items[i].Malformed? {
        assert items[i] in items;
        return Failure("panic");
      }
      var a := DocDesc("", items[i].fileName, items[i].updateTime, items[i].md5);
      assert RemoteList(items[..i + 1]) == RemoteList(items[..i]) + [a];
      remote := remote[a.fileName := a];
      i := i + 1;
    }
    assert items[..i] == items;
    var uploads := PlanUploads(loaded.value, remote, w.objects);
    return Success(uploads);
  }

  /** Push's pass over the index, in the map's order. */
  method PlanUploads(m: map<string, DocDesc>, remote: map<string, DocDesc>, objects: map<string, string>)
    returns (uploads: map<string, Upload>)
    ensures uploads == PushPlan(m, remote, objects)
  {
    uploads := map[];
    var todo := m.Keys;
    while todo != {}
      invariant todo <= m.Keys
      invariant forall n :: n in uploads <==> n in m && n !in todo && PushUpload(m[n], remote, objects).Some?
      invariant forall n :: n in uploads ==> uploads[n] == PushUpload(m[n], remote, objects).value
      decreases |todo|
    {
      var n :| n in todo;
      var v := m[n];
      var skip := false;
      if v.fileName in remote {
        var rp := remote[v.fileName];
        if rp.md5 == v.md5 || Tool.TimeCompare(rp.updateTime, v.updateTime) {
          skip := true;
        }
      }
      if !skip && v.md5 in objects {
        uploads := uploads[n := Upload(v.fileName, v.md5, objects[v.md5], v.title)];
      }
      todo := todo - {n};
    }
  }

  // ---------------------------------------------------------------------
  // doAdd

  /** The map doAdd hands to WriteIndex: the new descriptor `d` under the
      empty key, and, for a post already indexed, also under its own name,
      since the updated descriptor is the one the map already points to. */
  function Staged(m: map<string, DocDesc>, name: string, d: DocDesc): map<string, DocDesc> {
    if name in m then m[name := d][[] := d] else m[[] := d]
  }

  /** What the index reads back as after the staged map is written: the
      post under its name, and no entry named "" (one the server listed is
      overwritten by the staged descriptor). */
  lemma {:induction false} StagedReadsBack(m: map<string, DocDesc>, name: string, d: DocDesc, list: seq<DocDesc>)
    requires Keyed(m, DocName) && d.fileName == name && name != []
    requires forall x :: x in list ==> x in Staged(m, name, d).Values
    requires forall k :: k in Staged(m, name, d) ==> Staged(m, name, d)[k] in list
    ensures Collect(list, DocName) == (m - {[]})[name := d]
  {
    var st := Staged(m, name, d);
    var back := (m - {[]})[name := d];
    forall x | x in list ensures x in back.Values {
      var k :| k in st && st[k] == x;
      if k == [] || k == name {
        assert back[name] == x;
      } else {
        assert back[k] == x;
      }
    }
    forall k | k in back ensures back[k] in list {
      if k == name {
        assert st[[]] == d;
      } else {
        assert st[k] == back[k];
      }
    }
    CollectValues(back, DocName, list);
  }

  /** The commit step of doAdd once the images are rewritten: the working
      file holds `text`; unless the title cannot be read or the index already
      has the text's MD5, the old object is removed, the text stored under
      its MD5, and the post indexed with its title, `now` and the MD5. */
  function CommitDoc(s: LStore, name: string, text: string, title: Result<string>, now: string, hash: string -> string): LStore {
    var files := s.files[name := text];
    var md5 := hash(text);
    if title.Failure? || (name in s.idx && s.idx[name].md5 == md5) then s.(files := files)
    else
      var objects := if name in s.idx then s.objects - {s.idx[name].md5} else s.objects;
      LStore((s.idx - {[]})[name := DocDesc(title.value, name, now, md5)], objects[md5 := text], files)
  }

  /** doAdd of one file, with its size limit as a parameter: unless the
      name is invalid, the file is missing or longer than `limit`, or the
      rewriter fails, the images are rewritten and the result committed.
      Unlike the later client, the MD5 is compared after the rewrite. */
  function AddDocUnder(limit: nat, s: LStore, name: string, now: string, token: Option<string>,
                       upload: string -> Option<string>, download: string -> bool, hash: string -> string): LStore {
    if CheckFilePath(name).Failure? || name !in s.files || |s.files[name]| > limit then s
    else
      match Rewrite(Some(s.files[name]), token, upload, download)
      case Failure(_) => s
      case Success(written) =>
        var text := if written.Some? then written.value else s.files[name];
        CommitDoc(s, name, text, ParseTitle(text), now, hash)
  }

  /** doAdd as written, with the limit of main.go:422. It changes no other
      file and no other named entry. */
  function AddDoc(s: LStore, name: string, now: string, token: Option<string>, upload: string -> Option<string>,
                  download: string -> bool, hash: string -> string): (t: LStore)
    ensures forall n :: n in s.files && n != name ==> n in t.files && t.files[n] == s.files[n]
    ensures forall n :: n in s.idx && n != name && n != [] ==> n in t.idx && t.idx[n] == s.idx[n]
  {
    AddDocUnder(Post.MaxPostSizeAsWritten, s, name, now, token, upload, download, hash)
  }

  /** doAdd with the 2M limit its message describes. */
  function AddDocIntended(s: LStore, name: string, now: string, token: Option<string>, upload: string -> Option<string>,
                          download: string -> bool, hash: string -> string): LStore {
    AddDocUnder(Post.MaxPostSize, s, name, now, token, upload, download, hash)
  }

  /** Status: a file not in the index. */
  predicate IsNew(s: LStore, n: string) {
    n in s.files && !Ignored(n) && n !in s.idx
  }

  /** Status: a file whose MD5 differs from the committed one. */
  predicate IsChanged(s: LStore, hash: string -> string, n: string) {
    n in s.files && !Ignored(n) && n in s.idx && hash(s.files[n]) != s.idx[n].md5
  }

  /** Status: an indexed post whose file is gone. */
  predicate IsDeleted(s: LStore, n: string) {
    n in s.idx && s.idx[n].fileName !in s.files
  }

  /** A commit leaves the post clean and indexed with its title, stores its
      text under its MD5, and keeps every other named entry. */
  lemma CommitDocCommits(s: LStore, name: string, text: string, now: string, hash: string -> string)
    requires name != [] && ParseTitle(text).Success?
    requires !(name in s.idx && s.idx[name].md5 == hash(text))
    ensures var t := CommitDoc(s, name, text, ParseTitle(text), now, hash);
            t.idx[name] == DocDesc(ParseTitle(text).value, name, now, hash(text)) &&
            t.objects[hash(text)] == text && t.files[name] == text &&
            !IsNew(t, name) && !IsChanged(t, hash, name) &&
            (forall n :: n in s.idx && n != name && n != [] ==> n in t.idx && t.idx[n] == s.idx[n]) &&
            [] !in t.idx
  {
  }

  /** Once a text is committed, a second doAdd of the same text stops at "no
      change", whatever the time. */
  lemma CommitDocIdempotent(s: LStore, name: string, text: string, title: Result<string>, now: string, later: string,
                            hash: string -> string)
    requires title.Success?
    ensures var t := CommitDoc(s, name, text, title, now, hash);
            CommitDoc(t, name, text, title, later, hash) == t
  {
    var t := CommitDoc(s, name, text, title, now, hash);
    if name in s.idx && s.idx[name].md5 == hash(text) {
      assert t.idx == s.idx;
    } else {
      assert t.idx[name].md5 == hash(text);
    }
    assert t.files[name := text] == t.files;
  }

  /** doAdd stops with "no change" when the MD5 of the rewritten text equals
      the indexed one: the index and the object store stay as they were. */
  lemma AddDocSameContent(s: LStore, name: string, now: string, token: Option<string>,
                          upload: string -> Option<string>, download: string -> bool, hash: string -> string)
    requires CheckFilePath(name).Success? && name in s.files && |s.files[name]| <= Post.MaxPostSizeAsWritten
    requires Rewrite(Some(s.files[name]), token, upload, download).Success?
    requires name in s.idx
    requires var w := Rewrite(Some(s.files[name]), token, upload, download).value;
             hash(if w.Some? then w.value else s.files[name]) == s.idx[name].md5
    ensures AddDoc(s, name, now, token, upload, download, hash).idx == s.idx
    ensures AddDoc(s, name, now, token, upload, download, hash).objects == s.objects
  {
  }

  /** As written, a file between 2M and 2*1024*2014 bytes, with a title and
      no image references, is committed; the corrected doAdd leaves the
      directory as it was. */
  lemma LargeDocCommittedAsWritten(s: LStore, name: string, now: string, token: Option<string>,
                                   upload: string -> Option<string>, download: string -> bool, hash: string -> string)
    requires CheckFilePath(name).Success? && name in s.files && name !in s.idx
    requires Post.MaxPostSize < |s.files[name]| <= Post.MaxPostSizeAsWritten
    requires !Contains(s.files[name], "![") && ParseTitle(s.files[name]).Success?
    ensures AddDoc(s, name, now, token, upload, download, hash) == CommitDoc(s, name, s.files[name], ParseTitle(s.files[name]), now, hash)
    ensures AddDoc(s, name, now, token, upload, download, hash).idx[name] ==
            DocDesc(ParseTitle(s.files[name]).value, name, now, hash(s.files[name]))
    ensures AddDoc(s, name, now, token, upload, download, hash).objects[hash(s.files[name])] == s.files[name]
    ensures AddDocIntended(s, name, now, token, upload, download, hash) == s
  {
    var c := s.files[name];
    TargetsOfPlainText(c);
    assert Rewrite(Some(c), token, upload, download) == Success(None);
    assert AddDocUnder(Post.MaxPostSizeAsWritten, s, name, now, token, upload, download, hash) ==
           CommitDoc(s, name, c, ParseTitle(c), now, hash);
    OversizedDocNotCommitted(s, name, now, token, upload, download, hash);
  }

  /** The corrected doAdd never commits a file over 2M. */
  lemma OversizedDocNotCommitted(s: LStore, name: string, now: string, token: Option<string>,
                                 upload: string -> Option<string>, download: string -> bool, hash: string -> string)
    requires name in s.files && |s.files[name]| > Post.MaxPostSize
    ensures AddDocIntended(s, name, now, token, upload, download, hash) == s
  {
  }

  /** doAdd keeps repo/ content-addressed. */
  lemma CommitDocAddressed(s: LStore, name: string, text: string, title: Result<string>, now: string, hash: string -> string)
    requires Post.Addressed(s.objects, hash)
    ensures Post.Addressed(CommitDoc(s, name, text, title, now, hash).objects, hash)
  {
  }

  method DoAdd(w: WorkDir, name: string, now: string, token: Option<string>, upload: string -> Option<string>, download: string -> bool)
    modifies w
    ensures Read(old(w.index), DocName).Failure? ==>
              w.index == old(w.index) && w.objects == old(w.objects) && w.files == old(w.files)
    ensures Read(old(w.index), DocName).Success? ==>
              var t := AddDoc(LStore(Read(old(w.index), DocName).value, old(w.objects), old(w.files)), name, now, token, upload, download, w.hash);
              Read(w.index, DocName) == Success(t.idx) && w.objects == t.objects && w.files == t.files
  {
    var loaded := Load(w.index, DocName);
    if loaded.Failure? {
      return;
    }
    var m := loaded.value;
    if CheckFilePath(name).Failure? || name !in w.files {
      return;
    }
    if Post.TooLarge(w.files[name]) {
      return;
    }
    var rewritten, _ := ReplaceImg(Some(w.files[name]), token, upload, download);
    if rewritten.Failure? {
      return;
    }
    var text := if rewritten.value.Some? then rewritten.value.value else w.files[name];
    Commit(w, m, name, text, now);
  }

  /** The lookup loop of doAdd: the descriptor whose FileName is the name. */
  method Find(m: map<string, DocDesc>, name: string) returns (found: Option<DocDesc>)
    requires Keyed(m, DocName)
    ensures found.Some? <==> name in m
    ensures found.Some? ==> found.value == m[name] && found.value.fileName == name
  {
    found := None;
    var todo := m.Keys;
    while todo != {}
      invariant todo <= m.Keys
      invariant name in m && name !in todo ==> found == Some(m[name])
      invariant name !in m || name in todo ==> found == None
      decreases |todo|
    {
      var k :| k in todo;
      if m[k].fileName == name {
        found := Some(m[k]);
      }
      todo := todo - {k};
    }
  }

  /** The commit step of doAdd on the loaded index `m`. */
  method Commit(w: WorkDir, m: map<string, DocDesc>, name: string, text: string, now: string)
    requires Read(w.index, DocName) == Success(m) && name != []
    modifies w
    ensures var t := CommitDoc(LStore(m, old(w.objects), old(w.files)), name, text, ParseTitle(text), now, w.hash);
            Read(w.index, DocName) == Success(t.idx) && w.objects == t.objects && w.files == t.files
  {
    w.files := w.files[name := text];
    var fileMd5 := w.hash(text);
    var title := ParseTitle(text);
    if title.Failure? {
      return;
    }
    var repoArticle := Find(m, name);
    if repoArticle.Some? && repoArticle.value.md5 == fileMd5 {
      return;
    }
    StageAndWrite(w, m, name, DocDesc(title.value, name, now, fileMd5), text, repoArticle);
  }

  /** The end of doAdd: the old object goes, the text is stored under its
      MD5, and the staged map is written. */
  method StageAndWrite(w: WorkDir, m: map<string, DocDesc>, name: string, d: DocDesc, text: string, repoArticle: Option<DocDesc>)
    requires Keyed(m, DocName) && name != [] && d.fileName == name
    requires repoArticle.Some? <==> name in m
    requires repoArticle.Some? ==> repoArticle.value == m[name]
    modifies w
    ensures Read(w.index, DocName) == Success((m - {[]})[name := d])
    ensures w.objects == (if name in m then old(w.objects) - {m[name].md5} else old(w.objects))[d.md5 := text]
    ensures w.files == old(w.files)
  {
    var staged := m;
    if repoArticle.None? {
      staged := staged[[] := d];
    } else {
      w.objects := w.objects - {repoArticle.value.md5};
      staged := staged[name := d][[] := d];
    }
    w.objects := w.objects[d.md5 := text];
    w.index := WriteAlways(staged, DocName);
    StagedReadsBack(m, name, d, w.index.list);
  }

  // ---------------------------------------------------------------------
  // Checkout

  /** Checkout of one name: an indexed post whose object exists is copied
      back into the directory. */
  function CheckoutDoc(s: LStore, name: string): map<string, string> {
    if CheckFilePath(name).Failure? || name !in s.idx || s.idx[name].md5 !in s.objects then s.files
    else s.files[name := s.objects[s.idx[name].md5]]
  }

  /** In a content-addressed repo/, a checked-out post is clean. */
  lemma CheckoutClean(s: LStore, name: string, hash: string -> string)
    requires Keyed(s.idx, DocName) && Post.Addressed(s.objects, hash)
    requires CheckFilePath(name).Success? && name in s.idx && s.idx[name].md5 in s.objects
    ensures var t := s.(files := CheckoutDoc(s, name));
            !IsNew(t, name) && !IsChanged(t, hash, name) && !IsDeleted(t, name)
  {
  }

  /** Checkout: "." restores every indexed post; any other name is checked
      and restored alone. */
  method Checkout(w: WorkDir, name: string)
    modifies w
    ensures w.index == old(w.index) && w.objects == old(w.objects)
    ensures Read(w.index, DocName).Failure? ==> w.files == old(w.files)
    ensures Read(w.index, DocName).Success? && name != "." ==>
              w.files == CheckoutDoc(LStore(Read(w.index, DocName).value, w.objects, old(w.files)), name)
    ensures Read(w.index, DocName).Success? && name == "." ==>
              var m := Read(w.index, DocName).value;
              (forall n :: n in old(w.files) ==> n in w.files) &&
              (forall n :: n in w.files ==>
                 (n in old(w.files) && w.files[n] == old(w.files)[n]) ||
                 (n in m && m[n].md5 in w.objects && w.files[n] == w.objects[m[n].md5])) &&
              ((forall n :: n in m ==> m[n].md5 in w.objects) ==>
                 forall n :: n in m ==> n in w.files && w.files[n] == w.objects[m[n].md5])
  {
    var loaded := Load(w.index, DocName);
    if loaded.Failure? {
      return;
    }
    var m := loaded.value;
    if name == "." {
      CheckoutAll(w, m);
      return;
    }
    if CheckFilePath(name).Failure? {
      return;
    }
    var v := Find(m, name);
    if v.None? || v.value.md5 !in w.objects {
      return;
    }
    w.files := w.files[v.value.fileName := w.objects[v.value.md5]];
  }

  /** Checkout ".": every indexed post is copied back, in the map's order;
      the first one whose object is missing stops the command. */
  method CheckoutAll(w: WorkDir, m: map<string, DocDesc>)
    requires Keyed(m, DocName)
    modifies w
    ensures w.index == old(w.index) && w.objects == old(w.objects)
    ensures forall n :: n in old(w.files) ==> n in w.files
    ensures forall n :: n in w.files ==>
              (n in old(w.files) && w.files[n] == old(w.files)[n]) ||
              (n in m && m[n].md5 in w.objects && w.files[n] == w.objects[m[n].md5])
    ensures (forall n :: n in m ==> m[n].md5 in w.objects) ==>
              forall n :: n in m ==> n in w.files && w.files[n] == w.objects[m[n].md5]
  {
    var todo := m.Keys;
    while todo != {}
      invariant todo <= m.Keys
      invariant w.index == old(w.index) && w.objects == old(w.objects)
      invariant forall n :: n in old(w.files) ==> n in w.files
      invariant forall n :: n in w.files ==>
                  (n in old(w.files) && w.files[n] == old(w.files)[n]) ||
                  (n in m && m[n].md5 in w.objects && w.files[n] == w.objects[m[n].md5])
      invariant forall n :: n in m && n !in todo ==>
                  n in w.files && m[n].md5 in w.objects && w.files[n] == w.objects[m[n].md5]
      decreases |todo|
    {
      var n :| n in todo;
      var v := m[n];
      if v.md5 !in w.objects {
        return;
      }
      w.files := w.files[v.fileName := w.objects[v.md5]];
      todo := todo - {n};
    }
  }

  // ---------------------------------------------------------------------
  // Status

  /** Status: the new, changed and deleted posts of the directory. An
      unreadable index reports nothing. */
  method Status(w: WorkDir) returns (newFiles: set<string>, changed: set<string>, deleted: set<string>)
    ensures Read(w.index, DocName).Failure? ==> newFiles == {} && changed == {} && deleted == {}
    ensures Read(w.index, DocName).Success? ==>
              var s := LStore(Read(w.index, DocName).value, w.objects, w.files);
              (forall n :: n in newFiles <==> IsNew(s, n)) &&
              (forall n :: n in changed <==> IsChanged(s, w.hash, n)) &&
              (forall n :: n in deleted <==> IsDeleted(s, n))
  {
    newFiles, changed, deleted := {}, {}, {};
    var loaded := Load(w.index, DocName);
    if loaded.Failure? {
      return;
    }
    var m := loaded.value;
    ghost var s := LStore(m, w.objects, w.files);
    var names := w.files.Keys;
    while names != {}
      invariant names <= w.files.Keys
      invariant forall n :: n in newFiles <==> n !in names && IsNew(s, n)
      invariant forall n :: n in changed <==> n !in names && IsChanged(s, w.hash, n)
      decreases |names|
    {
      var n :| n in names;
      if !Ignored(n) {
        var v := Find(m, n);
        if v.None? {
          newFiles := newFiles + {n};
        } else if w.hash(w.files[n]) != v.value.md5 {
          changed := changed + {n};
        }
      }
      names := names - {n};
    }
    var entries := m.Keys;
    while entries != {}
      invariant entries <= m.Keys
      invariant forall n :: n in deleted <==> n !in entries && IsDeleted(s, n)
      decreases |entries|
    {
      var n :| n in entries;
      var v := m[n];
      if v.fileName !in w.files {
        deleted := deleted + {v.fileName};
      }
      entries := entries - {n};
    }
  }
}
