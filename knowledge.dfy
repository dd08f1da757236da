/** internal/doc/knowledge.go: knowledge points. Each has a working file
    ./knowledge/<k>.md committed into the shared object store and indexed in
    ./.repo/kindex; the server keeps every reviewed version, and Pull lays
    them out under ./knowledge/<k>/<version>/<k>.md next to a version file. */
module Knowledge {
  import opened Wrappers
  import opened GoStrings
  import opened IndexFile
  import opened Repo
  import Post

  /** What the knowledge commands read and change: the index as a map, the
      object store and the files under ./knowledge. */
  datatype KStore = KStore(idx: map<string, KnowledgeDesc>, objects: map<string, string>, files: map<KPath, string>)

  /** getKNLocalVersion: the content of knowledge/<k>/version, "" when the
      file is missing. */
  function LocalVersion(files: map<KPath, string>, k: string): string {
    if VersionFile(k) in files then files[VersionFile(k)] else ""
  }

  // ---------------------------------------------------------------------
  // KAdd

  /** KAdd once the working file holds its final text: a file whose MD5 is
      the recorded one is left alone; otherwise the previous object (when
      there is one) is removed, the descriptor takes the changelog, the MD5
      and `now`, and, when the copy into the store succeeds (`copied`), the
      object is stored and the index written. */
  function Record(s: KStore, k: string, changelog: string, now: string, hash: string -> string, copied: bool): KStore
    requires Current(k) in s.files
  {
    var text := s.files[Current(k)];
    var md5 := hash(text);
    if k in s.idx && s.idx[k].md5 == md5 then s
    else
      var objects := if k in s.idx && s.idx[k].md5 != "" then s.objects - {s.idx[k].md5} else s.objects;
      var d := (if k in s.idx then s.idx[k] else KnowledgeDesc(k, "", "", "")).(changelog := changelog, md5 := md5, updateTime := now);
      if copied then KStore(s.idx[d.kName := d], objects[md5 := text], s.files)
      else s.(objects := objects)
  }

  /** KAdd: nothing happens without a working file or when the image
      rewriting fails; otherwise the rewritten text (if any) is written back
      and recorded. */
  function AddK(s: KStore, k: string, changelog: string, now: string, token: Option<string>,
                upload: string -> Option<string>, hash: string -> string, copied: bool): KStore
  {
    if Current(k) !in s.files then s
    else
      match Post.Rewrite(Some(s.files[Current(k)]), token, upload)
      case Failure(_) => s
      case Success(written) =>
        var files := if written.Some? then s.files[Current(k) := written.value] else s.files;
        Record(s.(files := files), k, changelog, now, hash, copied)
  }

  /** A recorded change: the descriptor holds the changelog, `now` and the
      MD5 of the working file, whose text is in the store, so the point is
      clean; a previous object is gone, other points are untouched, and the
      same working file recorded again changes nothing. */
  lemma RecordCommits(s: KStore, k: string, changelog: string, now: string, hash: string -> string, later: string)
    requires Keyed(s.idx, KnowledgeName) && Current(k) in s.files
    requires !(k in s.idx && s.idx[k].md5 == hash(s.files[Current(k)]))
    ensures var t := Record(s, k, changelog, now, hash, true);
            k in t.idx && t.idx[k] == KnowledgeDesc(k, now, hash(s.files[Current(k)]), changelog) &&
            t.objects[t.idx[k].md5] == t.files[Current(k)] &&
            hash(t.files[Current(k)]) == t.idx[k].md5 &&
            (k in s.idx && s.idx[k].md5 != "" ==> s.idx[k].md5 !in t.objects) &&
            (forall n :: n != k ==> (n in t.idx <==> n in s.idx) && (n in s.idx ==> t.idx[n] == s.idx[n])) &&
            Record(t, k, changelog, later, hash, true) == t
  {
  }

  /** A failed copy leaves the index as it was; only the previous object
      is gone. */
  lemma RecordWithoutCopy(s: KStore, k: string, changelog: string, now: string, hash: string -> string)
    requires Current(k) in s.files
    ensures var t := Record(s, k, changelog, now, hash, false);
            t.idx == s.idx && t.files == s.files && t.objects.Keys <= s.objects.Keys
  {
  }

  /** The store stays content-addressed. */
  lemma AddKAddressed(s: KStore, k: string, changelog: string, now: string, token: Option<string>,
                      upload: string -> Option<string>, hash: string -> string, copied: bool)
    requires Post.Addressed(s.objects, hash)
    ensures Post.Addressed(AddK(s, k, changelog, now, token, upload, hash, copied).objects, hash)
  {
  }

  method KAdd(w: Workspace, k: string, changelog: string, now: string, token: Option<string>,
              upload: string -> Option<string>, copied: bool)
    modifies w
    ensures w.index == old(w.index) && w.posts == old(w.posts) && w.ignore == old(w.ignore)
    ensures Read(old(w.kindex), KnowledgeName).Failure? ==>
              w.kindex == old(w.kindex) && w.objects == old(w.objects) && w.knowledge == old(w.knowledge)
    ensures Read(old(w.kindex), KnowledgeName).Success? ==>
              var t := AddK(KStore(Read(old(w.kindex), KnowledgeName).value, old(w.objects), old(w.knowledge)),
                            k, changelog, now, token, upload, w.hash, copied);
              Read(w.kindex, KnowledgeName) == Success(t.idx) && w.objects == t.objects && w.knowledge == t.files
  {
    var loaded := Load(w.kindex, KnowledgeName);
    if loaded.Failure? {
      return;
    }
    var m := loaded.value;
    if Current(k) !in w.knowledge {
      return;
    }
    var rewritten, _ := Post.ReplaceImg(Some(w.knowledge[Current(k)]), token, upload);
    if rewritten.Failure? {
      return;
    }
    if rewritten.value.Some? {
      w.knowledge := w.knowledge[Current(k) := rewritten.value.value];
    }
    RecordK(w, m, k, changelog, now, copied);
  }

  /** The recording step of KAdd on the loaded index `m`. */
  method RecordK(w: Workspace, m: map<string, KnowledgeDesc>, k: string, changelog: string, now: string, copied: bool)
    requires Read(w.kindex, KnowledgeName) == Success(m) && Current(k) in w.knowledge
    modifies w
    ensures w.index == old(w.index) && w.posts == old(w.posts) && w.ignore == old(w.ignore)
    ensures w.knowledge == old(w.knowledge)
    ensures var t := Record(KStore(m, old(w.objects), old(w.knowledge)), k, changelog, now, w.hash, copied);
            Read(w.kindex, KnowledgeName) == Success(t.idx) && w.objects == t.objects
  {
    var m', objects := RecordEntry(m, w.objects, w.knowledge, k, changelog, now, w.hash, copied);
    w.objects := objects;
    if m' != m {
      w.kindex := Write(w.kindex, m', KnowledgeName);
    }
  }

  /** Record on values: the index and the store afterwards. */
  method RecordEntry(m: map<string, KnowledgeDesc>, objects0: map<string, string>, files: map<KPath, string>,
                     k: string, changelog: string, now: string, hash: string -> string, copied: bool)
    returns (m': map<string, KnowledgeDesc>, objects: map<string, string>)
    requires Keyed(m, KnowledgeName) && Current(k) in files
    ensures var t := Record(KStore(m, objects0, files), k, changelog, now, hash, copied);
            m' == t.idx && objects == t.objects
    ensures Keyed(m', KnowledgeName) && (m' != m ==> m' != map[])
  {
    m', objects := m, objects0;
    var text := files[Current(k)];
    var fileMd5 := hash(text);
    var d := KnowledgeDesc(k, "", "", "");
    if k in m {
      d := m[k];
      if d.md5 == fileMd5 {
        return;
      }
      if d.md5 != "" {
        objects := objects - {d.md5};
      }
    }
    d := d.(changelog := changelog, md5 := fileMd5, updateTime := now);
    if !copied {
      return;
    }
    objects := objects[fileMd5 := text];
    m' := m[d.kName := d];
  }

  // ---------------------------------------------------------------------
  // KPull

  /** One element of the server's version list; a missing or non-string
      field, or an element that is not an object, reads as "". */
  datatype VersionEntry = VersionEntry(version: string, content: string)

  /** The "kget" reply: the version list and now_version ("" when missing
      or not a string). */
  datatype KReply = KReply(list: seq<VersionEntry>, nowVersion: string)

  /** The version number a history file is written under. */
  function Ver(e: VersionEntry): int {
    Atoi(e.version)
  }

  /** maxV: the largest version number of the list, starting from 0. */
  function MaxVersion(list: seq<VersionEntry>): (v: int)
    ensures v >= 0
    ensures forall i :: 0 <= i < |list| ==> Ver(list[i]) <= v
    ensures v == 0 || exists i :: 0 <= i < |list| && Ver(list[i]) == v
  {
    if list == [] then 0
    else
      var init := list[..|list| - 1];
      var v := MaxVersion(init);
      assert forall i :: 0 <= i < |init| ==> list[i] == init[i];
      if Ver(list[|list| - 1]) > v then Ver(list[|list| - 1]) else v
  }

  /** The history files of knowledge point `k` after the list is written
      out, in order. Every listed version has its file and nothing else
      changes. */
  function WriteHistory(files: map<KPath, string>, k: string, list: seq<VersionEntry>): (h: map<KPath, string>)
    ensures forall i :: 0 <= i < |list| ==> History(k, Ver(list[i])) in h
    ensures forall p: KPath :: !(p.History? && p.k == k) ==> (p in h <==> p in files) && (p in files ==> h[p] == files[p])
    ensures forall p :: p in files ==> p in h
  {
    if list == [] then files
    else
      var init := list[..|list| - 1];
      var h := WriteHistory(files, k, init);
      assert forall i :: 0 <= i < |init| ==> list[i] == init[i];
      h[History(k, Ver(list[|list| - 1])) := list[|list| - 1].content]
  }

  /** A version's file holds the content of the last entry listing it. */
  lemma {:induction false} HistoryLast(files: map<KPath, string>, k: string, list: seq<VersionEntry>, i: nat)
    requires i < |list|
    requires forall j :: i < j < |list| ==> Ver(list[j]) != Ver(list[i])
    ensures WriteHistory(files, k, list)[History(k, Ver(list[i]))] == list[i].content
    decreases |list|
  {
    if i < |list| - 1 {
      var init := list[..|list| - 1];
      assert forall j :: i < j < |init| ==> init[j] == list[j];
      HistoryLast(files, k, init, i);
    }
  }

  /** Writing the list over any files is overriding them with the list's
      own history files. */
  lemma {:induction false} WriteHistoryOverrides(files: map<KPath, string>, k: string, list: seq<VersionEntry>)
    ensures WriteHistory(files, k, list) == files + WriteHistory(map[], k, list)
  {
    if list != [] {
      var init := list[..|list| - 1];
      WriteHistoryOverrides(files, k, init);
    }
  }

  /** Writing the same list twice gives what writing it once gives. */
  lemma WriteHistoryTwice(files: map<KPath, string>, k: string, list: seq<VersionEntry>)
    ensures WriteHistory(WriteHistory(files, k, list), k, list) == WriteHistory(files, k, list)
  {
    WriteHistoryOverrides(files, k, list);
    WriteHistoryOverrides(WriteHistory(files, k, list), k, list);
  }

  /** A file outside `k`'s history can be updated before or after the
      history is written. */
  lemma {:induction false} HistoryCommutes(files: map<KPath, string>, k: string, list: seq<VersionEntry>, p: KPath, x: string)
    requires !(p.History? && p.k == k)
    ensures WriteHistory(files[p := x], k, list) == WriteHistory(files, k, list)[p := x]
  {
    if list != [] {
      HistoryCommutes(files, k, list[..|list| - 1], p, x);
    }
  }

  /** KPull's effect on ./knowledge: with a usable reply, every listed
      version is written out; an existing working file is renamed to
      <k>-old.md and replaced by the server's current version only when that
      version is newer than the local one and its file exists; without a
      working file the highest version is copied in; finally the version
      file records now_version. */
  function PullFiles(files: map<KPath, string>, k: string, reply: Option<KReply>): map<KPath, string> {
    if reply.None? || reply.value.nowVersion == "" then files
    else
      var now := reply.value.nowVersion;
      var h := WriteHistory(files, k, reply.value.list);
      var nowV := Atoi(now);
      var maxV := MaxVersion(reply.value.list);
      var current :=
        if Current(k) in h then
          if nowV > Atoi(LocalVersion(h, k)) && History(k, nowV) in h
          then h[Old(k) := h[Current(k)]][Current(k) := h[History(k, nowV)]]
          else h
        else if History(k, maxV) in h then h[Current(k) := h[History(k, maxV)]]
        else h;
      current[VersionFile(k) := now]
  }

  /** Only the files of knowledge point `k` change, the version file then
      holds now_version, and an unusable reply changes nothing. */
  lemma PullScope(files: map<KPath, string>, k: string, reply: Option<KReply>)
    ensures reply.None? || reply.value.nowVersion == "" ==> PullFiles(files, k, reply) == files
    ensures reply.Some? && reply.value.nowVersion != "" ==>
              LocalVersion(PullFiles(files, k, reply), k) == reply.value.nowVersion
    ensures forall p: KPath :: p.k != k ==>
              (p in PullFiles(files, k, reply) <==> p in files) &&
              (p in files ==> PullFiles(files, k, reply)[p] == files[p])
  {
  }

  /** A working file is kept as it is, and <k>-old.md is not touched,
      unless the server's current version is newer than the local one. */
  lemma PullKeepsCurrent(files: map<KPath, string>, k: string, reply: KReply)
    requires reply.nowVersion != "" && Current(k) in files
    requires Atoi(reply.nowVersion) <= Atoi(LocalVersion(files, k))
    ensures var r := PullFiles(files, k, Some(reply));
            Current(k) in r && r[Current(k)] == files[Current(k)] &&
            (Old(k) in r <==> Old(k) in files) && (Old(k) in files ==> r[Old(k)] == files[Old(k)])
  {
  }

  /** The conflict rule: when the server's current version is newer and
      listed, the working file is set aside as <k>-old.md and replaced by
      that version's content. */
  lemma PullSetsAside(files: map<KPath, string>, k: string, reply: KReply, i: nat)
    requires reply.nowVersion != "" && Current(k) in files
    requires Atoi(reply.nowVersion) > Atoi(LocalVersion(files, k))
    requires i < |reply.list| && Ver(reply.list[i]) == Atoi(reply.nowVersion)
    requires forall j :: i < j < |reply.list| ==> Ver(reply.list[j]) != Ver(reply.list[i])
    ensures var r := PullFiles(files, k, Some(reply));
            r[Old(k)] == files[Current(k)] && r[Current(k)] == reply.list[i].content
  {
    HistoryLast(files, k, reply.list, i);
  }

  /** Without a working file, the highest listed version becomes it. */
  lemma PullFirstCopy(files: map<KPath, string>, k: string, reply: KReply, i: nat)
    requires reply.nowVersion != "" && Current(k) !in files
    requires i < |reply.list| && Ver(reply.list[i]) == MaxVersion(reply.list)
    requires forall j :: i < j < |reply.list| ==> Ver(reply.list[j]) != Ver(reply.list[i])
    ensures PullFiles(files, k, Some(reply))[Current(k)] == reply.list[i].content
  {
    HistoryLast(files, k, reply.list, i);
  }

  /** Updating a file outside `k`'s history keeps a tree whose history is
      already written out as it is under a second write. */
  lemma HistoryStaysWritten(h: map<KPath, string>, k: string, list: seq<VersionEntry>, p: KPath, x: string)
    requires WriteHistory(h, k, list) == h && !(p.History? && p.k == k)
    ensures WriteHistory(h[p := x], k, list) == h[p := x]
  {
    HistoryCommutes(h, k, list, p, x);
  }

  /** After a pull, writing the same list out again changes nothing. */
  lemma PulledHistoryWritten(files: map<KPath, string>, k: string, reply: KReply)
    requires reply.nowVersion != ""
    ensures WriteHistory(PullFiles(files, k, Some(reply)), k, reply.list) == PullFiles(files, k, Some(reply))
  {
    var list := reply.list;
    var now := reply.nowVersion;
    var h := WriteHistory(files, k, list);
    WriteHistoryTwice(files, k, list);
    var nowV := Atoi(now);
    var maxV := MaxVersion(list);
    if Current(k) in h {
      if nowV > Atoi(LocalVersion(h, k)) && History(k, nowV) in h {
        SwapWritten(h, k, list, nowV, now);
      } else {
        HistoryStaysWritten(h, k, list, VersionFile(k), now);
      }
    } else if History(k, maxV) in h {
      RestoreWritten(h, k, list, maxV, now);
    } else {
      HistoryStaysWritten(h, k, list, VersionFile(k), now);
    }
  }

  /** The working file set aside and replaced by history file `v`, and the
      version file written: the history stays written. */
  lemma SwapWritten(h: map<KPath, string>, k: string, list: seq<VersionEntry>, v: int, now: string)
    requires WriteHistory(h, k, list) == h && Current(k) in h && History(k, v) in h
    ensures var r := h[Old(k) := h[Current(k)]][Current(k) := h[History(k, v)]][VersionFile(k) := now];
            WriteHistory(r, k, list) == r
  {
    var a := h[Old(k) := h[Current(k)]];
    var b := a[Current(k) := h[History(k, v)]];
    HistoryStaysWritten(h, k, list, Old(k), h[Current(k)]);
    HistoryStaysWritten(a, k, list, Current(k), h[History(k, v)]);
    HistoryStaysWritten(b, k, list, VersionFile(k), now);
  }

  /** A missing working file restored from history file `v`, and the
      version file written: the history stays written. */
  lemma RestoreWritten(h: map<KPath, string>, k: string, list: seq<VersionEntry>, v: int, now: string)
    requires WriteHistory(h, k, list) == h && History(k, v) in h
    ensures var r := h[Current(k) := h[History(k, v)]][VersionFile(k) := now];
            WriteHistory(r, k, list) == r
  {
    var b := h[Current(k) := h[History(k, v)]];
    HistoryStaysWritten(h, k, list, Current(k), h[History(k, v)]);
    HistoryStaysWritten(b, k, list, VersionFile(k), now);
  }

  /** Pulling the same reply twice changes nothing the second time: the
      version file already records the server's version, so the working
      file is not set aside again. */
  lemma PullTwice(files: map<KPath, string>, k: string, reply: Option<KReply>)
    ensures PullFiles(PullFiles(files, k, reply), k, reply) == PullFiles(files, k, reply)
  {
    if reply.Some? && reply.value.nowVersion != "" {
      var r := PullFiles(files, k, reply);
      PulledHistoryWritten(files, k, reply.value);
      PullScope(files, k, reply);
      assert r[VersionFile(k)] == reply.value.nowVersion;
    }
  }

  /** KPull: `reply` is the "kget" answer, None when the call fails, its
      data is not an object or its list is not a list. */
  method KPull(w: Workspace, k: string, reply: Option<KReply>)
    modifies w
    ensures w.index == old(w.index) && w.kindex == old(w.kindex) && w.objects == old(w.objects)
    ensures w.posts == old(w.posts) && w.ignore == old(w.ignore)
    ensures w.knowledge == PullFiles(old(w.knowledge), k, reply)
  {
    if reply.None? || reply.value.nowVersion == "" {
      return;
    }
    var list := reply.value.list;
    var nowVersion := reply.value.nowVersion;
    var maxV := WriteVersions(w, k, list);
    if Current(k) in w.knowledge {
      var localV := Atoi(LocalVersion(w.knowledge, k));
      var nowV := Atoi(nowVersion);
      if nowV > localV {
        if History(k, nowV) in w.knowledge {
          w.knowledge := w.knowledge[Old(k) := w.knowledge[Current(k)]];
          w.knowledge := w.knowledge[Current(k) := w.knowledge[History(k, nowV)]];
        }
      }
    } else if History(k, maxV) in w.knowledge {
      w.knowledge := w.knowledge[Current(k) := w.knowledge[History(k, maxV)]];
    }
    w.knowledge := w.knowledge[VersionFile(k) := nowVersion];
  }

  /** KPull's loop over the version list: each version's content goes to
      its history file, and the largest version number is kept. */
  method WriteVersions(w: Workspace, k: string, list: seq<VersionEntry>) returns (maxV: int)
    modifies w
    ensures w.index == old(w.index) && w.kindex == old(w.kindex) && w.objects == old(w.objects)
    ensures w.posts == old(w.posts) && w.ignore == old(w.ignore)
    ensures w.knowledge == WriteHistory(old(w.knowledge), k, list)
    ensures maxV == MaxVersion(list)
  {
    maxV := 0;
    var i := 0;
    while i < |list|
      invariant 0 <= i <= |list|
      invariant w.knowledge == WriteHistory(old(w.knowledge), k, list[..i])
      invariant maxV == MaxVersion(list[..i])
      invariant w.index == old(w.index) && w.kindex == old(w.kindex) && w.objects == old(w.objects)
      invariant w.posts == old(w.posts) && w.ignore == old(w.ignore)
    {
      assert list[..i + 1][..i] == list[..i];
      var v := Atoi(list[i].version);
      if v > maxV {
        maxV := v;
      }
      w.knowledge := w.knowledge[History(k, v) := list[i].content];
      i := i + 1;
    }
    assert list[..i] == list;
  }

  // ---------------------------------------------------------------------
  // KPush

  /** The "kadd" form: changelog, local version, name and committed
      content. */
  datatype KForm = KForm(changelog: string, version: string, kName: string, content: string)

  /** The form KPush sends, or None when it gives up first: no descriptor,
      no object for it, or no local version. */
  function PushForm(idx: map<string, KnowledgeDesc>, objects: map<string, string>, files: map<KPath, string>, k: string): Option<KForm> {
    if k !in idx || idx[k].md5 !in objects then None
    else
      var d := idx[k];
      var v := LocalVersion(files, d.kName);
      if v == "" then None else Some(KForm(d.changelog, v, d.kName, objects[d.md5]))
  }

  /** After KAdd and a Pull that set the version, KPush sends the text just
      committed, with its changelog and the version it was based on. */
  lemma PushAfterRecord(s: KStore, k: string, changelog: string, now: string, hash: string -> string)
    requires Keyed(s.idx, KnowledgeName) && Current(k) in s.files && LocalVersion(s.files, k) != ""
    requires !(k in s.idx && s.idx[k].md5 == hash(s.files[Current(k)]))
    ensures var t := Record(s, k, changelog, now, hash, true);
            PushForm(t.idx, t.objects, t.files, k) == Some(KForm(changelog, LocalVersion(s.files, k), k, s.files[Current(k)]))
  {
  }

  /** A knowledge point never pulled has no local version and is not
      pushed. */
  lemma PushNeedsVersion(idx: map<string, KnowledgeDesc>, objects: map<string, string>, files: map<KPath, string>, k: string)
    requires Keyed(idx, KnowledgeName) && VersionFile(k) !in files
    ensures PushForm(idx, objects, files, k).None?
  {
  }

  /** KPush: `rejected` is ClientCall's error message (None on success).
      A rejection mentioning "i1069" (the local version is stale) pulls the
      point with `pullReply` and stops. */
  method KPush(w: Workspace, k: string, rejected: Option<string>, pullReply: Option<KReply>) returns (sent: Option<KForm>)
    modifies w
    ensures w.index == old(w.index) && w.kindex == old(w.kindex) && w.objects == old(w.objects)
    ensures w.posts == old(w.posts) && w.ignore == old(w.ignore)
    ensures Read(w.kindex, KnowledgeName).Failure? ==> sent.None?
    ensures Read(w.kindex, KnowledgeName).Success? ==>
              sent == PushForm(Read(w.kindex, KnowledgeName).value, w.objects, old(w.knowledge), k)
    ensures w.knowledge == if sent.Some? && rejected.Some? && Contains(rejected.value, "i1069")
                           then PullFiles(old(w.knowledge), k, pullReply) else old(w.knowledge)
  {
    var loaded := Load(w.kindex, KnowledgeName);
    if loaded.Failure? {
      return None;
    }
    var m := loaded.value;
    if k !in m {
      return None;
    }
    var d := m[k];
    if d.md5 !in w.objects {
      return None;
    }
    var localV := LocalVersion(w.knowledge, d.kName);
    if localV == "" {
      return None;
    }
    sent := Some(KForm(d.changelog, localV, d.kName, w.objects[d.md5]));
    if rejected.Some? && Contains(rejected.value, "i1069") {
      KPull(w, k, pullReply);
    }
  }

  // ---------------------------------------------------------------------
  // StatusKn

  /** The knowledge name of a file of ./knowledge: the name up to its first
      '.'. */
  function KNameOf(n: string): string {
    var i := IndexChar(n, '.');
    if i >= 0 then n[..i] else n
  }

  lemma KNameOfMarkdown(k: string)
    requires '.' !in k
    ensures KNameOf(k + ".md") == k
  {
    var n := k + ".md";
    assert n[|k|] == '.';
    assert forall j :: 0 <= j < |k| ==> n[j] == k[j];
    assert n[..|k|] == k;
  }

  /** A listed file StatusKn looks at: not ignored, and ".md" in its name. */
  predicate Considered(ignore: string, n: string) {
    !Post.InIgnoreList(ignore, n) && Contains(n, ".md")
  }

  /** The new knowledge names StatusKn reports for the regular files of
      ./knowledge, given in ReadDir's order as (name, content). */
  function NewK(idx: map<string, KnowledgeDesc>, ignore: string, listing: seq<(string, string)>): set<string> {
    if listing == [] then {}
    else
      var n := listing[|listing| - 1].0;
      NewK(idx, ignore, listing[..|listing| - 1]) +
      (if Considered(ignore, n) && KNameOf(n) !in idx then {KNameOf(n)} else {})
  }

  /** The changed knowledge points StatusKn reports. */
  function ChangedK(idx: map<string, KnowledgeDesc>, ignore: string, hash: string -> string, listing: seq<(string, string)>): set<string> {
    if listing == [] then {}
    else
      var e := listing[|listing| - 1];
      ChangedK(idx, ignore, hash, listing[..|listing| - 1]) +
      (if Considered(ignore, e.0) && KNameOf(e.0) in idx && hash(e.1) != idx[KNameOf(e.0)].md5
       then {idx[KNameOf(e.0)].kName} else {})
  }

  /** A considered file whose name the index does not know is reported new. */
  lemma {:induction false} NewKComplete(idx: map<string, KnowledgeDesc>, ignore: string, listing: seq<(string, string)>, i: nat)
    requires i < |listing| && Considered(ignore, listing[i].0) && KNameOf(listing[i].0) !in idx
    ensures KNameOf(listing[i].0) in NewK(idx, ignore, listing)
  {
    if i < |listing| - 1 {
      var init := listing[..|listing| - 1];
      assert init[i] == listing[i];
      NewKComplete(idx, ignore, init, i);
    }
  }

  /** Every name reported new is the name of a considered file the index
      does not know. */
  lemma {:induction false} NewKSound(idx: map<string, KnowledgeDesc>, ignore: string, listing: seq<(string, string)>, k: string)
    requires k in NewK(idx, ignore, listing)
    ensures k !in idx && exists i :: 0 <= i < |listing| && Considered(ignore, listing[i].0) && KNameOf(listing[i].0) == k
  {
    var init := listing[..|listing| - 1];
    if k in NewK(idx, ignore, init) {
      NewKSound(idx, ignore, init, k);
      var i :| 0 <= i < |init| && Considered(ignore, init[i].0) && KNameOf(init[i].0) == k;
      assert listing[i] == init[i];
    } else {
      assert KNameOf(listing[|listing| - 1].0) == k;
    }
  }

  /** A considered file of an indexed point with another digest reports
      that point changed. */
  lemma {:induction false} ChangedKComplete(idx: map<string, KnowledgeDesc>, ignore: string, hash: string -> string,
                                            listing: seq<(string, string)>, i: nat)
    requires i < |listing| && Considered(ignore, listing[i].0) && KNameOf(listing[i].0) in idx
    requires hash(listing[i].1) != idx[KNameOf(listing[i].0)].md5
    ensures idx[KNameOf(listing[i].0)].kName in ChangedK(idx, ignore, hash, listing)
  {
    if i < |listing| - 1 {
      var init := listing[..|listing| - 1];
      assert init[i] == listing[i];
      ChangedKComplete(idx, ignore, hash, init, i);
    }
  }

  /** Every point reported changed has a considered file whose digest is
      not the recorded one. */
  lemma {:induction false} ChangedKSound(idx: map<string, KnowledgeDesc>, ignore: string, hash: string -> string,
                                         listing: seq<(string, string)>, k: string)
    requires Keyed(idx, KnowledgeName) && k in ChangedK(idx, ignore, hash, listing)
    ensures k in idx && exists i :: 0 <= i < |listing| && Considered(ignore, listing[i].0) &&
                                    KNameOf(listing[i].0) == k && hash(listing[i].1) != idx[k].md5
  {
    var init := listing[..|listing| - 1];
    if k in ChangedK(idx, ignore, hash, init) {
      ChangedKSound(idx, ignore, hash, init, k);
      var i :| 0 <= i < |init| && Considered(ignore, init[i].0) && KNameOf(init[i].0) == k && hash(init[i].1) != idx[k].md5;
      assert listing[i] == init[i];
    } else {
      assert KNameOf(listing[|listing| - 1].0) == k;
    }
  }

  /** StatusKn: the new and the changed knowledge points. An unreadable
      index reports nothing. */
  method StatusKn(w: Workspace, listing: seq<(string, string)>) returns (newPoints: set<string>, changed: set<string>)
    ensures Read(w.kindex, KnowledgeName).Failure? ==> newPoints == {} && changed == {}
    ensures Read(w.kindex, KnowledgeName).Success? ==>
              newPoints == NewK(Read(w.kindex, KnowledgeName).value, w.ignore, listing) &&
              changed == ChangedK(Read(w.kindex, KnowledgeName).value, w.ignore, w.hash, listing)
  {
    newPoints, changed := {}, {};
    var loaded := Load(w.kindex, KnowledgeName);
    if loaded.Failure? {
      return;
    }
    newPoints, changed := ScanK(loaded.value, w.ignore, w.hash, listing);
  }

  /** The loop of StatusKn over the listing of ./knowledge. */
  method ScanK(m: map<string, KnowledgeDesc>, ignore: string, hash: string -> string, listing: seq<(string, string)>)
    returns (newPoints: set<string>, changed: set<string>)
    ensures newPoints == NewK(m, ignore, listing)
    ensures changed == ChangedK(m, ignore, hash, listing)
  {
    newPoints, changed := {}, {};
    var i := 0;
    while i < |listing|
      invariant 0 <= i <= |listing|
      invariant newPoints == NewK(m, ignore, listing[..i])
      invariant changed == ChangedK(m, ignore, hash, listing[..i])
    {
      assert listing[..i + 1][..i] == listing[..i];
      var n := listing[i].0;
      if !Post.InIgnoreList(ignore, n) && Contains(n, ".md") {
        var kName := KNameOf(n);
        if kName !in m {
          newPoints := newPoints + {kName};
        } else if hash(listing[i].1) != m[kName].md5 {
          changed := changed + {m[kName].kName};
        }
      }
      i := i + 1;
    }
    assert listing[..i] == listing;
  }

  // ---------------------------------------------------------------------
  // CheckoutKN

  /** CheckoutKN of one name: the committed object is copied over the
      working file, when both the descriptor and the object exist. */
  function CheckoutOne(idx: map<string, KnowledgeDesc>, objects: map<string, string>, files: map<KPath, string>, k: string): map<KPath, string> {
    if k !in idx || idx[k].md5 !in objects then files
    else files[Current(idx[k].kName) := objects[idx[k].md5]]
  }

  /** In a content-addressed store a checked-out point is clean: its working
      file, listed as <k>.md, is not reported changed. */
  lemma CheckoutOneClean(idx: map<string, KnowledgeDesc>, objects: map<string, string>, files: map<KPath, string>,
                         k: string, hash: string -> string, ignore: string)
    requires Keyed(idx, KnowledgeName) && Post.Addressed(objects, hash)
    requires k in idx && idx[k].md5 in objects && '.' !in k
    ensures var f := CheckoutOne(idx, objects, files, k);
            Current(k) in f &&
            k !in ChangedK(idx, ignore, hash, [(k + ".md", f[Current(k)])])
  {
    KNameOfMarkdown(k);
    var listing := [(k + ".md", CheckoutOne(idx, objects, files, k)[Current(k)])];
    if k in ChangedK(idx, ignore, hash, listing) {
      ChangedKSound(idx, ignore, hash, listing, k);
    }
  }

  /** CheckoutKN: "." copies every indexed point back, in the map's order,
      stopping at the first missing object; any other name copies that
      point back. */
  method CheckoutKN(w: Workspace, k: string)
    modifies w
    ensures w.index == old(w.index) && w.kindex == old(w.kindex) && w.objects == old(w.objects)
    ensures w.posts == old(w.posts) && w.ignore == old(w.ignore)
    ensures Read(w.kindex, KnowledgeName).Failure? ==> w.knowledge == old(w.knowledge)
    ensures Read(w.kindex, KnowledgeName).Success? && k != "." ==>
              w.knowledge == CheckoutOne(Read(w.kindex, KnowledgeName).value, w.objects, old(w.knowledge), k)
    ensures Read(w.kindex, KnowledgeName).Success? && k == "." ==>
              var m := Read(w.kindex, KnowledgeName).value;
              (forall p :: p in old(w.knowledge) ==> p in w.knowledge) &&
              (forall p :: p in w.knowledge ==>
                 (p in old(w.knowledge) && w.knowledge[p] == old(w.knowledge)[p]) ||
                 (p.Current? && p.k in m && m[p.k].md5 in w.objects && w.knowledge[p] == w.objects[m[p.k].md5])) &&
              ((forall n :: n in m ==> m[n].md5 in w.objects) ==>
                 forall n :: n in m ==> Current(n) in w.knowledge && w.knowledge[Current(n)] == w.objects[m[n].md5])
  {
    var loaded := Load(w.kindex, KnowledgeName);
    if loaded.Failure? {
      return;
    }
    var m := loaded.value;
    if k != "." {
      if k !in m || m[k].md5 !in w.objects {
        return;
      }
      var v := m[k];
      w.knowledge := w.knowledge[Current(v.kName) := w.objects[v.md5]];
      return;
    }
    CheckoutAllK(w, m);
  }

  /** CheckoutKN ".": the loop over the loaded index `m`. */
  method CheckoutAllK(w: Workspace, m: map<string, KnowledgeDesc>)
    requires Keyed(m, KnowledgeName)
    modifies w
    ensures w.index == old(w.index) && w.kindex == old(w.kindex) && w.objects == old(w.objects)
    ensures w.posts == old(w.posts) && w.ignore == old(w.ignore)
    ensures forall p :: p in old(w.knowledge) ==> p in w.knowledge
    ensures forall p :: p in w.knowledge ==>
              (p in old(w.knowledge) && w.knowledge[p] == old(w.knowledge)[p]) ||
              (p.Current? && p.k in m && m[p.k].md5 in w.objects && w.knowledge[p] == w.objects[m[p.k].md5])
    ensures (forall n :: n in m ==> m[n].md5 in w.objects) ==>
              forall n :: n in m ==> Current(n) in w.knowledge && w.knowledge[Current(n)] == w.objects[m[n].md5]
  {
    w.knowledge := RestoreAllK(m, w.objects, w.knowledge);
  }

  /** The loop of CheckoutKN "." on values: the working files after
      restoring every point of `m` from `objects` over `files0`, stopping at
      the first missing object. */
  method RestoreAllK(m: map<string, KnowledgeDesc>, objects: map<string, string>, files0: map<KPath, string>)
    returns (files: map<KPath, string>)
    requires Keyed(m, KnowledgeName)
    ensures forall p :: p in files0 ==> p in files
    ensures forall p :: p in files ==>
              (p in files0 && files[p] == files0[p]) ||
              (p.Current? && p.k in m && m[p.k].md5 in objects && files[p] == objects[m[p.k].md5])
    ensures (forall n :: n in m ==> m[n].md5 in objects) ==>
              forall n :: n in m ==> Current(n) in files && files[Current(n)] == objects[m[n].md5]
  {
    files := files0;
    var todo := m.Keys;
    while todo != {}
      invariant todo <= m.Keys
      invariant forall p :: p in files0 ==> p in files
      invariant forall p :: p in files ==>
                  (p in files0 && files[p] == files0[p]) ||
                  (p.Current? && p.k in m && m[p.k].md5 in objects && files[p] == objects[m[p.k].md5])
      invariant forall n :: n in m && n !in todo ==>
                  Current(n) in files && m[n].md5 in objects && files[Current(n)] == objects[m[n].md5]
      decreases |todo|
    {
      var n :| n in todo;
      var v := m[n];
      if v.md5 !in objects {
        return;
      }
      files := files[Current(v.kName) := objects[v.md5]];
      todo := todo - {n};
    }
  }
}
