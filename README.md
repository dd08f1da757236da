# z_tools `doc` client: a Dafny model of its synchronisation core

`doc` is a command-line client for a blog server. A user writes Markdown
posts under `./posts` and "knowledge points" under `./knowledge`. The client
works like a small version-control tool:

- `add` commits a working file into a content-addressed object store
  (`./.repo/objects/<md5>`) and records a descriptor in a JSON index
  (`./.repo/index` for posts, `./.repo/kindex` for knowledge points).
- `rm` turns a post's descriptor into a tombstone (status `-2`).
- `checkout` and `status` compare the working directory, the index and the
  store.
- `pull` and `push` reconcile the index with the server's list, name by
  name, using a strict timestamp comparison.
- Before a commit, every `![..](..)` image link in the document is uploaded
  to an image store and replaced by a permanent URL.
- `main.go` is an older client of the same engine. It has no tombstones, it
  keeps a title in the descriptor, and it works on the files of the
  current directory.

The model keeps the engine's decisions and its effect on the index, the
object store and the working files:

- MD5, the clock, the random key draws, and every server or image-store
  reply are parameters.
- Each command is a method on the `Workspace` object (`WorkDir` for
  `main.go`). It is proved equal to a function over plain values.
- The properties the program relies on are lemmas about those functions.

Modules:

| module | file | models |
|---|---|---|
| `Wrappers` | wrappers.dfy | `Option` and `Result` |
| `GoStrings` | gostrings.dfy | the Go `strings`/`strconv`/`bufio` behaviour the core uses (ASCII only) |
| `Timestamp` | timestamp.dfy | the layout `2006-01-02 15:04:05`, its parser and the seconds order |
| `Tool` | tool.dfy | `pkg/tool.go` |
| `IndexFile` | indexfile.dfy | ReadIndex / WriteIndex over a list of records, for both indexes and both clients |
| `ImageRefs` | imagerefs.dfy | the `![..](..)` scanner and the upload-and-replace loop shared by the three `replaceImg` variants |
| `Doc` | doc.dfy | `Doc.replaceImg`, `readImgPath` and the version check of `getRemoteVersion` |
| `Repo` | repo.dfy | descriptors, knowledge paths, and the `Workspace` object |
| `Post` | post.dfy | `internal/doc/post.go` |
| `Knowledge` | knowledge.dfy | `internal/doc/knowledge.go` |
| `Legacy` | legacy.dfy | `main.go` |

Behaviour of the code that a reader may not expect, and that the model follows:

- Pull ties: on equal update times with different content, Pull adopts the
  server's descriptor (post.go:227). The local side does not win ties.
- doAdd and status: doAdd keeps an existing descriptor's status. A
  tombstoned post that is added again stays a tombstone. doAdd does not
  reset the status to active.
- doAdd and the old object: doAdd removes the old object before it copies
  the new one (post.go:480, 487). On the model's maps the final store is the
  same either way.
- Blanks in names: checkFilePath rejects the blank ' ' only, not other
  white space (post.go:581).
- Missing objects: an active descriptor can name an object that is not in
  the store. Pull adopts the descriptor before the fetch (post.go:232), and
  doAdd writes the index even when the copy fails (post.go:487-492). The
  model does not claim that every active descriptor has its object.
- Size limit and image paths: doAdd refuses only files over `2*1024*2014`
  bytes, not over 2 MiB. The image path check of post.go:659 turns away only
  `..\img\` targets. The model's doAdd and replaceImg do the same; the
  corrected versions are separate members (see Findings).

## Model

| member | source | states |
|---|---|---|
| Tool.StripQuery | pkg/tool.go:121-124 | a name holding '?' is cut just before its last '?' (the character at the cut is '?' and none follows it); a name without '?' is kept whole |
| Tool.GetExtShape | pkg/tool.go:120-131 | the extension is empty exactly when no '.' is left after the query is cut; otherwise it starts with '.', holds no other '.', and has no upper-case letter |
| Tool.GetExtOfSuffix | pkg/tool.go:120-131 | a name without '?' that ends in ".xyz" has extension ToLower(".xyz") |
| Tool.GetExtOfLowerSuffix | pkg/tool.go:120-131 | a name without '?' that ends in a lower-case ".xyz" has exactly that extension |
| Tool.GetExtIgnoresQuery | pkg/tool.go:121-124 | a "?query" suffix does not change the extension |
| Tool.TimeCompareStrict | pkg/tool.go:139-143 | TimeCompare is irreflexive, asymmetric and transitive, so two timestamps are never each later than the other |
| Tool.TimeCompareFormatted | pkg/tool.go:139-143 | on timestamps in the program's own layout, TimeCompare is the calendar order, year first |
| Tool.TimeCompareUnparsable | pkg/tool.go:140-142 | an unparsable timestamp counts as the zero time, so it is never later than a real one |
| Tool.VersionCompare | pkg/tool.go:218-229 | the loop returns true exactly when some part of v1 is numerically greater than the same part of v2 (non-numbers count 0); it returns None where v2 runs out of parts first (the index panic), and false otherwise |
| Tool.VersionNotLexicographic | pkg/tool.go:221-227 | "1.0.5" counts as newer than "2.0.0" |
| Tool.VersionIrreflexive | pkg/tool.go:218-229 | a version is never newer than itself, and comparing it with itself never panics |
| Tool.GetRandomString | pkg/tool.go:86-95 | exactly n characters, character i being the alphabet letter of draw i, all in 0-9a-z |
| Tool.GetKey | pkg/tool.go:134-136 | three key characters, the decimal Unix time (which parses back to `now`), three key characters |
| Tool.PostCall | pkg/tool.go:166-182 | success exactly for an envelope whose response_status is "success", and then the result is its data |
| Tool.ClientCall | pkg/tool.go:153-164 | one to three attempts; the result is the last attempt's reply and every earlier attempt failed; a failure is returned only after the third attempt |
| Timestamp.Parse | pkg/tool.go:140-141 | a timestamp that parses is a valid calendar time |
| Timestamp.TimeOf | pkg/tool.go:140-141 | the parse error is dropped: an unparsable string is the zero time |
| Timestamp.SecondsOrder | pkg/tool.go:142 | comparing Unix seconds is the field-by-field calendar order, and equal seconds mean equal times |
| Timestamp.ParseFormat | internal/doc/post.go:395 | a time written with time.Now().Format("2006-01-02 15:04:05") parses back to itself |
| GoStrings.Index | internal/doc/post.go:316 | strings.Index: the first position where the substring occurs, or -1 when it does not occur |
| GoStrings.TrimSpace | internal/doc/post.go:712 | the result is a slice of the input with only white space before and after it; it is empty exactly when the input is all white space, and otherwise starts and ends with a non-space |
| GoStrings.ToLower | pkg/tool.go:128 | same length, letter by letter lower case, and no upper-case letter left |
| GoStrings.JoinSplit | internal/doc/post.go:597 | joining the lines strings.Split returns gives back the original text |
| GoStrings.SplitJoin | pkg/tool.go:219-220 | splitting the dot-join of parts without dots gives back the parts |
| GoStrings.ReplaceFirst | internal/doc/doc.go:400-401 | when the pattern occurs, the result is the input with its first occurrence (none starts earlier) replaced; an absent pattern changes nothing |
| GoStrings.ReplaceAbsent | internal/doc/doc.go:362 | strings.Replace with n = -1 and a pattern that does not occur changes nothing |
| GoStrings.ReadLine | internal/doc/post.go:689-690 | bufio ReadLine: no line (io.EOF) exactly at the end of the text, and a line never holds a newline |
| GoStrings.ParseItoa | pkg/tool.go:135 | a decimal written with strconv.FormatInt parses back to the same number |
| IndexFile.Collect | internal/doc/post.go:69-71 | every key of the map read from the records holds a listed record with that name |
| IndexFile.CollectKeys | internal/doc/post.go:69-71 | every listed record's name is a key |
| IndexFile.CollectLast | internal/doc/post.go:69-71 | among records with the same name the last one wins |
| IndexFile.Read | internal/doc/post.go:55-73 | a missing or empty index file reads as the empty map; reading fails exactly when the file is not a list of records |
| IndexFile.Load | internal/doc/knowledge.go:26-44 | the loop builds exactly the map Read describes |
| IndexFile.Values | internal/doc/post.go:35-38 | the list holds exactly the map's descriptors, one per key |
| IndexFile.CollectValues | internal/doc/post.go:34-73 | reading back the list written from a map keyed by name gives the same map |
| IndexFile.Write | internal/doc/post.go:34-52 | an empty map leaves the file as it was; any other map is written so that it reads back unchanged |
| IndexFile.WriteAlways | main.go:179-194 | main.go's WriteIndex writes even an empty map, as the list of the map's descriptors |
| ImageRefs.Targets | internal/doc/post.go:631-632 | each captured link target is free of ')' and newline, as the lazy `(.*?)` of the pattern captures |
| ImageRefs.TargetsOfPlainText | internal/doc/doc.go:325-329 | a text without "![" has no targets |
| ImageRefs.TargetsOfOneImage | internal/doc/doc.go:325-326 | a document that is a single reference `![alt](t)`, with no ']' or newline in alt and no ')' or newline in t, yields exactly the target t |
| ImageRefs.RewrittenIsPermanent | internal/doc/doc.go:350-361 | every URL a rewriter writes contains its image domain, so a later run leaves it alone |
| ImageRefs.UploadsEligible | internal/doc/doc.go:338-358 | every upload is the source path of an eligible target of the document |
| ImageRefs.UnchangedText | internal/doc/doc.go:354-363 | when no upload succeeds the text is unchanged |
| Doc.ReplaceImg | internal/doc/doc.go:315-373 | an unreadable file fails; an empty file or one without links succeeds and requests no token; a missing token fails and uploads nothing; otherwise every eligible target is uploaded in order and the file is written back exactly when some upload succeeded |
| Doc.UnwrittenLosesNothing | internal/doc/doc.go:366-371 | when the file is not written back the rewrite would not have changed it |
| Doc.DocUploads | internal/doc/doc.go:343-358 | only supported images not already on jiaoliuqu.com or xiaoy.name are uploaded |
| Doc.ReadImgPath | internal/doc/doc.go:376-407 | the keys of the permanent links, in order of appearance, with the domain stripped; nothing for a missing or empty file |
| Doc.KeptFromPermanent | internal/doc/doc.go:398-403 | every returned key comes from a link on a permanent domain |
| Doc.ReadBackKey | internal/doc/doc.go:399-402 | the key in a URL written by Doc.replaceImg is read back exactly |
| Doc.CheckVersion | internal/doc/doc.go:171-180 | a version is accepted exactly when it is non-empty and splits into three dot-separated parts, and is returned unchanged |
| Doc.CheckJoined | internal/doc/doc.go:176-180 | any "a.b.c" with a non-empty first part and no dots inside the parts is accepted |
| Doc.AcceptedVersionComparable | internal/doc/doc.go:195 | comparing an accepted version with the client's own version never panics |
| Repo.Workspace.constructor | internal/doc/doc.go:26-34 | a fresh tree: no index files, empty store and working directories |
| Post.CheckFilePath | internal/doc/post.go:580-591 | a name is accepted exactly when it has no blank, no '/' or '\' and the extension ".md" |
| Post.NormalizeName | internal/doc/post.go:316-320 | NewDoc's file name always ends in ".md" |
| Post.MarkdownNameAccepted | internal/doc/post.go:580-591 | any base without blank, slash or '?' followed by ".md" is accepted |
| Post.NormalizedNameAccepted | internal/doc/post.go:316-322 | the name NewDoc derives from a name without blank, slash or '?' passes checkFilePath |
| Post.ParseHeader | internal/doc/post.go:683-734 | a header that parses yields a non-empty trimmed title and category |
| Post.FieldOf | internal/doc/post.go:704-715 | "key value" yields value when value is non-empty and trimmed |
| Post.HeaderRoundTrip | internal/doc/post.go:683-734 | "---", "title: t", "category: c" followed by any body parses back to (t, c) |
| Post.HeaderSound | internal/doc/post.go:683-734 | a header that parses comes from the first three lines: "---", then a line starting "title:" whose trimmed rest is the title, then a line starting "category:" whose trimmed rest is the category |
| Post.NewDocAccepted | internal/doc/post.go:334-339 | the header NewDoc writes parses back to the name without ".md" and the chosen category |
| Post.IgnoreList | internal/doc/post.go:593-600 | ".DS_Store" is always ignored |
| Post.IgnoredWhenListed | internal/doc/post.go:593-608 | every line of a non-empty .ignore file is an ignored name |
| Post.AcceptedPathInImageDir | internal/doc/post.go:659-664 | a target the corrected check accepts is uploaded from a path under ./img |
| Post.BarePathUploadedAsWritten | internal/doc/post.go:648-664 | as written, for the document `![a](img/a.png)` the uploader is handed `mg/a.png`; the corrected rewriter uploads nothing |
| Post.BackslashPathSkippedAsWritten | internal/doc/post.go:648-664 | as written, for the document `![a](..\img\a.png)` nothing is uploaded; the corrected rewriter uploads `.\img\a.png` |
| Post.ReplaceImg | internal/doc/post.go:621-680 | the method's result is the rewrite function's, and its uploads are the eligible targets in order when the file is written back |
| Post.UploadTargets | internal/doc/post.go:643-673 | the loop leaves the text the step-by-step rewrite describes and uploads exactly the eligible targets |
| Post.UploadTarget | internal/doc/post.go:644-672 | one target: skipped unless eligible, otherwise uploaded and, on success, replaced everywhere |
| Post.RewriteUploads | internal/doc/post.go:648-664 | each uploaded path is a link's target without its first byte, where the target is a supported image, not on jiaoliuqu.com and not under `..\img\` |
| Post.IntendedUploadsInImageDir | internal/doc/post.go:659-664 | with the corrected check, each uploaded path lies under ./img and comes from a supported image link not on jiaoliuqu.com |
| Post.RewritePlainText | internal/doc/post.go:626-635 | a text without "![" succeeds without being written and without a token |
| Post.RewriteWithoutUploads | internal/doc/post.go:673-679 | when no upload succeeds the file is left alone or written back unchanged |
| Post.DropDeleted | internal/doc/post.go:213-221 | a remote tombstone replaces the local descriptor |
| Post.PullKeys | internal/doc/post.go:193-232 | after Pull the index names are the old ones plus every complete name in the server's list |
| Post.PullItemKeys | internal/doc/post.go:207-232 | one list item adds its name to the index exactly when it is complete |
| Post.LocalNewerKept | internal/doc/post.go:225-230 | a live remote entry older than the local one changes nothing |
| Post.PullDeletes | internal/doc/post.go:213-221 | a remote tombstone for a live local post removes its object and working file and records the tombstone |
| Post.PullFetched | internal/doc/post.go:232-268 | new content is written under its MD5, copied to the working file, and the remote descriptor recorded |
| Post.PullItemIdempotent | internal/doc/post.go:194-271 | pulling the same item a second time changes nothing |
| Post.Pull | internal/doc/post.go:180-274 | the index, store and posts end as the fold of the list over the index read; an unreadable index or list changes nothing |
| Post.PullItems | internal/doc/post.go:193-271 | the loop computes that fold and keeps the index keyed by name |
| Post.PullOne | internal/doc/post.go:195-270 | one iteration computes one fold step |
| Post.FirstNotObject | internal/doc/post.go:91-92 | the first list item that is not an object, where the type assertion panics, or the list's length |
| Post.FirstNotObjectAt | internal/doc/post.go:91-92 | that position is the only one before which every item is an object |
| Post.PushUploadsLive | internal/doc/post.go:140-166 | only a non-deleted post with a stored object is uploaded, with its content and the header read from it |
| Post.PushDeletes | internal/doc/post.go:119-137 | a remote delete is sent exactly for a local "-2" whose remote is not "-2" and not later |
| Post.RemoteNewerKept | internal/doc/post.go:120-124 | a post whose remote copy is later is neither uploaded nor deleted |
| Post.LocalNewerPushed | internal/doc/post.go:119-169 | a live post whose content differs and whose remote copy is not later is uploaded |
| Post.OneWayWhenTimesDiffer | internal/doc/post.go:119-124 | when times differ, Pull keeps the local post exactly when Push would upload it (Pull's rule at post.go:227) |
| Post.BothWaysOnTie | internal/doc/post.go:225-232 | on equal times Pull adopts the remote descriptor and Push would upload the local one too |
| Post.Push | internal/doc/post.go:76-177 | tombstones from the list are applied and the index written before the plan; a panic at a non-object item stops before the write; otherwise the calls are the plan of the new index against the list |
| Post.GatherItems | internal/doc/post.go:89-117 | the loop collects the remote map and applies remote tombstones up to the first panic |
| Post.PlanCalls | internal/doc/post.go:119-176 | the calls made are exactly the push plan of the index |
| Post.PlanCall | internal/doc/post.go:120-169 | one post's call: skip, delete, or add with its content and header |
| Post.RmTombstones | internal/doc/post.go:383-401 | rm of a live post keeps its entry as a "-2" tombstone with the same MD5, removes its object and working file, and a second rm changes nothing |
| Post.RmThenPushDeletes | internal/doc/post.go:127-136 | after rm, push sends a delete unless the server's copy is later or already "-2" |
| Post.Rm | internal/doc/post.go:370-403 | the command leaves the store rm describes; an unreadable index changes nothing |
| Post.RmEntry | internal/doc/post.go:377-399 | rm on the values keeps the index keyed and its names unchanged |
| Post.OversizedPostNotCommitted | internal/doc/post.go:435-438 | the corrected doAdd, with the 2M limit, leaves the store unchanged for a larger post |
| Post.LargePostCommittedAsWritten | internal/doc/post.go:435-492 | as written, a new post over 2M but within `2*1024*2014` bytes, with a valid header and no image links, is committed: a fresh descriptor with its MD5 and `now`, and its object stored; the corrected doAdd leaves the store unchanged |
| Post.AddPost | internal/doc/post.go:406-495 | doAdd as written (the limit of line 435, the path check of line 659) changes no other post's descriptor or working file |
| Post.AddCommits | internal/doc/post.go:465-492 | a commit records the MD5 of the rewritten text and `now`, keeps an existing status (empty for a new post), stores the text under its MD5, clears "new" and "changed", and a second doAdd changes nothing |
| Post.AddAddressed | internal/doc/post.go:465-487 | doAdd keeps every object stored under its own MD5 |
| Post.CommitAddressed | internal/doc/post.go:471-487 | the commit step keeps every object stored under its own MD5 |
| Post.DoAdd | internal/doc/post.go:406-495 | the command leaves the store doAdd describes; an unreadable index changes nothing |
| Post.Candidate | internal/doc/post.go:413-462 | the checks before the commit: either doAdd changes nothing, or it commits the returned text |
| Post.Commit | internal/doc/post.go:465-492 | the commit of that text, with the index written |
| Post.AddAll | internal/doc/post.go:350-367 | `add .` is doAdd over the listing in order, skipping ignored names |
| Post.CheckoutClean | internal/doc/post.go:517-537 | after checkout a post is neither new, changed nor deleted, and the index and store are untouched |
| Post.Checkout | internal/doc/post.go:498-539 | single-name checkout copies the object of a live, valid, indexed post to its working file |
| Post.CheckoutEntry | internal/doc/post.go:516-537 | the same on values |
| Post.CheckoutAll | internal/doc/post.go:505-515 | `checkout .` only adds or overwrites working files of live posts with their objects, and restores all of them when every object is present |
| Post.RestoreAll | internal/doc/post.go:506-515 | the same on values |
| Post.Status | internal/doc/post.go:542-577 | reports exactly the new, the changed and the deleted (live, working file missing) posts |
| Knowledge.RecordCommits | internal/doc/knowledge.go:261-286 | a changed point records changelog, MD5 and `now`, stores its object, drops the previous non-empty one, leaves other points alone, and recording again changes nothing |
| Knowledge.RecordWithoutCopy | internal/doc/knowledge.go:280-284 | when the copy into the store fails the index is not written |
| Knowledge.AddKAddressed | internal/doc/knowledge.go:269-282 | KAdd keeps every object stored under its own MD5 |
| Knowledge.KAdd | internal/doc/knowledge.go:235-288 | the command leaves the store KAdd describes; an unreadable index changes nothing |
| Knowledge.RecordK | internal/doc/knowledge.go:261-287 | the recording step with the index written |
| Knowledge.RecordEntry | internal/doc/knowledge.go:261-278 | the recording step on values keeps the index keyed by name |
| Knowledge.MaxVersion | internal/doc/knowledge.go:105-112 | the largest listed version number, at least 0 (non-numbers count 0), and one of the listed ones unless it is 0 |
| Knowledge.WriteHistory | internal/doc/knowledge.go:106-119 | every listed version is written to its history file and no other file changes |
| Knowledge.HistoryLast | internal/doc/knowledge.go:106-119 | a version file holds the content of the last entry with that number |
| Knowledge.WriteHistoryOverrides | internal/doc/knowledge.go:106-119 | the history written overrides whatever was there before |
| Knowledge.WriteHistoryTwice | internal/doc/knowledge.go:106-119 | writing the same history twice is writing it once |
| Knowledge.PullScope | internal/doc/knowledge.go:75-152 | an unusable reply or a missing now_version changes nothing; otherwise the version file holds now_version and other points' files are untouched |
| Knowledge.PullKeepsCurrent | internal/doc/knowledge.go:121-140 | when the server is not ahead, the current file and the -old file are kept |
| Knowledge.PullSetsAside | internal/doc/knowledge.go:127-133 | when the server is ahead and has that version, the current file is moved to -old and replaced by it |
| Knowledge.PullFirstCopy | internal/doc/knowledge.go:141-144 | without a current file, the highest version becomes current |
| Knowledge.PulledHistoryWritten | internal/doc/knowledge.go:104-151 | the conflict handling never undoes the history written |
| Knowledge.PullTwice | internal/doc/knowledge.go:75-152 | pulling the same reply twice is pulling it once |
| Knowledge.KPull | internal/doc/knowledge.go:75-152 | the command leaves the knowledge files KPull describes and nothing else changes |
| Knowledge.WriteVersions | internal/doc/knowledge.go:104-119 | the loop writes the history and returns the maximum version |
| Knowledge.PushAfterRecord | internal/doc/knowledge.go:162-187 | after a commit, push sends the changelog, the local version and the committed content |
| Knowledge.PushNeedsVersion | internal/doc/knowledge.go:174-178 | without a local version file nothing is sent |
| Knowledge.KPush | internal/doc/knowledge.go:155-203 | sends the form of the committed point, and only an "i1069" rejection triggers a pull |
| Knowledge.KNameOfMarkdown | internal/doc/knowledge.go:307 | the name of "k.md" is k when k has no dot |
| Knowledge.NewKComplete | internal/doc/knowledge.go:299-311 | every considered file whose point is not indexed is reported new |
| Knowledge.NewKSound | internal/doc/knowledge.go:299-311 | every point reported new is unindexed and comes from a considered file |
| Knowledge.ChangedKComplete | internal/doc/knowledge.go:299-321 | every considered file whose hash differs from its point's MD5 is reported changed |
| Knowledge.ChangedKSound | internal/doc/knowledge.go:299-321 | every point reported changed comes from a considered file with a different hash |
| Knowledge.StatusKn | internal/doc/knowledge.go:291-323 | reports exactly those new and changed points, nothing for an unreadable index |
| Knowledge.ScanK | internal/doc/knowledge.go:298-322 | the loop over the listing computes those two sets |
| Knowledge.CheckoutOneClean | internal/doc/knowledge.go:341-352 | after checkout the point's file is not reported changed |
| Knowledge.CheckoutKN | internal/doc/knowledge.go:326-354 | one point: its object is copied to its file; `.`: only current files of indexed points change, all of them when every object is present |
| Knowledge.CheckoutAllK | internal/doc/knowledge.go:333-340 | the `.` loop, stopping at the first missing object |
| Knowledge.RestoreAllK | internal/doc/knowledge.go:334-340 | the same on values |
| Legacy.WorkDir.constructor | main.go:715-728 | a fresh directory: no index, empty store |
| Legacy.CheckFilePath | main.go:567-575 | a name is accepted exactly when it has no '/' or '\' and the extension ".md" |
| Legacy.LaterCheckAddsBlank | main.go:567-575 | the later client's check is this one plus "no blank" |
| Legacy.BlankNameAcceptedHereOnly | main.go:567-575 | a name with a blank passes here and fails in the later client |
| Legacy.IgnoredAreNotPosts | main.go:26 | none of the ignored files is a valid post name |
| Legacy.ParseTitle | main.go:673-707 | a title that parses is non-empty and trimmed |
| Legacy.TitleRoundTrip | main.go:673-707 | "---", "title: t" followed by any body parses back to t |
| Legacy.TitleSound | main.go:673-707 | a title that parses comes from the first two lines: "---", then a line starting "title:" whose trimmed rest is the title |
| Legacy.TitleOfLaterHeader | main.go:673-707 | a header the later client accepts gives this client the same title |
| Legacy.ReplaceImg | main.go:597-670 | the method's result is the rewrite function's, and its uploads are the eligible targets in order |
| Legacy.UploadTargets | main.go:629-663 | the loop leaves the text the step-by-step rewrite describes and uploads exactly the eligible targets |
| Legacy.UploadTarget | main.go:630-662 | one target: a web image is downloaded first, and a failed download or upload skips it |
| Legacy.LegacyUploads | main.go:633-655 | only supported images not on jiaoliuqu.com are uploaded, web images only once downloaded |
| Legacy.RewrittenNotUploadedAgain | main.go:638-640 | a rewritten URL is never uploaded again |
| Legacy.WrittenBackUnchanged | main.go:665-669 | when nothing was uploaded the file is still written back, with the same text |
| Legacy.Listed | main.go:219-223 | a list entry becomes a descriptor of that name without title |
| Legacy.PanicFinal | main.go:218-223 | after a malformed list item panics, the later items change nothing |
| Legacy.IndexFollowsContent | main.go:226-272 | the index takes a new entry only after its content is stored and copied |
| Legacy.PullRetriesAndSettles | main.go:226-272 | a failed fetch leaves the entry to be pulled next time, and once pulled it is skipped |
| Legacy.LocalNewerKept | main.go:226-230 | an entry older than the local one changes nothing |
| Legacy.PullKeepsNames | main.go:218-273 | Pull never drops an indexed name |
| Legacy.Pull | main.go:197-276 | the store and files end as the fold of the list; a panic leaves the index file unwritten |
| Legacy.WriteIndex | main.go:179-194 | the index written reads back as the map |
| Legacy.PullOne | main.go:219-272 | one iteration computes one fold step |
| Legacy.UploadCarriesObject | main.go:310-331 | an upload carries the stored content and title of a post whose MD5 differs from the server's |
| Legacy.RemoteNewerKept | main.go:311-316 | a post whose remote copy is later is not uploaded |
| Legacy.OneWayWhenTimesDiffer | main.go:310-316 | when times differ, Pull skips an entry exactly when Push would upload it |
| Legacy.Push | main.go:279-348 | the uploads are the plan of the index against the server's list; a malformed item panics; nothing local changes |
| Legacy.PlanUploads | main.go:310-347 | the loop computes exactly that plan |
| Legacy.StagedReadsBack | main.go:456-479 | although doAdd stores the descriptor under the key "", the index reads back keyed by name with the post updated |
| Legacy.OversizedDocNotCommitted | main.go:422-425 | the corrected doAdd, with the 2M limit, leaves the directory unchanged for a larger file |
| Legacy.LargeDocCommittedAsWritten | main.go:422-479 | as written, a new file over 2M but within `2*1024*2014` bytes, with a title and no image links, is committed with its title, MD5 and `now`, and its object stored; the corrected doAdd leaves the directory unchanged |
| Legacy.AddDoc | main.go:399-482 | doAdd as written changes no other file and no other named index entry |
| Legacy.CommitDocCommits | main.go:445-479 | a commit records title, MD5 and `now`, stores the text, clears "new" and "changed", and keeps every other named entry |
| Legacy.CommitDocIdempotent | main.go:445-454 | once a text is committed under a title, committing the same text again, at any later time, changes nothing: a second doAdd is a no-op |
| Legacy.AddDocSameContent | main.go:445-454 | when the MD5 of the rewritten text equals the indexed one, doAdd leaves the index and the object store unchanged |
| Legacy.CommitDocAddressed | main.go:456-475 | doAdd keeps every object stored under its own MD5 |
| Legacy.DoAdd | main.go:399-482 | the command leaves the store doAdd describes; an unreadable index changes nothing |
| Legacy.Find | main.go:445-454 | the loop finds the entry of that name exactly when there is one |
| Legacy.Commit | main.go:445-479 | the commit step with the index written |
| Legacy.StageAndWrite | main.go:456-479 | the old object is removed, the new one stored, and the index reads back with the new descriptor |
| Legacy.CheckoutClean | main.go:500-522 | after checkout the file is neither new, changed nor deleted |
| Legacy.Checkout | main.go:485-523 | one name: its object is copied to its file; `.`: only indexed files change, all of them when every object is present |
| Legacy.CheckoutAll | main.go:492-499 | the `.` loop, stopping at the first missing object |
| Legacy.Status | main.go:526-564 | reports exactly the new, the changed and the deleted files |

## Left out

- I/O: reading, writing, copying and removing files are modelled only by their effect on the maps. A working file that cannot be read is missing. GetFileMd5 does not fail.
- Tool.GetExt: the function has no contract of its own; its properties are the lemmas GetExtShape, GetExtOfSuffix and GetExtIgnoresQuery.
- MD5 is any function from text to text. Its internals are not modelled.
- The clock is a parameter `now`. Local time zones and daylight saving are not modelled: times are compared as UTC.
- The random draws of GetRandomString and the Unix time of GetKey are parameters. Every uploaded key is the upload oracle's answer for the target.
- The HTTP transport, the JSON envelope and the retry sleeps are not modelled. Server replies are parameters that are already decoded.
- pkg/qiniu/upload.go is not part of this model. Each upload is an oracle from the local path (or, in main.go, the target) to a key or a failure.
- The Go regexp engine is replaced by a scanner for `![..](..)`. As in the pattern, a link does not cross a newline.
- Post.Pull: when the get call fails, Write2File fails or CopyFile fails, the outcome is modelled as one case, "no content". In that case the descriptor is recorded and no file changes. An object written before a failed copy is not modelled.
- Post.CommitPost: a failed CopyFile into the store is not modelled. The source writes the index either way; the model always stores the object.
- Post.Push and Post.PushCall: a blob that cannot be read means the object is missing. A failed add or delete call changes nothing locally, as in the source.
- Knowledge paths are a datatype (current, -old, version file, history), so two different points never share a file.
- StatusKn takes the listing of ./knowledge as a parameter, in ReadDir's order.
- KPull: a failed MkdirAll, WriteFile or CopyFile is not modelled. Every write succeeds, and a failed copy of the current file is not modelled.
- KPush's ClientCall is reduced to an optional rejection message.
- Knowledge.KPull, Knowledge.KAdd: internal/doc/knowledge.go:122 and internal/doc/knowledge.go:243 assign the two results of pkg.PathExists (pkg/tool.go:98 returns `(bool, error)`) to one variable, so those lines do not compile as given. The model reads each call as "the file exists".
- The knowledge point's name is used as given. A name holding '/' is not rejected, as in the source.
- The -old rename overwrites an earlier -old file, as os.Rename does.
- main.go: every path is taken relative to the working directory. The model assumes the current directory is that directory, so relative and `workDir`-joined paths name the same file.
- main.go: a token reply that does not hold a "token" string panics in the source. It is folded into the failure of the token request.
- Doc.ReplaceImg: getUploadToken panics when the reply holds no "token" string (doc.go:114). The model folds the panic into a failed token request (`token` is None); the same holds for Post.ReplaceImg and Knowledge.KAdd, whose token comes from the same call.
- GoStrings.Atoi: strconv.Atoi stops at the int64 range, returning its bound with an error the callers ignore (pkg/tool.go:222-223, knowledge.go:109). The model's Atoi is unbounded, so numbers beyond 9223372036854775807 compare as mathematical integers, not as Go's clamped values.
- GoStrings.ReadLine: bufio.Reader.ReadLine hands back a line longer than its 4096-byte buffer in pieces (post.go:690-717, main.go:680-689). The model returns the whole line, so a header line over 4096 bytes is read differently.
- Post.TooLarge: GetFileSize counts bytes (pkg/tool.go:108-116). The model counts the chars of the content and reads a file as one char per byte; content written as Unicode characters, where one character takes up to three UTF-8 bytes, would be undercounted.
- main.go: the local path `img/<key>` of a downloaded image is not modelled. The upload is keyed by the target.
- NewDoc (post.go:277-347, main.go:351-376): the interactive category prompt and the existence check are left out. The name normalisation and the header NewDoc writes are modelled.
- getCategory, KNew, Krel, Doc.Update and the rest of the self-update code are thin RPC and process plumbing, and are left out.
- Write2File's temp-then-rename is not modelled. Every write is atomic.
- Go map iteration order is not modelled. Pull, Push and status act per name, and the `checkout .` loops are stated without an order: only which files may change and which must.

## Findings

| source | as written | input that shows it | evidently intended | confidence | as-written member | corrected member |
|---|---|---|---|---|---|---|
| internal/doc/post.go:435 | the size limit is `2*1024*2014` bytes (4,124,672) | a new post of 3,000,000 bytes with a valid header is committed | posts over 2 MiB (2,097,152 bytes) are refused, as the log message "2M" says | high, not executed | Post.LargePostCommittedAsWritten | Post.OversizedPostNotCommitted |
| main.go:422 | the same limit `2*1024*2014` | a new file of 3,000,000 bytes with a title is committed | files over 2 MiB are refused | high, not executed | Legacy.LargeDocCommittedAsWritten | Legacy.OversizedDocNotCommitted |
| internal/doc/post.go:659 | `!HasPrefix(u, "../img/") && HasPrefix(u, "..\img\")` turns away only `..\img\` paths | for the document `![a](img/a.png)` the uploader is handed `mg/a.png` | only targets under `../img/` (or `..\img\`) are uploaded, as the log message says | high, not executed | Post.BarePathUploadedAsWritten | Post.IntendedUploadsInImageDir |
