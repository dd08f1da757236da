/** The working tree of the internal/doc client as one object: the two index
    files under ./.repo, the content-addressed object store ./.repo/objects,
    the working copies under ./posts and ./knowledge, and the .ignore file.
    Every command reads and rewrites these in place. */
module Repo {
  import opened IndexFile

  /** PostDesc: one post in ./.repo/index, keyed by its file name. */
  datatype PostDesc = PostDesc(fileName: string, updateTime: string, md5: string, status: string)

  function PostName(d: PostDesc): string {
    d.fileName
  }

  /** KnowledgeDesc: one knowledge point in ./.repo/kindex, keyed by its name. */
  datatype KnowledgeDesc = KnowledgeDesc(kName: string, updateTime: string, md5: string, changelog: string)

  function KnowledgeName(d: KnowledgeDesc): string {
    d.kName
  }

  /** The files of ./knowledge a command touches: knowledge/<k>.md,
      knowledge/<k>-old.md, knowledge/<k>/version and the downloaded history
      knowledge/<k>/<v>/<k>.md. */
  datatype KPath = Current(k: string) | Old(k: string) | VersionFile(k: string) | History(k: string, v: int)

  class Workspace {
    /** ./.repo/index and ./.repo/kindex. */
    var index: Stored<PostDesc>
    var kindex: Stored<KnowledgeDesc>
    /** ./.repo/objects: file contents by their MD5 digest. */
    var objects: map<string, string>
    /** ./posts: working copies by file name. */
    var posts: map<string, string>
    /** ./knowledge. */
    var knowledge: map<KPath, string>
    /** The bytes of ./.ignore, empty when the file is missing. */
    var ignore: string
    /** GetFileMd5 on a file's content. */
    const hash: string -> string

    /** A freshly initialised working tree: the directories exist and are
        empty, no index has been written yet. */
    constructor (hash: string -> string, ignore: string)
      ensures index == Empty && kindex == Empty
      ensures objects == map[] && posts == map[] && knowledge == map[]
      ensures this.ignore == ignore && this.hash == hash
    {
      index := Empty;
      kindex := Empty;
      objects := map[];
      posts := map[];
      knowledge := map[];
      this.ignore := ignore;
      this.hash := hash;
    }
  }
}
