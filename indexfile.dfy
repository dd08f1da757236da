/** The on-disk indexes (./.repo/index for posts, ./.repo/kindex for knowledge
    points, repo/index in the older main.go client): a JSON list of
    descriptors, read fully into a map keyed by each descriptor's own name and
    written fully back from the map's values. The JSON encoding itself is not
    modelled: the file holds the list of records. */
module IndexFile {
  import opened Wrappers

  /** The index file: missing or empty, a well-formed list of records, or
      bytes that do not unmarshal. */
  datatype Stored<D> = Empty | Records(list: seq<D>) | Garbled

  /** Every entry sits under its own name. */
  ghost predicate Keyed<D>(m: map<string, D>, key: D -> string) {
    forall k :: k in m ==> key(m[k]) == k
  }

  /** The map the read loop builds: records in file order, each assigned
      under its name, so a later duplicate overwrites an earlier one. */
  function Collect<D>(list: seq<D>, key: D -> string): (m: map<string, D>)
    ensures forall k :: k in m ==> key(m[k]) == k && m[k] in list
  {
    if list == [] then map[]
    else
      var init := list[..|list| - 1];
      var m := Collect(init, key)[key(list[|list| - 1]) := list[|list| - 1]];
      assert list == init + [list[|list| - 1]];
      m
  }

  /** Every record's name is a key of the map. */
  lemma {:induction false} CollectKeys<D>(list: seq<D>, key: D -> string)
    ensures forall d :: d in list ==> key(d) in Collect(list, key)
  {
    if list != [] {
      var init := list[..|list| - 1];
      CollectKeys(init, key);
      assert list == init + [list[|list| - 1]];
    }
  }

  /** The record a name maps to is the LAST record carrying that name. */
  lemma {:induction false} CollectLast<D>(list: seq<D>, key: D -> string, i: nat)
    requires i < |list|
    requires forall j :: i < j < |list| ==> key(list[j]) != key(list[i])
    ensures key(list[i]) in Collect(list, key)
    ensures Collect(list, key)[key(list[i])] == list[i]
    decreases |list|
  {
    if i < |list| - 1 {
      var init := list[..|list| - 1];
      assert forall j :: i < j < |init| ==> init[j] == list[j];
      CollectLast(init, key, i);
    }
  }

  /** ReadIndex without the file access: an empty or missing file reads as the
      empty map; bytes that do not unmarshal are an error. */
  function Read<D>(f: Stored<D>, key: D -> string): (r: Result<map<string, D>>)
    ensures f.Empty? ==> r == Success(map[])
    ensures r.Failure? <==> f.Garbled?
  {
    match f
    case Empty => Success(map[])
    case Records(list) => Success(Collect(list, key))
    case Garbled => Failure("invalid index")
  }

  /** The read loop of ReadIndex / ReadKIndex. */
  method Load<D>(f: Stored<D>, key: D -> string) returns (r: Result<map<string, D>>)
    ensures r == Read(f, key)
  {
    match f
    case Empty =>
      return Success(map[]);
    case Garbled =>
      return Failure("invalid index");
    case Records(list) =>
      var m: map<string, D> := map[];
      var i := 0;
      while i < |list|
        invariant 0 <= i <= |list|
        invariant m == Collect(list[..i], key)
      {
        assert list[..i + 1][..i] == list[..i];
        m := m[key(list[i]) := list[i]];
        i := i + 1;
      }
      assert list[..i] == list;
      return Success(m);
  }

  /** The loop of WriteIndex that lists the map's values, in the map's
      (unspecified) iteration order. */
  method Values<D(==)>(m: map<string, D>) returns (list: seq<D>)
    ensures |list| == |m|
    ensures forall d :: d in list ==> d in m.Values
    ensures forall k :: k in m ==> m[k] in list
  {
    list := [];
    var todo := m.Keys;
    while todo != {}
      invariant todo <= m.Keys
      invariant |list| + |todo| == |m|
      invariant forall d :: d in list ==> d in m.Values
      invariant forall k :: k in m && k !in todo ==> m[k] in list
      decreases |todo|
    {
      var k :| k in todo;
      list := list + [m[k]];
      todo := todo - {k};
    }
  }

  /** Reading back a list of exactly the map's values gives the map back. */
  lemma CollectValues<D>(m: map<string, D>, key: D -> string, list: seq<D>)
    requires Keyed(m, key)
    requires forall d :: d in list ==> d in m.Values
    requires forall k :: k in m ==> m[k] in list
    ensures Collect(list, key) == m
  {
    var c := Collect(list, key);
    CollectKeys(list, key);
    forall k | k in m ensures k in c {
      assert m[k] in list && key(m[k]) == k;
    }
    forall k | k in c ensures k in m && c[k] == m[k] {
      var d := c[k];
      assert d in m.Values;
      var k' :| k' in m && m[k'] == d;
    }
  }

  /** WriteIndex / WriteKIndex of internal/doc: nothing is written for an
      empty map, so the previous file stays; otherwise the file holds the
      map's values and reads back as the map. */
  method Write<D(==)>(f: Stored<D>, m: map<string, D>, key: D -> string) returns (g: Stored<D>)
    requires Keyed(m, key)
    ensures m == map[] ==> g == f
    ensures m != map[] ==> g.Records? && Read(g, key) == Success(m)
  {
    var list := Values(m);
    if |list| == 0 {
      assert m == map[];
      return f;
    }
    CollectValues(m, key, list);
    return Records(list);
  }

  /** WriteIndex of main.go: the list is written even when it is empty. */
  method WriteAlways<D(==)>(m: map<string, D>, key: D -> string) returns (g: Stored<D>)
    ensures g.Records? && |g.list| == |m|
    ensures forall d :: d in g.list ==> d in m.Values
    ensures forall k :: k in m ==> m[k] in g.list
  {
    var list := Values(m);
    return Records(list);
  }
}
