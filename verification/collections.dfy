/** The `collections` dictionary of the application: collection names mapped to
    lists of bookmarks, kept in insertion order as Python dictionaries are. */
module Collections {
  import opened Wrappers
  import opened Bookmarks

  /** One key of the dictionary with its bucket of bookmarks. */
  datatype Entry = Entry(name: string, bucket: seq<Bookmark>)

  /** The dictionary as its entries in insertion order. */
  type Mapping = seq<Entry>

  /** The keys, in order. */
  function Names(m: Mapping): seq<string> {
    seq(|m|, i requires 0 <= i < |m| => m[i].name)
  }

  /** Keys are distinct, as in every dictionary. */
  predicate UniqueNames(m: Mapping) {
    forall i, j :: 0 <= i < j < |m| ==> m[i].name != m[j].name
  }

  /** A mapping that is a dictionary: one whose keys are distinct. */
  type Dict = m: Mapping | UniqueNames(m) witness []

  /** `name in m`. */
  predicate HasKey(m: Mapping, name: string) {
    name in Names(m)
  }

  /** Position of the first occurrence of `name` among `names`. */
  function IndexOf(names: seq<string>, name: string): (i: nat)
    requires name in names
    ensures i < |names| && names[i] == name
    ensures forall k :: 0 <= k < i ==> names[k] != name
  {
    if names[0] == name then 0 else 1 + IndexOf(names[1..], name)
  }

  /** `m.get(name)`. */
  function Get(m: Mapping, name: string): Option<seq<Bookmark>> {
    if HasKey(m, name) then Some(m[IndexOf(Names(m), name)].bucket) else None
  }

  /** The initial dictionary `{'Study': [], 'Work': [], 'Shopping': []}`. */
  function Defaults(): (m: Mapping)
    ensures UniqueNames(m)
    ensures Names(m) == ["Study", "Work", "Shopping"]
    ensures forall n :: HasKey(m, n) ==> Get(m, n) == Some([])
  {
    [Entry("Study", []), Entry("Work", []), Entry("Shopping", [])]
  }

  /** `m[m.keys()[i]].append(bm)`. */
  function AppendAt(m: Mapping, i: nat, bm: Bookmark): (r: Mapping)
    requires i < |m|
    ensures |r| == |m| && Names(r) == Names(m)
    ensures r[i].bucket == m[i].bucket + [bm]
    ensures forall k :: 0 <= k < |m| && k != i ==> r[k] == m[k]
  {
    m[i := Entry(m[i].name, m[i].bucket + [bm])]
  }

  /** The dictionary update of the manual assignment: a bookmark goes only into a
      bucket whose key already exists; a missing or empty name, or an unknown key,
      is refused (`None`). */
  function Assign(m: Mapping, name: Option<string>, bm: Bookmark): (r: Option<Mapping>)
    ensures r.Some? <==> name.Some? && name.value != "" && HasKey(m, name.value)
    ensures r.Some? ==> Names(r.value) == Names(m)
    ensures r.Some? ==> Get(r.value, name.value) == Some(Get(m, name.value).value + [bm])
    ensures r.Some? ==> forall n :: n != name.value ==> Get(r.value, n) == Get(m, n)
    ensures r.Some? ==> forall k :: 0 <= k < |m| && m[k].name != name.value ==> r.value[k] == m[k]
    ensures r.Some? && UniqueNames(m) ==> UniqueNames(r.value)
  {
    if name.Some? && name.value != "" && HasKey(m, name.value) then
      var r := AppendAt(m, IndexOf(Names(m), name.value), bm);
      SameNamesUnique(m, r);
      Some(r)
    else None
  }

  /** Distinct keys depend on the keys alone. */
  lemma SameNamesUnique(m: Mapping, r: Mapping)
    requires Names(r) == Names(m)
    ensures UniqueNames(m) ==> UniqueNames(r)
  {
    forall i, j | 0 <= i < j < |r|
      ensures r[i].name == Names(m)[i] && r[j].name == Names(m)[j]
    {
      assert Names(r)[i] == r[i].name && Names(r)[j] == r[j].name;
    }
  }

  /** Adding a key at the end does not move the keys already present. */
  lemma IndexOfAppend(names: seq<string>, name: string, n: string)
    requires n in names
    ensures IndexOf(names + [name], n) == IndexOf(names, n)
  {
    var i := IndexOf(names, n);
    var j := IndexOf(names + [name], n);
    assert (names + [name])[i] == n;
  }

  /** The dictionary update of the classified insert: the bucket is created at the end
      of the key order when absent, then the bookmark is appended to it. */
  function Insert(m: Mapping, name: string, bm: Bookmark): (r: Mapping)
    ensures Names(r) == if HasKey(m, name) then Names(m) else Names(m) + [name]
    ensures Get(r, name) == Some((if HasKey(m, name) then Get(m, name).value else []) + [bm])
    ensures forall n :: n != name ==> Get(r, n) == Get(m, n)
    ensures UniqueNames(m) ==> UniqueNames(r)
  {
    if HasKey(m, name) then AppendAt(m, IndexOf(Names(m), name), bm)
    else
      var r := m + [Entry(name, [bm])];
      assert Names(r) == Names(m) + [name];
      assert IndexOf(Names(r), name) == |m| by {
        assert Names(r)[|m|] == name;
      }
      assert Get(r, name) == Some([bm]);
      assert [] + [bm] == [bm];
      assert UniqueNames(m) ==> UniqueNames(r) by {
        forall i | 0 <= i < |m|
          ensures r[i].name != name
        {
          assert Names(m)[i] == m[i].name;
        }
      }
      forall n | n != name
        ensures Get(r, n) == Get(m, n)
      {
        if HasKey(m, n) {
          IndexOfAppend(Names(m), name, n);
        }
      }
      r
  }

  /** The bookmarks of every bucket, bucket after bucket in key order. */
  function Flatten(m: Mapping): seq<Bookmark>
    decreases |m|
  {
    if m == [] then [] else Flatten(m[..|m| - 1]) + m[|m| - 1].bucket
  }

  /** The sum of the bucket lengths. */
  function TotalSize(m: Mapping): nat
    decreases |m|
  {
    if m == [] then 0 else TotalSize(m[..|m| - 1]) + |m[|m| - 1].bucket|
  }

  lemma {:induction false} FlattenSize(m: Mapping)
    ensures |Flatten(m)| == TotalSize(m)
    decreases |m|
  {
    if m != [] {
      FlattenSize(m[..|m| - 1]);
    }
  }

  /** A bookmark is in the flat list exactly when some bucket holds it. */
  lemma {:induction false} FlattenMembers(m: Mapping, b: Bookmark)
    ensures b in Flatten(m) <==> exists i :: 0 <= i < |m| && b in m[i].bucket
    decreases |m|
  {
    if m != [] {
      var init := m[..|m| - 1];
      FlattenMembers(init, b);
      if exists i :: 0 <= i < |init| && b in init[i].bucket {
        var i :| 0 <= i < |init| && b in init[i].bucket;
        assert m[i] == init[i];
      }
      if exists i :: 0 <= i < |m| && b in m[i].bucket {
        var i :| 0 <= i < |m| && b in m[i].bucket;
        if i < |init| {
          assert init[i] == m[i];
        }
      }
    }
  }

  /** The flattening loop of `load_collections`: every bucket's bookmarks, appended one
      by one, bucket after bucket. */
  method FlattenLoop(m: Mapping) returns (flat: seq<Bookmark>)
    ensures flat == Flatten(m)
    ensures |flat| == TotalSize(m)
  {
    flat := [];
    var i := 0;
    while i < |m|
      invariant i <= |m|
      invariant flat == Flatten(m[..i])
    {
      var bucket := m[i].bucket;
      var j := 0;
      while j < |bucket|
        invariant j <= |bucket|
        invariant flat == Flatten(m[..i]) + bucket[..j]
      {
        flat := flat + [bucket[j]];
        j := j + 1;
      }
      assert m[..i + 1][..i] == m[..i];
      assert bucket[..j] == bucket;
      i := i + 1;
    }
    assert m[..|m|] == m;
    FlattenSize(m);
  }
}
