/** What a caller's tree and the client's index of it hold, in terms of what single reads answer. */
module ClientLookup {
  import opened Messages
  import opened Tables
  import opened StoreSpec
  import opened Access
  import opened Versions
  import opened RoundTrip
  import opened Tree
  import opened TreeShape
  import opened Listing
  import opened ClientIndex

  // ---------------------------------------------------------------- what a directory of the tree holds

  /** Directory id is readable and lies in the directory at path p. */
  ghost predicate ReadableIn(t: Tables, tags: seq<string>, id: int, p: string) {
    id in t.directory && t.directory[id].path == p && Traversable(t, RowPath(t.directory[id]), tags)
  }

  /** Config c is visible and is shown in the directory at path p. */
  ghost predicate VisibleAt(t: Tables, tags: seq<string>, c: int, p: string) {
    Visible(t, c, tags) && RootNormalised(t.config[c].path) == p
  }

  /** The node is a directory of the store filled with just what the caller may see in it: the visible
      configs, as a read without content answers them, and the readable directories, each with the fields
      a read answers. */
  ghost predicate Holds(n: Directory, t: Tables, tags: seq<string>) {
    && (forall c: Config :: c in n.configs ==>
          c.id.Num? && VisibleAt(t, tags, c.id.n, n.FullPath()) && GetConfigByID(t, c.id, false, NoId) == Found(c))
    && (forall c :: VisibleAt(t, tags, c, n.FullPath()) ==> ConfigMessage(t, c) in n.configs)
    && (forall d :: d in n.directories ==>
          d.id.Num? && ReadableIn(t, tags, d.id.n, n.FullPath()) && GetDirectoryByID(t, d.id) == Found(d.(directories := [], configs := [])))
    && (forall id :: ReadableIn(t, tags, id, n.FullPath()) ==> HasChild(n, Num(id)))
  }

  ghost predicate HasChild(n: Directory, id: Id) {
    exists d :: d in n.directories && d.id == id
  }

  lemma FilledHolds(d: Directory, t: Tables, tags: seq<string>, ds: seq<Directory>, cs: seq<Config>, bound: nat)
    requires Inv(t) && Enumerates(ds, ReadableSet(t, tags)) && Enumerates(cs, VisibleConfigs(t, tags, ""))
    requires AllFlat(ds) && Bounded(ds, bound) && d.directories == [] && d.configs == []
    ensures Holds(Populated(d, ds, cs, bound), t, tags)
  {
    var n, p := Populated(d, ds, cs, bound), d.FullPath();
    assert n.FullPath() == p && n.configs == Matching(cs, p) && n.directories == Children(p, ds, ds, cs, bound);
    forall c: Config | c in n.configs
      ensures c.id.Num? && VisibleAt(t, tags, c.id.n, p) && GetConfigByID(t, c.id, false, NoId) == Found(c)
    {
      MatchingMembers(cs, p, c);
    }
    forall c | VisibleAt(t, tags, c, p)
      ensures ConfigMessage(t, c) in n.configs
    {
      assert ConfigMessage(t, c) in VisibleConfigs(t, tags, "");
      MatchingMembers(cs, p, ConfigMessage(t, c));
    }
    forall e | e in n.directories
      ensures e.id.Num? && ReadableIn(t, tags, e.id.n, p) && GetDirectoryByID(t, e.id) == Found(e.(directories := [], configs := []))
    {
      ChildrenMembers(p, ds, ds, cs, bound, e);
      var o :| o in ds && o.path == p && e == Populated(o, ds, cs, bound);
      assert o in ReadableSet(t, tags);
    }
    forall id | ReadableIn(t, tags, id, p)
      ensures HasChild(n, Num(id))
    {
      var o := DirectoryMessage(t, id);
      assert o in ReadableSet(t, tags);
      ChildrenMembers(p, ds, ds, cs, bound, Populated(o, ds, cs, bound));
    }
  }

  /** Every directory of a caller's tree holds just what the caller may see in it. */
  lemma TreeHolds(tree: Directory, t: Tables, tags: seq<string>, n: Directory)
    requires Inv(t) && IsTree(tree, t, tags, "") && n in Nodes(tree)
    ensures Holds(n, t, tags)
  {
    var ds, cs, bound :| BuiltFrom(tree, t, tags, "", ds, cs, bound);
    NodesFromList(ROOT, ds, cs, bound, n);
    if n == Populated(ROOT, ds, cs, bound) {
      FilledHolds(ROOT, t, tags, ds, cs, bound);
    } else {
      var o :| o in ds && n == Populated(o, ds, cs, bound);
      FilledHolds(o, t, tags, ds, cs, bound);
    }
  }

  /** The size a listing gives a config is that of the last version written. */
  lemma ListedSize(tree: Directory, t: Tables, tags: seq<string>, c: Config)
    requires Inv(t) && IsTree(tree, t, tags, "") && c in ConfigsOf(Nodes(tree))
    ensures c.id.Num? && c.id.n in t.config && GetConfigByID(t, c.id, false, NoId) == Found(c)
    ensures Log(t, c.id.n) != [] && c.contentSize == Log(t, c.id.n)[|Log(t, c.id.n)| - 1].size
  {
    TreeConfigs(tree, t, tags, c);
    SizeIsLatest(t, c.id.n);
  }

  // ---------------------------------------------------------------- looking names up

  lemma {:induction false} ConfigNamedFound(cs: seq<Config>, name: string)
    ensures match ConfigNamed(cs, name)
            case Some(c) => c in cs && c.name == name
            case None => forall c: Config :: c in cs ==> c.name != name
  {
    if cs != [] {
      ConfigNamedFound(cs[1..], name);
    }
  }

  lemma IndexedHolds(tree: Directory, t: Tables, tags: seq<string>, m: PathIndex, ids: IdIndex, cp: ConfigIndex, p: string)
    requires Inv(t) && IsTree(tree, t, tags, "") && IndexOf(tree, m, ids, cp) && p in m
    ensures m[p].FullPath() == p && Holds(m[p], t, tags)
  {
    TreeUnique(tree, t, tags);
    IndexMapsNodes(tree, m, ids, cp);
    TreeHolds(tree, t, tags, m[p]);
  }

  ghost predicate ChildReadable(t: Tables, tags: seq<string>, p: string, name: string) {
    exists id :: ReadableIn(t, tags, id, p) && t.directory[id].name == name
  }

  /** The child found under a name in an indexed directory is the readable directory there, and none is
      found exactly when there is none. */
  lemma ChildResolves(tree: Directory, t: Tables, tags: seq<string>, m: PathIndex, ids: IdIndex, cp: ConfigIndex, p: string, name: string)
    requires Inv(t) && IsTree(tree, t, tags, "") && IndexOf(tree, m, ids, cp) && p in m
    ensures var child := ChildNamed(m[p].directories, name);
            && (child.Some? <==> ChildReadable(t, tags, p, name))
            && (child.Some? ==> child.value.id.Num? && ReadableIn(t, tags, child.value.id.n, p)
                                && t.directory[child.value.id.n].name == name && child.value.FullPath() == RowPath(t.directory[child.value.id.n]))
  {
    IndexedHolds(tree, t, tags, m, ids, cp, p);
    ChildNamedFound(m[p].directories, name);
    var child := ChildNamed(m[p].directories, name);
    if ChildReadable(t, tags, p, name) {
      var id :| ReadableIn(t, tags, id, p) && t.directory[id].name == name;
      assert HasChild(m[p], Num(id));
      var d :| d in m[p].directories && d.id == Num(id);
      assert d.name == name;
    }
  }

  /** Looking up a name gives a directory exactly when the path is indexed and a readable directory has the
      name there, and then that directory's full path. */
  lemma LookupDirectoryIff(tree: Directory, t: Tables, tags: seq<string>, m: PathIndex, ids: IdIndex, cp: ConfigIndex, p: string, name: string, q: string)
    requires Inv(t) && IsTree(tree, t, tags, "") && IndexOf(tree, m, ids, cp)
    ensures Lookup(m, p, name) == Some(DirNode(q)) <==>
              p in m && exists id :: ReadableIn(t, tags, id, p) && t.directory[id].name == name && RowPath(t.directory[id]) == q
  {
    if p in m {
      ChildResolves(tree, t, tags, m, ids, cp, p, name);
      assert forall id :: ReadableIn(t, tags, id, p) && t.directory[id].name == name ==> RowPath(t.directory[id]) == Directory(NoId, name, p, [], [], []).FullPath();
    }
  }

  /** It gives a file exactly when the path is indexed, no readable directory has the name there and a
      visible config does; and the file is such a config. */
  lemma LookupFileIff(tree: Directory, t: Tables, tags: seq<string>, m: PathIndex, ids: IdIndex, cp: ConfigIndex, p: string, name: string)
    requires Inv(t) && IsTree(tree, t, tags, "") && IndexOf(tree, m, ids, cp)
    ensures var found := Lookup(m, p, name);
            && (found.Some? && found.value.FileNode? <==>
                  p in m && !ChildReadable(t, tags, p, name) && exists c :: VisibleAt(t, tags, c, p) && t.config[c].name == name)
            && (found.Some? && found.value.FileNode? ==>
                  && found.value.id.Num? && VisibleAt(t, tags, found.value.id.n, p) && t.config[found.value.id.n].name == name
                  && found.value.id in ids)
  {
    if p in m {
      ChildResolves(tree, t, tags, m, ids, cp, p, name);
      IndexedHolds(tree, t, tags, m, ids, cp, p);
      ConfigNamedFound(m[p].configs, name);
      var found := ConfigNamed(m[p].configs, name);
      if found.Some? {
        IdsAreVisible(tree, t, tags, m, ids, cp, found.value.id);
      }
      forall c | VisibleAt(t, tags, c, p) && t.config[c].name == name
        ensures found.Some?
      {
        assert ConfigMessage(t, c) in m[p].configs;
      }
    }
  }

  // ---------------------------------------------------------------- which paths are indexed

  lemma {:induction false} DirectoryTallyOfNodes(ts: seq<Directory>, id: Id)
    ensures ForestTally(ts, DirectoryItem(id)) > 0 <==> exists n :: n in ForestNodes(ts) && n.id == id
    decreases ts
  {
    if ts != [] {
      DirectoryTallyOfNodes(ts[0].directories, id);
      DirectoryTallyOfNodes(ts[1..], id);
      NoConfigIsDirectory(ts[0].configs, id);
      assert Nodes(ts[0]) == [ts[0]] + ForestNodes(ts[0].directories);
    }
  }

  /** The indexed paths are the root and the full paths of the readable directories. */
  lemma IndexedPaths(tree: Directory, t: Tables, tags: seq<string>, m: PathIndex, ids: IdIndex, cp: ConfigIndex, p: string)
    requires Inv(t) && IsTree(tree, t, tags, "") && IndexOf(tree, m, ids, cp)
    ensures p in m <==> p == "/" || (IsDirectory(t.directory, p) && Traversable(t, p, tags))
  {
    TreeUnique(tree, t, tags);
    IndexMapsNodes(tree, m, ids, cp);
    assert tree.FullPath() == "/" && tree in Nodes(tree);
    if p in m {
      NodeIsReadable(tree, t, tags, m[p]);
    }
    if IsDirectory(t.directory, p) && Traversable(t, p, tags) {
      var id :| id in t.directory && RowPath(t.directory[id]) == p;
      TreeIsExact(tree, t, tags, "", DirectoryItem(Num(id)));
      NoConfigIsDirectory(tree.configs, Num(id));
      DirectoryTallyOfNodes(tree.directories, Num(id));
      var n :| n in ForestNodes(tree.directories) && n.id == Num(id);
      assert n in Nodes(tree);
      NodeIsReadable(tree, t, tags, n);
    }
  }

  lemma NodeIsReadable(tree: Directory, t: Tables, tags: seq<string>, n: Directory)
    requires Inv(t) && IsTree(tree, t, tags, "") && n in Nodes(tree)
    ensures n == tree || (n.id.Num? && n.id.n in t.directory && n.FullPath() == RowPath(t.directory[n.id.n]) && Traversable(t, n.FullPath(), tags))
    ensures tree.id == Num(0) && 0 !in t.directory
  {
    var ds, cs, bound :| BuiltFrom(tree, t, tags, "", ds, cs, bound);
    NodesFromList(ROOT, ds, cs, bound, n);
    if n != tree {
      var o :| o in ds && n == Populated(o, ds, cs, bound);
      assert o in ReadableSet(t, tags);
    }
  }
}
