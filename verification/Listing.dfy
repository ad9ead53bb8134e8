/** What List shows: the tree for a caller is exact, agrees with the single reads, and a listing of
    one directory is that directory's part of the whole tree. */
module Listing {
  import opened Paths
  import opened Messages
  import opened Tables
  import opened StoreSpec
  import opened Access
  import opened Tree
  import opened TreeShape

  /** The synthesised root of every tree. */
  const ROOT := Directory(Num(0), "/", "", [], [], [])

  /** The rows of a query, in whatever order they come. */
  ghost predicate Enumerates<T(!new)>(s: seq<T>, members: set<T>) {
    NoDuplicates(s) && forall x :: x in s <==> x in members
  }

  ghost function ReadableSet(t: Tables, tags: seq<string>): set<Directory> {
    set id | id in t.directory && Traversable(t, RowPath(t.directory[id]), tags) :: DirectoryMessage(t, id)
  }

  /** The caller may see config c: its own entries and every directory above it grant READ. */
  ghost predicate Visible(t: Tables, c: int, tags: seq<string>) {
    c in t.config && Grants(LoadAcls(t.configAcl, c), tags, READ) && Traversable(t, t.config[c].path, tags)
  }

  /** Config c is visible and lies at or beneath the prefix; the empty prefix stands for no restriction. */
  ghost predicate Shown(t: Tables, tags: seq<string>, prefix: string, c: int) {
    Visible(t, c, tags) && (prefix == "" || InSubtree(t.config[c].path, prefix))
  }

  ghost function VisibleConfigs(t: Tables, tags: seq<string>, prefix: string): set<Config> {
    set c | c in t.config && Shown(t, tags, prefix, c) :: ConfigMessage(t, c)
  }

  /** A tree List may answer with: built from the readable directories and visible configs, each
      listed in some order. */
  ghost predicate BuiltFrom(tree: Directory, t: Tables, tags: seq<string>, prefix: string,
                            ds: seq<Directory>, cs: seq<Config>, bound: nat)
  {
    && Enumerates(ds, ReadableSet(t, tags)) && Enumerates(cs, VisibleConfigs(t, tags, prefix))
    && AllFlat(ds) && Bounded(ds, bound)
    && tree == Populated(ROOT, ds, cs, bound)
  }

  ghost predicate IsTree(tree: Directory, t: Tables, tags: seq<string>, prefix: string) {
    exists ds, cs, bound :: BuiltFrom(tree, t, tags, prefix, ds, cs, bound)
  }

  // ---------------------------------------------------------------- counting in enumerations

  lemma {:induction false} CountPathOf(ds: seq<Directory>, d: Directory)
    requires NoDuplicates(ds) && forall e :: e in ds && e.FullPath() == d.FullPath() ==> e == d
    ensures CountPath(ds, d.FullPath()) == if d in ds then 1 else 0
  {
    if ds != [] {
      CountPathOf(ds[1..], d);
    }
  }

  lemma {:induction false} DirectoriesAtOf(ds: seq<Directory>, d: Directory, p: string)
    requires NoDuplicates(ds) && forall e :: e in ds && e.id == d.id ==> e == d
    ensures DirectoriesAt(ds, p, DirectoryItem(d.id)) == if d in ds && d.path == p then 1 else 0
  {
    if ds != [] {
      DirectoriesAtOf(ds[1..], d, p);
    }
  }

  lemma {:induction false} NoDirectoryAt(ds: seq<Directory>, p: string, x: Item)
    requires forall e :: e in ds ==> x != DirectoryItem(e.id)
    ensures DirectoriesAt(ds, p, x) == 0
  {
    if ds != [] {
      NoDirectoryAt(ds[1..], p, x);
    }
  }

  lemma {:induction false} NoConfigAt(cs: seq<Config>, p: string, x: Item)
    requires forall c: Config :: c in cs ==> x != ConfigItem(c.id)
    ensures CountConfigs(Matching(cs, p), x) == 0
  {
    if cs != [] {
      NoConfigAt(cs[1..], p, x);
      MatchingHead(cs, p, x);
    }
  }

  lemma MatchingHead(cs: seq<Config>, p: string, x: Item)
    requires cs != []
    ensures CountConfigs(Matching(cs, p), x)
         == CountConfigs(Matching(cs[1..], p), x) + (if RootNormalised(cs[0].path) == p && x == ConfigItem(cs[0].id) then 1 else 0)
  {
    var tail := Matching(cs[1..], p);
    if RootNormalised(cs[0].path) == p {
      assert Matching(cs, p) == [cs[0]] + tail && ([cs[0]] + tail)[1..] == tail;
    } else {
      assert Matching(cs, p) == [] + tail == tail;
    }
  }

  lemma {:induction false} ConfigsAtOf(cs: seq<Config>, c: Config, p: string)
    requires NoDuplicates(cs) && forall e: Config :: e in cs && e.id == c.id ==> e == c
    ensures CountConfigs(Matching(cs, p), ConfigItem(c.id)) == if c in cs && RootNormalised(c.path) == p then 1 else 0
  {
    if cs != [] {
      ConfigsAtOf(cs[1..], c, p);
      MatchingHead(cs, p, ConfigItem(c.id));
    }
  }

  // ---------------------------------------------------------------- readable directories

  lemma DirectoryMessageFlat(t: Tables, id: int)
    requires Inv(t) && id in t.directory
    ensures Flat(DirectoryMessage(t, id))
  {
    assert DirectoryOk(t.directory, id);
  }

  /** The readable directories are closed under taking ancestors. */
  lemma {:induction false} WayTraversable(t: Tables, tags: seq<string>, ks: seq<string>, i: nat)
    requires TreeInv(t.directory, t.lastInode) && Components(ks) && 1 <= i <= |ks| && Traversable(t, FullOf(ks), tags)
    ensures Traversable(t, FullOf(ks[..i]), tags) && IsDirectory(t.directory, FullOf(ks[..i]))
    decreases |ks|
  {
    FullOfRoot(ks);
    TraversableIsDirectory(t, FullOf(ks), tags);
    if i < |ks| {
      var id :| id in t.directory && RowPath(t.directory[id]) == FullOf(ks);
      assert DirectoryOk(t.directory, id);
      RowAtPath(t.directory[id], ks);
      TraversableAt(t, id, tags);
      WayTraversable(t, tags, ks[..|ks| - 1], i);
      assert ks[..|ks| - 1][..i] == ks[..i];
    } else {
      assert ks[..i] == ks;
    }
  }

  /** The directory at a readable path is listed once. */
  lemma ListedOnce(t: Tables, tags: seq<string>, ds: seq<Directory>, p: string)
    requires Inv(t) && Enumerates(ds, ReadableSet(t, tags))
    requires IsDirectory(t.directory, p) && Traversable(t, p, tags)
    ensures CountPath(ds, p) == 1
  {
    var id :| id in t.directory && RowPath(t.directory[id]) == p;
    var d := DirectoryMessage(t, id);
    forall e | e in ds && e.FullPath() == d.FullPath()
      ensures e == d
    {
      assert e in ReadableSet(t, tags);
    }
    assert d in ReadableSet(t, tags);
    CountPathOf(ds, d);
  }

  lemma WayIsListed(t: Tables, tags: seq<string>, ds: seq<Directory>, home: seq<string>)
    requires Inv(t) && Enumerates(ds, ReadableSet(t, tags))
    requires Components(home) && Traversable(t, FullOf(home), tags)
    ensures WayListed(ds, home)
  {
    forall i | 1 <= i <= |home|
      ensures CountPath(ds, FullOf(home[..i])) == 1
    {
      WayTraversable(t, tags, home, i);
      ListedOnce(t, tags, ds, FullOf(home[..i]));
    }
  }

  // ---------------------------------------------------------------- where items live

  /** How often an item is listed for a caller: once when readable or visible, else never. */
  ghost predicate Listed(t: Tables, tags: seq<string>, prefix: string, x: Item) {
    match x
    case DirectoryItem(id) => id.Num? && id.n in t.directory && Traversable(t, RowPath(t.directory[id.n]), tags)
    case ConfigItem(id) => id.Num? && Shown(t, tags, prefix, id.n)
  }

  /** The parts of the directory an item belongs into. */
  ghost function HomeOf(t: Tables, x: Item): seq<string> {
    match x
    case DirectoryItem(id) => if id.Num? && id.n in t.directory then CleanParts(t.directory[id.n].path) else []
    case ConfigItem(id) => if id.Num? && id.n in t.config then CleanParts(RootNormalised(t.config[id.n].path)) else []
  }

  lemma PlaceCanonical(t: Tables, p: string)
    requires Inv(t) && IsPlace(t.directory, p)
    ensures Components(CleanParts(RootNormalised(p))) && RootNormalised(p) == FullOf(CleanParts(RootNormalised(p)))
  {
    CleanPartsComponents(RootNormalised(p));
    if p != "" && p != "/" {
      DirectoriesCanonical(t.directory, t.lastInode, p);
    }
    CanonicalRoundTrip(RootNormalised(p));
  }

  /** The home of a listed item is a path the caller may walk. */
  lemma HomeTraversable(t: Tables, tags: seq<string>, prefix: string, x: Item)
    requires Inv(t) && Listed(t, tags, prefix, x)
    ensures Components(HomeOf(t, x)) && Traversable(t, FullOf(HomeOf(t, x)), tags)
  {
    match x
    case DirectoryItem(id) =>
      assert DirectoryOk(t.directory, id.n);
      CleanPartsComponents(t.directory[id.n].path);
      CanonicalRoundTrip(t.directory[id.n].path);
      TraversableAt(t, id.n, tags);
    case ConfigItem(id) =>
      assert IsPlace(t.directory, t.config[id.n].path);
      PlaceCanonical(t, t.config[id.n].path);
  }

  lemma ReadableIsListed(t: Tables, tags: seq<string>, ds: seq<Directory>, id: int, p: string)
    requires Enumerates(ds, ReadableSet(t, tags))
    requires id in t.directory && Traversable(t, RowPath(t.directory[id]), tags)
    ensures DirectoriesAt(ds, p, DirectoryItem(Num(id))) == if t.directory[id].path == p then 1 else 0
  {
    var d := DirectoryMessage(t, id);
    assert d in ReadableSet(t, tags);
    forall e | e in ds && e.id == d.id
      ensures e == d
    {
      assert e in ReadableSet(t, tags);
    }
    DirectoriesAtOf(ds, d, p);
  }

  lemma DirectoryDirect(t: Tables, tags: seq<string>, ds: seq<Directory>, cs: seq<Config>, id: Id, p: string)
    requires Inv(t) && Enumerates(ds, ReadableSet(t, tags))
    ensures Direct(p, ds, cs, DirectoryItem(id))
         == if Listed(t, tags, "", DirectoryItem(id)) && p == FullOf(HomeOf(t, DirectoryItem(id))) then 1 else 0
  {
    NoConfigAt(cs, p, DirectoryItem(id));
    if Listed(t, tags, "", DirectoryItem(id)) {
      ReadableIsListed(t, tags, ds, id.n, p);
      assert DirectoryOk(t.directory, id.n);
      CanonicalRoundTrip(t.directory[id.n].path);
    } else {
      forall e | e in ds
        ensures e.id != id
      {
        assert e in ReadableSet(t, tags);
      }
      NoDirectoryAt(ds, p, DirectoryItem(id));
    }
  }

  lemma ConfigDirect(t: Tables, tags: seq<string>, prefix: string, ds: seq<Directory>, cs: seq<Config>, id: Id, p: string)
    requires Inv(t) && Enumerates(cs, VisibleConfigs(t, tags, prefix))
    ensures Direct(p, ds, cs, ConfigItem(id))
         == if Listed(t, tags, prefix, ConfigItem(id)) && p == FullOf(HomeOf(t, ConfigItem(id))) then 1 else 0
  {
    NoDirectoryAt(ds, p, ConfigItem(id));
    if Listed(t, tags, prefix, ConfigItem(id)) {
      var c := ConfigMessage(t, id.n);
      assert c in VisibleConfigs(t, tags, prefix);
      forall e: Config | e in cs && e.id == c.id
        ensures e == c
      {
        assert e in VisibleConfigs(t, tags, prefix);
      }
      ConfigsAtOf(cs, c, p);
      assert IsPlace(t.directory, c.path);
      PlaceCanonical(t, c.path);
    } else {
      forall e: Config | e in cs
        ensures e.id != id
      {
        assert e in VisibleConfigs(t, tags, prefix);
      }
      NoConfigAt(cs, p, ConfigItem(id));
    }
  }

  /** Below any listed directory an item occurs once if it is listed and lives there, else never. */
  lemma TallyBelow(t: Tables, tags: seq<string>, prefix: string, ds: seq<Directory>, cs: seq<Config>, bound: nat,
                   d: Directory, ks: seq<string>, x: Item)
    requires Inv(t) && Enumerates(ds, ReadableSet(t, tags)) && Enumerates(cs, VisibleConfigs(t, tags, prefix))
    requires AllFlat(ds) && Bounded(ds, bound)
    requires Components(ks) && d.FullPath() == FullOf(ks) && d.directories == [] && d.configs == []
    ensures Tally(Populated(d, ds, cs, bound), x)
         == if Listed(t, tags, prefix, x) && ks <= HomeOf(t, x) then 1 else 0
  {
    var listed := Listed(t, tags, prefix, x);
    var home := if listed then HomeOf(t, x) else [];
    forall p
      ensures Direct(p, ds, cs, x) == if p == FullOf(home) then (if listed then 1 else 0) else 0
    {
      match x
      case DirectoryItem(id) => DirectoryDirect(t, tags, ds, cs, id, p);
      case ConfigItem(id) => ConfigDirect(t, tags, prefix, ds, cs, id, p);
    }
    if listed {
      HomeTraversable(t, tags, prefix, x);
      WayIsListed(t, tags, ds, home);
    }
    PopulatedTally(d, ks, ds, cs, bound, x, home, if listed then 1 else 0);
  }

  // ---------------------------------------------------------------- main results

  /** The tree is exact: every readable directory and every visible config (in the subtree asked
      for) occurs exactly once, and nothing else occurs. */
  lemma TreeIsExact(tree: Directory, t: Tables, tags: seq<string>, prefix: string, x: Item)
    requires Inv(t) && IsTree(tree, t, tags, prefix)
    ensures Tally(tree, x) == if Listed(t, tags, prefix, x) then 1 else 0
  {
    var ds, cs, bound :| BuiltFrom(tree, t, tags, prefix, ds, cs, bound);
    FullOfRoot([]);
    TallyBelow(t, tags, prefix, ds, cs, bound, ROOT, [], x);
    assert HomeOf(t, x)[..0] == [];
  }

  /** Every entry lies under the directory whose full path its own path names. */
  ghost predicate WellPlaced(t: Directory) {
    && (forall c: Config :: c in t.configs ==> RootNormalised(c.path) == t.FullPath())
    && (forall d :: d in t.directories ==> d.path == t.FullPath() && WellPlaced(d))
  }

  lemma {:induction false} PopulatedWellPlaced(d: Directory, ds: seq<Directory>, cs: seq<Config>, bound: nat)
    requires AllFlat(ds) && Bounded(ds, bound) && d.directories == [] && d.configs == []
    ensures WellPlaced(Populated(d, ds, cs, bound))
    decreases Room(d.FullPath(), bound)
  {
    var p := d.FullPath();
    var full := Populated(d, ds, cs, bound);
    assert full.directories == Children(p, ds, ds, cs, bound) && full.configs == Matching(cs, p);
    forall c: Config | c in full.configs
      ensures RootNormalised(c.path) == p
    {
      MatchingMembers(cs, p, c);
    }
    forall e | e in full.directories
      ensures e.path == p && WellPlaced(e)
    {
      ChildrenMembers(p, ds, ds, cs, bound, e);
      var o :| o in ds && o.path == p && e == Populated(o, ds, cs, bound);
      FlatPaths(o);
      PopulatedWellPlaced(o, ds, cs, bound);
    }
  }

  lemma TreeIsWellPlaced(tree: Directory, t: Tables, tags: seq<string>, prefix: string)
    requires IsTree(tree, t, tags, prefix)
    ensures WellPlaced(tree)
  {
    var ds, cs, bound :| BuiltFrom(tree, t, tags, prefix, ds, cs, bound);
    PopulatedWellPlaced(ROOT, ds, cs, bound);
  }

  /** GetConfig's answer for a caller, as the handler computes it. */
  ghost predicate CanGetConfig(t: Tables, id: Id, tags: seq<string>) {
    var f := GetConfigByID(t, id, true, NoId);
    f.Found? && f.value.Allows(tags, READ) && ChainReadable(t, f.value.path, tags)
  }

  ghost predicate CanGetDirectory(t: Tables, id: Id, tags: seq<string>) {
    var f := GetDirectoryByID(t, id);
    f.Found? && ChainReadable(t, f.value.FullPath(), tags)
  }

  /** List and Get agree: a config is in the caller's tree exactly when the caller can get it by id,
      and a directory likewise. */
  lemma ListAgreesWithGet(tree: Directory, t: Tables, tags: seq<string>, id: Id)
    requires Inv(t) && IsTree(tree, t, tags, "")
    ensures Tally(tree, ConfigItem(id)) == (if CanGetConfig(t, id, tags) then 1 else 0)
    ensures Tally(tree, DirectoryItem(id)) == (if CanGetDirectory(t, id, tags) then 1 else 0)
  {
    TreeIsExact(tree, t, tags, "", ConfigItem(id));
    TreeIsExact(tree, t, tags, "", DirectoryItem(id));
    if id.Num? && id.n in t.config {
      assert CurrentOk(t.config, t.content, id.n);
      ChainDecidesRule(t, t.config[id.n].path, tags);
    }
    if id.Num? && id.n in t.directory {
      ChainDecidesRule(t, RowPath(t.directory[id.n]), tags);
    }
  }

  // ---------------------------------------------------------------- the pushed-down filter

  /** The directory found in a tree is the listed one, filled from the same lists. */
  lemma FoundDirectory(tree: Directory, t: Tables, tags: seq<string>, prefix: string,
                       ds: seq<Directory>, cs: seq<Config>, bound: nat, id: int)
    requires Inv(t) && id in t.directory && BuiltFrom(tree, t, tags, prefix, ds, cs, bound)
    ensures FindDirectory(Num(id), tree)
         == if Traversable(t, RowPath(t.directory[id]), tags) then Some(Populated(DirectoryMessage(t, id), ds, cs, bound)) else None
  {
    TreeIsExact(tree, t, tags, prefix, DirectoryItem(Num(id)));
    NoConfigIsDirectory(tree.configs, Num(id));
    FindsIffPresent(Num(id), tree.directories);
    assert tree.directories == Children("/", ds, ds, cs, bound);
    FoundIsPopulated(Num(id), "/", ds, ds, cs, bound);
    if FindDirectory(Num(id), tree).Some? {
      var o :| o in ds && o.id == Num(id) && FindDirectory(Num(id), tree).value == Populated(o, ds, cs, bound);
      assert o in ReadableSet(t, tags);
    }
  }

  lemma SameMembersBeneath(t: Tables, tags: seq<string>, prefix: string)
    requires prefix != ""
    ensures forall c: Config :: InSubtree(c.path, prefix) ==> (c in VisibleConfigs(t, tags, prefix) <==> c in VisibleConfigs(t, tags, ""))
  {
  }

  lemma SetOfEnumeration<T(!new)>(s: seq<T>, members: set<T>)
    requires Enumerates(s, members)
    ensures (set x | x in s) == members
  {
  }

  /** The shape of a directory filled from any listing of the readable directories. */
  lemma ShapeOfFilled(t: Tables, tags: seq<string>, prefix: string, ds: seq<Directory>, cs: seq<Config>, bound: nat, d: Directory)
    requires Enumerates(ds, ReadableSet(t, tags)) && Enumerates(cs, VisibleConfigs(t, tags, prefix))
    requires AllFlat(ds) && Bounded(ds, bound) && d.directories == [] && d.configs == []
    ensures Growing(ReadableSet(t, tags), bound)
    ensures ShapeOf(Populated(d, ds, cs, bound)) == ShapeBelow(d, ReadableSet(t, tags), VisibleConfigs(t, tags, prefix), bound)
  {
    SetOfEnumeration(ds, ReadableSet(t, tags));
    SetOfEnumeration(cs, VisibleConfigs(t, tags, prefix));
    DeepensGrowing(ds, bound);
    PopulatedShape(d, ds, cs, bound);
  }

  /** The shape does not depend on how large the bound is. */
  lemma {:induction false} ShapeBoundFree(d: Directory, ds: set<Directory>, cs: set<Config>, b: nat, b': nat)
    requires Growing(ds, b) && Growing(ds, b')
    ensures ShapeBelow(d, ds, cs, b) == ShapeBelow(d, ds, cs, b')
    decreases Room(d.FullPath(), b)
  {
    var p := d.FullPath();
    forall e | e in ds && e.path == p
      ensures ShapeBelow(e, ds, cs, b) == ShapeBelow(e, ds, cs, b')
    {
      ShapeBoundFree(e, ds, cs, b, b');
    }
    assert ShapeBelow(d, ds, cs, b).directories == ShapeBelow(d, ds, cs, b').directories;
  }

  /** An item that lives beneath a directory is listed under that directory's prefix iff it is at all. */
  lemma ListedBeneath(t: Tables, tags: seq<string>, id: int, x: Item)
    requires Inv(t) && id in t.directory && RowParts(t.directory[id]) <= HomeOf(t, x)
    ensures Listed(t, tags, RowPath(t.directory[id]), x) <==> Listed(t, tags, "", x)
  {
    assert DirectoryOk(t.directory, id);
    RowPartsOfPath(t.directory[id]);
    if Listed(t, tags, "", x) && x.ConfigItem? {
      var c := x.id.n;
      assert IsPlace(t.directory, t.config[c].path);
      PlaceCanonical(t, t.config[c].path);
      PrefixInSubtree(RowParts(t.directory[id]), HomeOf(t, x));
      FullOfRoot(HomeOf(t, x));
    }
  }

  /** Filter pushdown preserves meaning: listing with a directory id gives, up to sibling order, the
      subtree found in the unfiltered tree, and nothing in both cases when the caller may not read it. */
  lemma FilterPushdown(pruned: Directory, whole: Directory, t: Tables, tags: seq<string>, id: int)
    requires Inv(t) && id in t.directory
    requires IsTree(pruned, t, tags, RowPath(t.directory[id])) && IsTree(whole, t, tags, "")
    ensures match (FindDirectory(Num(id), pruned), FindDirectory(Num(id), whole))
            case (Some(a), Some(b)) => ShapeOf(a) == ShapeOf(b) && forall x :: Tally(a, x) == Tally(b, x) <= 1
            case (None, None) => !Traversable(t, RowPath(t.directory[id]), tags)
            case _ => false
  {
    var prefix := RowPath(t.directory[id]);
    var ds, cs, b :| BuiltFrom(pruned, t, tags, prefix, ds, cs, b);
    var ds', cs', b' :| BuiltFrom(whole, t, tags, "", ds', cs', b');
    FoundDirectory(pruned, t, tags, prefix, ds, cs, b, id);
    FoundDirectory(whole, t, tags, "", ds', cs', b', id);
    var d := DirectoryMessage(t, id);
    if Traversable(t, prefix, tags) {
      SubtreesMatch(t, tags, id, ds, cs, b, ds', cs', b');
      forall x
        ensures Tally(Populated(d, ds, cs, b), x) == Tally(Populated(d, ds', cs', b'), x) <= 1
      {
        TalliesMatch(t, tags, id, ds, cs, b, ds', cs', b', x);
      }
    }
  }

  lemma TalliesMatch(t: Tables, tags: seq<string>, id: int, ds: seq<Directory>, cs: seq<Config>, b: nat,
                     ds': seq<Directory>, cs': seq<Config>, b': nat, x: Item)
    requires Inv(t) && id in t.directory
    requires Enumerates(ds, ReadableSet(t, tags)) && Enumerates(ds', ReadableSet(t, tags))
    requires Enumerates(cs, VisibleConfigs(t, tags, RowPath(t.directory[id]))) && Enumerates(cs', VisibleConfigs(t, tags, ""))
    requires AllFlat(ds) && Bounded(ds, b) && AllFlat(ds') && Bounded(ds', b')
    ensures Tally(Populated(DirectoryMessage(t, id), ds, cs, b), x) == Tally(Populated(DirectoryMessage(t, id), ds', cs', b'), x) <= 1
  {
    var d, ks := DirectoryMessage(t, id), RowParts(t.directory[id]);
    assert DirectoryOk(t.directory, id);
    RowPartsOfPath(t.directory[id]);
    TallyBelow(t, tags, RowPath(t.directory[id]), ds, cs, b, d, ks, x);
    TallyBelow(t, tags, "", ds', cs', b', d, ks, x);
    if ks <= HomeOf(t, x) {
      ListedBeneath(t, tags, id, x);
    }
  }

  lemma SubtreesMatch(t: Tables, tags: seq<string>, id: int, ds: seq<Directory>, cs: seq<Config>, b: nat,
                      ds': seq<Directory>, cs': seq<Config>, b': nat)
    requires Inv(t) && id in t.directory
    requires Enumerates(ds, ReadableSet(t, tags)) && Enumerates(ds', ReadableSet(t, tags))
    requires Enumerates(cs, VisibleConfigs(t, tags, RowPath(t.directory[id]))) && Enumerates(cs', VisibleConfigs(t, tags, ""))
    requires AllFlat(ds) && Bounded(ds, b) && AllFlat(ds') && Bounded(ds', b')
    ensures ShapeOf(Populated(DirectoryMessage(t, id), ds, cs, b)) == ShapeOf(Populated(DirectoryMessage(t, id), ds', cs', b'))
  {
    var d, prefix := DirectoryMessage(t, id), RowPath(t.directory[id]);
    var readable := ReadableSet(t, tags);
    var some, all := VisibleConfigs(t, tags, prefix), VisibleConfigs(t, tags, "");
    assert DirectoryOk(t.directory, id);
    RowPartsOfPath(t.directory[id]);
    ShapeOfFilled(t, tags, prefix, ds, cs, b, d);
    ShapeOfFilled(t, tags, "", ds', cs', b', d);
    SameMembersBeneath(t, tags, prefix);
    SubtreeShape(d, readable, some, all, b, prefix);
    ShapeBoundFree(d, readable, all, b, b');
  }
}
