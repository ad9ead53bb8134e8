/** The client's snapshot index: maps filled from the tree a listing answers with, and the file system
    walk over them. */
module ClientIndex {
  import opened Paths
  import opened Messages
  import opened Tables
  import opened Tree
  import opened TreeShape
  import opened Listing

  type PathIndex = map<string, Directory>
  type IdIndex = map<Id, Config>
  type ConfigIndex = map<string, Config>

  // ---------------------------------------------------------------- what is in a tree

  /** A tree's directories, itself first, each before those below it. */
  ghost function Nodes(t: Directory): seq<Directory> {
    [t] + ForestNodes(t.directories)
  }

  ghost function ForestNodes(ts: seq<Directory>): seq<Directory> {
    if ts == [] then [] else Nodes(ts[0]) + ForestNodes(ts[1..])
  }

  ghost function ConfigsOf(ns: seq<Directory>): seq<Config> {
    if ns == [] then [] else ns[0].configs + ConfigsOf(ns[1..])
  }

  lemma {:induction false} ConfigsOfConcat(a: seq<Directory>, b: seq<Directory>)
    ensures ConfigsOf(a + b) == ConfigsOf(a) + ConfigsOf(b)
  {
    if a == [] {
      assert a + b == b;
    } else {
      assert (a + b)[1..] == a[1..] + b;
      ConfigsOfConcat(a[1..], b);
    }
  }

  lemma {:induction false} ForestNodesSnoc(ts: seq<Directory>, t: Directory)
    ensures ForestNodes(ts + [t]) == ForestNodes(ts) + Nodes(t)
  {
    if ts == [] {
      assert [] + [t] == [t] && ForestNodes([t][1..]) == [];
    } else {
      assert (ts + [t])[1..] == ts[1..] + [t];
      ForestNodesSnoc(ts[1..], t);
    }
  }

  // ---------------------------------------------------------------- directoryMap

  /** The first directory per full path wins. */
  ghost function AddPaths(m: PathIndex, ns: seq<Directory>): PathIndex
    decreases |ns|
  {
    if ns == [] then m
    else AddPaths(if ns[0].FullPath() in m then m else m[ns[0].FullPath() := ns[0]], ns[1..])
  }

  /** The last config per id wins. */
  ghost function AddIds(c: IdIndex, cs: seq<Config>): IdIndex
    decreases |cs|
  {
    if cs == [] then c else AddIds(c[cs[0].id := cs[0]], cs[1..])
  }

  ghost function AddConfigs(cp: ConfigIndex, cs: seq<Config>): ConfigIndex
    decreases |cs|
  {
    if cs == [] then cp else AddConfigs(cp[cs[0].FullPath() := cs[0]], cs[1..])
  }

  lemma {:induction false} AddPathsConcat(m: PathIndex, a: seq<Directory>, b: seq<Directory>)
    ensures AddPaths(m, a + b) == AddPaths(AddPaths(m, a), b)
    decreases |a|
  {
    if a == [] {
      assert a + b == b;
    } else {
      assert (a + b)[0] == a[0] && (a + b)[1..] == a[1..] + b;
      AddPathsConcat(if a[0].FullPath() in m then m else m[a[0].FullPath() := a[0]], a[1..], b);
    }
  }

  lemma {:induction false} AddIdsConcat(c: IdIndex, a: seq<Config>, b: seq<Config>)
    ensures AddIds(c, a + b) == AddIds(AddIds(c, a), b)
    decreases |a|
  {
    if a == [] {
      assert a + b == b;
    } else {
      assert (a + b)[0] == a[0] && (a + b)[1..] == a[1..] + b;
      AddIdsConcat(c[a[0].id := a[0]], a[1..], b);
    }
  }

  lemma {:induction false} AddConfigsConcat(cp: ConfigIndex, a: seq<Config>, b: seq<Config>)
    ensures AddConfigs(cp, a + b) == AddConfigs(AddConfigs(cp, a), b)
    decreases |a|
  {
    if a == [] {
      assert a + b == b;
    } else {
      assert (a + b)[0] == a[0] && (a + b)[1..] == a[1..] + b;
      AddConfigsConcat(cp[a[0].FullPath() := a[0]], a[1..], b);
    }
  }

  /** The three maps with a tree's directories and configs added. */
  ghost predicate Indexes(ns: seq<Directory>, m: PathIndex, c: IdIndex, cp: ConfigIndex, m': PathIndex, c': IdIndex, cp': ConfigIndex) {
    m' == AddPaths(m, ns) && c' == AddIds(c, ConfigsOf(ns)) && cp' == AddConfigs(cp, ConfigsOf(ns))
  }

  lemma IndexesMore(a: seq<Directory>, b: seq<Directory>, m: PathIndex, c: IdIndex, cp: ConfigIndex,
                    m1: PathIndex, c1: IdIndex, cp1: ConfigIndex, m2: PathIndex, c2: IdIndex, cp2: ConfigIndex)
    requires Indexes(a, m, c, cp, m1, c1, cp1) && Indexes(b, m1, c1, cp1, m2, c2, cp2)
    ensures Indexes(a + b, m, c, cp, m2, c2, cp2)
  {
    AddPathsConcat(m, a, b);
    ConfigsOfConcat(a, b);
    AddIdsConcat(c, ConfigsOf(a), ConfigsOf(b));
    AddConfigsConcat(cp, ConfigsOf(a), ConfigsOf(b));
  }

  /** The loop over one directory's configs. */
  method MapConfigs(configs: seq<Config>, c: IdIndex, cp: ConfigIndex) returns (c': IdIndex, cp': ConfigIndex)
    ensures c' == AddIds(c, configs) && cp' == AddConfigs(cp, configs)
  {
    c', cp' := c, cp;
    for i := 0 to |configs|
      invariant c' == AddIds(c, configs[..i]) && cp' == AddConfigs(cp, configs[..i])
    {
      assert configs[..i + 1] == configs[..i] + [configs[i]];
      AddIdsConcat(c, configs[..i], [configs[i]]);
      AddConfigsConcat(cp, configs[..i], [configs[i]]);
      assert [configs[i]][1..] == [];
      c' := c'[configs[i].id := configs[i]];
      cp' := cp'[configs[i].FullPath() := configs[i]];
    }
    assert configs[..|configs|] == configs;
  }

  lemma TopIndexed(top: Directory, m: PathIndex, c: IdIndex, cp: ConfigIndex, c': IdIndex, cp': ConfigIndex)
    requires c' == AddIds(c, top.configs) && cp' == AddConfigs(cp, top.configs)
    ensures Indexes([top], m, c, cp, if top.FullPath() in m then m else m[top.FullPath() := top], c', cp')
  {
    assert [top][1..] == [];
    assert ConfigsOf([top][1..]) == [];
    assert ConfigsOf([top]) == top.configs;
    assert AddPaths(if top.FullPath() in m then m else m[top.FullPath() := top], [top][1..]) == (if top.FullPath() in m then m else m[top.FullPath() := top]);
  }

  /** The nodes of a directory and of its first n subdirectories. */
  ghost function NodesUpTo(top: Directory, n: nat): seq<Directory>
    requires n <= |top.directories|
  {
    [top] + ForestNodes(top.directories[..n])
  }

  lemma NodesUpToEnds(top: Directory)
    ensures NodesUpTo(top, 0) == [top]
    ensures NodesUpTo(top, |top.directories|) == Nodes(top)
  {
    assert top.directories[..|top.directories|] == top.directories;
  }

  lemma NodesUpToNext(top: Directory, n: nat)
    requires n < |top.directories|
    ensures NodesUpTo(top, n + 1) == NodesUpTo(top, n) + Nodes(top.directories[n])
  {
    ForestNodesSnoc(top.directories[..n], top.directories[n]);
    assert top.directories[..n + 1] == top.directories[..n] + [top.directories[n]];
  }

  /** directoryMap: the recursion that fills the three maps. */
  method DirectoryMap(top: Directory, m: PathIndex, c: IdIndex, cp: ConfigIndex)
    returns (m': PathIndex, c': IdIndex, cp': ConfigIndex)
    ensures Indexes(Nodes(top), m, c, cp, m', c', cp')
    decreases top
  {
    m' := if top.FullPath() in m then m else m[top.FullPath() := top];
    c', cp' := MapConfigs(top.configs, c, cp);
    TopIndexed(top, m, c, cp, c', cp');
    NodesUpToEnds(top);
    for i := 0 to |top.directories|
      invariant Indexes(NodesUpTo(top, i), m, c, cp, m', c', cp')
    {
      ghost var m1, c1, cp1 := m', c', cp';
      m', c', cp' := DirectoryMap(top.directories[i], m', c', cp');
      NodesUpToNext(top, i);
      IndexesMore(NodesUpTo(top, i), Nodes(top.directories[i]), m, c, cp, m1, c1, cp1, m', c', cp');
    }
  }

  // ---------------------------------------------------------------- what the maps then hold

  ghost predicate UniqueFullPaths(ns: seq<Directory>) {
    forall a, b :: a in ns && b in ns && a.FullPath() == b.FullPath() ==> a == b
  }

  /** The directories by full path, exactly. */
  lemma {:induction false} PathsHeld(m: PathIndex, ns: seq<Directory>)
    ensures var m' := AddPaths(m, ns);
            && (forall p :: p in m ==> p in m' && m'[p] == m[p])
            && (forall n :: n in ns ==> n.FullPath() in m')
            && (forall p :: p in m' && p !in m ==> m'[p] in ns && m'[p].FullPath() == p)
    decreases |ns|
  {
    if ns != [] {
      PathsHeld(if ns[0].FullPath() in m then m else m[ns[0].FullPath() := ns[0]], ns[1..]);
    }
  }

  lemma {:induction false} IdsHeld(c: IdIndex, cs: seq<Config>)
    ensures var c' := AddIds(c, cs);
            && (forall k :: k in c ==> k in c')
            && (forall x: Config :: x in cs ==> x.id in c')
            && (forall k :: k in c' ==> (k in c && c'[k] == c[k]) || (c'[k] in cs && c'[k].id == k))
    decreases |cs|
  {
    if cs != [] {
      IdsHeld(c[cs[0].id := cs[0]], cs[1..]);
    }
  }

  lemma {:induction false} ConfigsHeld(cp: ConfigIndex, cs: seq<Config>)
    ensures var cp' := AddConfigs(cp, cs);
            && (forall k :: k in cp ==> k in cp')
            && (forall x: Config :: x in cs ==> x.FullPath() in cp')
            && (forall k :: k in cp' ==> (k in cp && cp'[k] == cp[k]) || (cp'[k] in cs && cp'[k].FullPath() == k))
    decreases |cs|
  {
    if cs != [] {
      ConfigsHeld(cp[cs[0].FullPath() := cs[0]], cs[1..]);
    }
  }

  /** A refreshed index: the maps filled from one tree, starting empty. */
  ghost predicate IndexOf(t: Directory, m: PathIndex, c: IdIndex, cp: ConfigIndex) {
    Indexes(Nodes(t), map[], map[], map[], m, c, cp)
  }

  // ---------------------------------------------------------------- walking

  /** The first child with the name. */
  function ChildNamed(ds: seq<Directory>, name: string): Option<Directory> {
    if ds == [] then None else if ds[0].name == name then Some(ds[0]) else ChildNamed(ds[1..], name)
  }

  function ConfigNamed(cs: seq<Config>, name: string): Option<Config> {
    if cs == [] then None else if cs[0].name == name then Some(cs[0]) else ConfigNamed(cs[1..], name)
  }

  /** A node of the mounted file system: a directory by its path, or a file by its config's id. */
  datatype Node = DirNode(path: string) | FileNode(id: Id)

  /** Dir.Lookup: directories before configs; a directory no longer indexed has neither. */
  function Lookup(m: PathIndex, path: string, name: string): Option<Node> {
    if path !in m then None
    else
      match ChildNamed(m[path].directories, name)
      case Some(d) => Some(DirNode(d.FullPath()))
      case None =>
        match ConfigNamed(m[path].configs, name)
        case Some(c) => Some(FileNode(c.id))
        case None => None
  }

  /** Looking up one name after the other, through directories. */
  ghost function Walk(m: PathIndex, from: string, names: seq<string>): Option<string> {
    if names == [] then Some(from)
    else
      match Walk(m, from, names[..|names| - 1])
      case None => None
      case Some(p) =>
        match Lookup(m, p, names[|names| - 1])
        case Some(DirNode(q)) => Some(q)
        case _ => None
  }

  ghost predicate Reached(m: PathIndex, from: string, p: string) {
    exists names :: Walk(m, from, names) == Some(p)
  }

  lemma {:induction false} ChildNamedFound(ds: seq<Directory>, name: string)
    ensures match ChildNamed(ds, name)
            case Some(d) => d in ds && d.name == name
            case None => forall d :: d in ds ==> d.name != name
  {
    if ds != [] {
      ChildNamedFound(ds[1..], name);
    }
  }

  lemma ReachedFurther(m: PathIndex, from: string, p: string, name: string, q: string)
    requires Reached(m, from, p) && Lookup(m, p, name) == Some(DirNode(q))
    ensures Reached(m, from, q)
  {
    var names :| Walk(m, from, names) == Some(p);
    assert (names + [name])[..|names|] == names;
    assert Walk(m, from, names + [name]) == Some(q);
  }

  lemma {:induction false} ForestMember(ts: seq<Directory>, n: Directory)
    ensures n in ForestNodes(ts) <==> exists t :: t in ts && n in Nodes(t)
  {
    if ts != [] {
      ForestMember(ts[1..], n);
      if n in Nodes(ts[0]) {
        assert ts[0] in ts;
      } else if n in ForestNodes(ts[1..]) {
        var t :| t in ts[1..] && n in Nodes(t);
        assert t in ts;
      }
      if exists t :: t in ts && n in Nodes(t) {
        var t :| t in ts && n in Nodes(t);
        assert t == ts[0] || t in ts[1..];
      }
    }
  }

  /** A child of a directory of the tree is a directory of the tree. */
  lemma {:induction false} ChildInTree(t: Directory, n: Directory, d: Directory)
    requires n in Nodes(t) && d in n.directories
    ensures d in Nodes(t)
    decreases t
  {
    if n == t {
      ForestMember(t.directories, d);
      assert d in Nodes(d);
    } else {
      ForestMember(t.directories, n);
      var e :| e in t.directories && n in Nodes(e);
      ChildInTree(e, n, d);
      ForestMember(t.directories, d);
    }
  }

  /** The index maps the full path of each directory of the tree to it, and nothing else. */
  ghost predicate MapsNodes(m: PathIndex, t: Directory) {
    && (forall n :: n in Nodes(t) ==> n.FullPath() in m && m[n.FullPath()] == n)
    && (forall p :: p in m ==> m[p] in Nodes(t) && m[p].FullPath() == p)
  }

  lemma IndexMapsNodes(t: Directory, m: PathIndex, c: IdIndex, cp: ConfigIndex)
    requires IndexOf(t, m, c, cp) && UniqueFullPaths(Nodes(t))
    ensures MapsNodes(m, t)
  {
    PathsHeld(map[], Nodes(t));
  }

  /** One step down the tree: the lookup of a child's name leads to its full path. */
  lemma LookupChild(m: PathIndex, t: Directory, n: Directory, d: Directory)
    requires MapsNodes(m, t) && n in Nodes(t) && d in n.directories && WellPlaced(n)
    requires forall e :: e in n.directories ==> e.path != ""
    ensures Lookup(m, n.FullPath(), d.name) == Some(DirNode(d.FullPath()))
  {
    ChildNamedFound(n.directories, d.name);
  }

  /** Every directory below a reached one is reached. */
  lemma {:induction false} BelowReached(m: PathIndex, t: Directory, from: string, s: Directory, n: Directory)
    requires MapsNodes(m, t) && s in Nodes(t) && Reached(m, from, s.FullPath()) && n in Nodes(s) && WellPlaced(s)
    requires forall a, e :: a in Nodes(t) && e in a.directories ==> e.path != ""
    ensures Reached(m, from, n.FullPath())
    decreases s
  {
    if n != s {
      ForestMember(s.directories, n);
      var d :| d in s.directories && n in Nodes(d);
      ChildInTree(t, s, d);
      LookupChild(m, t, s, d);
      ReachedFurther(m, from, s.FullPath(), d.name, d.FullPath());
      BelowReached(m, t, from, d, n);
    }
  }

  /** Walking never leaves the tree. */
  lemma {:induction false} WalkStays(m: PathIndex, t: Directory, names: seq<string>)
    requires MapsNodes(m, t)
    ensures var end := Walk(m, t.FullPath(), names); end.Some? ==> end.value in m
    decreases |names|
  {
    if names == [] {
      assert t in Nodes(t);
    } else {
      var front := names[..|names| - 1];
      WalkStays(m, t, front);
      var p := Walk(m, t.FullPath(), front);
      if p.Some? {
        ChildNamedFound(m[p.value].directories, names[|names| - 1]);
        var d := ChildNamed(m[p.value].directories, names[|names| - 1]);
        if d.Some? {
          ChildInTree(t, m[p.value], d.value);
        }
      }
    }
  }

  // ---------------------------------------------------------------- the server's trees

  /** Directories below the top come from the list the tree was built from. */
  ghost predicate FromList(n: Directory, ds: seq<Directory>, cs: seq<Config>, bound: nat)
    requires AllFlat(ds) && Bounded(ds, bound)
  {
    exists o :: o in ds && n == Populated(o, ds, cs, bound)
  }

  lemma {:induction false} NodesFromList(d: Directory, ds: seq<Directory>, cs: seq<Config>, bound: nat, n: Directory)
    requires AllFlat(ds) && Bounded(ds, bound) && d.directories == [] && d.configs == []
    requires n in Nodes(Populated(d, ds, cs, bound))
    ensures n == Populated(d, ds, cs, bound) || FromList(n, ds, cs, bound)
    decreases Room(d.FullPath(), bound)
  {
    if n != Populated(d, ds, cs, bound) {
      var o := ChildHolding(d, ds, cs, bound, n);
      NodesFromList(o, ds, cs, bound, n);
    }
  }

  /** A directory below the top of a filled one is in one of its filled children. */
  lemma ChildHolding(d: Directory, ds: seq<Directory>, cs: seq<Config>, bound: nat, n: Directory) returns (o: Directory)
    requires AllFlat(ds) && Bounded(ds, bound) && d.directories == []
    requires n in Nodes(Populated(d, ds, cs, bound)) && n != Populated(d, ds, cs, bound)
    ensures o in ds && n in Nodes(Populated(o, ds, cs, bound)) && o.directories == [] && o.configs == []
    ensures Room(o.FullPath(), bound) < Room(d.FullPath(), bound)
  {
    var full := Populated(d, ds, cs, bound);
    assert full.directories == Children(d.FullPath(), ds, ds, cs, bound);
    ForestMember(full.directories, n);
    var e :| e in full.directories && n in Nodes(e);
    ChildrenMembers(d.FullPath(), ds, ds, cs, bound, e);
    o :| o in ds && o.path == d.FullPath() && e == Populated(o, ds, cs, bound);
    assert Deepens(o) && |o.FullPath()| <= bound;
  }

  /** A tree the server builds has one directory per full path. */
  lemma TreeUnique(tree: Directory, t: Tables, tags: seq<string>)
    requires Inv(t) && IsTree(tree, t, tags, "")
    ensures UniqueFullPaths(Nodes(tree))
    ensures forall a, e :: a in Nodes(tree) && e in a.directories ==> e.path != ""
  {
    var ds, cs, bound :| BuiltFrom(tree, t, tags, "", ds, cs, bound);
    forall a, b | a in Nodes(tree) && b in Nodes(tree) && a.FullPath() == b.FullPath()
      ensures a == b
    {
      NodesFromList(ROOT, ds, cs, bound, a);
      NodesFromList(ROOT, ds, cs, bound, b);
      SamePathSameNode(t, tags, ds, cs, bound, a, b);
    }
    forall a, e | a in Nodes(tree) && e in a.directories
      ensures e.path != ""
    {
      ChildInTree(tree, a, e);
      NodesFromList(ROOT, ds, cs, bound, e);
      TreeIsWellPlaced(tree, t, tags, "");
      NodesWellPlaced(tree, a);
      assert a.FullPath() != "";
    }
  }

  lemma {:induction false} NodesWellPlaced(t: Directory, n: Directory)
    requires WellPlaced(t) && n in Nodes(t)
    ensures WellPlaced(n)
    decreases t
  {
    if n != t {
      ForestMember(t.directories, n);
      var d :| d in t.directories && n in Nodes(d);
      NodesWellPlaced(d, n);
    }
  }

  lemma SamePathSameNode(t: Tables, tags: seq<string>, ds: seq<Directory>, cs: seq<Config>, bound: nat, a: Directory, b: Directory)
    requires Inv(t) && Enumerates(ds, ReadableSet(t, tags)) && AllFlat(ds) && Bounded(ds, bound)
    requires a == Populated(ROOT, ds, cs, bound) || FromList(a, ds, cs, bound)
    requires b == Populated(ROOT, ds, cs, bound) || FromList(b, ds, cs, bound)
    requires a.FullPath() == b.FullPath()
    ensures a == b
  {
    if FromList(a, ds, cs, bound) {
      var o :| o in ds && a == Populated(o, ds, cs, bound);
      FlatPaths(o);
    }
    if FromList(b, ds, cs, bound) {
      var o :| o in ds && b == Populated(o, ds, cs, bound);
      FlatPaths(o);
    }
    if FromList(a, ds, cs, bound) && FromList(b, ds, cs, bound) {
      var o :| o in ds && a == Populated(o, ds, cs, bound);
      var p :| p in ds && b == Populated(p, ds, cs, bound);
      assert o in ReadableSet(t, tags) && p in ReadableSet(t, tags);
    }
  }

  /** After a refresh, a path is indexed exactly when walking name by name from the top reaches it. */
  lemma IndexedIffReached(tree: Directory, t: Tables, tags: seq<string>, m: PathIndex, c: IdIndex, cp: ConfigIndex, p: string)
    requires Inv(t) && IsTree(tree, t, tags, "") && IndexOf(tree, m, c, cp)
    ensures tree.FullPath() == "/"
    ensures p in m <==> Reached(m, tree.FullPath(), p)
  {
    TreeUnique(tree, t, tags);
    IndexMapsNodes(tree, m, c, cp);
    TreeIsWellPlaced(tree, t, tags, "");
    if p in m {
      assert Walk(m, tree.FullPath(), []) == Some(tree.FullPath());
      BelowReached(m, tree, tree.FullPath(), tree, m[p]);
    }
    if Reached(m, tree.FullPath(), p) {
      var names :| Walk(m, tree.FullPath(), names) == Some(p);
      WalkStays(m, tree, names);
    }
  }

  // ---------------------------------------------------------------- configs in the index

  lemma {:induction false} ConfigsOfMember(ns: seq<Directory>, c: Config)
    ensures c in ConfigsOf(ns) <==> exists n :: n in ns && c in n.configs
  {
    if ns != [] {
      ConfigsOfMember(ns[1..], c);
    }
  }

  /** A tree holds an item as often as it occurs, so it holds exactly the configs that occur in it. */
  lemma {:induction false} TallyOfNodes(t: Directory, id: Id)
    ensures Tally(t, ConfigItem(id)) > 0 <==> exists c: Config :: c in ConfigsOf(Nodes(t)) && c.id == id
    decreases t, 0
  {
    CountsMember(t.configs, id);
    ForestTallyOfNodes(t.directories, id);
    assert Nodes(t)[1..] == ForestNodes(t.directories);
  }

  lemma {:induction false} ForestTallyOfNodes(ts: seq<Directory>, id: Id)
    ensures ForestTally(ts, ConfigItem(id)) > 0 <==> exists c: Config :: c in ConfigsOf(ForestNodes(ts)) && c.id == id
    decreases ts
  {
    if ts != [] {
      TallyOfNodes(ts[0], id);
      ForestTallyOfNodes(ts[1..], id);
      ConfigsOfConcat(Nodes(ts[0]), ForestNodes(ts[1..]));
    }
  }

  lemma {:induction false} CountsMember(cs: seq<Config>, id: Id)
    ensures CountConfigs(cs, ConfigItem(id)) > 0 <==> exists c: Config :: c in cs && c.id == id
  {
    if cs != [] {
      CountsMember(cs[1..], id);
    }
  }

  /** Every config of a built tree is one of the listed ones. */
  lemma TreeConfigs(tree: Directory, t: Tables, tags: seq<string>, c: Config)
    requires IsTree(tree, t, tags, "") && c in ConfigsOf(Nodes(tree))
    ensures c in VisibleConfigs(t, tags, "")
  {
    var ds, cs, bound :| BuiltFrom(tree, t, tags, "", ds, cs, bound);
    ConfigsOfMember(Nodes(tree), c);
    var n :| n in Nodes(tree) && c in n.configs;
    NodesFromList(ROOT, ds, cs, bound, n);
    if n == Populated(ROOT, ds, cs, bound) {
      MatchingMembers(cs, ROOT.FullPath(), c);
    } else {
      var o :| o in ds && n == Populated(o, ds, cs, bound);
      assert o.configs == [];
      MatchingMembers(cs, o.FullPath(), c);
    }
  }

  /** The configs of the whole tree are exactly the visible ones. */
  lemma TreeConfigsExact(tree: Directory, t: Tables, tags: seq<string>, c: Config)
    requires Inv(t) && IsTree(tree, t, tags, "")
    ensures c in ConfigsOf(Nodes(tree)) <==> c in VisibleConfigs(t, tags, "")
  {
    if c in ConfigsOf(Nodes(tree)) {
      TreeConfigs(tree, t, tags, c);
    }
    if c in VisibleConfigs(t, tags, "") {
      TreeIsExact(tree, t, tags, "", ConfigItem(c.id));
      TallyOfNodes(tree, c.id);
      var d: Config :| d in ConfigsOf(Nodes(tree)) && d.id == c.id;
      TreeConfigs(tree, t, tags, d);
    }
  }

  /** idConfig holds exactly the configs the caller may see, each under its id. */
  lemma IdsAreVisible(tree: Directory, t: Tables, tags: seq<string>, m: PathIndex, c: IdIndex, cp: ConfigIndex, id: Id)
    requires Inv(t) && IsTree(tree, t, tags, "") && IndexOf(tree, m, c, cp)
    ensures id in c <==> id.Num? && Visible(t, id.n, tags)
    ensures id in c ==> id.n in t.config && c[id] == ConfigMessage(t, id.n)
  {
    IdsHeld(map[], ConfigsOf(Nodes(tree)));
    if id in c {
      TreeConfigsExact(tree, t, tags, c[id]);
    }
    if id.Num? && Visible(t, id.n, tags) {
      TreeConfigsExact(tree, t, tags, ConfigMessage(t, id.n));
      assert ConfigMessage(t, id.n) in VisibleConfigs(t, tags, "");
    }
  }

  ghost predicate SlashFreeNames(t: Tables, tags: seq<string>) {
    forall c :: Visible(t, c, tags) ==> '/' !in t.config[c].name
  }

  /** With slash-free config names, removing a name in the directory at path p resolves exactly to the
      visible config stored under p with that name, and to nothing when there is none. */
  lemma RemoveResolves(tree: Directory, t: Tables, tags: seq<string>, m: PathIndex, ids: IdIndex, cp: ConfigIndex, p: string, name: string, c: int)
    requires Inv(t) && IsTree(tree, t, tags, "") && IndexOf(tree, m, ids, cp)
    requires SlashFreeNames(t, tags) && '/' !in name
    ensures p + "/" + name in cp && cp[p + "/" + name].id == Num(c)
       <==> Visible(t, c, tags) && t.config[c].path == p && t.config[c].name == name
  {
    var key := p + "/" + name;
    ConfigsHeld(map[], ConfigsOf(Nodes(tree)));
    if key in cp {
      var found := cp[key];
      TreeConfigsExact(tree, t, tags, found);
      var d :| d in t.config && Visible(t, d, tags) && found == ConfigMessage(t, d);
      LastNameUnique(p, name, t.config[d].path, t.config[d].name);
    }
    if Visible(t, c, tags) && t.config[c].path == p && t.config[c].name == name {
      TreeConfigsExact(tree, t, tags, ConfigMessage(t, c));
      assert ConfigMessage(t, c) in VisibleConfigs(t, tags, "");
    }
  }

  /** A config stored at "" is shown at the root like one stored at "/", but removing it there looks up
      "//name" and finds only the latter. */
  lemma RootRemoveResolves(tree: Directory, t: Tables, tags: seq<string>, m: PathIndex, ids: IdIndex, cp: ConfigIndex, c: int)
    requires Inv(t) && IsTree(tree, t, tags, "") && IndexOf(tree, m, ids, cp) && SlashFreeNames(t, tags)
    requires Visible(t, c, tags) && RootNormalised(t.config[c].path) == "/"
    ensures tree.FullPath() == "/" && ConfigMessage(t, c) in tree.configs
    ensures var key := tree.FullPath() + "/" + t.config[c].name;
            key in cp && cp[key].id == Num(c) <==> t.config[c].path == "/"
  {
    RemoveResolves(tree, t, tags, m, ids, cp, "/", t.config[c].name, c);
    RootConfigs(tree, t, tags, c);
  }

  /** Every config indexed by path is a visible one, under its full path. */
  lemma IndexedByVisible(tree: Directory, t: Tables, tags: seq<string>, m: PathIndex, ids: IdIndex, cp: ConfigIndex, key: string) returns (c: int)
    requires Inv(t) && IsTree(tree, t, tags, "") && IndexOf(tree, m, ids, cp) && key in cp
    ensures Visible(t, c, tags) && cp[key] == ConfigMessage(t, c) && ConfigMessage(t, c).FullPath() == key
  {
    ConfigsHeld(map[], ConfigsOf(Nodes(tree)));
    TreeConfigsExact(tree, t, tags, cp[key]);
    c :| c in t.config && Visible(t, c, tags) && cp[key] == ConfigMessage(t, c);
  }

  lemma RootConfigs(tree: Directory, t: Tables, tags: seq<string>, c: int)
    requires IsTree(tree, t, tags, "") && Visible(t, c, tags) && RootNormalised(t.config[c].path) == "/"
    ensures tree.FullPath() == "/" && ConfigMessage(t, c) in tree.configs
  {
    var ds, cs, bound :| BuiltFrom(tree, t, tags, "", ds, cs, bound);
    assert ConfigMessage(t, c) in VisibleConfigs(t, tags, "");
    MatchingMembers(cs, ROOT.FullPath(), ConfigMessage(t, c));
  }
}
