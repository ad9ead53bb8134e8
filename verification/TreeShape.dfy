/** Trees up to the order of siblings, and finding a directory in one. */
module TreeShape {
  import opened Paths
  import opened Messages
  import opened Tree

  /** A tree with the order of siblings forgotten. */
  datatype Shape = Shape(id: Id, name: string, path: string, acls: seq<ConfigAcl>, configs: set<Config>, directories: set<Shape>)

  ghost function ShapeOf(t: Directory): Shape {
    Shape(t.id, t.name, t.path, t.acls, (set c | c in t.configs), (set d | d in t.directories :: ShapeOf(d)))
  }

  ghost predicate Growing(ds: set<Directory>, bound: nat) {
    forall d :: d in ds ==> |d.path| < |d.FullPath()| <= bound
  }

  /** The shape the flat sets determine below a directory. */
  ghost function ShapeBelow(d: Directory, ds: set<Directory>, cs: set<Config>, bound: nat): Shape
    requires Growing(ds, bound)
    decreases Room(d.FullPath(), bound)
  {
    var p := d.FullPath();
    Shape(d.id, d.name, d.path, d.acls,
          (set c | c in cs && RootNormalised(c.path) == p),
          (set e | e in ds && e.path == p :: ShapeBelow(e, ds, cs, bound)))
  }

  lemma {:induction false} MatchingMembers(configs: seq<Config>, p: string, c: Config)
    ensures c in Matching(configs, p) <==> c in configs && RootNormalised(c.path) == p
  {
    if configs != [] {
      MatchingMembers(configs[1..], p, c);
    }
  }

  lemma {:induction false} ChildrenMembers(p: string, rest: seq<Directory>, others: seq<Directory>, configs: seq<Config>, bound: nat, e: Directory)
    requires AllDeepen(others) && Bounded(others, bound)
    requires forall d :: d in rest ==> d in others
    ensures e in Children(p, rest, others, configs, bound)
       <==> exists d :: d in rest && d.path == p && e == Populated(d, others, configs, bound)
  {
    if rest != [] {
      ChildrenMembers(p, rest[1..], others, configs, bound, e);
      var here := rest[0].path == p && e == Populated(rest[0], others, configs, bound);
      if exists d :: d in rest && d.path == p && e == Populated(d, others, configs, bound) {
        var d :| d in rest && d.path == p && e == Populated(d, others, configs, bound);
        assert d == rest[0] || d in rest[1..];
      }
    }
  }

  lemma DeepensGrowing(others: seq<Directory>, bound: nat)
    requires AllDeepen(others) && Bounded(others, bound)
    ensures Growing((set d | d in others), bound)
  {
  }

  /** Whatever the order of the lists, the built tree has the one shape their members determine. */
  lemma {:induction false} PopulatedShape(d: Directory, others: seq<Directory>, configs: seq<Config>, bound: nat)
    requires AllFlat(others) && Bounded(others, bound) && Growing((set e | e in others), bound)
    requires d.directories == [] && d.configs == []
    ensures ShapeOf(Populated(d, others, configs, bound)) == ShapeBelow(d, (set e | e in others), (set c | c in configs), bound)
    decreases Room(d.FullPath(), bound)
  {
    var p := d.FullPath();
    var ds, cs := (set e | e in others), (set c | c in configs);
    var full := Populated(d, others, configs, bound);
    var below := Children(p, others, others, configs, bound);
    assert full.directories == below && full.configs == Matching(configs, p);
    forall c
      ensures c in full.configs <==> c in cs && RootNormalised(c.path) == p
    {
      MatchingMembers(configs, p, c);
    }
    forall e | e in others && e.path == p
      ensures ShapeOf(Populated(e, others, configs, bound)) == ShapeBelow(e, ds, cs, bound)
      ensures Populated(e, others, configs, bound) in below
    {
      assert e in ds;
      PopulatedShape(e, others, configs, bound);
      ChildrenMembers(p, others, others, configs, bound, Populated(e, others, configs, bound));
    }
    forall e | e in below
      ensures exists o :: o in others && o.path == p && e == Populated(o, others, configs, bound)
    {
      ChildrenMembers(p, others, others, configs, bound, e);
    }
    var s, w := ShapeOf(full), ShapeBelow(d, ds, cs, bound);
    assert s.directories == w.directories;
    assert s.configs == w.configs;
  }

  // ---------------------------------------------------------------- subtrees

  /** A path at or beneath a directory, as the prefix check in Go decides it. */
  predicate InSubtree(p: string, prefix: string) {
    p == prefix || HasPrefix(p, prefix + "/")
  }

  lemma ChildInSubtree(d: Directory, prefix: string)
    requires d.path != "" && d.path != "/" && InSubtree(d.path, prefix)
    ensures InSubtree(d.FullPath(), prefix) && d.FullPath() != "/"
  {
    assert d.FullPath() == d.path + "/" + d.name;
    if d.path == prefix {
      assert HasPrefix(d.FullPath(), prefix + "/");
    } else {
      assert d.path == (prefix + "/") + d.path[|prefix| + 1..];
      assert d.FullPath() == (prefix + "/") + (d.path[|prefix| + 1..] + "/" + d.name);
    }
  }

  /** Two sets of configs with the same members in a subtree give that subtree the same shape. */
  lemma {:induction false} SubtreeShape(d: Directory, ds: set<Directory>, cs: set<Config>, cs': set<Config>, bound: nat, prefix: string)
    requires Growing(ds, bound)
    requires prefix != "" && InSubtree(d.FullPath(), prefix) && d.FullPath() != "/" && d.FullPath() != ""
    requires forall c: Config :: InSubtree(c.path, prefix) ==> (c in cs <==> c in cs')
    ensures ShapeBelow(d, ds, cs, bound) == ShapeBelow(d, ds, cs', bound)
    decreases Room(d.FullPath(), bound)
  {
    var p := d.FullPath();
    var s, s' := ShapeBelow(d, ds, cs, bound), ShapeBelow(d, ds, cs', bound);
    assert s.configs == s'.configs;
    forall e | e in ds && e.path == p
      ensures ShapeBelow(e, ds, cs, bound) == ShapeBelow(e, ds, cs', bound)
    {
      ChildInSubtree(e, prefix);
      SubtreeShape(e, ds, cs, cs', bound, prefix);
    }
    assert s.directories == s'.directories;
  }

  /** Longer component lists lie in the subtree of their prefixes. */
  lemma {:induction false} PrefixInSubtree(ks: seq<string>, home: seq<string>)
    requires Components(home) && ks != [] && ks <= home
    ensures InSubtree(FullOf(home), FullOf(ks))
    decreases |home|
  {
    if |ks| < |home| {
      var front := home[..|home| - 1];
      assert front[..|ks|] == ks && home == front + [home[|home| - 1]];
      PrefixInSubtree(ks, front);
      FullOfRoot(front);
      FullOfSnoc(front, home[|home| - 1]);
      var p, prefix := FullOf(front), FullOf(ks);
      if p != prefix {
        assert p + "/" + home[|home| - 1] == (prefix + "/") + (p[|prefix| + 1..] + "/" + home[|home| - 1]);
      }
    } else {
      assert home == ks;
    }
  }

  // ---------------------------------------------------------------- findDirectory

  /** The first directory with the id below the top of the tree, depth first. */
  function FindDirectory(id: Id, tree: Directory): Option<Directory> {
    FindIn(id, tree.directories)
  }

  function FindIn(id: Id, ts: seq<Directory>): Option<Directory> {
    if ts == [] then None
    else if ts[0].id == id then Some(ts[0])
    else
      match FindIn(id, ts[0].directories)
      case Some(d) => Some(d)
      case None => FindIn(id, ts[1..])
  }

  /** It finds something exactly when the id occurs. */
  lemma {:induction false} FindsIffPresent(id: Id, ts: seq<Directory>)
    ensures FindIn(id, ts).Some? <==> ForestTally(ts, DirectoryItem(id)) > 0
    ensures FindIn(id, ts).Some? ==> FindIn(id, ts).value.id == id
  {
    if ts != [] {
      FindsIffPresent(id, ts[0].directories);
      FindsIffPresent(id, ts[1..]);
      NoConfigIsDirectory(ts[0].configs, id);
    }
  }

  lemma {:induction false} NoConfigIsDirectory(cs: seq<Config>, id: Id)
    ensures CountConfigs(cs, DirectoryItem(id)) == 0
  {
    if cs != [] {
      NoConfigIsDirectory(cs[1..], id);
    }
  }

  ghost predicate IsPopulated(n: Directory, id: Id, others: seq<Directory>, configs: seq<Config>, bound: nat)
    requires AllDeepen(others) && Bounded(others, bound)
  {
    exists o :: o in others && o.id == id && n == Populated(o, others, configs, bound)
  }

  ghost predicate NoneFilled(ds: seq<Directory>) {
    forall d :: d in ds ==> d.directories == []
  }

  /** What is found in a built tree is a listed directory with everything that belongs below it. */
  lemma {:induction false} FoundIsPopulated(id: Id, p: string, rest: seq<Directory>, others: seq<Directory>, configs: seq<Config>, bound: nat)
    requires AllDeepen(others) && Bounded(others, bound) && NoneFilled(others)
    requires forall d :: d in rest ==> d in others
    ensures var found := FindIn(id, Children(p, rest, others, configs, bound));
            found.Some? ==> IsPopulated(found.value, id, others, configs, bound)
    decreases Room(p, bound), |rest|
  {
    if rest != [] {
      FoundIsPopulated(id, p, rest[1..], others, configs, bound);
      var d := rest[0];
      assert d in others;
      if d.path == p {
        FoundIsPopulated(id, d.FullPath(), others, others, configs, bound);
        FindInHead(id, p, rest, others, configs, bound);
      } else {
        assert Children(p, rest, others, configs, bound) == Children(p, rest[1..], others, configs, bound);
      }
    }
  }

  /** The first child is the directory looked for, or holds it, or it is looked for among the others. */
  lemma FindInHead(id: Id, p: string, rest: seq<Directory>, others: seq<Directory>, configs: seq<Config>, bound: nat)
    requires AllDeepen(others) && Bounded(others, bound) && forall d :: d in rest ==> d in others
    requires rest != [] && rest[0].path == p && rest[0].directories == []
    ensures var below := FindIn(id, Children(rest[0].FullPath(), others, others, configs, bound));
            FindIn(id, Children(p, rest, others, configs, bound)) ==
              if rest[0].id == id then Some(Populated(rest[0], others, configs, bound))
              else if below.Some? then below
              else FindIn(id, Children(p, rest[1..], others, configs, bound))
  {
    var full := Populated(rest[0], others, configs, bound);
    var tail := Children(p, rest[1..], others, configs, bound);
    assert Children(p, rest, others, configs, bound) == [full] + tail;
    assert ([full] + tail)[1..] == tail;
    assert full.directories == Children(rest[0].FullPath(), others, others, configs, bound);
  }
}
