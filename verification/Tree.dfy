/** Building the directory tree from flat lists, and what the built tree contains. */
module Tree {
  import opened Paths
  import opened Messages

  /** An empty config path means the root. */
  function RootNormalised(path: string): string {
    if path == "" then "/" else path
  }

  // ---------------------------------------------------------------- populateDirectory

  /** The full path is longer than the parent's. Only an entry that is its own parent, at "/" with an
      empty name, is not like that; with it the recursion would not end. */
  ghost predicate Deepens(d: Directory) {
    |d.path| < |d.FullPath()|
  }

  lemma DeepensIff(d: Directory)
    ensures Deepens(d) <==> !(d.path == "/" && d.name == "")
    ensures !Deepens(d) ==> d.path == d.FullPath()
  {
  }

  ghost predicate AllDeepen(ds: seq<Directory>) {
    forall d :: d in ds ==> Deepens(d)
  }

  /** A flat directory, as it comes from its row: in a proper place and with no children yet. */
  ghost predicate Flat(d: Directory) {
    Deepens(d) && Canonical(d.path) && IsComponent(d.name) && d.directories == [] && d.configs == []
  }

  ghost predicate AllFlat(ds: seq<Directory>) {
    forall d :: d in ds ==> Flat(d)
  }

  ghost predicate Bounded(ds: seq<Directory>, bound: nat) {
    forall d :: d in ds ==> |d.FullPath()| <= bound
  }

  lemma FlatPaths(d: Directory)
    requires Flat(d)
    ensures d.FullPath() == ChildPath(d.path, d.name) == FullOf(CleanParts(d.path) + [d.name])
    ensures Components(CleanParts(d.path) + [d.name])
    ensures d.path == FullOf(CleanParts(d.path))
    ensures |d.path| < |d.FullPath()| && d.FullPath() != "/"
  {
    CanonicalRoundTrip(d.path);
    CanonicalChild(d.path, d.name);
  }

  /** Room left below a full path; it shrinks at every level of the recursion. */
  ghost function Room(p: string, bound: nat): nat {
    if |p| <= bound then bound - |p| + 1 else 0
  }

  function Matching(configs: seq<Config>, p: string): seq<Config> {
    if configs == [] then []
    else (if RootNormalised(configs[0].path) == p then [configs[0]] else []) + Matching(configs[1..], p)
  }

  /** The directory with the configs and, recursively, the directories that belong into it. Full paths
      grow strictly from parent to child and are bounded, so the recursion ends. */
  ghost function Populated(d: Directory, others: seq<Directory>, configs: seq<Config>, bound: nat): Directory
    requires AllDeepen(others) && Bounded(others, bound)
    decreases Room(d.FullPath(), bound), |others| + 1
  {
    d.(configs := d.configs + Matching(configs, d.FullPath()),
       directories := d.directories + Children(d.FullPath(), others, others, configs, bound))
  }

  ghost function Children(p: string, rest: seq<Directory>, others: seq<Directory>, configs: seq<Config>, bound: nat): seq<Directory>
    requires AllDeepen(others) && Bounded(others, bound)
    requires forall d :: d in rest ==> d in others
    decreases Room(p, bound), |rest|
  {
    if rest == [] then []
    else
      (if rest[0].path == p then
         assert Deepens(rest[0]) && |rest[0].FullPath()| <= bound;
         [Populated(rest[0], others, configs, bound)]
       else [])
      + Children(p, rest[1..], others, configs, bound)
  }

  lemma {:induction false} ChildrenSnoc(p: string, rest: seq<Directory>, d: Directory, others: seq<Directory>, configs: seq<Config>, bound: nat)
    requires AllDeepen(others) && Bounded(others, bound)
    requires d in others && forall e :: e in rest ==> e in others
    ensures Children(p, rest + [d], others, configs, bound)
         == Children(p, rest, others, configs, bound) + (if d.path == p then [Populated(d, others, configs, bound)] else [])
  {
    if rest == [] {
      assert (rest + [d])[1..] == [];
    } else {
      assert (rest + [d])[1..] == rest[1..] + [d];
      ChildrenSnoc(p, rest[1..], d, others, configs, bound);
      assert Children(p, rest, others, configs, bound)
          == (if rest[0].path == p then [Populated(rest[0], others, configs, bound)] else [])
             + Children(p, rest[1..], others, configs, bound);
    }
  }

  lemma {:induction false} MatchingSnoc(configs: seq<Config>, c: Config, p: string)
    ensures Matching(configs + [c], p) == Matching(configs, p) + (if RootNormalised(c.path) == p then [c] else [])
  {
    if configs == [] {
      assert (configs + [c])[1..] == [];
    } else {
      var longer := configs + [c];
      assert longer[0] == configs[0] && longer[1..] == configs[1..] + [c];
      MatchingSnoc(configs[1..], c, p);
      assert Matching(longer, p) == (if RootNormalised(configs[0].path) == p then [configs[0]] else []) + Matching(longer[1..], p);
    }
  }

  /** The first loop of populateDirectory. */
  method AddConfigs(directory: Directory, configs: seq<Config>) returns (filled: Directory)
    ensures filled == directory.(configs := directory.configs + Matching(configs, directory.FullPath()))
  {
    filled := directory;
    for i := 0 to |configs|
      invariant filled == directory.(configs := directory.configs + Matching(configs[..i], directory.FullPath()))
    {
      MatchingSnoc(configs[..i], configs[i], directory.FullPath());
      assert configs[..i + 1] == configs[..i] + [configs[i]];
      if RootNormalised(configs[i].path) == directory.FullPath() {
        filled := filled.(configs := filled.configs + [configs[i]]);
      }
    }
    assert configs[..|configs|] == configs;
  }

  /** populateDirectory. The clones it fills are fresh, so they are values here. */
  method PopulateDirectory(directory: Directory, otherDirectories: seq<Directory>, configs: seq<Config>, ghost bound: nat)
    returns (filled: Directory)
    requires AllDeepen(otherDirectories) && Bounded(otherDirectories, bound)
    ensures filled == Populated(directory, otherDirectories, configs, bound)
    decreases Room(directory.FullPath(), bound)
  {
    filled := AddConfigs(directory, configs);
    ghost var withConfigs := filled;
    for i := 0 to |otherDirectories|
      invariant filled == withConfigs.(directories := directory.directories
                  + Children(directory.FullPath(), otherDirectories[..i], otherDirectories, configs, bound))
    {
      var other := otherDirectories[i];
      ChildrenSnoc(directory.FullPath(), otherDirectories[..i], other, otherDirectories, configs, bound);
      assert otherDirectories[..i + 1] == otherDirectories[..i] + [other];
      if other.path == directory.FullPath() {
        var copy := PopulateDirectory(other, otherDirectories, configs, bound);
        filled := filled.(directories := filled.directories + [copy]);
      }
    }
    assert otherDirectories[..|otherDirectories|] == otherDirectories;
  }

  // ---------------------------------------------------------------- how often an item occurs

  datatype Item = DirectoryItem(id: Id) | ConfigItem(id: Id)

  ghost function CountConfigs(cs: seq<Config>, x: Item): nat {
    if cs == [] then 0 else (if x == ConfigItem(cs[0].id) then 1 else 0) + CountConfigs(cs[1..], x)
  }

  /** Occurrences of an item below the top of a tree. */
  ghost function Tally(t: Directory, x: Item): nat {
    CountConfigs(t.configs, x) + ForestTally(t.directories, x)
  }

  ghost function ForestTally(ts: seq<Directory>, x: Item): nat {
    if ts == [] then 0
    else (if x == DirectoryItem(ts[0].id) then 1 else 0) + Tally(ts[0], x) + ForestTally(ts[1..], x)
  }

  lemma {:induction false} ForestTallyConcat(a: seq<Directory>, b: seq<Directory>, x: Item)
    ensures ForestTally(a + b, x) == ForestTally(a, x) + ForestTally(b, x)
  {
    if a == [] {
      assert a + b == b;
    } else {
      assert (a + b)[1..] == a[1..] + b;
      ForestTallyConcat(a[1..], b, x);
    }
  }

  /** Occurrences of an item among the listed directories with the given path. */
  ghost function DirectoriesAt(ds: seq<Directory>, p: string, x: Item): nat {
    if ds == [] then 0
    else (if ds[0].path == p && x == DirectoryItem(ds[0].id) then 1 else 0) + DirectoriesAt(ds[1..], p, x)
  }

  ghost function CountPath(ds: seq<Directory>, p: string): nat {
    if ds == [] then 0 else (if ds[0].FullPath() == p then 1 else 0) + CountPath(ds[1..], p)
  }

  /** Occurrences of an item directly in the directory at full path p. */
  ghost function Direct(p: string, others: seq<Directory>, configs: seq<Config>, x: Item): nat {
    CountConfigs(Matching(configs, p), x) + DirectoriesAt(others, p, x)
  }

  /** The item belongs `times` times into the directory at FullOf(home) and nowhere else. */
  ghost predicate LivesAt(others: seq<Directory>, configs: seq<Config>, x: Item, home: seq<string>, times: nat) {
    forall p :: Direct(p, others, configs, x) == if p == FullOf(home) then times else 0
  }

  /** Each directory on the way from the root to home is listed once. */
  ghost predicate WayListed(others: seq<Directory>, home: seq<string>) {
    forall i :: 1 <= i <= |home| ==> CountPath(others, FullOf(home[..i])) == 1
  }

  /** Longer prefixes have the shorter ones as prefixes. */
  lemma PrefixOfSnoc(ks: seq<string>, name: string, home: seq<string>)
    ensures ks + [name] <= home <==> ks < home && home[|ks|] == name
  {
    if |ks| < |home| {
      assert home[..|ks| + 1] == home[..|ks|] + [home[|ks|]];
    }
  }

  /** The listed directory is the one that leads from ks on to home. */
  ghost predicate LeadsOn(d: Directory, ks: seq<string>, home: seq<string>) {
    ks < home && d.FullPath() == FullOf(home[..|ks| + 1])
  }

  /** A directory leads on exactly when it is a child at ks and a prefix of home. */
  lemma LeadsOnIsChild(d: Directory, ks: seq<string>, home: seq<string>)
    requires Flat(d) && Components(ks) && Components(home)
    ensures LeadsOn(d, ks, home) <==> d.path == FullOf(ks) && ks + [d.name] <= home
  {
    var front := CleanParts(d.path);
    FlatPaths(d);
    CleanPartsComponents(d.path);
    FullOfInjective(front, ks);
    PrefixOfSnoc(ks, d.name, home);
    if ks < home {
      FullOfInjective(front + [d.name], home[..|ks| + 1]);
      assert home[..|ks| + 1] == ks + [home[|ks|]];
      SnocInjective(front, d.name, ks, home[|ks|]);
    }
  }

  lemma SnocInjective(a: seq<string>, x: string, b: seq<string>, y: string)
    ensures a + [x] == b + [y] <==> a == b && x == y
  {
    if a + [x] == b + [y] {
      assert a == (a + [x])[..|a|] && b == (b + [y])[..|b|] && (a + [x])[|a|] == (b + [y])[|b|];
    }
  }

  /** What the listed directories that lead on contribute. */
  ghost function Onward(rest: seq<Directory>, ks: seq<string>, home: seq<string>, times: nat): nat {
    if rest == [] then 0
    else (if LeadsOn(rest[0], ks, home) then times else 0) + Onward(rest[1..], ks, home, times)
  }

  lemma {:induction false} OnwardOnce(rest: seq<Directory>, ks: seq<string>, home: seq<string>, times: nat)
    ensures !(ks < home) ==> Onward(rest, ks, home, times) == 0
    ensures ks < home && CountPath(rest, FullOf(home[..|ks| + 1])) <= 1 ==>
              Onward(rest, ks, home, times) == if CountPath(rest, FullOf(home[..|ks| + 1])) == 1 then times else 0
  {
    if rest != [] {
      OnwardOnce(rest[1..], ks, home, times);
    }
  }

  /** How much the first listed directory contributes. */
  lemma HeadTally(ks: seq<string>, rest: seq<Directory>, others: seq<Directory>, configs: seq<Config>, bound: nat, x: Item)
    requires AllDeepen(others) && Bounded(others, bound)
    requires rest != [] && forall d :: d in rest ==> d in others
    ensures ForestTally(Children(FullOf(ks), rest, others, configs, bound), x)
         == ForestTally(Children(FullOf(ks), rest[1..], others, configs, bound), x)
          + (if rest[0].path == FullOf(ks)
             then (if x == DirectoryItem(rest[0].id) then 1 else 0) + Tally(Populated(rest[0], others, configs, bound), x)
             else 0)
  {
    var p := FullOf(ks);
    var tail := Children(p, rest[1..], others, configs, bound);
    if rest[0].path == p {
      var full := Populated(rest[0], others, configs, bound);
      ForestTallyConcat([full], tail, x);
      assert ForestTally([full][1..], x) == 0;
    } else {
      assert Children(p, rest, others, configs, bound) == [] + tail == tail;
    }
  }

  /** How much the children of the directory at ks contribute. */
  lemma {:induction false} ChildrenTally(ks: seq<string>, rest: seq<Directory>, others: seq<Directory>, configs: seq<Config>,
                                         bound: nat, x: Item, home: seq<string>, times: nat)
    requires AllFlat(others) && Bounded(others, bound) && Components(ks) && Components(home)
    requires LivesAt(others, configs, x, home, times) && WayListed(others, home)
    requires forall d :: d in rest ==> d in others
    ensures ForestTally(Children(FullOf(ks), rest, others, configs, bound), x)
         == DirectoriesAt(rest, FullOf(ks), x) + Onward(rest, ks, home, times)
    decreases Room(FullOf(ks), bound), |rest|
  {
    if rest != [] {
      var d := rest[0];
      ChildrenTally(ks, rest[1..], others, configs, bound, x, home, times);
      HeadTally(ks, rest, others, configs, bound, x);
      LeadsOnIsChild(d, ks, home);
      if d.path == FullOf(ks) {
        ChildIsAt(d, ks);
        PopulatedTally(d, ks + [d.name], others, configs, bound, x, home, times);
      }
    }
  }

  lemma ChildIsAt(d: Directory, ks: seq<string>)
    requires Flat(d) && Components(ks) && d.path == FullOf(ks)
    ensures Components(ks + [d.name]) && d.FullPath() == FullOf(ks + [d.name]) && |FullOf(ks)| < |d.FullPath()|
  {
    FlatPaths(d);
    CleanPartsComponents(d.path);
    FullOfInjective(CleanParts(d.path), ks);
  }

  /** An item is in the tree below a directory, as often as it was listed, exactly when the directory
      is on the way to the item's home. */
  lemma {:induction false} PopulatedTally(d: Directory, ks: seq<string>, others: seq<Directory>, configs: seq<Config>,
                                          bound: nat, x: Item, home: seq<string>, times: nat)
    requires AllFlat(others) && Bounded(others, bound) && Components(ks) && Components(home)
    requires d.directories == [] && d.configs == [] && d.FullPath() == FullOf(ks)
    requires LivesAt(others, configs, x, home, times) && WayListed(others, home)
    ensures Tally(Populated(d, others, configs, bound), x) == if ks <= home then times else 0
    decreases Room(d.FullPath(), bound), |others| + 1
  {
    ChildrenTally(ks, others, others, configs, bound, x, home, times);
    TopTally(d, others, configs, bound, x);
    FullOfInjective(ks, home);
    assert Direct(FullOf(ks), others, configs, x) == if ks == home then times else 0;
    OnwardOnce(others, ks, home, times);
    if ks < home {
      assert CountPath(others, FullOf(home[..|ks| + 1])) == 1;
    }
  }

  lemma TopTally(d: Directory, others: seq<Directory>, configs: seq<Config>, bound: nat, x: Item)
    requires AllDeepen(others) && Bounded(others, bound)
    requires d.directories == [] && d.configs == []
    ensures Tally(Populated(d, others, configs, bound), x)
         == CountConfigs(Matching(configs, d.FullPath()), x)
          + ForestTally(Children(d.FullPath(), others, others, configs, bound), x)
  {
    var full := Populated(d, others, configs, bound);
    assert full.configs == [] + Matching(configs, d.FullPath()) == Matching(configs, d.FullPath());
    var below := Children(d.FullPath(), others, others, configs, bound);
    assert full.directories == [] + below == below;
  }
}
