/** Reachable states in which the code does not do what its documentation says. Each belongs to a lemma
    that says for all inputs exactly when it does. */
module Counterexamples {
  import opened Paths
  import opened Messages
  import opened Tables
  import opened StoreSpec
  import opened StoreInvariant
  import opened RoundTrip
  import opened Access
  import opened Queries
  import opened Ensuring
  import opened Handlers
  import opened Protection
  import opened Interleaving
  import opened StaleGates
  import opened Listing
  import opened ClientIndex
  import Deletion

  // ---------------------------------------------------------------- the missing components of a chain

  lemma NothingExists(ks: seq<string>)
    ensures ExistingDepth(EMPTY.directory, ks, 0) == 0
  {
    if ks != [] {
      assert !IsDirectory(EMPTY.directory, FullOf(ks[..1]));
    }
  }

  /** On a fresh store the chain of /x/y reports /x/y alone, although /x is missing too. See
      Ensuring.ChainReportsMissing. */
  lemma ChainOmitsParent(x: string, y: string, p: string, ds: seq<Directory>)
    requires IsComponent(x) && IsComponent(y) && p == "/" + x + "/" + y
    requires Selected(ds, EMPTY, Wanted(EMPTY, [p]))
    ensures Reachable(EMPTY) && MissingOf([p], ds) == [p]
    ensures PrefixPaths(CleanParts(p), ExistingDepth(EMPTY.directory, CleanParts(p), 0)) == ["/" + x, p]
  {
    EmptyReachable();
    EmptyInv();
    Deletion.SubPath(x, y, p);
    Deletion.TopPath(x, "/" + x);
    NothingExists([x, y]);
    NoneMissing(p, ds);
    TargetFetchedIff(EMPTY, p, ds);
    assert [x, y][..1] == [x] && [x, y][..2] == [x, y];
  }

  // ---------------------------------------------------------------- sizes

  /** A config created at the root of a fresh store with one byte and the size 0. See
      Versions.SizesStayLengths. */
  lemma SizeIsNotLength(name: string) returns (t: Tables, v: int)
    ensures Reachable(t) && v in t.content && t.content[v].size == 0 && |t.content[v].content| == 1
  {
    var conf := Config(NoId, name, "", [], Some([0]), 0, NoId, 0, 0);
    EmptyReachable();
    ReachableNext(EMPTY, OpUpsert(conf, 0));
    assert Insertable(EMPTY, conf);
    t, v := Next(EMPTY, OpUpsert(conf, 0)), 2;
  }

  // ---------------------------------------------------------------- entries that are dropped

  const UNRECOGNISED := [ConfigAcl(UNKNOWN_ACL, "", true)]

  lemma NothingRecognised()
    ensures Recognised(UNRECOGNISED) == []
  {
    assert UNRECOGNISED[1..] == [];
  }

  /** A directory created with a single entry of an unrecognised level, which grants nobody anything, is
      open to everybody. See Messages.DirectoryGrantsSurviveStorage. */
  lemma CreatedOpen(root: string, name: string, tags: seq<string>) returns (t: Tables, id: int)
    requires IsRoot(root) && IsComponent(name)
    ensures Reachable(t) && t == Next(EMPTY, OpCreateDirectory(root, name, UNRECOGNISED))
    ensures id in t.directory && RowPath(t.directory[id]) == "/" + name
    ensures !DirectoryGrants(UNRECOGNISED, tags, WRITE) && DirectoryMessage(t, id).Allows(tags, WRITE)
  {
    EmptyReachable();
    EmptyInv();
    NothingRecognised();
    ReachableNext(EMPTY, OpCreateDirectory(root, name, UNRECOGNISED));
    t := Next(EMPTY, OpCreateDirectory(root, name, UNRECOGNISED));
    Deletion.TopPath(name, "/" + name);
    assert ComposedPath(root, name) == "/" + name;
    id := CreateDirectoryThenGet(EMPTY, root, name, UNRECOGNISED);
    DirectoryGrantsSurviveStorage(UNRECOGNISED, tags, WRITE);
  }

  // ---------------------------------------------------------------- names with a slash

  const READ_ONLY := [ConfigAcl(READ, "", true)]

  /** /x exists and grants everybody READ and nobody WRITE. A caller asks for the directory x/y at the
      root, is answered OK, and /x/y exists, although the deepest directory on the way to it did not
      grant WRITE. See Protection.GateSufficesIff. */
  lemma SlashedNamePassesGate(root: string, x: string, y: string, tags: seq<string>) returns (t: Tables)
    requires IsRoot(root) && IsComponent(x) && IsComponent(y)
    ensures Reachable(t) && IsDirectory(t.directory, "/" + x) && !IsDirectory(t.directory, "/" + x + "/" + y)
    ensures var (u, status) := RunAlone(t, {}, Start(CreateDir(Some(Directory(NoId, x + "/" + y, root, [], [], []))), tags));
            status == OK && IsDirectory(u.directory, "/" + x + "/" + y)
    ensures !DeepestGrantsWrite(t, CleanParts("/" + x + "/" + y), tags)
  {
    t := WithReadOnly(root, x, tags);
    NothingBelow(t, x, y);
    SlashedName(root, x, y);
    CreatedAt(t, root, x, y);
    CreatableAtRoot(t, Directory(NoId, x + "/" + y, root, [], [], []), tags);
    ReadOnlyIsDeepest(t, x, y, "/" + x + "/" + y, tags);
  }

  /** At the root there is no gate to pass. */
  lemma CreatableAtRoot(t: Tables, dir: Directory, tags: seq<string>)
    requires IsRoot(dir.path) && Creatable(t, dir.path, dir.name)
    ensures RunAlone(t, {}, Start(CreateDir(Some(dir)), tags))
         == (Next(t, OpCreateDirectory(dir.path, dir.name, dir.acls)), OK)
  {
    RunsAlone(t, {}, CreateDir(Some(dir)), tags);
  }

  /** The store with the single directory /x. */
  lemma WithReadOnly(root: string, x: string, tags: seq<string>) returns (t: Tables)
    requires IsRoot(root) && IsComponent(x)
    ensures Reachable(t) && Inv(t) && IsDirectory(t.directory, "/" + x)
    ensures forall d :: d in t.directory ==> RowPath(t.directory[d]) == "/" + x && !DirGrants(t, d, tags, WRITE)
  {
    EmptyReachable();
    EmptyInv();
    var op := OpCreateDirectory(root, x, READ_ONLY);
    ReachableNext(EMPTY, op);
    StepInv(EMPTY, op);
    t := Next(EMPTY, op);
    Deletion.TopPath(x, "/" + x);
    assert ComposedPath(root, x) == "/" + x;
    CreateAddsPrefixes(EMPTY, root, x, READ_ONLY);
    assert [x][..1] == [x] && FullOf([x]) == "/" + x;
    ReadOnlyStored();
    forall d | d in t.directory
      ensures RowPath(t.directory[d]) == "/" + x && !DirGrants(t, d, tags, WRITE)
    {
      assert NewIsMissingPrefix(EMPTY, t, [x], 1, READ_ONLY, d);
    }
  }

  lemma ReadOnlyStored()
    ensures Recognised(READ_ONLY) == READ_ONLY
    ensures forall tags :: !DirectoryGrants(READ_ONLY, tags, WRITE)
  {
    assert READ_ONLY[1..] == [];
  }

  lemma NothingBelow(t: Tables, x: string, y: string)
    requires IsComponent(x) && IsComponent(y)
    requires forall d :: d in t.directory ==> RowPath(t.directory[d]) == "/" + x
    ensures !IsDirectory(t.directory, "/" + x + "/" + y)
  {
    Deletion.NotDeeper(x, x, y);
  }

  /** The name x/y at the root composes to /x/y. */
  lemma SlashedName(root: string, x: string, y: string)
    requires IsRoot(root) && IsComponent(x) && IsComponent(y)
    ensures TrimSpace(x + "/" + y) == x + "/" + y
    ensures ComposedPath(root, x + "/" + y) == "/" + x + "/" + y
  {
    assert Trimmed(x + "/" + y);
    assert "/" + (x + "/" + y) == "/" + x + "/" + y;
  }

  lemma CreatedAt(t: Tables, root: string, x: string, y: string)
    requires Inv(t) && IsRoot(root) && IsComponent(x) && IsComponent(y)
    requires ComposedPath(root, x + "/" + y) == "/" + x + "/" + y && TrimSpace(x + "/" + y) == x + "/" + y
    requires !IsDirectory(t.directory, "/" + x + "/" + y)
    ensures Creatable(t, root, x + "/" + y)
    ensures IsDirectory(Next(t, OpCreateDirectory(root, x + "/" + y, [])).directory, "/" + x + "/" + y)
  {
    Deletion.SubPath(x, y, "/" + x + "/" + y);
    var id := CreateDirectoryThenGet(t, root, x + "/" + y, []);
  }

  lemma ReadOnlyIsDeepest(t: Tables, x: string, y: string, full: string, tags: seq<string>)
    requires Inv(t) && IsComponent(x) && IsComponent(y) && full == "/" + x + "/" + y
    requires IsDirectory(t.directory, "/" + x) && !IsDirectory(t.directory, full)
    requires forall d :: d in t.directory ==> !DirGrants(t, d, tags, WRITE)
    ensures !DeepestGrantsWrite(t, CleanParts(full), tags)
  {
    var ks := [x, y];
    Deletion.SubPath(x, y, full);
    Deletion.TopPath(x, "/" + x);
    assert ks[..1] == [x] && ks[..2] == ks;
    ExistsUpToDepth(t, ks, 1);
    ExistsUpToDepth(t, ks, 2);
    DirectoriesCanonical(t.directory, t.lastInode, "/" + x);
  }

  // ---------------------------------------------------------------- configs stored at the empty path

  const EVERYBODY := [ConfigAcl(WRITE, "", true)]

  /** A store with one config, at the root under the given one of its names, open to everybody. */
  lemma WithConfigAt(root: string, name: string, tags: seq<string>) returns (t: Tables)
    requires IsRoot(root)
    ensures Reachable(t) && Inv(t) && t.directory == map[] && t.config.Keys == {1}
    ensures t.config[1].name == name && t.config[1].path == root && Visible(t, 1, tags)
    ensures LoadAcls(t.configAcl, 1) == EVERYBODY && Protection.HoldsWrite(t, 1, tags)
  {
    var conf := Config(NoId, name, root, EVERYBODY, Some([]), 0, NoId, 0, 0);
    EmptyReachable();
    EmptyInv();
    assert Insertable(EMPTY, conf);
    ReachableNext(EMPTY, OpUpsert(conf, 0));
    StepInv(EMPTY, OpUpsert(conf, 0));
    t := Next(EMPTY, OpUpsert(conf, 0));
    LoadInserted(1, EVERYBODY, 1);
    assert EVERYBODY[1..] == [];
    assert [] + AclRows(1, EVERYBODY) == AclRows(1, EVERYBODY) == t.configAcl;
    assert EntryMatches(EVERYBODY[0], tags, READ) && EntryMatches(EVERYBODY[0], tags, WRITE);
  }

  /** A config stored at the empty path is shown at the top of every tree, but removing its name there
      finds nothing. See ClientIndex.RootRemoveResolves. */
  lemma RootConfigMissed(name: string, tags: seq<string>) returns (t: Tables)
    requires '/' !in name
    ensures Reachable(t) && Inv(t) && Visible(t, 1, tags) && SlashFreeNames(t, tags)
    ensures forall tree, m, ids, cp :: IsTree(tree, t, tags, "") && IndexOf(tree, m, ids, cp) ==>
              && tree.FullPath() == "/" && ConfigMessage(t, 1) in tree.configs
              && tree.FullPath() + "/" + name !in cp
  {
    t := WithConfigAt("", name, tags);
    forall tree, m, ids, cp | IsTree(tree, t, tags, "") && IndexOf(tree, m, ids, cp)
      ensures tree.FullPath() == "/" && ConfigMessage(t, 1) in tree.configs
      ensures tree.FullPath() + "/" + name !in cp
    {
      RootRemoveResolves(tree, t, tags, m, ids, cp, 1);
      if tree.FullPath() + "/" + name in cp {
        var c := IndexedByVisible(tree, t, tags, m, ids, cp, tree.FullPath() + "/" + name);
      }
    }
  }

  // ---------------------------------------------------------------- stale gates

  /** From a reachable state: a config is overwritten by a caller who may no longer write it when the
      transaction commits, having passed the gates before. See StaleGates.EveryChangeWasLetThrough. */
  lemma WrittenWithoutWrite(root: string, name: string, tags: seq<string>) returns (w: World)
    requires IsRoot(root)
    ensures Reachable(w.t) && |w.threads| == 2 && w.threads[0].Start? && w.threads[0].tags == tags
    ensures var before, after := WorldAt(w, {}, GATES_FIRST, 5), WorldAt(w, {}, GATES_FIRST, 6);
            && 1 in before.t.config && !HoldsWrite(before.t, 1, tags)
            && after.threads == [Finished(OK), Finished(OK)] && !SameConfig(before.t, after.t, 1)
  {
    var t := WithConfigAt(root, name, tags);
    var conf := Config(Num(1), name, root, [], Some([1]), 1, NoId, 0, 0);
    var revoke := Config(Num(1), name, root, [], None, 0, NoId, 0, 0);
    w := World(t, [Start(SetConfig(Some(conf), 0), tags), Start(SetConfig(Some(revoke), 0), tags)]);
    WriteAfterRevocation(t, {}, conf, tags, revoke, tags, 0);
    UpdateConfigInv(t, revoke, 0);
    Repointed(UpdateConfig(t, 1, revoke, 0), conf);
  }

  lemma Repointed(t: Tables, conf: Config)
    requires Inv(t) && Updatable(t, conf) && conf.content.Some?
    ensures !SameConfig(t, UpdateConfig(t, conf.id.n, conf, 0), conf.id.n)
  {
    assert CurrentOk(t.config, t.content, conf.id.n);
    assert t.lastInode + 1 !in t.content;
  }
}
