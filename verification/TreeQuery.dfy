/** The steps of TreeForACLTags after its queries: which of the fetched rows go into the tree. */
module TreeQuery {
  import opened SqlLike
  import opened Messages
  import opened Tables
  import opened Access
  import opened Queries
  import opened Tree
  import opened TreeShape
  import opened Listing
  import opened Readable

  // ---------------------------------------------------------------- all directories of the table

  lemma AllFetched(t: Tables, ds: seq<Directory>, id: int)
    requires Selected(ds, t, t.directory.Keys) && id in t.directory
    ensures DirectoryMessage(t, id) in ds
  {
  }

  /** The whole table is closed under taking parents. */
  lemma TableAncestorClosed(t: Tables, ds: seq<Directory>)
    requires Inv(t) && Selected(ds, t, t.directory.Keys)
    ensures AncestorClosed(ds)
  {
    forall d | d in ds
      ensures d.path != "" && |d.path| < |d.FullPath()| && d.FullPath() != "/" && ParentListed(ds, d)
    {
      RowClosed(t, ds, d.id.n);
    }
  }

  lemma RowClosed(t: Tables, ds: seq<Directory>, id: int)
    requires Inv(t) && Selected(ds, t, t.directory.Keys) && id in t.directory
    ensures var d := DirectoryMessage(t, id);
            d.path != "" && |d.path| < |d.FullPath()| && d.FullPath() != "/" && ParentListed(ds, d)
  {
    var d := DirectoryMessage(t, id);
    assert DirectoryOk(t.directory, id);
    RowPartsOfPath(t.directory[id]);
    RowPathLonger(t.directory[id]);
    if d.path != "/" {
      var parent := t.directory[id].parentId.value;
      assert DirectoryMessage(t, parent) in ds;
    }
  }

  /** Over the whole table the bulk rule is the rule for single paths. */
  lemma {:induction false} OpenIsTraversable(t: Tables, ds: seq<Directory>, p: string, tags: seq<string>)
    requires Inv(t) && Selected(ds, t, t.directory.Keys)
    ensures OpenIn(ds, p, tags) <==> Traversable(t, p, tags)
    decreases |p|
  {
    if p != "" && p != "/" {
      forall id | id in t.directory && |t.directory[id].path| < |p|
        ensures OpenIn(ds, t.directory[id].path, tags) <==> Traversable(t, t.directory[id].path, tags)
      {
        OpenIsTraversable(t, ds, t.directory[id].path, tags);
      }
      if OpenIn(ds, p, tags) {
        var d :| d in ds && d.FullPath() == p && |d.path| < |p| && d.Allows(tags, READ) && OpenIn(ds, d.path, tags);
        assert DirGrants(t, d.id.n, tags, READ);
      }
      if Traversable(t, p, tags) {
        var id :| id in t.directory && RowPath(t.directory[id]) == p && |t.directory[id].path| < |p|
                  && DirGrants(t, id, tags, READ) && Traversable(t, t.directory[id].path, tags);
        var d := DirectoryMessage(t, id);
        assert d in ds && d.Allows(tags, READ);
      }
    }
  }

  ghost function Longest(ds: seq<Directory>): (n: nat)
    ensures Bounded(ds, n)
  {
    if ds == [] then 0
    else
      var n := Longest(ds[1..]);
      if n < |ds[0].FullPath()| then |ds[0].FullPath()| else n
  }

  // ---------------------------------------------------------------- filtering directories

  /** The loop that keeps the readable directories. */
  method IncludeDirectories(ghost t: Tables, all: seq<Directory>, readable: map<string, bool>, tags: seq<string>)
    returns (included: seq<Directory>)
    requires Inv(t) && Selected(all, t, t.directory.Keys)
    requires forall p :: Lookup(readable, p) <==> Traversable(t, p, tags)
    ensures Enumerates(included, ReadableSet(t, tags)) && AllFlat(included)
  {
    included := [];
    for i := 0 to |all|
      invariant NoDuplicates(included)
      invariant forall d :: d in included <==> d in all[..i] && Lookup(readable, d.FullPath())
    {
      assert all[..i + 1] == all[..i] + [all[i]];
      if Lookup(readable, all[i].FullPath()) {
        assert all[i] !in all[..i];
        SnocDistinct(included, all[i]);
        included := included + [all[i]];
      }
    }
    assert all[..|all|] == all;
    forall d
      ensures d in included <==> d in ReadableSet(t, tags)
    {
      IncludedIffReadable(t, all, tags, d);
    }
    forall d | d in included
      ensures Flat(d)
    {
      DirectoryMessageFlat(t, d.id.n);
    }
  }

  lemma IncludedIffReadable(t: Tables, all: seq<Directory>, tags: seq<string>, d: Directory)
    requires Selected(all, t, t.directory.Keys)
    ensures d in all && Traversable(t, d.FullPath(), tags) <==> d in ReadableSet(t, tags)
  {
  }

  // ---------------------------------------------------------------- filtering configs

  /** The prefilter of the query: a LIKE match lets too much through, never too little. */
  ghost predicate Prefiltered(path: string, prefix: string) {
    prefix == "" || path == prefix || Like(path, prefix + "/%")
  }

  lemma PrefilterMissesNothing(path: string, prefix: string)
    requires InSubtree(path, prefix)
    ensures Prefiltered(path, prefix)
  {
    if path != prefix {
      LikeBeneath(path, prefix);
    }
  }

  ghost predicate ShownUpTo(t: Tables, tags: seq<string>, prefix: string, cs: seq<int>, configs: seq<Config>) {
    && NoDuplicates(configs)
    && (forall m: Config :: m in configs ==> m.id.Num? && m.id.n in cs && Shown(t, tags, prefix, m.id.n) && m == ConfigMessage(t, m.id.n))
    && (forall c :: c in cs && Shown(t, tags, prefix, c) ==> ConfigMessage(t, c) in configs)
  }

  lemma ShowOne(t: Tables, tags: seq<string>, prefix: string, cs: seq<int>, c: int, configs: seq<Config>)
    requires ShownUpTo(t, tags, prefix, cs, configs) && c !in cs && c in t.config
    ensures ShownUpTo(t, tags, prefix, cs + [c], if Shown(t, tags, prefix, c) then configs + [ConfigMessage(t, c)] else configs)
  {
    if Shown(t, tags, prefix, c) {
      SnocDistinct(configs, ConfigMessage(t, c));
    }
  }

  lemma ShownAll(t: Tables, tags: seq<string>, prefix: string, cs: seq<int>, configs: seq<Config>)
    requires ShownUpTo(t, tags, prefix, cs, configs)
    requires forall c :: c in cs <==> c in t.config && Prefiltered(t.config[c].path, prefix)
    ensures Enumerates(configs, VisibleConfigs(t, tags, prefix))
  {
    forall m: Config
      ensures m in configs <==> m in VisibleConfigs(t, tags, prefix)
    {
      if m in VisibleConfigs(t, tags, prefix) {
        var c :| c in t.config && Visible(t, c, tags) && (prefix == "" || InSubtree(t.config[c].path, prefix)) && m == ConfigMessage(t, c);
        if prefix != "" {
          PrefilterMissesNothing(t.config[c].path, prefix);
        }
        assert c in cs && Shown(t, tags, prefix, c);
      }
    }
  }
}
