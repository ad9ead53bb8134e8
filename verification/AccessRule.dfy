/** The access rule as a caller can state it: in terms of the entries of the directories whose full path
    is the path in question or leads to it. */
module AccessRule {
  import opened Paths
  import opened Messages
  import opened Tables
  import opened StoreInvariant
  import opened Access
  import opened TreeShape
  import opened Ensuring
  import opened Handlers
  import opened Listing

  /** The directory is the one at path p or above it. */
  predicate OnWay(r: DirectoryRow, p: string) {
    p == RowPath(r) || RowPath(r) + "/" <= p
  }

  /** Path prefixes up to a slash are the prefixes of the component list. */
  lemma PrefixIsOnWay(ks: seq<string>, home: seq<string>)
    requires Components(ks) && ks != [] && Components(home)
    ensures FullOf(home) == FullOf(ks) || FullOf(ks) + "/" <= FullOf(home) <==> ks <= home
  {
    var p, prefix := FullOf(home), FullOf(ks);
    if ks <= home {
      PrefixInSubtree(ks, home);
    }
    if p == prefix {
      FullOfInjective(home, ks);
    } else if prefix + "/" <= p {
      var rest := p[|prefix| + 1..];
      assert p == prefix + "/" + rest;
      PartsOfConcat(prefix, rest);
      PartsOfFull(ks);
      PartsOfFull(home);
    }
  }

  lemma OnWayIff(r: DirectoryRow, ks: seq<string>)
    requires Canonical(r.path) && IsComponent(r.name) && Components(ks)
    ensures OnWay(r, FullOf(ks)) <==> IsPrefixPath(RowPath(r), ks, |ks|)
  {
    var rs := RowParts(r);
    RowPartsOfPath(r);
    PrefixIsOnWay(rs, ks);
    if rs <= ks {
      assert ks[..|rs|] == rs;
    }
    if IsPrefixPath(RowPath(r), ks, |ks|) {
      var i :| 1 <= i <= |ks| && RowPath(r) == FullOf(ks[..i]);
      FullOfInjective(rs, ks[..i]);
    }
  }

  /** Nothing lies above the root. */
  lemma RootHasNoWay(r: DirectoryRow, p: string)
    requires Canonical(r.path) && IsComponent(r.name) && IsRoot(p)
    ensures !OnWay(r, p)
  {
    RowPartsOfPath(r);
  }

  /** A path may be walked exactly when it is the root or a directory and every directory at it or above
      it grants READ. */
  lemma TraversableIff(t: Tables, p: string, tags: seq<string>)
    requires TreeInv(t.directory, t.lastInode)
    ensures Traversable(t, p, tags) <==>
              IsPlace(t.directory, p) && forall d :: d in t.directory && OnWay(t.directory[d], p) ==> DirGrants(t, d, tags, READ)
  {
    if IsDirectory(t.directory, p) {
      DirectoryTraversableIff(t, p, tags);
    } else if IsRoot(p) {
      forall d | d in t.directory
        ensures !OnWay(t.directory[d], p)
      {
        assert DirectoryOk(t.directory, d);
        RootHasNoWay(t.directory[d], p);
      }
    } else if Traversable(t, p, tags) {
      TraversableIsDirectory(t, p, tags);
    }
  }

  lemma DirectoryTraversableIff(t: Tables, p: string, tags: seq<string>)
    requires TreeInv(t.directory, t.lastInode) && IsDirectory(t.directory, p)
    ensures Traversable(t, p, tags) <==> forall d :: d in t.directory && OnWay(t.directory[d], p) ==> DirGrants(t, d, tags, READ)
  {
    DirectoriesCanonical(t.directory, t.lastInode, p);
    CanonicalRoundTrip(p);
    CleanPartsComponents(p);
    var ks := CleanParts(p);
    assert ks[..|ks|] == ks;
    TraversableByPrefixes(t, ks, |ks|, tags);
    forall d | d in t.directory
      ensures OnWay(t.directory[d], p) <==> IsPrefixPath(RowPath(t.directory[d]), ks, |ks|)
    {
      assert DirectoryOk(t.directory, d);
      OnWayIff(t.directory[d], ks);
    }
  }

  /** GetConfig answers exactly for configs whose entries and whose every directory grant READ. */
  lemma CanGetConfigIff(t: Tables, c: int, tags: seq<string>)
    requires Inv(t) && c in t.config
    ensures CanGetConfig(t, Num(c), tags) <==>
              && Grants(LoadAcls(t.configAcl, c), tags, READ)
              && forall d :: d in t.directory && OnWay(t.directory[d], t.config[c].path) ==> DirGrants(t, d, tags, READ)
  {
    assert CurrentOk(t.config, t.content, c);
    ChainDecidesRule(t, t.config[c].path, tags);
    TraversableIff(t, t.config[c].path, tags);
  }

  lemma CanGetDirectoryIff(t: Tables, id: int, tags: seq<string>)
    requires Inv(t) && id in t.directory
    ensures CanGetDirectory(t, Num(id), tags) <==>
              forall d :: d in t.directory && OnWay(t.directory[d], RowPath(t.directory[id])) ==> DirGrants(t, d, tags, READ)
  {
    assert IsDirectory(t.directory, RowPath(t.directory[id]));
    ChainDecidesRule(t, RowPath(t.directory[id]), tags);
    TraversableIff(t, RowPath(t.directory[id]), tags);
  }

  /** A config at the root with one entry for a tag: who carries the tag is answered, a stranger is not. */
  lemma TagDecidesGet(t: Tables, c: int, acl: ConfigAcl, tags: seq<string>)
    requires Inv(t) && c in t.config && IsRoot(t.config[c].path)
    requires LoadAcls(t.configAcl, c) == [acl] && (acl.acl == READ || acl.acl == WRITE) && !acl.everyone && acl.tag != ""
    ensures CanGetConfig(t, Num(c), tags) <==> acl.tag in tags
  {
    CanGetConfigIff(t, c, tags);
    TraversableIff(t, t.config[c].path, tags);
    assert Traversable(t, t.config[c].path, tags);
    assert [acl][0] in [acl];
    if acl.tag in tags {
      TagOpens([acl], tags, acl.tag);
    } else {
      StrangerRefused([acl], tags, READ);
    }
  }

  /** A place grants WRITE exactly when the directory there, if it has one, does. */
  lemma PlaceGrantsIff(t: Tables, p: string, tags: seq<string>)
    requires TreeInv(t.directory, t.lastInode) && IsPlace(t.directory, p)
    ensures PlaceGrantsWrite(t, p, tags) <==>
              forall d :: d in t.directory && RowPath(t.directory[d]) == p ==> DirGrants(t, d, tags, WRITE)
  {
    if IsDirectory(t.directory, p) {
      DirectoriesCanonical(t.directory, t.lastInode, p);
    }
  }

  /** No directory lies deeper on the way to p. */
  ghost predicate DeepestOn(t: Tables, d: int, p: string)
    requires d in t.directory
  {
    && OnWay(t.directory[d], p)
    && forall e :: e in t.directory && OnWay(t.directory[e], p) ==> |RowPath(t.directory[e])| <= |RowPath(t.directory[d])|
  }

  /** The gate for new directories: the deepest directory on the way, if there is one, grants WRITE. */
  lemma DeepestGrantsIff(t: Tables, ks: seq<string>, tags: seq<string>)
    requires TreeInv(t.directory, t.lastInode) && Components(ks)
    ensures DeepestGrantsWrite(t, ks, tags) <==>
              forall d :: d in t.directory && DeepestOn(t, d, FullOf(ks)) ==> DirGrants(t, d, tags, WRITE)
  {
    var m := ExistingDepth(t.directory, ks, 0);
    forall d | d in t.directory
      ensures DeepestOn(t, d, FullOf(ks)) <==> m > 0 && RowPath(t.directory[d]) == FullOf(ks[..m])
    {
      DeepestOnIff(t, ks, d);
    }
    if m > 0 {
      assert IsDirectory(t.directory, FullOf(ks[..m]));
      PlaceGrantsIff(t, FullOf(ks[..m]), tags);
    }
  }

  lemma DeepestOnIff(t: Tables, ks: seq<string>, d: int)
    requires TreeInv(t.directory, t.lastInode) && Components(ks) && d in t.directory
    ensures var m := ExistingDepth(t.directory, ks, 0);
            DeepestOn(t, d, FullOf(ks)) <==> m > 0 && RowPath(t.directory[d]) == FullOf(ks[..m])
  {
    var m := ExistingDepth(t.directory, ks, 0);
    forall e | e in t.directory && OnWay(t.directory[e], FullOf(ks))
      ensures exists i :: 1 <= i <= m && RowPath(t.directory[e]) == FullOf(ks[..i])
      ensures m > 0 && |RowPath(t.directory[e])| <= |FullOf(ks[..m])|
    {
      ShallowOnWay(t, ks, e);
    }
    if m > 0 {
      assert IsDirectory(t.directory, FullOf(ks[..m]));
      var deepest :| deepest in t.directory && RowPath(t.directory[deepest]) == FullOf(ks[..m]);
      assert DirectoryOk(t.directory, deepest);
      OnWayIff(t.directory[deepest], ks);
      if DeepestOn(t, d, FullOf(ks)) {
        ShallowOnWay(t, ks, d);
        var i :| 1 <= i <= m && RowPath(t.directory[d]) == FullOf(ks[..i]);
        PrefixPathOrder(ks, i, m);
      }
    }
  }

  lemma ShallowOnWay(t: Tables, ks: seq<string>, e: int)
    requires TreeInv(t.directory, t.lastInode) && Components(ks) && e in t.directory && OnWay(t.directory[e], FullOf(ks))
    ensures var m := ExistingDepth(t.directory, ks, 0);
            && (exists i :: 1 <= i <= m && RowPath(t.directory[e]) == FullOf(ks[..i]))
            && |RowPath(t.directory[e])| <= |FullOf(ks[..m])|
  {
    var m := ExistingDepth(t.directory, ks, 0);
    assert DirectoryOk(t.directory, e);
    OnWayIff(t.directory[e], ks);
    var i :| 1 <= i <= |ks| && RowPath(t.directory[e]) == FullOf(ks[..i]);
    assert IsDirectory(t.directory, FullOf(ks[..i]));
    ExistsUpToDepth(t, ks, i);
    PrefixPathOrder(ks, i, m);
  }
}
