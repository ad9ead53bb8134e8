/** The hierarchical READ rule, and the per-path chain query that decides it. */
module Access {
  import opened Paths
  import opened Messages
  import opened Tables
  import opened StoreInvariant

  ghost predicate DirGrants(t: Tables, id: int, tags: seq<string>, required: int) {
    DirectoryGrants(LoadAcls(t.directoryAcl, id), tags, required)
  }

  /** The rule: the root is open to everyone; a directory is when it grants READ and so do all
      the directories above it. */
  ghost predicate Traversable(t: Tables, p: string, tags: seq<string>)
    decreases |p|
  {
    p == "" || p == "/"
    || exists id :: id in t.directory && RowPath(t.directory[id]) == p && |t.directory[id].path| < |p|
         && DirGrants(t, id, tags, READ) && Traversable(t, t.directory[id].path, tags)
  }

  lemma RowPathLonger(r: DirectoryRow)
    requires Canonical(r.path) && IsComponent(r.name)
    ensures |r.path| < |RowPath(r)|
  {
  }

  lemma TraversableAt(t: Tables, id: int, tags: seq<string>)
    requires TreeInv(t.directory, t.lastInode) && id in t.directory
    ensures Traversable(t, RowPath(t.directory[id]), tags)
       <==> DirGrants(t, id, tags, READ) && Traversable(t, t.directory[id].path, tags)
  {
    assert DirectoryOk(t.directory, id);
    RowPathLonger(t.directory[id]);
    RowPartsOfPath(t.directory[id]);
  }

  lemma TraversableIsDirectory(t: Tables, p: string, tags: seq<string>)
    requires Traversable(t, p, tags)
    ensures IsPlace(t.directory, p)
  {
  }

  // ---------------------------------------------------------------- the chain query

  /** The row is the (path, name) pair of one of the parts. */
  ghost predicate OnParts(r: DirectoryRow, ks: seq<string>) {
    exists i :: 0 <= i < |ks| && r.path == FullOf(ks[..i]) && r.name == ks[i]
  }

  /** The row matches one of the constraints the query builds from a target path. */
  ghost predicate OnPath(r: DirectoryRow, target: string) {
    OnParts(r, CleanParts(target))
  }

  /** pathReadable: the target is not reported missing and no directory on the chain refuses. */
  ghost predicate ChainReadable(t: Tables, p: string, tags: seq<string>) {
    p == "" || p == "/"
    || (&& (exists id :: id in t.directory && OnPath(t.directory[id], p) && RowPath(t.directory[id]) == p)
        && (forall id :: id in t.directory && OnPath(t.directory[id], p) ==> DirGrants(t, id, tags, READ)))
  }

  lemma ConstraintIsPrefix(r: DirectoryRow, ks: seq<string>, i: nat)
    requires Components(ks) && i < |ks| && r.path == FullOf(ks[..i]) && r.name == ks[i]
    ensures RowPath(r) == FullOf(ks[..i + 1])
  {
    assert ks[..i + 1][..i] == ks[..i];
    PathOfRow(r, ks[..i + 1]);
  }

  lemma PrefixIsConstraint(r: DirectoryRow, ks: seq<string>, i: nat)
    requires Canonical(r.path) && IsComponent(r.name)
    requires Components(ks) && 1 <= i <= |ks| && RowPath(r) == FullOf(ks[..i])
    ensures r.path == FullOf(ks[..i - 1]) && r.name == ks[i - 1]
  {
    RowAtPath(r, ks[..i]);
    assert ks[..i][..i - 1] == ks[..i - 1];
  }

  /** The constraints select exactly the directories at the prefixes of the target's parts. */
  lemma OnPathIsPrefix(r: DirectoryRow, target: string)
    requires Canonical(r.path) && IsComponent(r.name)
    ensures OnPath(r, target) <==> IsPrefixPath(RowPath(r), CleanParts(target), |CleanParts(target)|)
  {
    CleanPartsComponents(target);
    OnPathOneWay(r, target);
    OnPathOtherWay(r, target);
  }

  lemma OnPathOneWay(r: DirectoryRow, target: string)
    requires Components(CleanParts(target))
    ensures OnPath(r, target) ==> IsPrefixPath(RowPath(r), CleanParts(target), |CleanParts(target)|)
  {
    var ks := CleanParts(target);
    if OnPath(r, target) {
      OnPartsIsPrefix(r, ks);
    }
  }

  lemma OnPartsIsPrefix(r: DirectoryRow, ks: seq<string>)
    requires Components(ks) && OnParts(r, ks)
    ensures IsPrefixPath(RowPath(r), ks, |ks|)
  {
    var i :| 0 <= i < |ks| && r.path == FullOf(ks[..i]) && r.name == ks[i];
    ConstraintIsPrefix(r, ks, i);
  }

  lemma OnPathOtherWay(r: DirectoryRow, target: string)
    requires Canonical(r.path) && IsComponent(r.name) && Components(CleanParts(target))
    ensures IsPrefixPath(RowPath(r), CleanParts(target), |CleanParts(target)|) ==> OnPath(r, target)
  {
    var ks := CleanParts(target);
    if IsPrefixPath(RowPath(r), ks, |ks|) {
      var i :| 1 <= i <= |ks| && RowPath(r) == FullOf(ks[..i]);
      PrefixIsConstraint(r, ks, i);
    }
  }

  /** Every existing directory at one of the first n prefixes grants READ. */
  ghost predicate PrefixesGrant(t: Tables, ks: seq<string>, n: nat, tags: seq<string>)
    requires n <= |ks|
  {
    forall id :: id in t.directory && IsPrefixPath(RowPath(t.directory[id]), ks, n) ==> DirGrants(t, id, tags, READ)
  }

  lemma PrefixesGrantStep(t: Tables, ks: seq<string>, n: nat, tags: seq<string>, id: int)
    requires UniquePaths(t.directory) && 1 <= n <= |ks|
    requires id in t.directory && RowPath(t.directory[id]) == FullOf(ks[..n])
    ensures PrefixesGrant(t, ks, n, tags) <==> PrefixesGrant(t, ks, n - 1, tags) && DirGrants(t, id, tags, READ)
  {
    if PrefixesGrant(t, ks, n, tags) {
      forall d | d in t.directory && IsPrefixPath(RowPath(t.directory[d]), ks, n - 1)
        ensures DirGrants(t, d, tags, READ)
      {
        LongerPrefix(RowPath(t.directory[d]), ks, n);
      }
      assert IsPrefixPath(RowPath(t.directory[id]), ks, n);
    }
    if PrefixesGrant(t, ks, n - 1, tags) && DirGrants(t, id, tags, READ) {
      forall d | d in t.directory && IsPrefixPath(RowPath(t.directory[d]), ks, n)
        ensures DirGrants(t, d, tags, READ)
      {
        if !IsPrefixPath(RowPath(t.directory[d]), ks, n - 1) {
          assert RowPath(t.directory[d]) == FullOf(ks[..n]);
        }
      }
    }
  }

  lemma {:induction false} TraversableByPrefixes(t: Tables, ks: seq<string>, n: nat, tags: seq<string>)
    requires TreeInv(t.directory, t.lastInode) && Components(ks) && n <= |ks|
    requires n > 0 ==> IsDirectory(t.directory, FullOf(ks[..n]))
    ensures Traversable(t, FullOf(ks[..n]), tags) <==> PrefixesGrant(t, ks, n, tags)
    decreases n
  {
    if n == 0 {
      assert FullOf(ks[..0]) == "/";
    } else {
      var id :| id in t.directory && RowPath(t.directory[id]) == FullOf(ks[..n]);
      assert DirectoryOk(t.directory, id);
      RowAtPath(t.directory[id], ks[..n]);
      assert ks[..n][..n - 1] == ks[..n - 1];
      TraversableAt(t, id, tags);
      PrefixesGrantStep(t, ks, n, tags, id);
      if n > 1 {
        AncestorsExist(t.directory, t.lastInode, ks[..n], n - 1);
      }
      TraversableByPrefixes(t, ks, n - 1, tags);
    }
  }

  lemma ChainReadableOfDirectory(t: Tables, p: string, tags: seq<string>)
    requires TreeInv(t.directory, t.lastInode) && IsDirectory(t.directory, p)
    ensures ChainReadable(t, p, tags) <==> PrefixesGrant(t, CleanParts(p), |CleanParts(p)|, tags)
  {
    var ks := CleanParts(p);
    DirectoriesCanonical(t.directory, t.lastInode, p);
    CanonicalRoundTrip(p);
    forall id | id in t.directory
      ensures OnPath(t.directory[id], p) <==> IsPrefixPath(RowPath(t.directory[id]), ks, |ks|)
    {
      assert DirectoryOk(t.directory, id);
      OnPathIsPrefix(t.directory[id], p);
    }
    var leaf :| leaf in t.directory && RowPath(t.directory[leaf]) == p;
    assert ks[..|ks|] == ks;
    assert IsPrefixPath(p, ks, |ks|);
  }

  /** The chain-based gate decides the rule for every string: true for the root, and for the full
      path of an existing directory whose every ancestor and self grant READ; false for all else. */
  lemma ChainDecidesRule(t: Tables, p: string, tags: seq<string>)
    requires Inv(t)
    ensures ChainReadable(t, p, tags) <==> Traversable(t, p, tags)
  {
    if p != "" && p != "/" {
      if IsDirectory(t.directory, p) {
        var ks := CleanParts(p);
        DirectoriesCanonical(t.directory, t.lastInode, p);
        CanonicalRoundTrip(p);
        CleanPartsComponents(p);
        assert ks[..|ks|] == ks;
        TraversableByPrefixes(t, ks, |ks|, tags);
        ChainReadableOfDirectory(t, p, tags);
      } else {
        assert !Traversable(t, p, tags);
      }
    }
  }
}
