/** Why the loop of ensureDirectories computes the ensured prefixes: what is missing is a tail of the
    prefix list, sorting leaves it in place, and every parent lookup succeeds. */
module Ensuring {
  import opened Paths
  import opened Messages
  import opened Tables
  import opened StoreSpec
  import opened StoreInvariant
  import opened Access
  import opened Queries

  /** A directory at a prefix of a target is fetched. */
  lemma PrefixFetched(t: Tables, targets: seq<string>, target: string, ds: seq<Directory>, id: int, j: nat)
    requires Selected(ds, t, Wanted(t, targets)) && target in targets
    requires id in t.directory && DirectoryOk(t.directory, id)
    requires 1 <= j <= |CleanParts(target)| && RowPath(t.directory[id]) == FullOf(CleanParts(target)[..j])
    ensures HasPath(ds, RowPath(t.directory[id]))
  {
    CleanPartsComponents(target);
    PrefixIsConstraint(t.directory[id], CleanParts(target), j);
    assert OnPath(t.directory[id], target);
    assert id in Wanted(t, targets);
    assert DirectoryMessage(t, id) in ds;
  }

  lemma FetchedExists(t: Tables, want: set<int>, ds: seq<Directory>, p: string)
    requires want <= t.directory.Keys && Selected(ds, t, want) && HasPath(ds, p)
    ensures IsDirectory(t.directory, p)
  {
  }

  /** The query fetches the directory at a prefix of a target exactly when it exists. */
  lemma FetchedIffExists(t: Tables, targets: seq<string>, target: string, ds: seq<Directory>, j: nat, p: string)
    requires Inv(t) && Selected(ds, t, Wanted(t, targets)) && target in targets
    requires 1 <= j <= |CleanParts(target)| && p == FullOf(CleanParts(target)[..j])
    ensures HasPath(ds, p) <==> IsDirectory(t.directory, p)
  {
    if IsDirectory(t.directory, p) {
      var id :| id in t.directory && RowPath(t.directory[id]) == p;
      assert DirectoryOk(t.directory, id);
      PrefixFetched(t, targets, target, ds, id, j);
    }
    if HasPath(ds, p) {
      FetchedExists(t, Wanted(t, targets), ds, p);
    }
  }

  /** Over every string: a single target is reported missing exactly when it is no directory. */
  lemma TargetFetchedIff(t: Tables, target: string, ds: seq<Directory>)
    requires Inv(t) && Selected(ds, t, Wanted(t, [target]))
    ensures HasPath(ds, target) <==> IsDirectory(t.directory, target)
  {
    if IsDirectory(t.directory, target) {
      DirectoriesCanonical(t.directory, t.lastInode, target);
      WholeIsPrefix(target);
      FetchedIffExists(t, [target], target, ds, |CleanParts(target)|, target);
    }
    if HasPath(ds, target) {
      FetchedExists(t, Wanted(t, [target]), ds, target);
    }
  }

  lemma WholeIsPrefix(target: string)
    requires Canonical(target)
    ensures target == FullOf(CleanParts(target)[..|CleanParts(target)|])
  {
    CanonicalRoundTrip(target);
    var ks := CleanParts(target);
    assert ks[..|ks|] == ks;
  }

  /** How many prefixes of ks exist, from the i-th on without a gap. */
  ghost function ExistingDepth(dirs: DirectoryTable, ks: seq<string>, i: nat): (m: nat)
    requires i <= |ks|
    ensures i <= m <= |ks|
    ensures forall j {:trigger IsDirectory(dirs, FullOf(ks[..j]))} :: i < j <= m ==> IsDirectory(dirs, FullOf(ks[..j]))
    ensures m < |ks| ==> !IsDirectory(dirs, FullOf(ks[..m + 1]))
    decreases |ks| - i
  {
    if i < |ks| && IsDirectory(dirs, FullOf(ks[..i + 1])) then ExistingDepth(dirs, ks, i + 1) else i
  }

  /** A directory exists at a prefix exactly when the prefix is no longer than the existing part. */
  lemma ExistsUpToDepth(t: Tables, ks: seq<string>, j: nat)
    requires TreeInv(t.directory, t.lastInode) && Components(ks) && 1 <= j <= |ks|
    ensures IsDirectory(t.directory, FullOf(ks[..j])) <==> j <= ExistingDepth(t.directory, ks, 0)
  {
    var m := ExistingDepth(t.directory, ks, 0);
    if m < j && IsDirectory(t.directory, FullOf(ks[..j])) {
      PrefixExists(t, ks, j, m + 1);
    }
  }

  lemma PrefixExists(t: Tables, ks: seq<string>, j: nat, i: nat)
    requires TreeInv(t.directory, t.lastInode) && Components(ks) && 1 <= i <= j <= |ks| && IsDirectory(t.directory, FullOf(ks[..j]))
    ensures IsDirectory(t.directory, FullOf(ks[..i]))
  {
    AncestorsExist(t.directory, t.lastInode, ks[..j], i);
    assert ks[..j][..i] == ks[..i];
  }

  /** What the query reports missing is the tail of the prefix list. */
  lemma {:induction false} MissingIsTail(ks: seq<string>, ds: seq<Directory>, m: nat, i: nat)
    requires m <= |ks| && i <= |ks|
    requires forall j :: 1 <= j <= |ks| ==> (HasPath(ds, FullOf(ks[..j])) <==> j <= m)
    ensures MissingOf(PrefixPaths(ks, i), ds) == PrefixPaths(ks, if i < m then m else i)
    decreases |ks| - i
  {
    if i < |ks| {
      MissingIsTail(ks, ds, m, i + 1);
      assert PrefixPaths(ks, i)[1..] == PrefixPaths(ks, i + 1);
    }
  }

  lemma FullIsTarget(ks: seq<string>)
    requires ks != []
    ensures FullOf(ks) in PrefixPaths(ks, 0)
  {
    assert ks[..|ks|] == ks;
    assert PrefixPaths(ks, 0)[|ks| - 1] == FullOf(ks);
  }

  lemma PrefixesFetched(t: Tables, ks: seq<string>, full: string, targets: seq<string>, ds: seq<Directory>, j: nat)
    requires Inv(t) && Components(ks) && Selected(ds, t, Wanted(t, targets))
    requires 1 <= j <= |ks| && full in targets && CleanParts(full) == ks
    ensures HasPath(ds, FullOf(ks[..j])) <==> j <= ExistingDepth(t.directory, ks, 0)
  {
    FetchedIffExists(t, targets, full, ds, j, FullOf(ks[..j]));
    ExistsUpToDepth(t, ks, j);
  }

  lemma PrefixFetchedIff(t: Tables, ks: seq<string>, ds: seq<Directory>, j: nat)
    requires Inv(t) && Components(ks) && Selected(ds, t, Wanted(t, PrefixPaths(ks, 0)))
    requires 1 <= j <= |ks|
    ensures HasPath(ds, FullOf(ks[..j])) <==> j <= ExistingDepth(t.directory, ks, 0)
  {
    FullIsTarget(ks);
    PartsOfFull(ks);
    PrefixesFetched(t, ks, FullOf(ks), PrefixPaths(ks, 0), ds, j);
  }

  /** The missing prefixes, sorted as strings, are the tail of the prefix list in its own order. */
  lemma MissingPrefixes(t: Tables, ks: seq<string>, ds: seq<Directory>)
    requires Inv(t) && Components(ks) && Selected(ds, t, Wanted(t, PrefixPaths(ks, 0)))
    ensures var m := ExistingDepth(t.directory, ks, 0);
            && MissingOf(PrefixPaths(ks, 0), ds) == PrefixPaths(ks, m)
            && SortStrings(PrefixPaths(ks, m)) == PrefixPaths(ks, m)
            && forall j :: 1 <= j <= m ==> HasPath(ds, FullOf(ks[..j]))
  {
    var m := ExistingDepth(t.directory, ks, 0);
    forall j | 1 <= j <= |ks|
      ensures HasPath(ds, FullOf(ks[..j])) <==> j <= m
    {
      PrefixFetchedIff(t, ks, ds, j);
    }
    MissingIsTail(ks, ds, m, 0);
    SortedTail(ks, m);
  }

  lemma SortedTail(ks: seq<string>, m: nat)
    requires Components(ks) && m <= |ks|
    ensures SortStrings(PrefixPaths(ks, m)) == PrefixPaths(ks, m)
  {
    var missing := PrefixPaths(ks, m);
    PrefixPathsSorted(ks, m);
    SortStringsSorts(missing);
    SortedUnique(SortStrings(missing), missing);
  }

  /** Ensuring prefixes that exist changes nothing. */
  lemma {:induction false} EnsuredExisting(t: Tables, ks: seq<string>, n: nat, acls: seq<ConfigAcl>)
    requires n <= |ks| && forall j :: 1 <= j <= n ==> IsDirectory(t.directory, FullOf(ks[..j]))
    ensures Ensured(t, ks, n, acls) == t
    decreases n
  {
    if n > 0 {
      EnsuredExisting(t, ks, n - 1, acls);
    }
  }

  /** Until its turn comes a missing prefix stays missing. */
  lemma NotYetEnsured(t: Tables, u: Tables, ks: seq<string>, n: nat, acls: seq<ConfigAcl>)
    requires Components(ks) && n < |ks| && AddsPrefixes(t, u, ks, n, acls)
    requires !IsDirectory(t.directory, FullOf(ks[..n + 1]))
    ensures !IsDirectory(u.directory, FullOf(ks[..n + 1]))
  {
    if IsDirectory(u.directory, FullOf(ks[..n + 1])) {
      var id :| id in u.directory && RowPath(u.directory[id]) == FullOf(ks[..n + 1]);
      if id !in t.directory {
        assert NewIsMissingPrefix(t, u, ks, n, acls, id);
        var i :| 1 <= i <= n && FullOf(ks[..n + 1]) == FullOf(ks[..i]);
        PrefixPathOrder(ks, i, n + 1);
      }
    }
  }

  /** The parent found among the fetched and created directories is the parent row. */
  lemma ParentIdIs(dirs: DirectoryTable, p: string, id: int)
    requires UniquePaths(dirs) && p != "/" && id in dirs && RowPath(dirs[id]) == p
    ensures ParentId(dirs, p) == Some(id)
  {
  }

  /** Creating the next missing prefix is the next ensured state. */
  lemma EnsuredNext(t: Tables, ks: seq<string>, n: nat, acls: seq<ConfigAcl>)
    requires Inv(t) && Components(ks) && n < |ks| && !IsDirectory(t.directory, FullOf(ks[..n + 1]))
    ensures var u := Ensured(t, ks, n, acls);
            var parent := FullOf(ks[..n]);
            Ensured(t, ks, n + 1, acls) == AddDirectory(u, parent, ks[n], ParentId(u.directory, parent), acls)
  {
    EnsuredExactly(t, ks, n, acls);
    NotYetEnsured(t, Ensured(t, ks, n, acls), ks, n, acls);
  }

  /** The message stands for a row of the table. */
  ghost predicate Located(t: Tables, d: Directory) {
    && d.id.Num? && d.id.n in t.directory
    && t.directory[d.id.n].path == d.path && t.directory[d.id.n].name == d.name
  }

  /** The loop's list of directories: rows of the table, among the first n prefixes, covering them. */
  ghost predicate Covers(ds: seq<Directory>, t: Tables, ks: seq<string>, n: nat)
    requires n <= |ks|
  {
    && (forall d :: d in ds ==> Located(t, d) && IsPrefixPath(d.FullPath(), ks, n))
    && (forall i {:trigger HasPath(ds, FullOf(ks[..i]))} :: 1 <= i <= n ==> HasPath(ds, FullOf(ks[..i])))
  }

  lemma LocatedPath(t: Tables, d: Directory)
    requires Located(t, d)
    ensures d.FullPath() == RowPath(t.directory[d.id.n])
  {
  }

  /** A row on the path of a prefix is itself at a prefix. */
  lemma OnShorterPath(r: DirectoryRow, ks: seq<string>, j: nat)
    requires j <= |ks| && Components(ks) && OnParts(r, ks[..j])
    ensures IsPrefixPath(RowPath(r), ks, |ks|)
  {
    OnPartsIsPrefix(r, ks[..j]);
    var i :| 1 <= i <= j && RowPath(r) == FullOf(ks[..j][..i]);
    assert ks[..j][..i] == ks[..i];
  }

  lemma TargetOnParts(r: DirectoryRow, ks: seq<string>)
    requires Components(ks) && OnPath(r, FullOf(ks))
    ensures OnParts(r, ks)
  {
    PartsOfFull(ks);
  }

  lemma OnPrefixTarget(r: DirectoryRow, ks: seq<string>, j: nat)
    requires Components(ks) && j <= |ks| && OnPath(r, FullOf(ks[..j]))
    ensures IsPrefixPath(RowPath(r), ks, |ks|)
  {
    TargetOnParts(r, ks[..j]);
    OnShorterPath(r, ks, j);
  }

  lemma PrefixIndex(ks: seq<string>, target: string) returns (j: nat)
    requires target in PrefixPaths(ks, 0)
    ensures j <= |ks| && target == FullOf(ks[..j])
  {
    var ps := PrefixPaths(ks, 0);
    var i :| 0 <= i < |ps| && ps[i] == target;
    j := i + 1;
  }

  lemma OnSomePrefix(r: DirectoryRow, ks: seq<string>)
    requires Components(ks) && OnSomePath(r, PrefixPaths(ks, 0))
    ensures IsPrefixPath(RowPath(r), ks, |ks|)
  {
    var target :| target in PrefixPaths(ks, 0) && OnPath(r, target);
    var j := PrefixIndex(ks, target);
    OnPrefixTarget(r, ks, j);
  }

  lemma ExistingPrefixShallow(t: Tables, ks: seq<string>, id: int)
    requires Inv(t) && Components(ks) && id in t.directory && IsPrefixPath(RowPath(t.directory[id]), ks, |ks|)
    ensures IsPrefixPath(RowPath(t.directory[id]), ks, ExistingDepth(t.directory, ks, 0))
  {
    var i :| 1 <= i <= |ks| && RowPath(t.directory[id]) == FullOf(ks[..i]);
    ExistsUpToDepth(t, ks, i);
  }

  /** The fetched directories are the existing prefixes. */
  lemma FetchedCovers(t: Tables, ks: seq<string>, ds: seq<Directory>)
    requires Inv(t) && Components(ks) && Selected(ds, t, Wanted(t, PrefixPaths(ks, 0)))
    ensures Covers(ds, t, ks, ExistingDepth(t.directory, ks, 0))
  {
    MissingPrefixes(t, ks, ds);
    forall d | d in ds
      ensures Located(t, d) && IsPrefixPath(d.FullPath(), ks, ExistingDepth(t.directory, ks, 0))
    {
      OnSomePrefix(t.directory[d.id.n], ks);
      ExistingPrefixShallow(t, ks, d.id.n);
    }
  }

  /** What the loop finds as the parent id of the next missing prefix is the parent row's id. */
  lemma FoundParent(u: Tables, ks: seq<string>, n: nat, ds: seq<Directory>, parentId: Option<int>)
    requires TreeInv(u.directory, u.lastInode) && Components(ks) && n <= |ks| && Covers(ds, u, ks, n)
    requires FullOf(ks[..n]) == "/" ==> parentId == None
    requires FullOf(ks[..n]) != "/" && parentId.None? ==> !HasPath(ds, FullOf(ks[..n]))
    requires parentId.Some? ==> exists d :: d in ds && d.FullPath() == FullOf(ks[..n]) && d.id == Num(parentId.value)
    ensures parentId == ParentId(u.directory, FullOf(ks[..n]))
  {
    var p := FullOf(ks[..n]);
    FullOfRoot(ks[..n]);
    assert n > 0 ==> HasPath(ds, FullOf(ks[..n]));
    if parentId.Some? {
      var d :| d in ds && d.FullPath() == p && d.id == Num(parentId.value);
      LocatedPath(u, d);
      ParentIdIs(u.directory, p, d.id.n);
    }
  }

  /** One iteration: the inserted row is the next ensured prefix, and the list still covers. */
  lemma CoversNext(u: Tables, w: Tables, ks: seq<string>, n: nat, ds: seq<Directory>, d: Directory)
    requires Components(ks) && n < |ks| && Covers(ds, u, ks, n)
    requires forall id :: id in u.directory ==> id in w.directory && w.directory[id] == u.directory[id]
    requires Located(w, d) && d.FullPath() == FullOf(ks[..n + 1])
    ensures Covers(ds + [d], w, ks, n + 1)
  {
    forall e | e in ds + [d]
      ensures Located(w, e) && IsPrefixPath(e.FullPath(), ks, n + 1)
    {
      if e in ds {
        LongerPrefix(e.FullPath(), ks, n + 1);
      }
    }
    forall i | 1 <= i <= n + 1
      ensures HasPath(ds + [d], FullOf(ks[..i]))
    {
      if i <= n {
        assert HasPath(ds, FullOf(ks[..i]));
        var e :| e in ds && e.FullPath() == FullOf(ks[..i]);
        assert e in ds + [d];
      } else {
        assert d in ds + [d];
      }
    }
  }

  lemma NewMessagePath(ks: seq<string>, n: nat, d: Directory)
    requires Components(ks) && n < |ks| && d.path == FullOf(ks[..n]) && d.name == ks[n]
    ensures d.FullPath() == FullOf(ks[..n + 1])
  {
    FullOfSnoc(ks[..n], ks[n]);
    assert ks[..n + 1] == ks[..n] + [ks[n]];
  }

  /** The search found the parent among the listed directories, or there is none to find. */
  ghost predicate IsParentIn(ds: seq<Directory>, p: string, parentId: Option<int>) {
    match parentId
    case None => p != "/" ==> !HasPath(ds, p)
    case Some(id) => p != "/" && exists d :: d in ds && d.FullPath() == p && d.id == Num(id)
  }

  /** Where the loop starts: a well-formed t in which no prefix of ks longer than m exists. */
  ghost predicate EnsuringFrom(t: Tables, ks: seq<string>, m: nat) {
    Inv(t) && Components(ks) && m <= |ks| && MissingFrom(t.directory, ks, m)
  }

  /** The loop invariant: u is t with the first n prefixes ensured, and the list covers them. */
  ghost predicate EnsuringTo(u: Tables, t: Tables, ks: seq<string>, n: nat, ds: seq<Directory>, acls: seq<ConfigAcl>) {
    n <= |ks| && u == Ensured(t, ks, n, acls) && Covers(ds, u, ks, n)
  }

  /** One iteration of the loop: inserting the next missing prefix under the parent that was found
      gives the next ensured state, and the new message completes the list for it. */
  lemma NextLevel(t: Tables, u: Tables, ks: seq<string>, m: nat, n: nat, ds: seq<Directory>, parentId: Option<int>, acls: seq<ConfigAcl>)
    requires EnsuringFrom(t, ks, m) && m <= n < |ks|
    requires EnsuringTo(u, t, ks, n, ds, acls) && IsParentIn(ds, FullOf(ks[..n]), parentId)
    ensures var w := AddDirectory(u, FullOf(ks[..n]), ks[n], parentId, acls);
            EnsuringTo(w, t, ks, n + 1, ds + [Directory(Num(w.lastInode), ks[n], FullOf(ks[..n]), acls, [], [])], acls)
  {
    var w := AddDirectory(u, FullOf(ks[..n]), ks[n], parentId, acls);
    var d := Directory(Num(w.lastInode), ks[n], FullOf(ks[..n]), acls, [], []);
    EnsuredTree(t, ks, n, acls);
    FoundParent(u, ks, n, ds, parentId);
    EnsuredNext(t, ks, n, acls);
    NewMessagePath(ks, n, d);
    CoversNext(u, w, ks, n, ds, d);
  }

  lemma EnsuredTree(t: Tables, ks: seq<string>, n: nat, acls: seq<ConfigAcl>)
    requires Inv(t) && Components(ks) && n <= |ks|
    ensures var u := Ensured(t, ks, n, acls); TreeInv(u.directory, u.lastInode) && u.lastInode + 1 !in u.directory
  {
    EnsuredExactly(t, ks, n, acls);
  }

  /** No directory exists at a prefix longer than m. */
  ghost predicate MissingFrom(dirs: DirectoryTable, ks: seq<string>, m: nat)
    requires m <= |ks|
  {
    forall j {:trigger IsDirectory(dirs, FullOf(ks[..j]))} :: m < j <= |ks| ==> !IsDirectory(dirs, FullOf(ks[..j]))
  }

  /** The paths of the levels from m on, in order. */
  ghost predicate LevelsFrom(missing: seq<string>, ks: seq<string>, m: nat) {
    && m + |missing| == |ks|
    && forall j :: 0 <= j < |missing| ==> missing[j] == FullOf(ks[..m + j + 1])
  }

  /** What holds when the loop starts, and, when nothing is missing, at the end. */
  lemma EnsuringStarts(t: Tables, ks: seq<string>, ds: seq<Directory>, acls: seq<ConfigAcl>)
    requires Inv(t) && Components(ks) && Selected(ds, t, Wanted(t, PrefixPaths(ks, 0)))
    ensures var m := ExistingDepth(t.directory, ks, 0);
            && LevelsFrom(MissingOf(PrefixPaths(ks, 0), ds), ks, m)
            && LevelsFrom(SortStrings(MissingOf(PrefixPaths(ks, 0), ds)), ks, m)
            && EnsuringFrom(t, ks, m) && EnsuringTo(t, t, ks, m, ds, acls)
  {
    var m := ExistingDepth(t.directory, ks, 0);
    MissingPrefixes(t, ks, ds);
    FetchedCovers(t, ks, ds);
    EnsuredExisting(t, ks, m, acls);
    forall j | m < j <= |ks|
      ensures !IsDirectory(t.directory, FullOf(ks[..j]))
    {
      ExistsUpToDepth(t, ks, j);
    }
  }

  // ---------------------------------------------------------------- what a chain reports as missing

  lemma NoneMissing(p: string, ds: seq<Directory>)
    ensures MissingOf([p], ds) == if HasPath(ds, p) then [] else [p]
  {
    assert MissingOf([p][1..], ds) == [];
  }

  /** The missing components of a canonical path, as full paths: all of them are prefixes of it. */
  lemma CanonicalChainReports(t: Tables, ks: seq<string>, p: string, ds: seq<Directory>)
    requires Inv(t) && Components(ks) && ks != [] && p == FullOf(ks) && Selected(ds, t, Wanted(t, [p]))
    ensures MissingOf([p], ds) == PrefixPaths(ks, ExistingDepth(t.directory, ks, 0))
       <==> |ks| == 1 || IsDirectory(t.directory, FullOf(ks[..|ks| - 1]))
  {
    var m := ExistingDepth(t.directory, ks, 0);
    var missing := PrefixPaths(ks, m);
    NoneMissing(p, ds);
    TargetFetchedIff(t, p, ds);
    assert ks[..|ks|] == ks;
    ExistsUpToDepth(t, ks, |ks|);
    if |ks| > 1 {
      ExistsUpToDepth(t, ks, |ks| - 1);
    }
    if m == |ks| - 1 {
      assert missing[0] == FullOf(ks[..m + 1]) == p;
      assert missing == [p];
    }
  }

  lemma AllPrefixesCanonical(ks: seq<string>, m: nat, p: string)
    requires Components(ks) && m <= |ks| && p in PrefixPaths(ks, m)
    ensures Canonical(p)
  {
    var ps := PrefixPaths(ks, m);
    var i :| 0 <= i < |ps| && ps[i] == p;
    PartsOfFull(ks[..m + i + 1]);
  }

  /** DirectoryChain on any path but the root reports exactly the components that do not exist when the
      path is canonical and the directory right above its last component exists (or would be the root).
      On every other path its answer is a different list. */
  lemma ChainReportsMissing(t: Tables, p: string, ks: seq<string>, ds: seq<Directory>)
    requires Inv(t) && p != "" && p != "/" && ks == CleanParts(p) && Selected(ds, t, Wanted(t, [p]))
    ensures MissingOf([p], ds) == PrefixPaths(ks, ExistingDepth(t.directory, ks, 0))
       <==> Canonical(p) && (|ks| <= 1 || IsDirectory(t.directory, FullOf(ks[..|ks| - 1])))
  {
    CleanPartsComponents(p);
    if Canonical(p) {
      CanonicalRoundTrip(p);
      FullOfRoot(ks);
      CanonicalChainReports(t, ks, p, ds);
    } else {
      NoneMissing(p, ds);
      TargetFetchedIff(t, p, ds);
      if IsDirectory(t.directory, p) {
        DirectoriesCanonical(t.directory, t.lastInode, p);
      }
      if p in PrefixPaths(ks, ExistingDepth(t.directory, ks, 0)) {
        AllPrefixesCanonical(ks, ExistingDepth(t.directory, ks, 0), p);
      }
    }
  }
}
