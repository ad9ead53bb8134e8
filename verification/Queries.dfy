/** The directory queries: looking up paths by (path, name) constraints, and loading ACL rows. */
module Queries {
  import opened Paths
  import opened Messages
  import opened Tables
  import opened Access

  // ---------------------------------------------------------------- constraints

  /** The (path, name) pairs the first n parts of one target contribute. */
  function ConstraintsOf(ks: seq<string>, n: nat): seq<(string, string)>
    requires n <= |ks|
  {
    if n == 0 then [] else ConstraintsOf(ks, n - 1) + [(FullOf(ks[..n - 1]), ks[n - 1])]
  }

  ghost predicate OnSomePath(r: DirectoryRow, targets: seq<string>) {
    exists target :: target in targets && OnPath(r, target)
  }

  ghost predicate IsConstraint(r: DirectoryRow, ks: seq<string>, i: nat)
    requires i < |ks|
  {
    r.path == FullOf(ks[..i]) && r.name == ks[i]
  }

  lemma {:induction false} ConstraintsMatch(r: DirectoryRow, ks: seq<string>, n: nat)
    requires n <= |ks|
    ensures (r.path, r.name) in ConstraintsOf(ks, n) <==> exists i :: 0 <= i < n && IsConstraint(r, ks, i)
  {
    if n > 0 {
      ConstraintsMatch(r, ks, n - 1);
      assert IsConstraint(r, ks, n - 1) <==> (r.path, r.name) == (FullOf(ks[..n - 1]), ks[n - 1]);
    }
  }

  lemma TargetConstraintsMatch(r: DirectoryRow, target: string)
    ensures (r.path, r.name) in ConstraintsOf(CleanParts(target), |CleanParts(target)|) <==> OnPath(r, target)
  {
    var ks := CleanParts(target);
    ConstraintsMatch(r, ks, |ks|);
    if OnPath(r, target) {
      var i :| 0 <= i < |ks| && r.path == FullOf(ks[..i]) && r.name == ks[i];
      assert IsConstraint(r, ks, i);
    }
  }

  lemma OnSomePathSnoc(r: DirectoryRow, targets: seq<string>, i: nat)
    requires i < |targets|
    ensures OnSomePath(r, targets[..i + 1]) <==> OnSomePath(r, targets[..i]) || OnPath(r, targets[i])
  {
    assert targets[..i + 1] == targets[..i] + [targets[i]];
    assert forall x :: x in targets[..i + 1] <==> x in targets[..i] || x == targets[i];
  }

  /** The loop over the parts of one target. */
  method TargetConstraints(target: string) returns (constraints: seq<(string, string)>)
    ensures forall r: DirectoryRow :: (r.path, r.name) in constraints <==> OnPath(r, target)
  {
    var pathParts := CleanPathParts(target);
    constraints := [];
    for idx := 0 to |pathParts|
      invariant constraints == ConstraintsOf(pathParts, idx)
    {
      constraints := constraints + [("/" + Join(pathParts[..idx]), pathParts[idx])];
    }
    forall r: DirectoryRow
      ensures (r.path, r.name) in constraints <==> OnPath(r, target)
    {
      TargetConstraintsMatch(r, target);
    }
  }

  /** The disjunction of constraints selects the rows on the path of some target. */
  method BuildConstraints(targets: seq<string>) returns (constraints: seq<(string, string)>)
    ensures forall r: DirectoryRow :: (r.path, r.name) in constraints <==> OnSomePath(r, targets)
  {
    constraints := [];
    for i := 0 to |targets|
      invariant forall r: DirectoryRow :: (r.path, r.name) in constraints <==> OnSomePath(r, targets[..i])
    {
      var more := TargetConstraints(targets[i]);
      forall r: DirectoryRow
        ensures (r.path, r.name) in constraints + more <==> OnSomePath(r, targets[..i + 1])
      {
        OnSomePathSnoc(r, targets, i);
      }
      constraints := constraints + more;
    }
    assert targets[..|targets|] == targets;
  }

  // ---------------------------------------------------------------- results

  ghost function Wanted(t: Tables, targets: seq<string>): set<int> {
    set id | id in t.directory && OnSomePath(t.directory[id], targets)
  }

  predicate PathSorted(ds: seq<Directory>) {
    |ds| <= 1 || (StrLe(ds[0].path, ds[1].path) && PathSorted(ds[1..]))
  }

  /** The messages of the wanted rows, each once, ordered by path. */
  ghost predicate Selected(ds: seq<Directory>, t: Tables, want: set<int>)
    requires want <= t.directory.Keys
  {
    && (forall d :: d in ds ==> d.id.Num? && d.id.n in want && d == DirectoryMessage(t, d.id.n))
    && (forall id :: id in want ==> DirectoryMessage(t, id) in ds)
    && NoDuplicates(ds)
    && PathSorted(ds)
  }

  ghost predicate HasPath(ds: seq<Directory>, p: string) {
    exists d :: d in ds && d.FullPath() == p
  }

  /** The targets no fetched directory has as its full path. */
  ghost function MissingOf(targets: seq<string>, ds: seq<Directory>): seq<string> {
    if targets == [] then []
    else (if HasPath(ds, targets[0]) then [] else [targets[0]]) + MissingOf(targets[1..], ds)
  }

  lemma {:induction false} MissingSnoc(targets: seq<string>, target: string, ds: seq<Directory>)
    ensures MissingOf(targets + [target], ds) == MissingOf(targets, ds) + (if HasPath(ds, target) then [] else [target])
  {
    if targets == [] {
      assert [] + [target] == [target] && MissingOf([target][1..], ds) == [];
    } else {
      assert (targets + [target])[1..] == targets[1..] + [target];
      MissingSnoc(targets[1..], target, ds);
    }
  }

  lemma {:induction false} MissingAll(targets: seq<string>)
    ensures MissingOf(targets, []) == targets
  {
    if targets != [] {
      MissingAll(targets[1..]);
      assert !HasPath([], targets[0]);
    }
  }

  // ---------------------------------------------------------------- ordering by path

  function InsertByPath(d: Directory, ds: seq<Directory>): (r: seq<Directory>)
    ensures |r| == |ds| + 1 && (r[0] == d || (ds != [] && r[0] == ds[0]))
    ensures forall e :: e in r <==> e == d || e in ds
  {
    if ds == [] || StrLe(d.path, ds[0].path) then [d] + ds
    else [ds[0]] + InsertByPath(d, ds[1..])
  }

  lemma {:induction false} InsertKeepsOrder(d: Directory, ds: seq<Directory>)
    requires PathSorted(ds)
    ensures PathSorted(InsertByPath(d, ds))
  {
    if ds == [] || StrLe(d.path, ds[0].path) {
      assert ([d] + ds)[1..] == ds;
    } else {
      StrLeTotal(d.path, ds[0].path);
      InsertKeepsOrder(d, ds[1..]);
      assert InsertByPath(d, ds)[1..] == InsertByPath(d, ds[1..]);
    }
  }

  lemma {:induction false} InsertKeepsDistinct(d: Directory, ds: seq<Directory>)
    requires d !in ds && NoDuplicates(ds)
    ensures NoDuplicates(InsertByPath(d, ds))
  {
    if ds == [] || StrLe(d.path, ds[0].path) {
      ConsDistinct(d, ds);
    } else {
      InsertKeepsDistinct(d, ds[1..]);
      assert ds[0] !in ds[1..];
      ConsDistinct(ds[0], InsertByPath(d, ds[1..]));
    }
  }

  // ---------------------------------------------------------------- root-first chains

  lemma {:induction false} PathSortedHead(ds: seq<Directory>, i: nat)
    requires PathSorted(ds) && i < |ds|
    ensures StrLe(ds[0].path, ds[i].path)
  {
    StrLeTotal(ds[0].path, ds[0].path);
    if i > 0 {
      PathSortedHead(ds[1..], i - 1);
      StrLeTransitive(ds[0].path, ds[1].path, ds[i].path);
    }
  }

  lemma {:induction false} PathSortedPair(ds: seq<Directory>, i: nat, j: nat)
    requires PathSorted(ds) && i < j < |ds|
    ensures StrLe(ds[i].path, ds[j].path)
  {
    if i == 0 {
      PathSortedHead(ds, j);
    } else {
      PathSortedPair(ds[1..], i - 1, j - 1);
    }
  }

  /** Of two prefixes of one path the lexicographically larger one is the longer. */
  lemma DeeperPrefix(ks: seq<string>, i: nat, j: nat)
    requires Components(ks) && i <= |ks| && j <= |ks| && i != j && StrLe(FullOf(ks[..i]), FullOf(ks[..j]))
    ensures i < j && |FullOf(ks[..i])| < |FullOf(ks[..j])|
  {
    if i < j {
      PrefixPathOrder(ks, i, j);
    } else {
      PrefixPathOrder(ks, j, i);
      StrLePrefix(FullOf(ks[..j]), FullOf(ks[..i]));
      StrLeAntisymmetric(FullOf(ks[..i]), FullOf(ks[..j]));
    }
  }

  /** Two different directories on the path of one target, ordered by path, are ordered by depth. */
  lemma RowsRootFirst(x: DirectoryRow, y: DirectoryRow, target: string)
    requires OnPath(x, target) && OnPath(y, target) && RowPath(x) != RowPath(y)
    requires StrLe(x.path, y.path)
    ensures |x.path| < |y.path| && |RowPath(x)| < |RowPath(y)|
  {
    var ks := CleanParts(target);
    CleanPartsComponents(target);
    var i :| 0 <= i < |ks| && x.path == FullOf(ks[..i]) && x.name == ks[i];
    var j :| 0 <= j < |ks| && y.path == FullOf(ks[..j]) && y.name == ks[j];
    PairRootFirst(ks, i, j, x, y);
  }

  lemma PairRootFirst(ks: seq<string>, i: nat, j: nat, x: DirectoryRow, y: DirectoryRow)
    requires Components(ks) && i < |ks| && j < |ks| && IsConstraint(x, ks, i) && IsConstraint(y, ks, j)
    requires RowPath(x) != RowPath(y) && StrLe(x.path, y.path)
    ensures |x.path| < |y.path| && |RowPath(x)| < |RowPath(y)|
  {
    ConstraintIsPrefix(x, ks, i);
    ConstraintIsPrefix(y, ks, j);
    DeeperPrefix(ks, i, j);
    PrefixPathOrder(ks, i + 1, j + 1);
  }

  lemma WantedForOne(t: Tables, target: string, id: int)
    requires id in Wanted(t, [target])
    ensures OnPath(t.directory[id], target)
  {
  }

  /** DirectoryChain answers root-first: along the chain of one target the paths grow strictly. */
  lemma ChainRootFirst(t: Tables, target: string, ds: seq<Directory>, a: nat, b: nat)
    requires UniquePaths(t.directory) && Selected(ds, t, Wanted(t, [target])) && a < b < |ds|
    ensures |ds[a].path| < |ds[b].path| && |ds[a].FullPath()| < |ds[b].FullPath()|
  {
    assert ds[a] in ds && ds[b] in ds && ds[a] != ds[b];
    PathSortedPair(ds, a, b);
    var x, y := ds[a].id.n, ds[b].id.n;
    WantedForOne(t, target, x);
    WantedForOne(t, target, y);
    assert RowPath(t.directory[x]) != RowPath(t.directory[y]);
    RowsRootFirst(t.directory[x], t.directory[y], target);
  }

  // ---------------------------------------------------------------- ACL rows

  lemma LoadSnoc(rows: seq<AclRow>, i: nat, owner: int)
    requires i < |rows|
    ensures LoadAcls(rows[..i + 1], owner)
         == LoadAcls(rows[..i], owner) + (if rows[i].owner == owner then [ToProto(rows[i])] else [])
  {
    assert rows[..i + 1] == rows[..i] + [rows[i]];
    LoadAppend(rows[..i], [rows[i]], owner);
    assert LoadAcls([rows[i]][1..], owner) == [];
  }

  /** A key the map lacks reads as no entries. */
  function EntriesOf(out: map<int, seq<ConfigAcl>>, owner: int): seq<ConfigAcl> {
    if owner in out then out[owner] else []
  }

  /** loadACLs: the entries of the wanted owners grouped by owner, in row order. */
  method LoadACLs(rows: seq<AclRow>, owners: seq<int>) returns (out: map<int, seq<ConfigAcl>>)
    ensures forall o :: o in owners ==> EntriesOf(out, o) == LoadAcls(rows, o)
  {
    out := map[];
    for i := 0 to |rows|
      invariant forall o :: o in owners ==> EntriesOf(out, o) == LoadAcls(rows[..i], o)
    {
      var row := rows[i];
      forall o
        ensures LoadAcls(rows[..i + 1], o) == LoadAcls(rows[..i], o) + (if row.owner == o then [ToProto(row)] else [])
      {
        LoadSnoc(rows, i, o);
      }
      if row.owner in owners {
        out := out[row.owner := EntriesOf(out, row.owner) + [ToProto(row)]];
      }
    }
    assert rows[..|rows|] == rows;
  }

  /** insertACLs: only recognised levels are written, in order. */
  method InsertACLs(rows: seq<AclRow>, owner: int, acls: seq<ConfigAcl>) returns (after: seq<AclRow>)
    ensures after == rows + AclRows(owner, acls)
  {
    after := rows;
    for i := 0 to |acls|
      invariant after == rows + AclRows(owner, acls[..i])
    {
      AclRowsSnoc(owner, acls[..i], acls[i]);
      assert acls[..i + 1] == acls[..i] + [acls[i]];
      if acls[i].acl == READ || acls[i].acl == WRITE {
        after := after + [AclRow(owner, acls[i].acl, acls[i].tag, acls[i].everyone)];
      }
    }
    assert acls[..|acls|] == acls;
  }

  lemma {:induction false} AclRowsSnoc(owner: int, acls: seq<ConfigAcl>, a: ConfigAcl)
    ensures AclRows(owner, acls + [a])
         == AclRows(owner, acls) + (if a.acl == READ || a.acl == WRITE then [AclRow(owner, a.acl, a.tag, a.everyone)] else [])
  {
    if acls == [] {
      assert [] + [a] == [a] && AclRows(owner, [a][1..]) == [];
    } else {
      assert (acls + [a])[1..] == acls[1..] + [a];
      AclRowsSnoc(owner, acls[1..], a);
    }
  }
}
