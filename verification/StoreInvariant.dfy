/** Every transaction keeps the invariant, and what each one changes exactly. */
module StoreInvariant {
  import opened Paths
  import opened SqlLike
  import opened Messages
  import opened Tables
  import opened StoreSpec

  // ---------------------------------------------------------------- creating directories

  lemma ParentIdFound(dirs: DirectoryTable, p: string)
    requires p == "/" || IsDirectory(dirs, p)
    ensures p == "/" <==> ParentId(dirs, p) == None
    ensures p != "/" ==> ParentId(dirs, p).value in dirs && RowPath(dirs[ParentId(dirs, p).value]) == p
  {
  }

  /** Adding a row under a fresh id leaves the other directories in order. */
  lemma OldDirectoryOk(dirs: DirectoryTable, id: int, r: DirectoryRow, i: int)
    requires id !in dirs && i in dirs && DirectoryOk(dirs, i)
    ensures DirectoryOk(dirs[id := r], i)
  {
  }

  lemma AddedTreeInv(dirs: DirectoryTable, last: nat, p: string, name: string)
    requires TreeInv(dirs, last) && Canonical(p) && IsComponent(name)
    requires p == "/" || IsDirectory(dirs, p)
    requires !IsDirectory(dirs, ChildPath(p, name))
    ensures TreeInv(dirs[last + 1 := DirectoryRow(name, p, ParentId(dirs, p))], last + 1)
  {
    var r := DirectoryRow(name, p, ParentId(dirs, p));
    var added := dirs[last + 1 := r];
    assert last + 1 !in dirs;
    ParentIdFound(dirs, p);
    RowPartsOfPath(r);
    forall i | i in added
      ensures DirectoryOk(added, i)
    {
      if i in dirs {
        assert DirectoryOk(dirs, i);
        OldDirectoryOk(dirs, last + 1, r, i);
      }
    }
  }

  /** More directories: what is a place stays one. */
  lemma PlacesKept(config: ConfigTable, dirs: DirectoryTable, more: DirectoryTable, last: nat, last': nat)
    requires ConfigInv(config, dirs, last) && last <= last'
    requires forall i :: i in dirs ==> i in more && more[i] == dirs[i]
    ensures ConfigInv(config, more, last')
  {
    forall c | c in config
      ensures IsPlace(more, config[c].path)
    {
      assert IsPlace(dirs, config[c].path);
    }
  }

  lemma AddedAclInv(rows: seq<AclRow>, owners: set<int>, owner: int, acls: seq<ConfigAcl>, owners': set<int>)
    requires AclInv(rows, owners) && owners <= owners' && owner in owners'
    ensures AclInv(rows + AclRows(owner, acls), owners')
  {
    forall r | r in rows + AclRows(owner, acls)
      ensures r.owner in owners' && (r.acl == READ || r.acl == WRITE)
    {
      if r !in rows {
        InsertedMembers(owner, acls, r);
      }
    }
  }

  lemma AddDirectoryInv(t: Tables, p: string, name: string, acls: seq<ConfigAcl>)
    requires Inv(t) && Canonical(p) && IsComponent(name)
    requires p == "/" || IsDirectory(t.directory, p)
    requires !IsDirectory(t.directory, ChildPath(p, name))
    ensures Inv(AddDirectory(t, p, name, ParentId(t.directory, p), acls))
  {
    var u := AddDirectory(t, p, name, ParentId(t.directory, p), acls);
    AddedTreeInv(t.directory, t.lastInode, p, name);
    PlacesKept(t.config, t.directory, u.directory, t.lastInode, u.lastInode);
    AddedAclInv(t.directoryAcl, t.directory.Keys, u.lastInode, acls, u.directory.Keys);
  }

  /** p is one of the first n prefixes of the path ks. */
  ghost predicate IsPrefixPath(p: string, ks: seq<string>, n: nat)
    requires n <= |ks|
  {
    exists i :: 1 <= i <= n && p == FullOf(ks[..i])
  }

  /** Every directory keeps its id, row and entries. */
  ghost predicate KeepsDirectories(t: Tables, u: Tables) {
    forall id :: id in t.directory ==>
      && id in u.directory && u.directory[id] == t.directory[id]
      && LoadAcls(u.directoryAcl, id) == LoadAcls(t.directoryAcl, id)
  }

  /** A new directory is a missing one of the first n prefixes and carries the recognised entries. */
  ghost predicate NewIsMissingPrefix(t: Tables, u: Tables, ks: seq<string>, n: nat, acls: seq<ConfigAcl>, id: int)
    requires n <= |ks| && id in u.directory
  {
    && id > t.lastInode
    && IsPrefixPath(RowPath(u.directory[id]), ks, n)
    && !IsDirectory(t.directory, RowPath(u.directory[id]))
    && LoadAcls(u.directoryAcl, id) == Recognised(acls)
  }

  ghost predicate HasPrefixes(dirs: DirectoryTable, ks: seq<string>, n: nat)
    requires n <= |ks|
  {
    forall i {:trigger IsDirectory(dirs, FullOf(ks[..i]))} :: 1 <= i <= n ==> IsDirectory(dirs, FullOf(ks[..i]))
  }

  ghost predicate OnlyDirectories(t: Tables, u: Tables) {
    u.config == t.config && u.content == t.content && u.configAcl == t.configAcl
  }

  /** u has exactly the missing ones of the first n prefixes of ks more than t. */
  ghost predicate AddsPrefixes(t: Tables, u: Tables, ks: seq<string>, n: nat, acls: seq<ConfigAcl>)
    requires n <= |ks|
  {
    && OnlyDirectories(t, u)
    && t.lastInode <= u.lastInode
    && KeepsDirectories(t, u)
    && (forall id :: id in u.directory && id !in t.directory ==> NewIsMissingPrefix(t, u, ks, n, acls, id))
    && HasPrefixes(u.directory, ks, n)
  }

  lemma NoAclYet(rows: seq<AclRow>, owners: set<int>, id: int)
    requires AclInv(rows, owners) && id !in owners
    ensures LoadAcls(rows, id) == []
  {
    LoadNothing(rows, id);
  }

  lemma LongerPrefix(p: string, ks: seq<string>, n: nat)
    requires 1 <= n <= |ks| && IsPrefixPath(p, ks, n - 1)
    ensures IsPrefixPath(p, ks, n)
  {
  }

  lemma StillDirectory(dirs: DirectoryTable, more: DirectoryTable, p: string)
    requires forall i :: i in dirs ==> i in more && more[i] == dirs[i]
    ensures IsDirectory(dirs, p) ==> IsDirectory(more, p)
  {
    if IsDirectory(dirs, p) {
      var d :| d in dirs && RowPath(dirs[d]) == p;
      assert d in more;
    }
  }

  /** One more directory: the loaded entries of all the others stay as they were. */
  lemma AddedAcls(u: Tables, path: string, name: string, parentId: Option<int>, acls: seq<ConfigAcl>, i: int)
    requires LoadAcls(u.directoryAcl, u.lastInode + 1) == []
    ensures LoadAcls(AddDirectory(u, path, name, parentId, acls).directoryAcl, i)
         == if i == u.lastInode + 1 then Recognised(acls) else LoadAcls(u.directoryAcl, i)
  {
    LoadAppend(u.directoryAcl, AclRows(u.lastInode + 1, acls), i);
    LoadInserted(u.lastInode + 1, acls, i);
  }

  /** What inserting level n does to one directory and to the entries of all. */
  ghost predicate InsertsLevel(u: Tables, w: Tables, ks: seq<string>, n: nat, acls: seq<ConfigAcl>)
    requires 1 <= n <= |ks|
  {
    var id := u.lastInode + 1;
    && OnlyDirectories(u, w) && w.lastInode == id
    && id !in u.directory && id in w.directory
    && w.directory.Keys == u.directory.Keys + {id}
    && RowPath(w.directory[id]) == FullOf(ks[..n])
    && LoadAcls(w.directoryAcl, id) == Recognised(acls)
    && KeepsDirectories(u, w)
  }

  lemma AddInsertsLevel(u: Tables, ks: seq<string>, n: nat, acls: seq<ConfigAcl>, parentId: Option<int>)
    requires 1 <= n <= |ks| && Components(ks)
    requires u.lastInode + 1 !in u.directory && LoadAcls(u.directoryAcl, u.lastInode + 1) == []
    ensures InsertsLevel(u, AddDirectory(u, FullOf(ks[..n - 1]), ks[n - 1], parentId, acls), ks, n, acls)
  {
    var id := u.lastInode + 1;
    var w := AddDirectory(u, FullOf(ks[..n - 1]), ks[n - 1], parentId, acls);
    assert ks[..n][..n - 1] == ks[..n - 1];
    PathOfRow(w.directory[id], ks[..n]);
    forall i
      ensures LoadAcls(w.directoryAcl, i) == if i == id then Recognised(acls) else LoadAcls(u.directoryAcl, i)
    {
      AddedAcls(u, FullOf(ks[..n - 1]), ks[n - 1], parentId, acls, i);
    }
  }

  /** One more level. */
  lemma AddsOneMore(t: Tables, u: Tables, w: Tables, ks: seq<string>, n: nat, acls: seq<ConfigAcl>)
    requires 1 <= n <= |ks| && AddsPrefixes(t, u, ks, n - 1, acls)
    requires !IsDirectory(u.directory, FullOf(ks[..n]))
    requires InsertsLevel(u, w, ks, n, acls)
    ensures AddsPrefixes(t, w, ks, n, acls)
  {
    var id := u.lastInode + 1;
    forall i | i in w.directory && i !in t.directory
      ensures NewIsMissingPrefix(t, w, ks, n, acls, i)
    {
      if i == id {
        StillDirectory(t.directory, u.directory, FullOf(ks[..n]));
      } else {
        assert NewIsMissingPrefix(t, u, ks, n - 1, acls, i);
        LongerPrefix(RowPath(u.directory[i]), ks, n);
      }
    }
    HasOneMore(u.directory, w.directory, ks, n, id);
  }

  lemma HasOneMore(dirs: DirectoryTable, more: DirectoryTable, ks: seq<string>, n: nat, id: int)
    requires 1 <= n <= |ks| && HasPrefixes(dirs, ks, n - 1)
    requires forall i :: i in dirs ==> i in more && more[i] == dirs[i]
    requires id in more && RowPath(more[id]) == FullOf(ks[..n])
    ensures HasPrefixes(more, ks, n)
  {
    forall i | 1 <= i <= n
      ensures IsDirectory(more, FullOf(ks[..i]))
    {
      if i < n {
        StillDirectory(dirs, more, FullOf(ks[..i]));
      }
    }
  }

  /** The parent of every level exists by the time the level is created. */
  lemma ParentReady(u: Tables, ks: seq<string>, n: nat)
    requires Components(ks) && 1 <= n <= |ks|
    requires n > 1 ==> IsDirectory(u.directory, FullOf(ks[..n - 1]))
    ensures var parent := FullOf(ks[..n - 1]);
            && Canonical(parent) && (parent == "/" || IsDirectory(u.directory, parent))
            && ChildPath(parent, ks[n - 1]) == FullOf(ks[..n])
  {
    PartsOfFull(ks[..n - 1]);
    FullOfRoot(ks[..n - 1]);
    FullOfSnoc(ks[..n - 1], ks[n - 1]);
    assert ks[..n] == ks[..n - 1] + [ks[n - 1]];
  }

  lemma AddsNoMore(t: Tables, u: Tables, ks: seq<string>, n: nat, acls: seq<ConfigAcl>)
    requires 1 <= n <= |ks| && AddsPrefixes(t, u, ks, n - 1, acls)
    requires IsDirectory(u.directory, FullOf(ks[..n]))
    ensures AddsPrefixes(t, u, ks, n, acls)
  {
    forall id | id in u.directory && id !in t.directory
      ensures NewIsMissingPrefix(t, u, ks, n, acls, id)
    {
      assert NewIsMissingPrefix(t, u, ks, n - 1, acls, id);
      LongerPrefix(RowPath(u.directory[id]), ks, n);
    }
  }

  lemma LevelInv(u: Tables, ks: seq<string>, n: nat, acls: seq<ConfigAcl>)
    requires Inv(u) && Components(ks) && 1 <= n <= |ks|
    requires HasPrefixes(u.directory, ks, n - 1) && !IsDirectory(u.directory, FullOf(ks[..n]))
    ensures var parent := FullOf(ks[..n - 1]);
            Inv(AddDirectory(u, parent, ks[n - 1], ParentId(u.directory, parent), acls))
  {
    if n > 1 {
      assert IsDirectory(u.directory, FullOf(ks[..n - 1]));
    }
    ParentReady(u, ks, n);
    AddDirectoryInv(u, FullOf(ks[..n - 1]), ks[n - 1], acls);
  }

  lemma LevelAdds(t: Tables, u: Tables, ks: seq<string>, n: nat, acls: seq<ConfigAcl>, parentId: Option<int>)
    requires Components(ks) && 1 <= n <= |ks| && AddsPrefixes(t, u, ks, n - 1, acls)
    requires u.lastInode + 1 !in u.directory && AclInv(u.directoryAcl, u.directory.Keys)
    requires !IsDirectory(u.directory, FullOf(ks[..n]))
    ensures AddsPrefixes(t, AddDirectory(u, FullOf(ks[..n - 1]), ks[n - 1], parentId, acls), ks, n, acls)
  {
    NoAclYet(u.directoryAcl, u.directory.Keys, u.lastInode + 1);
    AddInsertsLevel(u, ks, n, acls, parentId);
    AddsOneMore(t, u, AddDirectory(u, FullOf(ks[..n - 1]), ks[n - 1], parentId, acls), ks, n, acls);
  }

  /** Creating level n, given the levels above it. */
  lemma EnsuredLevel(t: Tables, u: Tables, ks: seq<string>, n: nat, acls: seq<ConfigAcl>)
    requires Inv(u) && Components(ks) && 1 <= n <= |ks| && AddsPrefixes(t, u, ks, n - 1, acls)
    requires !IsDirectory(u.directory, FullOf(ks[..n]))
    ensures var parent := FullOf(ks[..n - 1]);
            var w := AddDirectory(u, parent, ks[n - 1], ParentId(u.directory, parent), acls);
            Inv(w) && AddsPrefixes(t, w, ks, n, acls)
  {
    LevelInv(u, ks, n, acls);
    LevelAdds(t, u, ks, n, acls, ParentId(u.directory, FullOf(ks[..n - 1])));
  }

  /** In u the first n prefixes are ensured, and all is in order. */
  ghost predicate EnsuredTo(t: Tables, u: Tables, ks: seq<string>, n: nat, acls: seq<ConfigAcl>)
    requires n <= |ks|
  {
    u == Ensured(t, ks, n, acls) && Inv(u) && AddsPrefixes(t, u, ks, n, acls)
  }

  /** One level, created or already there. */
  lemma EnsuredOneMore(t: Tables, u: Tables, ks: seq<string>, n: nat, acls: seq<ConfigAcl>)
    requires Components(ks) && 1 <= n <= |ks| && EnsuredTo(t, u, ks, n - 1, acls)
    ensures exists w :: EnsuredTo(t, w, ks, n, acls)
  {
    var w := Ensured(t, ks, n, acls);
    if IsDirectory(u.directory, FullOf(ks[..n])) {
      AddsNoMore(t, u, ks, n, acls);
    } else {
      EnsuredLevel(t, u, ks, n, acls);
    }
    assert EnsuredTo(t, w, ks, n, acls);
  }

  lemma NothingEnsured(t: Tables, ks: seq<string>, n: nat, acls: seq<ConfigAcl>)
    requires Inv(t) && n == 0
    ensures exists u :: EnsuredTo(t, u, ks, n, acls)
  {
    assert EnsuredTo(t, t, ks, n, acls);
  }

  lemma {:induction false} EnsuredLevels(t: Tables, ks: seq<string>, n: nat, acls: seq<ConfigAcl>)
    requires Inv(t) && Components(ks) && n <= |ks|
    ensures exists u :: EnsuredTo(t, u, ks, n, acls)
  {
    if n == 0 {
      NothingEnsured(t, ks, n, acls);
    } else {
      EnsuredLevels(t, ks, n - 1, acls);
      var u :| EnsuredTo(t, u, ks, n - 1, acls);
      EnsuredOneMore(t, u, ks, n, acls);
    }
  }

  /** ensureDirectories: the invariant is kept and exactly the missing prefixes are added, each with
      the recognised supplied entries; what existed keeps its id, row and entries. */
  lemma EnsuredExactly(t: Tables, ks: seq<string>, n: nat, acls: seq<ConfigAcl>)
    requires Inv(t) && Components(ks) && n <= |ks|
    ensures Inv(Ensured(t, ks, n, acls))
    ensures AddsPrefixes(t, Ensured(t, ks, n, acls), ks, n, acls)
  {
    EnsuredLevels(t, ks, n, acls);
    var u :| EnsuredTo(t, u, ks, n, acls);
  }

  lemma CreateDirectoryInv(t: Tables, parent: string, name: string, acls: seq<ConfigAcl>)
    requires Inv(t)
    ensures match CreateDirectory(t, parent, name, acls)
            case Some(t') => Inv(t')
            case None => true
  {
    var ks := CleanParts(ComposedPath(parent, name));
    CleanPartsComponents(ComposedPath(parent, name));
    EnsuredExactly(t, ks, |ks|, acls);
  }

  // ---------------------------------------------------------------- the other transactions

  lemma RemainingAclInv(rows: seq<AclRow>, owners: set<int>, owner: int, owners': set<int>)
    requires AclInv(rows, owners) && owners - {owner} <= owners'
    ensures AclInv(WithoutOwner(rows, owner), owners')
  {
    forall r | r in WithoutOwner(rows, owner)
      ensures r.owner in owners' && (r.acl == READ || r.acl == WRITE)
    {
      RemainingMembers(rows, owner, r);
    }
  }

  lemma UpdateDirectoryInv(t: Tables, id: Id, name: string, path: string, acls: seq<ConfigAcl>)
    requires Inv(t)
    ensures match UpdateDirectory(t, id, name, path, acls)
            case Some(t') => Inv(t')
            case None => true
  {
    if UpdateDirectory(t, id, name, path, acls).Some? {
      RemainingAclInv(t.directoryAcl, t.directory.Keys, id.n, t.directory.Keys);
      AddedAclInv(WithoutOwner(t.directoryAcl, id.n), t.directory.Keys, id.n, acls, t.directory.Keys);
    }
  }

  /** The emptiness DeleteDirectory establishes: no child by either encoding, no config inside. */
  ghost predicate Vacant(t: Tables, id: int)
    requires id in t.directory
  {
    var full := RowPath(t.directory[id]);
    && (forall d :: d in t.directory ==> t.directory[d].parentId != Some(id) && t.directory[d].path != full)
    && (forall c :: c in t.config ==> t.config[c].path != full && !HasPrefix(t.config[c].path, full + "/"))
  }

  /** The two encodings agree: a child by path is a child by parent_id. */
  lemma ChildEncodingsAgree(dirs: DirectoryTable, id: int, d: int)
    requires id in dirs && d in dirs && DirectoryOk(dirs, id) && DirectoryOk(dirs, d) && UniquePaths(dirs)
    ensures dirs[d].path == RowPath(dirs[id]) <==> dirs[d].parentId == Some(id)
  {
    RowPartsOfPath(dirs[id]);
    if dirs[d].path == RowPath(dirs[id]) {
      var parent := dirs[d].parentId.value;
      assert parent in dirs;
    }
  }

  lemma NoChildByPath(dirs: DirectoryTable, last: nat, id: int)
    requires TreeInv(dirs, last) && id in dirs
    requires forall d :: d in dirs ==> dirs[d].parentId != Some(id)
    ensures forall d :: d in dirs ==> dirs[d].path != RowPath(dirs[id])
  {
    forall d | d in dirs
      ensures dirs[d].path != RowPath(dirs[id])
    {
      assert DirectoryOk(dirs, d) && DirectoryOk(dirs, id);
      ChildEncodingsAgree(dirs, id, d);
    }
  }

  /** DeleteDirectory succeeds only on an empty directory. */
  lemma DeletedWasVacant(t: Tables, id: Id)
    requires Inv(t) && DeleteDirectory(t, id).Some?
    ensures Vacant(t, id.n)
  {
    var full := RowPath(t.directory[id.n]);
    NoChildByPath(t.directory, t.lastInode, id.n);
    forall c | c in t.config
      ensures t.config[c].path != full && !HasPrefix(t.config[c].path, full + "/")
    {
      if HasPrefix(t.config[c].path, full + "/") {
        LikeBeneath(t.config[c].path, full);
      }
    }
  }

  lemma RemovedTreeInv(dirs: DirectoryTable, last: nat, id: int)
    requires TreeInv(dirs, last) && id in dirs
    requires forall d :: d in dirs ==> dirs[d].parentId != Some(id)
    ensures TreeInv(dirs - {id}, last)
  {
    forall d | d in dirs - {id}
      ensures DirectoryOk(dirs - {id}, d)
    {
      assert DirectoryOk(dirs, d);
    }
  }

  lemma PlacesSurvive(config: ConfigTable, dirs: DirectoryTable, last: nat, id: int)
    requires ConfigInv(config, dirs, last) && id in dirs
    requires forall c :: c in config ==> config[c].path != RowPath(dirs[id])
    ensures ConfigInv(config, dirs - {id}, last)
  {
    forall c | c in config
      ensures IsPlace(dirs - {id}, config[c].path)
    {
      if IsDirectory(dirs, config[c].path) {
        var d :| d in dirs && RowPath(dirs[d]) == config[c].path;
        assert d in dirs - {id};
      }
    }
  }

  lemma DeleteDirectoryInv(t: Tables, id: Id)
    requires Inv(t)
    ensures match DeleteDirectory(t, id)
            case Some(t') => Inv(t')
            case None => true
  {
    if DeleteDirectory(t, id).Some? {
      DeletedWasVacant(t, id);
      RemovedTreeInv(t.directory, t.lastInode, id.n);
      PlacesSurvive(t.config, t.directory, t.lastInode, id.n);
      RemainingAclInv(t.directoryAcl, t.directory.Keys, id.n, (t.directory - {id.n}).Keys);
    }
  }

  /** A fresh config with its first version keeps every current version consistent. */
  lemma InsertedVersionInv(config: ConfigTable, content: ContentTable, last: nat, row: ConfigRow, version: ContentRow)
    requires VersionInv(config, content, last) && last + 1 !in config
    requires row.current == Some(last + 2) && version.configId == last + 1
    ensures VersionInv(config[last + 1 := row], content[last + 2 := version], last + 2)
  {
    forall d | d in config
      ensures CurrentOk(config[last + 1 := row], content[last + 2 := version], d)
    {
      assert CurrentOk(config, content, d);
    }
  }

  lemma InsertedConfigInv(config: ConfigTable, dirs: DirectoryTable, last: nat, row: ConfigRow)
    requires ConfigInv(config, dirs, last) && IsPlace(dirs, row.path)
    requires forall c :: c in config ==> !(config[c].path == row.path && config[c].name == row.name)
    ensures ConfigInv(config[last + 1 := row], dirs, last + 2)
  {
  }

  lemma InsertConfigInv(t: Tables, c: Config, now: int)
    requires Inv(t) && Insertable(t, c)
    ensures Inv(InsertConfig(t, c, c.content.value, now))
  {
    var u := InsertConfig(t, c, c.content.value, now);
    LaterTreeInv(t.directory, t.lastInode, u.lastInode);
    InsertedConfigInv(t.config, t.directory, t.lastInode, u.config[t.lastInode + 1]);
    InsertedVersionInv(t.config, t.content, t.lastInode, u.config[t.lastInode + 1], u.content[t.lastInode + 2]);
    AddedAclInv(t.configAcl, t.config.Keys, t.lastInode + 1, c.acls, u.config.Keys);
  }

  /** A row that keeps its place and name, in tables that may grow, leaves the places in order. */
  lemma TouchedConfigInv(config: ConfigTable, dirs: DirectoryTable, last: nat, c: int, row: ConfigRow, later: nat)
    requires ConfigInv(config, dirs, last) && c in config && last <= later
    requires row.path == config[c].path && row.name == config[c].name
    ensures ConfigInv(config[c := row], dirs, later)
  {
  }

  /** Pointing a config at a new version row of its own keeps every current version consistent. */
  lemma RepointedVersionInv(config: ConfigTable, content: ContentTable, last: nat, c: int, row: ConfigRow, version: ContentRow)
    requires VersionInv(config, content, last) && c in config
    requires row.current == Some(last + 1) && version.configId == c
    ensures VersionInv(config[c := row], content[last + 1 := version], last + 1)
  {
    forall d | d in config
      ensures CurrentOk(config[c := row], content[last + 1 := version], d)
    {
      assert CurrentOk(config, content, d);
    }
  }

  lemma TouchedVersionInv(config: ConfigTable, content: ContentTable, last: nat, c: int, row: ConfigRow)
    requires VersionInv(config, content, last) && c in config && row.current == config[c].current
    ensures VersionInv(config[c := row], content, last)
  {
    forall d | d in config
      ensures CurrentOk(config[c := row], content, d)
    {
      assert CurrentOk(config, content, d);
    }
  }

  lemma UpdatedVersionInv(t: Tables, c: Config, now: int)
    requires VersionInv(t.config, t.content, t.lastInode) && Updatable(t, c)
    ensures var u := UpdateConfig(t, c.id.n, c, now);
            VersionInv(u.config, u.content, u.lastInode)
  {
    var u := UpdateConfig(t, c.id.n, c, now);
    if c.content.Some? {
      RepointedVersionInv(t.config, t.content, t.lastInode, c.id.n, u.config[c.id.n], u.content[t.lastInode + 1]);
    } else {
      TouchedVersionInv(t.config, t.content, t.lastInode, c.id.n, u.config[c.id.n]);
    }
  }

  lemma LaterTreeInv(dirs: DirectoryTable, last: nat, later: nat)
    requires TreeInv(dirs, last) && last <= later
    ensures TreeInv(dirs, later)
  {
  }

  lemma UpdateConfigInv(t: Tables, c: Config, now: int)
    requires Inv(t) && Updatable(t, c)
    ensures Inv(UpdateConfig(t, c.id.n, c, now))
  {
    var u := UpdateConfig(t, c.id.n, c, now);
    assert u.config.Keys == t.config.Keys;
    LaterTreeInv(t.directory, t.lastInode, u.lastInode);
    TouchedConfigInv(t.config, t.directory, t.lastInode, c.id.n, u.config[c.id.n], u.lastInode);
    UpdatedVersionInv(t, c, now);
    RemainingAclInv(t.configAcl, t.config.Keys, c.id.n, t.config.Keys);
    AddedAclInv(WithoutOwner(t.configAcl, c.id.n), t.config.Keys, c.id.n, c.acls, t.config.Keys);
  }

  lemma DeleteInv(t: Tables, id: Id)
    requires Inv(t) && id.Num?
    ensures Inv(Delete(t, id).value)
  {
    var u := Delete(t, id).value;
    RemainingAclInv(t.configAcl, t.config.Keys, id.n, u.config.Keys);
    forall d | d in u.config
      ensures CurrentOk(u.config, u.content, d)
    {
      assert CurrentOk(t.config, t.content, d);
    }
  }

  /** Every transaction keeps the invariant, whatever its arguments. */
  lemma StepInv(t: Tables, op: Op)
    requires Inv(t)
    ensures Inv(Next(t, op))
  {
    match op
    case OpCreateDirectory(parent, name, acls) => CreateDirectoryInv(t, parent, name, acls);
    case OpUpdateDirectory(id, name, path, acls) => UpdateDirectoryInv(t, id, name, path, acls);
    case OpDeleteDirectory(id) => DeleteDirectoryInv(t, id);
    case OpUpsert(config, now) =>
      if Insertable(t, config) {
        InsertConfigInv(t, config, now);
      } else if Updatable(t, config) {
        UpdateConfigInv(t, config, now);
      }
    case OpDelete(id) =>
      if id.Num? {
        DeleteInv(t, id);
      }
  }

  lemma {:induction false} RunInv(t: Tables, ops: seq<Op>)
    requires Inv(t)
    ensures Inv(Run(t, ops))
    decreases |ops|
  {
    if ops != [] {
      StepInv(t, ops[0]);
      RunInv(Next(t, ops[0]), ops[1..]);
    }
  }

  /** The invariant holds in every state any run of transactions reaches from a fresh store. */
  lemma ReachableInv(t: Tables)
    requires Reachable(t)
    ensures Inv(t)
  {
    var ops :| t == Run(EMPTY, ops);
    EmptyInv();
    RunInv(EMPTY, ops);
  }
}
