/** The tables of the database, what is read from them, and the invariant the store keeps. */
module Tables {
  import opened Paths
  import opened Messages

  datatype ConfigRow = ConfigRow(name: string, path: string, current: Option<int>, createdAt: int, updatedAt: int)
  datatype DirectoryRow = DirectoryRow(name: string, path: string, parentId: Option<int>)
  datatype ContentRow = ContentRow(configId: int, content: Bytes, size: nat, createdAt: int, updatedAt: int)
  datatype AclRow = AclRow(owner: int, acl: int, tag: string, everyone: bool)

  type ConfigTable = map<int, ConfigRow>
  type DirectoryTable = map<int, DirectoryRow>
  type ContentTable = map<int, ContentRow>

  /** One database state. `lastInode` is the largest id of the inode table, whose rows are never
      deleted. The ACL tables are listed in row id order: an insert takes the largest id plus one. */
  datatype Tables = Tables(
    lastInode: nat, config: ConfigTable, content: ContentTable, directory: DirectoryTable,
    configAcl: seq<AclRow>, directoryAcl: seq<AclRow>)

  const EMPTY := Tables(0, map[], map[], map[], [], [])

  // ---------------------------------------------------------------- ACL rows

  function ToProto(r: AclRow): ConfigAcl {
    ConfigAcl(r.acl, r.tag, r.everyone)
  }

  /** The entries of one owner, in row order. */
  function LoadAcls(rows: seq<AclRow>, owner: int): seq<ConfigAcl> {
    if rows == [] then []
    else (if rows[0].owner == owner then [ToProto(rows[0])] else []) + LoadAcls(rows[1..], owner)
  }

  /** The rows an insert adds for an owner. */
  function AclRows(owner: int, acls: seq<ConfigAcl>): seq<AclRow> {
    if acls == [] then []
    else
      var a := acls[0];
      (if a.acl == READ || a.acl == WRITE then [AclRow(owner, a.acl, a.tag, a.everyone)] else [])
      + AclRows(owner, acls[1..])
  }

  /** What remains after deleting an owner's rows. */
  function WithoutOwner(rows: seq<AclRow>, owner: int): seq<AclRow> {
    if rows == [] then []
    else (if rows[0].owner == owner then [] else [rows[0]]) + WithoutOwner(rows[1..], owner)
  }

  lemma {:induction false} LoadAppend(a: seq<AclRow>, b: seq<AclRow>, owner: int)
    ensures LoadAcls(a + b, owner) == LoadAcls(a, owner) + LoadAcls(b, owner)
  {
    if a == [] {
      assert a + b == b;
    } else {
      assert (a + b)[1..] == a[1..] + b;
      LoadAppend(a[1..], b, owner);
    }
  }

  /** What is inserted for an owner is what is loaded for it: the recognised entries, in order. */
  lemma {:induction false} LoadInserted(owner: int, acls: seq<ConfigAcl>, other: int)
    ensures LoadAcls(AclRows(owner, acls), other) == if other == owner then Recognised(acls) else []
  {
    if acls != [] {
      LoadInserted(owner, acls[1..], other);
      var a := acls[0];
      if a.acl == READ || a.acl == WRITE {
        LoadAppend([AclRow(owner, a.acl, a.tag, a.everyone)], AclRows(owner, acls[1..]), other);
      } else {
        assert AclRows(owner, acls) == AclRows(owner, acls[1..]);
      }
    }
  }

  lemma {:induction false} LoadRemaining(rows: seq<AclRow>, owner: int, other: int)
    ensures LoadAcls(WithoutOwner(rows, owner), other) == if other == owner then [] else LoadAcls(rows, other)
  {
    if rows != [] {
      LoadRemaining(rows[1..], owner, other);
      if rows[0].owner != owner {
        LoadAppend([rows[0]], WithoutOwner(rows[1..], owner), other);
      } else {
        assert WithoutOwner(rows, owner) == WithoutOwner(rows[1..], owner);
      }
    }
  }

  lemma {:induction false} RemainingMembers(rows: seq<AclRow>, owner: int, r: AclRow)
    ensures r in WithoutOwner(rows, owner) <==> r in rows && r.owner != owner
  {
    if rows != [] {
      RemainingMembers(rows[1..], owner, r);
    }
  }

  lemma {:induction false} InsertedMembers(owner: int, acls: seq<ConfigAcl>, r: AclRow)
    requires r in AclRows(owner, acls)
    ensures r.owner == owner && (r.acl == READ || r.acl == WRITE)
  {
    if acls != [] && r in AclRows(owner, acls[1..]) {
      InsertedMembers(owner, acls[1..], r);
    }
  }

  lemma {:induction false} LoadNothing(rows: seq<AclRow>, owner: int)
    requires forall r :: r in rows ==> r.owner != owner
    ensures LoadAcls(rows, owner) == []
  {
    if rows != [] {
      LoadNothing(rows[1..], owner);
    }
  }

  lemma {:induction false} LoadedRecognised(rows: seq<AclRow>, owner: int)
    requires forall r :: r in rows ==> r.acl == READ || r.acl == WRITE
    ensures Recognised(LoadAcls(rows, owner)) == LoadAcls(rows, owner)
  {
    if rows != [] {
      LoadedRecognised(rows[1..], owner);
      if rows[0].owner == owner {
        var a, rest := ToProto(rows[0]), LoadAcls(rows[1..], owner);
        assert LoadAcls(rows, owner) == [a] + rest && ([a] + rest)[1..] == rest;
        assert Recognised([a] + rest) == [a] + Recognised(rest);
      } else {
        assert LoadAcls(rows, owner) == LoadAcls(rows[1..], owner);
      }
    }
  }

  /** Replacing an owner's entries gives it the recognised new ones and touches no other owner. */
  lemma LoadReplaced(rows: seq<AclRow>, owner: int, acls: seq<ConfigAcl>, other: int)
    ensures LoadAcls(WithoutOwner(rows, owner) + AclRows(owner, acls), other)
         == if other == owner then Recognised(acls) else LoadAcls(rows, other)
  {
    LoadAppend(WithoutOwner(rows, owner), AclRows(owner, acls), other);
    LoadRemaining(rows, owner, other);
    LoadInserted(owner, acls, other);
  }

  // ---------------------------------------------------------------- rows as messages

  function RowPath(r: DirectoryRow): string {
    if r.path == "" then "/" else ChildPath(r.path, r.name)
  }

  function DirectoryMessage(t: Tables, id: int): (d: Directory)
    requires id in t.directory
    ensures d.FullPath() == RowPath(t.directory[id])
  {
    var r := t.directory[id];
    Directory(Num(id), r.name, r.path, LoadAcls(t.directoryAcl, id), [], [])
  }

  function IdOf(v: Option<int>): Id {
    if v.Some? then Num(v.value) else NoId
  }

  /** The size of the current version, as the join with config_content surfaces it. */
  function CurrentSize(t: Tables, r: ConfigRow): nat {
    if r.current.Some? && r.current.value in t.content then t.content[r.current.value].size else 0
  }

  function ConfigMessage(t: Tables, id: int): Config
    requires id in t.config
  {
    var r := t.config[id];
    Config(Num(id), r.name, r.path, LoadAcls(t.configAcl, id), None, CurrentSize(t, r), IdOf(r.current),
           r.createdAt, r.updatedAt)
  }

  // ---------------------------------------------------------------- the invariant

  ghost predicate IsDirectory(dirs: DirectoryTable, p: string) {
    exists id :: id in dirs && RowPath(dirs[id]) == p
  }

  /** Both encodings of one directory's place in the tree are right and agree. */
  ghost predicate DirectoryOk(dirs: DirectoryTable, id: int)
    requires id in dirs
  {
    var r := dirs[id];
    && Canonical(r.path)
    && IsComponent(r.name)
    && (r.path == "/" <==> r.parentId == None)
    && (r.parentId.Some? ==> r.parentId.value in dirs && RowPath(dirs[r.parentId.value]) == r.path)
  }

  ghost predicate UniquePaths(dirs: DirectoryTable) {
    forall i, j :: i in dirs && j in dirs && RowPath(dirs[i]) == RowPath(dirs[j]) ==> i == j
  }

  ghost predicate TreeInv(dirs: DirectoryTable, last: nat) {
    && (forall id :: id in dirs ==> 1 <= id <= last)
    && (forall id {:trigger DirectoryOk(dirs, id)} :: id in dirs ==> DirectoryOk(dirs, id))
    && UniquePaths(dirs)
  }

  /** A place a config may live in: the root, under either name, or an existing directory. */
  ghost predicate IsPlace(dirs: DirectoryTable, p: string) {
    p == "" || p == "/" || IsDirectory(dirs, p)
  }

  ghost predicate ConfigInv(config: ConfigTable, dirs: DirectoryTable, last: nat) {
    && (forall c :: c in config ==> 1 <= c <= last && IsPlace(dirs, config[c].path))
    && (forall c, d :: c in config && d in config && config[c].path == config[d].path && config[c].name == config[d].name ==> c == d)
  }

  /** The current version is a row of this config and the newest one. */
  ghost predicate CurrentOk(config: ConfigTable, content: ContentTable, c: int)
    requires c in config
  {
    && config[c].current.Some?
    && config[c].current.value in content
    && content[config[c].current.value].configId == c
    && forall v :: v in content && content[v].configId == c ==> v <= config[c].current.value
  }

  ghost predicate VersionInv(config: ConfigTable, content: ContentTable, last: nat) {
    && (forall v :: v in content ==> 1 <= v <= last && content[v].configId in config)
    && (forall c :: c in config ==> CurrentOk(config, content, c))
  }

  ghost predicate AclInv(rows: seq<AclRow>, owners: set<int>) {
    forall r :: r in rows ==> r.owner in owners && (r.acl == READ || r.acl == WRITE)
  }

  ghost predicate Inv(t: Tables) {
    && TreeInv(t.directory, t.lastInode)
    && ConfigInv(t.config, t.directory, t.lastInode)
    && VersionInv(t.config, t.content, t.lastInode)
    && AclInv(t.configAcl, t.config.Keys)
    && AclInv(t.directoryAcl, t.directory.Keys)
  }

  lemma EmptyInv()
    ensures Inv(EMPTY)
  {
  }

  // ---------------------------------------------------------------- consequences for the tree

  /** The parts of a directory's full path. */
  function RowParts(r: DirectoryRow): seq<string> {
    CleanParts(r.path) + [r.name]
  }

  lemma RowPartsOfPath(r: DirectoryRow)
    requires Canonical(r.path) && IsComponent(r.name)
    ensures Components(RowParts(r))
    ensures RowPath(r) == ChildPath(r.path, r.name) == FullOf(RowParts(r))
    ensures CleanParts(RowPath(r)) == RowParts(r)
    ensures r.path == FullOf(CleanParts(r.path))
    ensures Canonical(RowPath(r)) && RowPath(r) != "/" && RowPath(r) != ""
  {
    CanonicalRoundTrip(r.path);
    CanonicalChild(r.path, r.name);
  }

  /** A directory at FullOf(ks) has the last part as its name and the others as its path. */
  lemma RowAtPath(r: DirectoryRow, ks: seq<string>)
    requires Canonical(r.path) && IsComponent(r.name) && Components(ks)
    requires RowPath(r) == FullOf(ks)
    ensures RowParts(r) == ks
    ensures ks != [] && r.path == FullOf(ks[..|ks| - 1]) && r.name == ks[|ks| - 1]
  {
    RowPartsOfPath(r);
    PartsOfFull(ks);
  }

  /** Conversely such a row is the directory at FullOf(ks). */
  lemma PathOfRow(r: DirectoryRow, ks: seq<string>)
    requires Components(ks) && ks != []
    requires r.path == FullOf(ks[..|ks| - 1]) && r.name == ks[|ks| - 1]
    ensures RowPath(r) == FullOf(ks)
  {
    var front := ks[..|ks| - 1];
    assert ks == front + [ks[|ks| - 1]];
    FullOfSnoc(front, r.name);
  }

  lemma ParentIsDirectory(dirs: DirectoryTable, id: int)
    requires id in dirs && DirectoryOk(dirs, id) && dirs[id].path != "/"
    ensures IsDirectory(dirs, dirs[id].path)
  {
    var parent := dirs[id].parentId.value;
    assert parent in dirs;
  }

  lemma ParentExists(dirs: DirectoryTable, last: nat, ks: seq<string>, id: int)
    requires TreeInv(dirs, last) && Components(ks) && |ks| > 1 && id in dirs && RowPath(dirs[id]) == FullOf(ks)
    ensures IsDirectory(dirs, FullOf(ks[..|ks| - 1]))
  {
    assert DirectoryOk(dirs, id);
    RowAtPath(dirs[id], ks);
    FullOfRoot(ks[..|ks| - 1]);
    ParentIsDirectory(dirs, id);
  }

  /** Ancestors of a directory exist. */
  lemma {:induction false} AncestorsExist(dirs: DirectoryTable, last: nat, ks: seq<string>, i: nat)
    requires TreeInv(dirs, last) && Components(ks) && 1 <= i <= |ks| && IsDirectory(dirs, FullOf(ks))
    ensures IsDirectory(dirs, FullOf(ks[..i]))
    decreases |ks|
  {
    if i < |ks| {
      var id :| id in dirs && RowPath(dirs[id]) == FullOf(ks);
      ParentExists(dirs, last, ks, id);
      AncestorsExist(dirs, last, ks[..|ks| - 1], i);
      assert ks[..|ks| - 1][..i] == ks[..i];
    } else {
      assert ks[..i] == ks;
    }
  }

  lemma DirectoriesCanonical(dirs: DirectoryTable, last: nat, p: string)
    requires TreeInv(dirs, last) && IsDirectory(dirs, p)
    ensures Canonical(p) && p != "/" && p != "" && CleanParts(p) != []
  {
    var id :| id in dirs && RowPath(dirs[id]) == p;
    assert DirectoryOk(dirs, id);
    RowPartsOfPath(dirs[id]);
  }
}
