/** What each transaction of the store does to the tables: the state it commits, or None when it
    rolls back. Class Store runs the statements; these functions say what they amount to. */
module StoreSpec {
  import opened Paths
  import opened SqlLike
  import opened Messages
  import opened Tables

  // ---------------------------------------------------------------- directories

  /** The row a new directory under full path `p` refers to as its parent. */
  ghost function ParentId(dirs: DirectoryTable, p: string): Option<int> {
    if p != "/" && IsDirectory(dirs, p) then
      var id :| id in dirs && RowPath(dirs[id]) == p;
      Some(id)
    else None
  }

  /** One inserted directory with its ACL rows, under the next inode. */
  function AddDirectory(t: Tables, path: string, name: string, parentId: Option<int>, acls: seq<ConfigAcl>): Tables {
    var id := t.lastInode + 1;
    t.(lastInode := id,
       directory := t.directory[id := DirectoryRow(name, path, parentId)],
       directoryAcl := t.directoryAcl + AclRows(id, acls))
  }

  /** The first n prefixes of the path ks, each created unless it exists. */
  ghost function Ensured(t: Tables, ks: seq<string>, n: nat, acls: seq<ConfigAcl>): Tables
    requires n <= |ks|
    decreases n
  {
    if n == 0 then t
    else
      var u := Ensured(t, ks, n - 1, acls);
      if IsDirectory(u.directory, FullOf(ks[..n])) then u
      else
        var parent := FullOf(ks[..n - 1]);
        AddDirectory(u, parent, ks[n - 1], ParentId(u.directory, parent), acls)
  }

  /** The full path CreateDirectory composes from a parent path and a trimmed name. */
  function ComposedPath(parent: string, name: string): string {
    if IsRoot(parent) then "/" + TrimSpace(name) else parent + "/" + TrimSpace(name)
  }

  /** A directory is created exactly when the composed path is canonical and free. */
  ghost predicate Creatable(t: Tables, parent: string, name: string) {
    var full := ComposedPath(parent, name);
    TrimSpace(name) != "" && Canonical(full) && !IsDirectory(t.directory, full)
  }

  ghost function CreateDirectory(t: Tables, parent: string, name: string, acls: seq<ConfigAcl>): Option<Tables> {
    if Creatable(t, parent, name) then
      var ks := CleanParts(ComposedPath(parent, name));
      Some(Ensured(t, ks, |ks|, acls))
    else None
  }

  function UpdateDirectory(t: Tables, id: Id, name: string, path: string, acls: seq<ConfigAcl>): Option<Tables> {
    if !id.Num? || id.n !in t.directory then None
    else if name != "" && name != t.directory[id.n].name then None
    else if path != "" && path != t.directory[id.n].path then None
    else Some(t.(directoryAcl := WithoutOwner(t.directoryAcl, id.n) + AclRows(id.n, acls)))
  }

  ghost predicate HasChildRow(t: Tables, id: int) {
    exists d :: d in t.directory && t.directory[d].parentId == Some(id)
  }

  /** The count DeleteDirectory takes of configs at or beneath a path finds one. */
  ghost predicate HasMatchingConfig(t: Tables, full: string) {
    exists c :: c in t.config && (t.config[c].path == full || Like(t.config[c].path, full + "/%"))
  }

  ghost function DeleteDirectory(t: Tables, id: Id): Option<Tables> {
    if !id.Num? || id.n !in t.directory then None
    else if HasChildRow(t, id.n) || HasMatchingConfig(t, RowPath(t.directory[id.n])) then None
    else Some(t.(directory := t.directory - {id.n}, directoryAcl := WithoutOwner(t.directoryAcl, id.n)))
  }

  // ---------------------------------------------------------------- configs

  ghost predicate NameTaken(t: Tables, path: string, name: string) {
    exists c :: c in t.config && t.config[c].path == path && t.config[c].name == name
  }

  /** A new config takes two inodes: its own, and one for its first version. */
  function InsertConfig(t: Tables, c: Config, content: Bytes, now: int): Tables {
    var id, v := t.lastInode + 1, t.lastInode + 2;
    t.(lastInode := v,
       config := t.config[id := ConfigRow(c.name, c.path, Some(v), now, now)],
       content := t.content[v := ContentRow(id, content, c.contentSize, now, now)],
       configAcl := t.configAcl + AclRows(id, c.acls))
  }

  /** An update bumps updated_at and replaces the ACL; content, when supplied, becomes a new version. */
  function UpdateConfig(t: Tables, id: int, c: Config, now: int): Tables
    requires id in t.config
  {
    var acl := WithoutOwner(t.configAcl, id) + AclRows(id, c.acls);
    var row := t.config[id].(updatedAt := now);
    if c.content.None? then
      t.(config := t.config[id := row], configAcl := acl)
    else
      var v := t.lastInode + 1;
      t.(lastInode := v,
         config := t.config[id := row.(current := Some(v))],
         content := t.content[v := ContentRow(id, c.content.value, c.contentSize, now, now)],
         configAcl := acl)
  }

  ghost predicate Insertable(t: Tables, c: Config) {
    IsPlace(t.directory, c.path) && c.id == NoId && !NameTaken(t, c.path, c.name) && c.content.Some?
  }

  ghost predicate Updatable(t: Tables, c: Config) {
    && IsPlace(t.directory, c.path)
    && c.id.Num? && c.id.n in t.config
    && t.config[c.id.n].name == c.name && t.config[c.id.n].path == c.path
  }

  ghost function Upsert(t: Tables, c: Config, now: int): Option<Tables> {
    if Insertable(t, c) then Some(InsertConfig(t, c, c.content.value, now))
    else if Updatable(t, c) then Some(UpdateConfig(t, c.id.n, c, now))
    else None
  }

  /** Deleting takes the config, all its versions and its ACL; an unknown id deletes nothing. */
  function Delete(t: Tables, id: Id): Option<Tables> {
    if id.Num? then
      Some(t.(config := t.config - {id.n},
              content := map v | v in t.content && t.content[v].configId != id.n :: t.content[v],
              configAcl := WithoutOwner(t.configAcl, id.n)))
    else None
  }

  // ---------------------------------------------------------------- reads

  /** A read fails on a malformed id, finds nothing, or finds one message. */
  datatype Fetched<+T> = Failed | Absent | Found(value: T)

  function GetDirectoryByID(t: Tables, id: Id): Fetched<Directory> {
    if !id.Num? then Failed
    else if id.n !in t.directory then Absent
    else Found(DirectoryMessage(t, id.n))
  }

  /** A version is looked up by its own id and the config's together. */
  function GetVersion(t: Tables, c: int, v: int): Fetched<Config>
    requires c in t.config
  {
    if v in t.content && t.content[v].configId == c then
      Found(ConfigMessage(t, c).(content := Some(t.content[v].content), contentSize := t.content[v].size))
    else Absent
  }

  function GetConfigByID(t: Tables, id: Id, includeContent: bool, version: Id): Fetched<Config> {
    if !id.Num? then Failed
    else if id.n !in t.config then Absent
    else if !includeContent then Found(ConfigMessage(t, id.n))
    else
      match version
      case Num(v) => GetVersion(t, id.n, v)
      case BadId => Failed
      case NoId => if t.config[id.n].current.Some? then GetVersion(t, id.n, t.config[id.n].current.value) else Absent
  }

  // ---------------------------------------------------------------- runs

  datatype Op =
    | OpCreateDirectory(parent: string, name: string, acls: seq<ConfigAcl>)
    | OpUpdateDirectory(id: Id, name: string, path: string, acls: seq<ConfigAcl>)
    | OpDeleteDirectory(id: Id)
    | OpUpsert(config: Config, now: int)
    | OpDelete(id: Id)

  ghost function Step(t: Tables, op: Op): Option<Tables> {
    match op
    case OpCreateDirectory(parent, name, acls) => CreateDirectory(t, parent, name, acls)
    case OpUpdateDirectory(id, name, path, acls) => UpdateDirectory(t, id, name, path, acls)
    case OpDeleteDirectory(id) => DeleteDirectory(t, id)
    case OpUpsert(config, now) => Upsert(t, config, now)
    case OpDelete(id) => Delete(t, id)
  }

  /** A transaction commits or leaves everything as it was. */
  ghost function Next(t: Tables, op: Op): Tables {
    match Step(t, op)
    case Some(t') => t'
    case None => t
  }

  ghost function Run(t: Tables, ops: seq<Op>): Tables
    decreases |ops|
  {
    if ops == [] then t else Run(Next(t, ops[0]), ops[1..])
  }

  ghost predicate Reachable(t: Tables) {
    exists ops :: t == Run(EMPTY, ops)
  }

  lemma {:induction false} RunConcat(t: Tables, a: seq<Op>, b: seq<Op>)
    ensures Run(t, a + b) == Run(Run(t, a), b)
    decreases |a|
  {
    if a == [] {
      assert a + b == b;
    } else {
      assert (a + b)[0] == a[0] && (a + b)[1..] == a[1..] + b;
      RunConcat(Next(t, a[0]), a[1..], b);
    }
  }

  lemma ReachableNext(t: Tables, op: Op)
    requires Reachable(t)
    ensures Reachable(Next(t, op))
  {
    var ops :| t == Run(EMPTY, ops);
    RunConcat(EMPTY, ops, [op]);
    assert [op][1..] == [];
    assert Run(Next(t, op), [op][1..]) == Next(t, op);
    assert Run(EMPTY, ops + [op]) == Next(t, op);
  }

  lemma EmptyReachable()
    ensures Reachable(EMPTY)
  {
    assert Run(EMPTY, []) == EMPTY;
  }
}
