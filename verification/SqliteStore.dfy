/** The store: tables that its methods change statement by statement inside transactions. Every
    method is proved against the functions of StoreSpec. */
module SqliteStore {
  import opened Paths
  import opened SqlLike
  import opened Messages
  import opened Tables
  import opened Spec = StoreSpec
  import opened StoreInvariant
  import opened Access
  import opened Queries
  import opened Ensuring
  import opened Tree
  import opened Listing
  import opened Readable
  import opened TreeQuery

  datatype StoreError = InvalidId | NotFound | AlreadyExists | NotEmpty | DoesNotMatch | Rejected

  datatype Result<+T> = Ok(value: T) | Err(error: StoreError)

  class Store {
    var lastInode: nat
    var config: ConfigTable
    var content: ContentTable
    var directory: DirectoryTable
    var configAcl: seq<AclRow>
    var directoryAcl: seq<AclRow>

    function State(): Tables
      reads this
    {
      Tables(lastInode, config, content, directory, configAcl, directoryAcl)
    }

    ghost predicate Valid()
      reads this
    {
      Inv(State())
    }

    /** A fresh database. */
    constructor ()
      ensures State() == EMPTY && Valid()
    {
      lastInode := 0;
      config, content, directory := map[], map[], map[];
      configAcl, directoryAcl := [], [];
      new;
      EmptyInv();
    }

    method Rollback(saved: Tables)
      modifies this
      ensures State() == saved
    {
      lastInode := saved.lastInode;
      config, content, directory := saved.config, saved.content, saved.directory;
      configAcl, directoryAcl := saved.configAcl, saved.directoryAcl;
    }

    method NextInode() returns (inode: nat)
      modifies this`lastInode
      ensures inode == old(lastInode) + 1 && lastInode == inode
    {
      lastInode := lastInode + 1;
      inode := lastInode;
    }

    // -------------------------------------------------------------- directory queries

    /** SELECT id, name, path ... ORDER BY path; messages without entries yet. */
    method SelectRows(want: set<int>) returns (rows: seq<Directory>)
      requires want <= directory.Keys
      ensures RowsOf(rows, State(), want)
    {
      rows := [];
      var left := want;
      while left != {}
        invariant left <= want && RowsOf(rows, State(), want - left)
        decreases left
      {
        var id := PickRow(left);
        var row := Directory(Num(id), directory[id].name, directory[id].path, [], [], []);
        assert row == DirectoryMessage(State(), id).(acls := []);
        InsertKeepsOrder(row, rows);
        InsertKeepsDistinct(row, rows);
        rows := InsertByPath(row, rows);
        left := left - {id};
      }
    }

    /** The rows with their entries loaded in one further query. */
    method LoadDirectories(want: set<int>) returns (ds: seq<Directory>)
      requires want <= directory.Keys
      ensures Selected(ds, State(), want)
    {
      var rows := SelectRows(want);
      RowsAreMessages(rows, State(), want);
      var ids := RowIds(rows);
      var aclsByDir := LoadACLs(directoryAcl, ids);
      ds := [];
      for i := 0 to |rows|
        invariant |ds| == i
        invariant forall k :: 0 <= k < i ==> ds[k] == DirectoryMessage(State(), rows[k].id.n)
      {
        assert ids[i] in ids;
        ds := ds + [rows[i].(acls := EntriesOf(aclsByDir, ids[i]))];
      }
      SelectedFromRows(ds, rows, State(), want);
    }

    method GetDirectoriesByPathString(targets: seq<string>) returns (ds: seq<Directory>, missing: seq<string>)
      ensures Selected(ds, State(), Wanted(State(), targets))
      ensures missing == MissingOf(targets, ds)
    {
      var constraints := BuildConstraints(targets);
      WantedByConstraints(State(), targets, constraints);
      if |constraints| == 0 {
        MissingAll(targets);
        return [], targets;
      }
      var want := set id | id in directory && (directory[id].path, directory[id].name) in constraints;
      ds := LoadDirectories(want);
      missing := MissingTargets(targets, ds);
    }

    method GetDirectoryByID(id: Id) returns (r: Fetched<Directory>)
      ensures r == Spec.GetDirectoryByID(State(), id)
    {
      if !id.Num? {
        return Failed;
      }
      if id.n !in directory {
        return Absent;
      }
      var aclsByDir := LoadACLs(directoryAcl, [id.n]);
      r := Found(Directory(id, directory[id.n].name, directory[id.n].path, EntriesOf(aclsByDir, id.n), [], []));
    }

    /** The directories along a path, root first, and the path itself when it does not exist. */
    method DirectoryChain(fullPath: string) returns (chain: seq<Directory>, missing: seq<string>)
      ensures fullPath == "" || fullPath == "/" ==> chain == [] && missing == []
      ensures fullPath != "" && fullPath != "/" ==>
                Selected(chain, State(), Wanted(State(), [fullPath])) && missing == MissingOf([fullPath], chain)
    {
      if fullPath == "" || fullPath == "/" {
        return [], [];
      }
      chain, missing := GetDirectoriesByPathString([fullPath]);
    }

    // -------------------------------------------------------------- creating directories

    method CreateDirectoryRow(path: string, name: string, parentId: Option<int>, acls: seq<ConfigAcl>) returns (d: Directory)
      modifies this
      ensures State() == AddDirectory(old(State()), path, name, parentId, acls)
      ensures d == Directory(Num(lastInode), name, path, acls, [], [])
    {
      var inode := NextInode();
      directory := directory[inode := DirectoryRow(name, path, parentId)];
      directoryAcl := InsertACLs(directoryAcl, inode, acls);
      d := Directory(Num(inode), name, path, acls, [], []);
    }

    /** Every directory along the path, the missing ones created with the supplied entries. */
    method EnsureDirectories(fullPath: string, acls: seq<ConfigAcl>) returns (directories: seq<Directory>)
      requires Valid()
      modifies this
      ensures EnsuringTo(State(), old(State()), CleanParts(fullPath), |CleanParts(fullPath)|, directories, acls)
    {
      var pathParts := CleanPathParts(fullPath);
      CleanPartsComponents(fullPath);
      var pathsToFetch := PathsToFetch(pathParts);
      var missing;
      directories, missing := GetDirectoriesByPathString(pathsToFetch);
      EnsuringStarts(State(), pathParts, directories, acls);
      ghost var m := ExistingDepth(directory, pathParts, 0);
      if |missing| == 0 {
        return;
      }
      missing := SortStrings(missing);
      directories := CreateMissing(State(), pathParts, m, missing, directories, acls);
    }

    /** The loop over the sorted missing paths. */
    method CreateMissing(ghost t: Tables, ghost ks: seq<string>, ghost m: nat, missing: seq<string>, found: seq<Directory>,
                         acls: seq<ConfigAcl>) returns (directories: seq<Directory>)
      requires EnsuringFrom(t, ks, m) && LevelsFrom(missing, ks, m)
      requires EnsuringTo(State(), t, ks, m, found, acls)
      modifies this
      ensures EnsuringTo(State(), t, ks, |ks|, directories, acls)
    {
      directories := found;
      ghost var n := m;
      for j := 0 to |missing|
        invariant n == m + j
        invariant EnsuringTo(State(), t, ks, n, directories, acls)
      {
        directories := CreateLevel(t, ks, m, n, missing[j], directories, acls);
        n := n + 1;
      }
      assert n == |ks|;
    }

    method CreateLevel(ghost t: Tables, ghost ks: seq<string>, ghost m: nat, ghost n: nat, miss: string,
                       directories: seq<Directory>, acls: seq<ConfigAcl>) returns (more: seq<Directory>)
      requires EnsuringFrom(t, ks, m) && m <= n < |ks|
      requires EnsuringTo(State(), t, ks, n, directories, acls) && miss == FullOf(ks[..n + 1])
      modifies this
      ensures EnsuringTo(State(), t, ks, n + 1, more, acls)
    {
      SplitMissing(ks, n, miss);
      var lastSlash := LastSlash(miss);
      var parentPath := miss[..lastSlash];
      if parentPath == "" {
        parentPath := "/";
      }
      var name := miss[lastSlash + 1..];
      var parentId := FindParent(directories, parentPath);
      NextLevel(t, State(), ks, m, n, directories, parentId, acls);
      var newDir := CreateDirectoryRow(parentPath, name, parentId, acls);
      more := directories + [newDir];
    }

    /** Creates the directory and any missing ancestors, or fails and changes nothing. */
    method CreateDirectory(dir: Directory) returns (r: Result<Directory>)
      requires Valid()
      modifies this
      ensures Valid()
      ensures r.Ok? <==> Creatable(old(State()), dir.path, dir.name)
      ensures r.Ok? ==> Some(State()) == Spec.CreateDirectory(old(State()), dir.path, dir.name, dir.acls)
      ensures r.Ok? ==> r.value.FullPath() == ComposedPath(dir.path, dir.name) && r.value.id.Num?
                        && r.value.id.n in directory && r.value == DirectoryMessage(State(), r.value.id.n)
      ensures r.Err? ==> State() == old(State())
      ensures r == Err(AlreadyExists) <==> TrimSpace(dir.name) != "" && IsDirectory(old(directory), ComposedPath(dir.path, dir.name))
    {
      var name := TrimSpace(dir.name);
      if name == "" {
        return Err(Rejected);
      }
      var fullPath := ComposeFullPath(dir.path, dir.name, name);
      var saved := State();
      var chain, missing := GetDirectoriesByPathString([fullPath]);
      TargetFetchedIff(saved, fullPath, chain);
      if fullPath !in missing {
        return Err(AlreadyExists);
      }
      var components := EnsureDirectories(fullPath, dir.acls);
      CreatedIffCanonical(fullPath, components, State());
      var created := FindByPath(components, fullPath);
      if created.None? {
        Rollback(saved);
        return Err(Rejected);
      }
      var loaded := GetDirectoryByID(created.value.id);
      LocatedPath(State(), created.value);
      CreateDirectoryInv(saved, dir.path, dir.name, dir.acls);
      return Ok(loaded.value);
    }

    // -------------------------------------------------------------- updating and deleting directories

    method UpdateDirectory(dir: Directory) returns (r: Result<Directory>)
      requires Valid()
      modifies this
      ensures Valid()
      ensures match Spec.UpdateDirectory(old(State()), dir.id, dir.name, dir.path, dir.acls)
              case Some(t) => State() == t && r == Ok(DirectoryMessage(t, dir.id.n))
              case None => State() == old(State()) && r.Err?
      ensures r == Err(DoesNotMatch) <==> dir.id.Num? && dir.id.n in old(directory) && r.Err?
    {
      UpdateDirectoryInv(State(), dir.id, dir.name, dir.path, dir.acls);
      if !dir.id.Num? {
        return Err(InvalidId);
      }
      var existing := GetDirectoryByID(dir.id);
      if existing.Absent? {
        return Err(NotFound);
      }
      if dir.name != "" && dir.name != existing.value.name {
        return Err(DoesNotMatch);
      }
      if dir.path != "" && dir.path != existing.value.path {
        return Err(DoesNotMatch);
      }
      directoryAcl := WithoutOwner(directoryAcl, dir.id.n);
      directoryAcl := InsertACLs(directoryAcl, dir.id.n, dir.acls);
      var loaded := GetDirectoryByID(dir.id);
      return Ok(loaded.value);
    }

    method DeleteDirectory(id: Id) returns (r: Result<()>)
      requires Valid()
      modifies this
      ensures Valid()
      ensures match Spec.DeleteDirectory(old(State()), id)
              case Some(t) => State() == t && r == Ok(())
              case None => State() == old(State()) && r.Err?
      ensures r == Err(NotEmpty) <==> id.Num? && id.n in old(directory) && r.Err?
    {
      DeleteDirectoryInv(State(), id);
      if !id.Num? {
        return Err(InvalidId);
      }
      var existing := GetDirectoryByID(id);
      if existing.Absent? {
        return Err(NotFound);
      }
      var fullPath := existing.value.FullPath();
      var childDirs := CountChildren(directory, id.n);
      if childDirs > 0 {
        return Err(NotEmpty);
      }
      var childConfigs := CountConfigsIn(config, fullPath);
      if childConfigs > 0 {
        return Err(NotEmpty);
      }
      directoryAcl := WithoutOwner(directoryAcl, id.n);
      directory := directory - {id.n};
      return Ok(());
    }

    // -------------------------------------------------------------- configs

    /** The root always exists; any other path has to be a directory. */
    method RequireDirectoryExists(path: string) returns (exists_: bool)
      requires Valid()
      ensures exists_ <==> IsPlace(directory, path)
    {
      if path == "" || path == "/" {
        return true;
      }
      var chain, missing := GetDirectoriesByPathString([path]);
      TargetFetchedIff(State(), path, chain);
      return |missing| == 0;
    }

    method HasConfigAt(path: string, name: string) returns (taken: bool)
      ensures taken <==> NameTaken(State(), path, name)
    {
      taken := exists c :: c in config && config[c].path == path && config[c].name == name;
    }

    method GetConfigByID(id: Id, includeContent: bool, version: Id) returns (r: Fetched<Config>)
      ensures r == Spec.GetConfigByID(State(), id, includeContent, version)
    {
      if !id.Num? {
        return Failed;
      }
      if id.n !in config {
        return Absent;
      }
      var row := config[id.n];
      var aclsByConfig := LoadACLs(configAcl, [id.n]);
      var size := if row.current.Some? && row.current.value in content then content[row.current.value].size else 0;
      var conf := Config(id, row.name, row.path, EntriesOf(aclsByConfig, id.n), None, size, IdOf(row.current),
                         row.createdAt, row.updatedAt);
      if includeContent {
        var contentId;
        match version {
          case Num(v) => contentId := v;
          case BadId => return Failed;
          case NoId =>
            if row.current.None? {
              return Absent;
            }
            contentId := row.current.value;
        }
        if contentId !in content || content[contentId].configId != id.n {
          return Absent;
        }
        conf := conf.(content := Some(content[contentId].content), contentSize := content[contentId].size);
      }
      return Found(conf);
    }

    /** The insert path: absent content fails the NOT NULL column, with rows already written. */
    method Insert(c: Config, now: int) returns (ok: bool, id: nat)
      modifies this
      ensures ok <==> c.content.Some?
      ensures id == old(lastInode) + 1
      ensures ok ==> State() == InsertConfig(old(State()), c, c.content.value, now)
      ensures !ok ==> State() == old(State()).(lastInode := id + 1, config := old(config)[id := ConfigRow(c.name, c.path, Some(id + 1), now, now)])
    {
      id := NextInode();
      var contentInode := NextInode();
      config := config[id := ConfigRow(c.name, c.path, Some(contentInode), now, now)];
      if c.content.None? {
        return false, id;
      }
      content := content[contentInode := ContentRow(id, c.content.value, c.contentSize, now, now)];
      configAcl := InsertACLs(configAcl, id, c.acls);
      return true, id;
    }

    /** The update path: content, when supplied, is a new row that the config is pointed at. */
    method Update(id: int, c: Config, now: int)
      requires id in config
      modifies this
      ensures State() == UpdateConfig(old(State()), id, c, now)
    {
      var row := config[id].(updatedAt := now);
      if c.content.Some? {
        var contentInode := NextInode();
        content := content[contentInode := ContentRow(id, c.content.value, c.contentSize, now, now)];
        row := row.(current := Some(contentInode));
      }
      config := config[id := row];
      configAcl := WithoutOwner(configAcl, id);
      configAcl := InsertACLs(configAcl, id, c.acls);
    }

    method Upsert(c: Config, now: int) returns (r: Result<Config>)
      requires Valid()
      modifies this
      ensures Valid()
      ensures match Spec.Upsert(old(State()), c, now)
              case Some(t) => State() == t && r == Ok(ConfigMessage(t, if c.id == NoId then old(lastInode) + 1 else c.id.n))
              case None => State() == old(State()) && r.Err?
    {
      ghost var t := State();
      StepInv(t, OpUpsert(c, now));
      var saved := State();
      var exists_ := RequireDirectoryExists(c.path);
      if !exists_ {
        return Err(Rejected);
      }
      var fetchInode;
      if c.id == NoId {
        var taken := HasConfigAt(c.path, c.name);
        if taken {
          return Err(Rejected);
        }
        var ok;
        ok, fetchInode := Insert(c, now);
        if !ok {
          Rollback(saved);
          return Err(Rejected);
        }
      } else {
        var existing := GetConfigByID(c.id, false, NoId);
        if !existing.Found? {
          return Err(if c.id.Num? then NotFound else InvalidId);
        }
        if existing.value.name != c.name || existing.value.path != c.path {
          return Err(DoesNotMatch);
        }
        fetchInode := c.id.n;
        Update(fetchInode, c, now);
      }
      var stored := GetConfigByID(Num(fetchInode), false, NoId);
      return Ok(stored.value);
    }

    /** All versions and entries go with the config; an unknown id deletes nothing. */
    method Delete(id: Id) returns (r: Result<()>)
      requires Valid()
      modifies this
      ensures Valid()
      ensures match Spec.Delete(old(State()), id)
              case Some(t) => State() == t && r == Ok(())
              case None => State() == old(State()) && r.Err?
    {
      StepInv(State(), OpDelete(id));
      if !id.Num? {
        return Err(InvalidId);
      }
      configAcl := WithoutOwner(configAcl, id.n);
      content := map v | v in content && content[v].configId != id.n :: content[v];
      config := config - {id.n};
      return Ok(());
    }

    // -------------------------------------------------------------- the tree

    /** The candidate configs, in whatever order the query returns them. */
    method SelectConfigs(prefix: string) returns (cs: seq<int>)
      ensures NoDuplicates(cs)
      ensures forall c :: c in cs <==> c in config && Prefiltered(config[c].path, prefix)
    {
      var left := set c | c in config && (prefix == "" || config[c].path == prefix || Like(config[c].path, prefix + "/%"));
      cs := [];
      while left != {}
        invariant NoDuplicates(cs)
        invariant forall c :: c in cs ==> c !in left
        invariant forall c :: c in cs || c in left <==> c in config && Prefiltered(config[c].path, prefix)
        decreases left
      {
        var c := PickRow(left);
        SnocDistinct(cs, c);
        cs := cs + [c];
        left := left - {c};
      }
    }

    /** The loop over the candidates: the exact prefix check, the config's own entries, the existence
        of its directory and the readability of the whole path. */
    method ShowConfigs(cs: seq<int>, dirByPath: set<string>, readable: map<string, bool>, tags: seq<string>, prefix: string)
      returns (shown: Option<seq<Config>>)
      requires Valid() && NoDuplicates(cs) && forall c :: c in cs ==> c in config
      requires forall p :: p in dirByPath <==> IsDirectory(directory, p)
      requires forall p :: Lookup(readable, p) <==> Traversable(State(), p, tags)
      ensures shown.Some? && ShownUpTo(State(), tags, prefix, cs, shown.value)
    {
      var aclsByConfig := LoadACLs(configAcl, cs);
      var configs: seq<Config> := [];
      for i := 0 to |cs|
        invariant ShownUpTo(State(), tags, prefix, cs[..i], configs)
      {
        var c := cs[i];
        assert c in cs && c !in cs[..i] && cs[..i + 1] == cs[..i] + [c];
        ShowOne(State(), tags, prefix, cs[..i], c, configs);
        var row := config[c];
        if prefix != "" && row.path != prefix && !HasPrefix(row.path, prefix + "/") {
          continue;
        }
        var size := if row.current.Some? && row.current.value in content then content[row.current.value].size else 0;
        var conf := Config(Num(c), row.name, row.path, EntriesOf(aclsByConfig, c), None, size, IdOf(row.current),
                           row.createdAt, row.updatedAt);
        if !conf.Allows(tags, READ) {
          continue;
        }
        assert IsPlace(directory, row.path);
        if row.path != "" && row.path != "/" && row.path !in dirByPath {
          return None;
        }
        if !Lookup(readable, row.path) {
          continue;
        }
        configs := configs + [conf];
      }
      assert cs[..|cs|] == cs;
      return Some(configs);
    }

    /** The caller's tree. In a valid state it never fails with a missing directory. */
    method TreeForACLTags(tags: seq<string>, prefix: string) returns (tree: Option<Directory>)
      requires Valid()
      ensures tree.Some? && IsTree(tree.value, State(), tags, prefix)
    {
      var allDirs := LoadDirectories(directory.Keys);
      var dirByPath := set d | d in allDirs :: d.FullPath();
      forall p
        ensures p in dirByPath <==> IsDirectory(directory, p)
      {
        PathsOfAll(State(), allDirs, p);
      }
      TableAncestorClosed(State(), allDirs);
      var readable := ReadableDirectories(allDirs, tags);
      forall p
        ensures Lookup(readable, p) <==> Traversable(State(), p, tags)
      {
        OpenIsTraversable(State(), allDirs, p, tags);
      }
      var cs := SelectConfigs(prefix);
      var shown := ShowConfigs(cs, dirByPath, readable, tags, prefix);
      if shown.None? {
        return None;
      }
      ShownAll(State(), tags, prefix, cs, shown.value);
      var includeDirs := IncludeDirectories(State(), allDirs, readable, tags);
      ghost var bound := Longest(includeDirs);
      var root := PopulateDirectory(ROOT, includeDirs, shown.value, bound);
      assert BuiltFrom(root, State(), tags, prefix, includeDirs, shown.value, bound);
      return Some(root);
    }
  }

  /** The order in which a query visits its rows is unspecified. */
  method PickRow<T>(left: set<T>) returns (id: T)
    requires left != {}
    ensures id in left
  {
    id :| id in left;
  }

  lemma PathsOfAll(t: Tables, ds: seq<Directory>, p: string)
    requires Selected(ds, t, t.directory.Keys)
    ensures p in (set d | d in ds :: d.FullPath()) <==> IsDirectory(t.directory, p)
  {
    if IsDirectory(t.directory, p) {
      var id :| id in t.directory && RowPath(t.directory[id]) == p;
      AllFetched(t, ds, id);
    }
  }

  /** An empty parent means the root; below the root no second slash is put in. */
  method ComposeFullPath(path: string, rawName: string, name: string) returns (fullPath: string)
    requires name == TrimSpace(rawName) && name != ""
    ensures fullPath == ComposedPath(path, rawName) && |fullPath| > 1
  {
    var parent := path;
    if parent == "" {
      parent := "/";
    }
    if parent == "/" {
      return "/" + name;
    }
    return parent + "/" + name;
  }

  /** SELECT COUNT of the rows that name a directory as their parent. */
  method CountChildren(directory: DirectoryTable, id: int) returns (n: nat)
    ensures n > 0 <==> exists d :: d in directory && directory[d].parentId == Some(id)
  {
    var rows := set d | d in directory && directory[d].parentId == Some(id);
    if |rows| > 0 {
      ghost var d := SomeRow(rows);
      assert d in directory;
    } else if exists d :: d in directory && directory[d].parentId == Some(id) {
      ghost var d :| d in directory && directory[d].parentId == Some(id);
      assert d in rows;
    }
    return |rows|;
  }

  /** SELECT COUNT of the configs at a path or matching it as a LIKE prefix. */
  method CountConfigsIn(config: ConfigTable, full: string) returns (n: nat)
    ensures n > 0 <==> exists c :: c in config && (config[c].path == full || Like(config[c].path, full + "/%"))
  {
    var rows := set c | c in config && (config[c].path == full || Like(config[c].path, full + "/%"));
    if |rows| > 0 {
      ghost var c := SomeRow(rows);
      assert c in config;
    } else if exists c :: c in config && (config[c].path == full || Like(config[c].path, full + "/%")) {
      ghost var c :| c in config && (config[c].path == full || Like(config[c].path, full + "/%"));
      assert c in rows;
    }
    return |rows|;
  }

  lemma SomeRow<T>(s: set<T>) returns (x: T)
    requires |s| > 0
    ensures x in s
  {
    x :| x in s;
  }

  /** The prefixes of the path, shortest first. */
  method PathsToFetch(pathParts: seq<string>) returns (paths: seq<string>)
    ensures paths == PrefixPaths(pathParts, 0)
  {
    paths := [];
    for idx := 0 to |pathParts|
      invariant |paths| == idx && forall j :: 0 <= j < idx ==> paths[j] == FullOf(pathParts[..j + 1])
    {
      paths := paths + ["/" + Join(pathParts[..idx + 1])];
    }
  }

  /** The search for the parent among the directories known so far. */
  method FindParent(directories: seq<Directory>, parentPath: string) returns (parentId: Option<int>)
    requires forall d :: d in directories ==> d.id.Num?
    ensures IsParentIn(directories, parentPath, parentId)
  {
    parentId := None;
    if parentPath != "/" {
      var found := FindByPath(directories, parentPath);
      if found.Some? {
        parentId := Some(found.value.id.n);
      }
    }
  }

  method FindByPath(directories: seq<Directory>, p: string) returns (found: Option<Directory>)
    ensures found.Some? ==> found.value in directories && found.value.FullPath() == p
    ensures found.None? ==> !HasPath(directories, p)
  {
    for i := 0 to |directories|
      invariant !HasPath(directories[..i], p)
    {
      assert directories[..i + 1] == directories[..i] + [directories[i]];
      if directories[i].FullPath() == p {
        return Some(directories[i]);
      }
    }
    assert directories[..|directories|] == directories;
    return None;
  }

  lemma SplitMissing(ks: seq<string>, n: nat, miss: string)
    requires Components(ks) && n < |ks| && miss == FullOf(ks[..n + 1])
    ensures var i := LastSlash(miss);
            0 <= i && miss[i + 1..] == ks[n] && (if miss[..i] == "" then "/" else miss[..i]) == FullOf(ks[..n])
  {
    assert ks[..n + 1] == ks[..n] + [ks[n]];
    LastSlashOfFull(ks[..n], ks[n]);
    FullOfRoot(ks[..n]);
    assert FullOf(ks[..n]) != "";
  }

  lemma CanonicalCreated(full: string, components: seq<Directory>, t: Tables)
    requires Covers(components, t, CleanParts(full), |CleanParts(full)|) && |full| > 1 && Canonical(full)
    ensures HasPath(components, full)
  {
    WholeIsPrefix(full);
    CanonicalRoundTrip(full);
    CleanPartsComponents(full);
    FullOfRoot(CleanParts(full));
  }

  lemma CreatedCanonical(full: string, components: seq<Directory>, t: Tables)
    requires Covers(components, t, CleanParts(full), |CleanParts(full)|) && HasPath(components, full)
    ensures Canonical(full)
  {
    var ks := CleanParts(full);
    CleanPartsComponents(full);
    var d :| d in components && d.FullPath() == full;
    var i :| 1 <= i <= |ks| && full == FullOf(ks[..i]);
    PartsOfFull(ks[..i]);
  }

  /** After ensuring a path the leaf is found exactly when the path was canonical. */
  lemma CreatedIffCanonical(full: string, components: seq<Directory>, t: Tables)
    requires Covers(components, t, CleanParts(full), |CleanParts(full)|) && |full| > 1
    ensures HasPath(components, full) <==> Canonical(full)
  {
    if Canonical(full) {
      CanonicalCreated(full, components, t);
    }
    if HasPath(components, full) {
      CreatedCanonical(full, components, t);
    }
  }

  lemma WantedByConstraints(t: Tables, targets: seq<string>, constraints: seq<(string, string)>)
    requires forall r: DirectoryRow :: (r.path, r.name) in constraints <==> OnSomePath(r, targets)
    ensures Wanted(t, targets) == set id | id in t.directory && (t.directory[id].path, t.directory[id].name) in constraints
    ensures constraints == [] ==> Wanted(t, targets) == {}
  {
    forall id | id in t.directory
      ensures OnSomePath(t.directory[id], targets) <==> (t.directory[id].path, t.directory[id].name) in constraints
    {
    }
  }

  /** The loops collecting the fetched paths and, from them, the missing targets. */
  method MissingTargets(targets: seq<string>, ds: seq<Directory>) returns (missing: seq<string>)
    ensures missing == MissingOf(targets, ds)
  {
    var fetchedPaths := [];
    for i := 0 to |ds|
      invariant forall p :: p in fetchedPaths <==> HasPath(ds[..i], p)
    {
      assert ds[..i + 1] == ds[..i] + [ds[i]];
      fetchedPaths := fetchedPaths + [ds[i].FullPath()];
    }
    assert ds[..|ds|] == ds;
    missing := [];
    for i := 0 to |targets|
      invariant missing == MissingOf(targets[..i], ds)
    {
      MissingSnoc(targets[..i], targets[i], ds);
      assert targets[..i + 1] == targets[..i] + [targets[i]];
      if targets[i] !in fetchedPaths {
        missing := missing + [targets[i]];
      }
    }
    assert targets[..|targets|] == targets;
  }

  /** The wanted rows as messages without entries, each once, ordered by path. */
  ghost predicate RowsOf(rows: seq<Directory>, t: Tables, want: set<int>)
    requires want <= t.directory.Keys
  {
    && (forall d :: d in rows ==> d.id.Num? && d.id.n in want && d == DirectoryMessage(t, d.id.n).(acls := []))
    && (forall id :: id in want ==> DirectoryMessage(t, id).(acls := []) in rows)
    && NoDuplicates(rows) && PathSorted(rows)
  }

  lemma RowsAreMessages(rows: seq<Directory>, t: Tables, want: set<int>)
    requires want <= t.directory.Keys && RowsOf(rows, t, want)
    ensures forall k :: 0 <= k < |rows| ==>
              rows[k].id.Num? && rows[k].id.n in want && rows[k] == DirectoryMessage(t, rows[k].id.n).(acls := [])
  {
    forall k | 0 <= k < |rows|
      ensures rows[k].id.Num? && rows[k].id.n in want && rows[k] == DirectoryMessage(t, rows[k].id.n).(acls := [])
    {
      assert rows[k] in rows;
    }
  }

  /** The loop collecting the ids of the fetched rows. */
  method RowIds(rows: seq<Directory>) returns (ids: seq<int>)
    requires forall k :: 0 <= k < |rows| ==> rows[k].id.Num?
    ensures |ids| == |rows| && forall k :: 0 <= k < |rows| ==> ids[k] == rows[k].id.n
  {
    ids := [];
    for i := 0 to |rows|
      invariant |ids| == i && forall k :: 0 <= k < i ==> ids[k] == rows[k].id.n
    {
      ids := ids + [rows[i].id.n];
    }
  }

  /** Messages that differ from distinct sorted rows only in their entries are a selection. */
  lemma SelectedFromRows(ds: seq<Directory>, rows: seq<Directory>, t: Tables, want: set<int>)
    requires want <= t.directory.Keys && |ds| == |rows| && RowsOf(rows, t, want)
    requires forall k :: 0 <= k < |ds| ==> rows[k].id.Num? && rows[k].id.n in want && ds[k] == DirectoryMessage(t, rows[k].id.n)
    ensures Selected(ds, t, want)
  {
    forall id | id in want
      ensures DirectoryMessage(t, id) in ds
    {
      var row := DirectoryMessage(t, id).(acls := []);
      assert row in rows;
      var k :| 0 <= k < |rows| && rows[k] == row;
      assert ds[k].id == Num(id);
    }
    forall d | d in ds
      ensures d.id.Num? && d.id.n in want
    {
      var k :| 0 <= k < |ds| && ds[k] == d;
      assert rows[k] in rows;
    }
    RowsAreMessages(rows, t, want);
    DistinctFromRows(ds, rows);
    SameOrder(ds, rows);
  }

  lemma DistinctFromRows(ds: seq<Directory>, rows: seq<Directory>)
    requires |ds| == |rows| && NoDuplicates(rows) && forall k :: 0 <= k < |ds| ==> ds[k].(acls := []) == rows[k]
    ensures NoDuplicates(ds)
  {
  }

  lemma {:induction false} SameOrder(a: seq<Directory>, b: seq<Directory>)
    requires |a| == |b| && PathSorted(b) && forall k :: 0 <= k < |a| ==> a[k].path == b[k].path
    ensures PathSorted(a)
  {
    if |a| > 1 {
      SameOrder(a[1..], b[1..]);
    }
  }
}
