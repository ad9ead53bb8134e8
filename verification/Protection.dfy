/** Write protection at the service: what a handler run by itself may change, and on whose authority. */
module Protection {
  import opened Paths
  import opened Messages
  import opened Tables
  import opened StoreSpec
  import opened StoreInvariant
  import opened Access
  import opened Versions
  import opened Ensuring
  import opened Handlers

  // ---------------------------------------------------------------- what one transaction leaves alone

  /** Config c is as it was: row, entries and versions. */
  ghost predicate SameConfig(t: Tables, u: Tables, c: int) {
    && c in t.config && c in u.config && t.config[c] == u.config[c]
    && LoadAcls(t.configAcl, c) == LoadAcls(u.configAcl, c)
    && (forall v :: IsVersionOf(t.content, c, v) <==> IsVersionOf(u.content, c, v))
    && (forall v :: IsVersionOf(t.content, c, v) && IsVersionOf(u.content, c, v) ==> t.content[v] == u.content[v])
  }

  ghost predicate SameDirectory(t: Tables, u: Tables, d: int) {
    && d in t.directory && d in u.directory && t.directory[d] == u.directory[d]
    && LoadAcls(t.directoryAcl, d) == LoadAcls(u.directoryAcl, d)
  }

  lemma OtherInserted(t: Tables, c: Config, now: int, d: int)
    requires Inv(t) && Insertable(t, c) && d in t.config
    ensures SameConfig(t, InsertConfig(t, c, c.content.value, now), d)
  {
    LoadAppend(t.configAcl, AclRows(t.lastInode + 1, c.acls), d);
    LoadInserted(t.lastInode + 1, c.acls, d);
  }

  lemma OtherUpdated(t: Tables, c: Config, now: int, d: int)
    requires Inv(t) && Updatable(t, c) && d in t.config && d != c.id.n
    ensures SameConfig(t, UpdateConfig(t, c.id.n, c, now), d)
  {
    LoadReplaced(t.configAcl, c.id.n, c.acls, d);
  }

  /** A transaction that does not name a config leaves it as it was. */
  lemma ConfigLeftAlone(t: Tables, op: Op, c: int)
    requires Inv(t) && c in t.config
    requires !(op.OpUpsert? && Updatable(t, op.config) && op.config.id == Num(c)) && op != OpDelete(Num(c))
    ensures SameConfig(t, Next(t, op), c)
  {
    match op
    case OpCreateDirectory(parent, name, acls) =>
      if Creatable(t, parent, name) {
        CreateKeepsConfigs(t, parent, name, acls);
      }
    case OpUpdateDirectory(_, _, _, _) =>
    case OpDeleteDirectory(_) =>
    case OpUpsert(conf, now) =>
      if Insertable(t, conf) {
        OtherInserted(t, conf, now, c);
      } else if Updatable(t, conf) {
        OtherUpdated(t, conf, now, c);
      }
    case OpDelete(id) =>
      if id.Num? {
        LoadRemaining(t.configAcl, id.n, c);
      }
  }

  lemma CreateAddsPrefixes(t: Tables, parent: string, name: string, acls: seq<ConfigAcl>)
    requires Inv(t) && Creatable(t, parent, name)
    ensures var ks := CleanParts(ComposedPath(parent, name));
            Components(ks) && AddsPrefixes(t, CreateDirectory(t, parent, name, acls).value, ks, |ks|, acls)
  {
    var ks := CleanParts(ComposedPath(parent, name));
    CleanPartsComponents(ComposedPath(parent, name));
    EnsuredExactly(t, ks, |ks|, acls);
  }

  lemma DirectoryLeftAlone(t: Tables, op: Op, d: int)
    requires Inv(t) && d in t.directory
    requires !(op.OpUpdateDirectory? && op.id == Num(d)) && op != OpDeleteDirectory(Num(d))
    ensures SameDirectory(t, Next(t, op), d)
  {
    match op
    case OpCreateDirectory(parent, name, acls) =>
      if Creatable(t, parent, name) {
        CreateAddsPrefixes(t, parent, name, acls);
      }
    case OpUpdateDirectory(id, _, _, acls) =>
      if id.Num? {
        LoadReplaced(t.directoryAcl, id.n, acls, d);
      }
    case OpDeleteDirectory(id) =>
      if id.Num? {
        LoadRemaining(t.directoryAcl, id.n, d);
      }
    case _ =>
  }

  // ---------------------------------------------------------------- what a handler submits

  ghost predicate HoldsWrite(t: Tables, c: int, tags: seq<string>) {
    c in t.config && Grants(LoadAcls(t.configAcl, c), tags, WRITE)
  }

  /** The transactions a caller's request may end in. */
  ghost predicate Authorised(t: Tables, allowed: set<string>, req: Request, tags: seq<string>, op: Op) {
    match req
    case SetConfig(conf, now) =>
      && conf.Some? && op == OpUpsert(conf.value, now) && PlaceGrantsWrite(t, conf.value.path, tags)
      && (if conf.value.id == NoId then CanCreate(allowed, tags)
          else conf.value.id.Num? && HoldsWrite(t, conf.value.id.n, tags))
    case DeleteConfig(id) => op == OpDelete(id) && id.Num? && HoldsWrite(t, id.n, tags)
    case CreateDir(dir) =>
      && dir.Some? && op == OpCreateDirectory(dir.value.path, dir.value.name, dir.value.acls) && CanCreate(allowed, tags)
      && (IsRoot(dir.value.path) || DeepestGrantsWrite(t, CleanParts(dir.value.path), tags))
    case UpdateDir(dir) =>
      && dir.Some? && op == OpUpdateDirectory(dir.value.id, dir.value.name, dir.value.path, dir.value.acls)
      && dir.value.id.Num? && DirectoryWritable(t, dir.value.id.n, tags)
    case DeleteDir(id) => op == OpDeleteDirectory(id) && id.Num? && DirectoryWritable(t, id.n, tags)
  }

  ghost predicate DirectoryWritable(t: Tables, d: int, tags: seq<string>) {
    d in t.directory && Traversable(t, t.directory[d].path, tags) && DirGrants(t, d, tags, WRITE)
  }

  /** Run by itself, a handler changes nothing or commits one transaction its caller is authorised for. */
  lemma OutcomeIsAuthorised(t: Tables, allowed: set<string>, req: Request, tags: seq<string>)
    ensures var u := RunAlone(t, allowed, Start(req, tags)).0;
            u == t || exists op :: Authorised(t, allowed, req, tags, op) && u == Next(t, op)
  {
    RunsAlone(t, allowed, req, tags);
    var first := Begin(t, allowed, req, tags);
    var u := RunAlone(t, allowed, Start(req, tags)).0;
    if PendingOp(first).Some? {
      assert Authorised(t, allowed, req, tags, PendingOp(first).value);
    } else if !first.Finished? {
      var second := ThreadStep(t, allowed, first).1;
      if PendingOp(second).Some? {
        assert Authorised(t, allowed, req, tags, PendingOp(second).value);
      }
    }
  }

  // ---------------------------------------------------------------- main results

  /** The request names config c, and its caller holds WRITE on it and, for an update, on the directory
      it lies in. */
  ghost predicate MayChangeConfig(t: Tables, req: Request, tags: seq<string>, c: int) {
    && HoldsWrite(t, c, tags)
    && (|| req == DeleteConfig(Num(c))
        || (&& req.SetConfig? && req.conf.Some? && req.conf.value.id == Num(c)
            && req.conf.value.path == t.config[c].path && PlaceGrantsWrite(t, t.config[c].path, tags)))
  }

  /** The request names directory d, and its caller may walk to it and holds WRITE on it. */
  ghost predicate MayChangeDirectory(t: Tables, req: Request, tags: seq<string>, d: int) {
    && DirectoryWritable(t, d, tags)
    && (req == DeleteDir(Num(d)) || (req.UpdateDir? && req.dir.Some? && req.dir.value.id == Num(d)))
  }

  /** A config's row, entries or versions change only by a request that names it, from a caller who
      held WRITE on it and, for an update, on the directory it lies in. */
  lemma ConfigProtected(t: Tables, allowed: set<string>, req: Request, tags: seq<string>, c: int)
    requires Inv(t) && c in t.config
    ensures SameConfig(t, RunAlone(t, allowed, Start(req, tags)).0, c) || MayChangeConfig(t, req, tags, c)
  {
    OutcomeIsAuthorised(t, allowed, req, tags);
    var u := RunAlone(t, allowed, Start(req, tags)).0;
    if u != t {
      var op :| Authorised(t, allowed, req, tags, op) && u == Next(t, op);
      if !(op.OpUpsert? && Updatable(t, op.config) && op.config.id == Num(c)) && op != OpDelete(Num(c)) {
        ConfigLeftAlone(t, op, c);
      }
    }
  }

  /** A config appears only by a SetConfig that creates it, from a caller allowed to create, into a
      place that grants that caller WRITE. */
  lemma CreationProtected(t: Tables, allowed: set<string>, req: Request, tags: seq<string>, c: int)
    requires Inv(t) && c !in t.config && c in RunAlone(t, allowed, Start(req, tags)).0.config
    ensures req.SetConfig? && req.conf.Some? && req.conf.value.id == NoId && CanCreate(allowed, tags)
    ensures RunAlone(t, allowed, Start(req, tags)).0.config[c].path == req.conf.value.path
    ensures PlaceGrantsWrite(t, req.conf.value.path, tags)
  {
    OutcomeIsAuthorised(t, allowed, req, tags);
    var op :| Authorised(t, allowed, req, tags, op) && RunAlone(t, allowed, Start(req, tags)).0 == Next(t, op);
    if op.OpCreateDirectory? && Creatable(t, op.parent, op.name) {
      CreateKeepsConfigs(t, op.parent, op.name, op.acls);
    }
  }

  /** A directory changes or goes only by a request that names it, from a caller who may walk to it and
      holds WRITE on it. */
  lemma DirectoryProtected(t: Tables, allowed: set<string>, req: Request, tags: seq<string>, d: int)
    requires Inv(t) && d in t.directory
    ensures SameDirectory(t, RunAlone(t, allowed, Start(req, tags)).0, d) || MayChangeDirectory(t, req, tags, d)
  {
    OutcomeIsAuthorised(t, allowed, req, tags);
    var u := RunAlone(t, allowed, Start(req, tags)).0;
    if u != t {
      var op :| Authorised(t, allowed, req, tags, op) && u == Next(t, op);
      if !(op.OpUpdateDirectory? && op.id == Num(d)) && op != OpDeleteDirectory(Num(d)) {
        DirectoryLeftAlone(t, op, d);
      }
    }
  }

  // ---------------------------------------------------------------- new directories

  lemma PrefixDepthBelow(t: Tables, ks: seq<string>, pre: seq<string>, n: nat)
    requires TreeInv(t.directory, t.lastInode) && Components(ks) && pre <= ks && n == ExistingDepth(t.directory, pre, 0)
    ensures n <= ExistingDepth(t.directory, ks, 0)
  {
    if n > 0 {
      assert pre[..n] == ks[..n];
      ExistsUpToDepth(t, ks, n);
    }
  }

  lemma SlicesAgree(pre: seq<string>, ks: seq<string>, i: nat)
    requires pre <= ks && i <= |pre|
    ensures pre[..i] == ks[..i]
  {
  }

  lemma MissingBoundsDepth(t: Tables, ks: seq<string>, n: nat, p: string)
    requires TreeInv(t.directory, t.lastInode) && Components(ks)
    requires n < |ks| && p == FullOf(ks[..n + 1]) && !IsDirectory(t.directory, p)
    ensures ExistingDepth(t.directory, ks, 0) <= n
  {
    ExistsUpToDepth(t, ks, n + 1);
  }

  /** The existing part of a prefix is the existing part of the whole, cut to length. */
  lemma DepthOfPrefix(t: Tables, ks: seq<string>, pre: seq<string>)
    requires TreeInv(t.directory, t.lastInode) && Components(ks) && pre <= ks
    ensures var m := ExistingDepth(t.directory, ks, 0);
            ExistingDepth(t.directory, pre, 0) == if m < |pre| then m else |pre|
  {
    var n := ExistingDepth(t.directory, pre, 0);
    PrefixDepthBelow(t, ks, pre, n);
    if n < |pre| {
      SlicesAgree(pre, ks, n + 1);
      MissingBoundsDepth(t, ks, n, FullOf(pre[..n + 1]));
    }
  }

  /** The parts of a composed path are those of the parent and of the name. */
  lemma ComposedParts(parent: string, name: string)
    ensures CleanParts(ComposedPath(parent, name)) == CleanParts(parent) + CleanParts(TrimSpace(name))
  {
    PartsOfChild(parent, TrimSpace(name), ComposedPath(parent, name));
  }

  lemma GateDepth(t: Tables, pp: seq<string>, ks: seq<string>, first: string)
    requires TreeInv(t.directory, t.lastInode) && Components(ks) && pp < ks && first == FullOf(ks[..|pp| + 1])
    ensures var i, m := ExistingDepth(t.directory, pp, 0), ExistingDepth(t.directory, ks, 0);
            && (i == m <==> !IsDirectory(t.directory, first))
            && (FullOf(pp[..i]) == FullOf(ks[..m]) <==> !IsDirectory(t.directory, first))
  {
    DepthOfPrefix(t, ks, pp);
    ExistsUpToDepth(t, ks, |pp| + 1);
    DeepestPath(pp, ks, ExistingDepth(t.directory, pp, 0), ExistingDepth(t.directory, ks, 0));
  }

  lemma NameHasParts(parent: string, name: string)
    requires TrimSpace(name) != "" && Canonical(ComposedPath(parent, name))
    ensures |CleanParts(TrimSpace(name))| > 0
  {
    var n, full := TrimSpace(name), ComposedPath(parent, name);
    var above := if IsRoot(parent) then parent[..0] else parent;
    assert full == above + "/" + n;
    CanonicalName(above, n, full);
  }

  lemma FrontOfConcat(a: seq<string>, b: seq<string>, ks: seq<string>)
    requires ks == a + b && |b| > 0
    ensures a < ks
  {
  }

  lemma ParentPartsFirst(parent: string, name: string)
    requires TrimSpace(name) != "" && Canonical(ComposedPath(parent, name))
    ensures var pp, ks := CleanParts(parent), CleanParts(ComposedPath(parent, name));
            Components(ks) && pp < ks
  {
    CleanPartsComponents(ComposedPath(parent, name));
    ComposedParts(parent, name);
    NameHasParts(parent, name);
    FrontOfConcat(CleanParts(parent), CleanParts(TrimSpace(name)), CleanParts(ComposedPath(parent, name)));
  }

  /** Where new directories would start if the parent exists: the parent path and the first part of the
      name. With a slash-free name that is the new directory itself. */
  ghost function FirstLevel(parent: string, name: string): string
    requires TrimSpace(name) != "" && Canonical(ComposedPath(parent, name))
  {
    ParentPartsFirst(parent, name);
    FullOf(CleanParts(ComposedPath(parent, name))[..|CleanParts(parent)| + 1])
  }

  /** The gate of CreateDirectory: the deepest existing ancestor of the parent path grants WRITE. */
  ghost predicate GateOpen(t: Tables, parent: string, tags: seq<string>) {
    IsRoot(parent) || DeepestGrantsWrite(t, CleanParts(parent), tags)
  }

  lemma DeepestPath(pp: seq<string>, ks: seq<string>, i: nat, m: nat)
    requires Components(ks) && pp <= ks && i <= |pp| && m <= |ks|
    ensures FullOf(pp[..i]) == FullOf(ks[..m]) <==> i == m
  {
    SlicesAgree(pp, ks, i);
    if i < m {
      PrefixPathOrder(ks, i, m);
    } else {
      PrefixPathOrder(ks, m, i);
    }
  }

  /** The gate looks at the deepest existing directory on the way to the parent. That is the deepest
      existing one on the way to the new directory exactly when no directory exists yet at the first
      level; when one does, the gate looks at a different directory. */
  lemma GateSeesDeepest(t: Tables, parent: string, name: string, pp: seq<string>, ks: seq<string>)
    requires TreeInv(t.directory, t.lastInode) && TrimSpace(name) != "" && Canonical(ComposedPath(parent, name))
    requires pp == CleanParts(parent) && ks == CleanParts(ComposedPath(parent, name))
    ensures pp < ks
    ensures var i, m := ExistingDepth(t.directory, pp, 0), ExistingDepth(t.directory, ks, 0);
            && (i == m <==> !IsDirectory(t.directory, FirstLevel(parent, name)))
            && (FullOf(pp[..i]) == FullOf(ks[..m]) <==> !IsDirectory(t.directory, FirstLevel(parent, name)))
  {
    ParentPartsFirst(parent, name);
    GateDepth(t, pp, ks, FirstLevel(parent, name));
  }

  /** New directories come only below a deepest existing ancestor that granted the caller WRITE, unless a
      directory already exists at the first level of the name. */
  lemma NewDirectoryProtected(t: Tables, allowed: set<string>, req: Request, tags: seq<string>, d: int)
    requires Inv(t) && d !in t.directory && d in RunAlone(t, allowed, Start(req, tags)).0.directory
    ensures req.CreateDir? && req.newDir.Some? && CanCreate(allowed, tags)
    ensures Creatable(t, req.newDir.value.path, req.newDir.value.name) && GateOpen(t, req.newDir.value.path, tags)
    ensures !IsDirectory(t.directory, FirstLevel(req.newDir.value.path, req.newDir.value.name)) ==>
              DeepestGrantsWrite(t, CleanParts(RowPath(RunAlone(t, allowed, Start(req, tags)).0.directory[d])), tags)
  {
    OutcomeIsAuthorised(t, allowed, req, tags);
    var u := RunAlone(t, allowed, Start(req, tags)).0;
    var op :| Authorised(t, allowed, req, tags, op) && u == Next(t, op);
    var dir := req.newDir.value;
    if !IsDirectory(t.directory, FirstLevel(dir.path, dir.name)) {
      NewBelowDeepest(t, dir, tags, d);
    }
  }

  lemma NewBelowDeepest(t: Tables, dir: Directory, tags: seq<string>, d: int)
    requires Inv(t) && Creatable(t, dir.path, dir.name) && !IsDirectory(t.directory, FirstLevel(dir.path, dir.name))
    requires GateOpen(t, dir.path, tags)
    requires d !in t.directory && d in CreateDirectory(t, dir.path, dir.name, dir.acls).value.directory
    ensures DeepestGrantsWrite(t, CleanParts(RowPath(CreateDirectory(t, dir.path, dir.name, dir.acls).value.directory[d])), tags)
  {
    var u := CreateDirectory(t, dir.path, dir.name, dir.acls).value;
    var ks := CleanParts(ComposedPath(dir.path, dir.name));
    CreateAddsPrefixes(t, dir.path, dir.name, dir.acls);
    GateCarriesOver(t, dir.path, dir.name, CleanParts(dir.path), ks, tags);
    assert NewIsMissingPrefix(t, u, ks, |ks|, dir.acls, d);
    BelowDeepest(t, ks, RowPath(u.directory[d]), tags);
  }

  lemma GateCarriesOver(t: Tables, parent: string, name: string, pp: seq<string>, ks: seq<string>, tags: seq<string>)
    requires TreeInv(t.directory, t.lastInode) && TrimSpace(name) != "" && Canonical(ComposedPath(parent, name))
    requires pp == CleanParts(parent) && ks == CleanParts(ComposedPath(parent, name))
    requires !IsDirectory(t.directory, FirstLevel(parent, name)) && GateOpen(t, parent, tags)
    ensures DeepestGrantsWrite(t, ks, tags)
  {
    GateSeesDeepest(t, parent, name, pp, ks);
    if IsRoot(parent) {
      PartsOfRoot(parent);
    }
    DeepestCarriesOver(t, pp, ks, tags);
  }

  /** For a slash-free name the first level is the new directory itself, which does not exist; so
      NewDirectoryProtected covers every such name. */
  lemma SlashFreeFirstLevel(t: Tables, parent: string, name: string)
    requires Creatable(t, parent, name) && '/' !in name
    ensures FirstLevel(parent, name) == ComposedPath(parent, name) && !IsDirectory(t.directory, FirstLevel(parent, name))
  {
    ComposedParts(parent, name);
    PartsOfName(TrimSpace(name));
    WholeIsPrefix(ComposedPath(parent, name));
  }

  lemma DeepestCarriesOver(t: Tables, pp: seq<string>, ks: seq<string>, tags: seq<string>)
    requires pp < ks && ExistingDepth(t.directory, pp, 0) == ExistingDepth(t.directory, ks, 0)
    requires pp == [] || DeepestGrantsWrite(t, pp, tags)
    ensures DeepestGrantsWrite(t, ks, tags)
  {
    var m := ExistingDepth(t.directory, ks, 0);
    assert pp[..m] == ks[..m];
  }

  /** A missing prefix has the same deepest existing ancestor as the whole path. */
  lemma BelowDeepest(t: Tables, ks: seq<string>, p: string, tags: seq<string>)
    requires TreeInv(t.directory, t.lastInode) && Components(ks) && IsPrefixPath(p, ks, |ks|) && !IsDirectory(t.directory, p)
    requires DeepestGrantsWrite(t, ks, tags)
    ensures DeepestGrantsWrite(t, CleanParts(p), tags)
  {
    var i :| 1 <= i <= |ks| && p == FullOf(ks[..i]);
    ExistsUpToDepth(t, ks, i);
    DepthOfPrefix(t, ks, ks[..i]);
    var m := ExistingDepth(t.directory, ks, 0);
    assert ks[..i][..m] == ks[..m];
    PartsOfFull(ks[..i]);
  }

  // ---------------------------------------------------------------- exactly when the gate is enough

  /** Whatever entries the directories carry and whoever asks: a caller the gate lets through holds WRITE
      on the deepest existing directory on the way to the new one. */
  ghost predicate GateSuffices(t: Tables, parent: string, name: string) {
    forall rows, tags {:trigger GateOpen(t.(directoryAcl := rows), parent, tags)} ::
      GateOpen(t.(directoryAcl := rows), parent, tags) ==>
        DeepestGrantsWrite(t.(directoryAcl := rows), CleanParts(ComposedPath(parent, name)), tags)
  }

  /** The gate is enough exactly when no directory exists at the first level of the name. */
  lemma GateSufficesIff(t: Tables, parent: string, name: string)
    requires TreeInv(t.directory, t.lastInode) && Creatable(t, parent, name)
    ensures GateSuffices(t, parent, name) <==> !IsDirectory(t.directory, FirstLevel(parent, name))
  {
    if IsDirectory(t.directory, FirstLevel(parent, name)) {
      var rows := GatePassedBy(t, parent, name);
      assert GateOpen(t.(directoryAcl := rows), parent, []);
    } else {
      forall rows, tags | GateOpen(t.(directoryAcl := rows), parent, tags)
        ensures DeepestGrantsWrite(t.(directoryAcl := rows), CleanParts(ComposedPath(parent, name)), tags)
      {
        GateCarriesOver(t.(directoryAcl := rows), parent, name, CleanParts(parent), CleanParts(ComposedPath(parent, name)), tags);
      }
    }
  }

  /** When one exists, entries by which everybody may read the deepest directory and nobody write it are
      not noticed by the gate. */
  lemma GatePassedBy(t: Tables, parent: string, name: string) returns (rows: seq<AclRow>)
    requires TreeInv(t.directory, t.lastInode) && Creatable(t, parent, name)
    requires IsDirectory(t.directory, FirstLevel(parent, name))
    ensures AclInv(rows, t.directory.Keys)
    ensures GateOpen(t.(directoryAcl := rows), parent, [])
    ensures !DeepestGrantsWrite(t.(directoryAcl := rows), CleanParts(ComposedPath(parent, name)), [])
  {
    var pp, ks := CleanParts(parent), CleanParts(ComposedPath(parent, name));
    var i, m := ExistingDepth(t.directory, pp, 0), ExistingDepth(t.directory, ks, 0);
    GateSeesDeepest(t, parent, name, pp, ks);
    CleanPartsComponents(ComposedPath(parent, name));
    DepthOfPrefix(t, ks, pp);
    assert IsDirectory(t.directory, FullOf(ks[..m]));
    var id := DirectoryAt(t.directory, FullOf(ks[..m]));
    rows := [AclRow(id, READ, "", true)];
    ClosedAt(t, rows, id);
    if i > 0 {
      assert IsDirectory(t.directory, FullOf(pp[..i]));
      OpenElsewhere(t, rows, id, FullOf(pp[..i]));
    }
  }

  lemma DirectoryAt(dirs: DirectoryTable, p: string) returns (id: int)
    requires IsDirectory(dirs, p)
    ensures id in dirs && RowPath(dirs[id]) == p
  {
    id :| id in dirs && RowPath(dirs[id]) == p;
  }

  lemma ReadOnlyEntries(rows: seq<AclRow>, id: int, other: int, tags: seq<string>)
    requires rows == [AclRow(id, READ, "", true)]
    ensures DirectoryGrants(LoadAcls(rows, other), tags, WRITE) <==> other != id
  {
    assert rows[1..] == [];
    assert LoadAcls(rows, other) == if id == other then [ConfigAcl(READ, "", true)] else [];
  }

  lemma ClosedAt(t: Tables, rows: seq<AclRow>, id: int)
    requires TreeInv(t.directory, t.lastInode) && id in t.directory && rows == [AclRow(id, READ, "", true)]
    ensures !PlaceGrantsWrite(t.(directoryAcl := rows), RowPath(t.directory[id]), [])
  {
    ReadOnlyEntries(rows, id, id, []);
    assert IsDirectory(t.directory, RowPath(t.directory[id]));
    DirectoriesCanonical(t.directory, t.lastInode, RowPath(t.directory[id]));
  }

  lemma OpenElsewhere(t: Tables, rows: seq<AclRow>, id: int, p: string)
    requires id in t.directory && rows == [AclRow(id, READ, "", true)]
    requires IsDirectory(t.directory, p) && p != RowPath(t.directory[id])
    ensures PlaceGrantsWrite(t.(directoryAcl := rows), p, [])
  {
    var other := DirectoryAt(t.directory, p);
    ReadOnlyEntries(rows, id, other, []);
    assert DirGrants(t.(directoryAcl := rows), other, [], WRITE);
  }

  // ---------------------------------------------------------------- whole runs

  datatype Call = Call(req: Request, tags: seq<string>)

  /** The state after the first n requests, each run to its end before the next. */
  ghost function After(t: Tables, allowed: set<string>, calls: seq<Call>, n: nat): Tables
    requires n <= |calls|
  {
    if n == 0 then t
    else RunAlone(After(t, allowed, calls, n - 1), allowed, Start(calls[n - 1].req, calls[n - 1].tags)).0
  }

  lemma {:induction false} AfterInv(t: Tables, allowed: set<string>, calls: seq<Call>, n: nat)
    requires Inv(t) && n <= |calls|
    ensures Inv(After(t, allowed, calls, n))
  {
    if n > 0 {
      AfterInv(t, allowed, calls, n - 1);
      var before := After(t, allowed, calls, n - 1);
      OutcomeIsAuthorised(before, allowed, calls[n - 1].req, calls[n - 1].tags);
      if After(t, allowed, calls, n) != before {
        var op :| Authorised(before, allowed, calls[n - 1].req, calls[n - 1].tags, op) && After(t, allowed, calls, n) == Next(before, op);
        StepInv(before, op);
      }
    }
  }

  lemma SameConfigTransitive(t: Tables, u: Tables, w: Tables, c: int)
    requires SameConfig(t, u, c) && SameConfig(u, w, c)
    ensures SameConfig(t, w, c)
  {
  }

  /** Every request of a run: what it does to a config that exists when it arrives, it does only when it
      names the config and its caller holds WRITE there and then; and a config it adds, it adds for a
      caller allowed to. */
  lemma RunProtected(t: Tables, allowed: set<string>, calls: seq<Call>, k: nat, c: int)
    requires Inv(t) && k < |calls|
    ensures var before, after, call := After(t, allowed, calls, k), After(t, allowed, calls, k + 1), calls[k];
            && (c in before.config ==> SameConfig(before, after, c) || MayChangeConfig(before, call.req, call.tags, c))
            && (c !in before.config && c in after.config ==>
                  && call.req.SetConfig? && call.req.conf.Some? && call.req.conf.value.id == NoId
                  && CanCreate(allowed, call.tags) && PlaceGrantsWrite(before, after.config[c].path, call.tags))
  {
    AfterInv(t, allowed, calls, k);
    var before, call := After(t, allowed, calls, k), calls[k];
    if c in before.config {
      ConfigProtected(before, allowed, call.req, call.tags, c);
    } else if c in After(t, allowed, calls, k + 1).config {
      CreationProtected(before, allowed, call.req, call.tags, c);
    }
  }

  /** Request k is the first to change config c, and its caller was entitled to. */
  ghost predicate ChangedBy(t: Tables, allowed: set<string>, calls: seq<Call>, k: nat, c: int)
    requires k < |calls|
  {
    && SameConfig(t, After(t, allowed, calls, k), c)
    && !SameConfig(t, After(t, allowed, calls, k + 1), c)
    && MayChangeConfig(After(t, allowed, calls, k), calls[k].req, calls[k].tags, c)
  }

  /** Over a whole run: a config that is not what it was at the start was first changed by a request that
      named it, from a caller who held WRITE on it at that moment. */
  lemma {:induction false} ChangeIsAccountedFor(t: Tables, allowed: set<string>, calls: seq<Call>, n: nat, c: int)
    requires Inv(t) && c in t.config && n <= |calls|
    ensures SameConfig(t, After(t, allowed, calls, n), c) || exists k :: 0 <= k < n && ChangedBy(t, allowed, calls, k, c)
  {
    if n > 0 {
      ChangeIsAccountedFor(t, allowed, calls, n - 1, c);
      var before, after := After(t, allowed, calls, n - 1), After(t, allowed, calls, n);
      if SameConfig(t, before, c) {
        RunProtected(t, allowed, calls, n - 1, c);
        if SameConfig(before, after, c) {
          SameConfigTransitive(t, before, after, c);
        } else if !SameConfig(t, after, c) {
          assert ChangedBy(t, allowed, calls, n - 1, c);
        }
      }
    }
  }

  /** The same for directories: a request changes or removes one only when it names it and its caller may,
      and adds one only through the gate, which guards the deepest existing ancestor unless a directory
      exists at the first level of the name. */
  lemma RunProtectsDirectories(t: Tables, allowed: set<string>, calls: seq<Call>, k: nat, d: int)
    requires Inv(t) && k < |calls|
    ensures var before, after, call := After(t, allowed, calls, k), After(t, allowed, calls, k + 1), calls[k];
            && (d in before.directory ==> SameDirectory(before, after, d) || MayChangeDirectory(before, call.req, call.tags, d))
            && (d !in before.directory && d in after.directory ==>
                  && call.req.CreateDir? && call.req.newDir.Some? && CanCreate(allowed, call.tags)
                  && Creatable(before, call.req.newDir.value.path, call.req.newDir.value.name)
                  && GateOpen(before, call.req.newDir.value.path, call.tags)
                  && (!IsDirectory(before.directory, FirstLevel(call.req.newDir.value.path, call.req.newDir.value.name)) ==>
                        DeepestGrantsWrite(before, CleanParts(RowPath(after.directory[d])), call.tags)))
  {
    AfterInv(t, allowed, calls, k);
    var before, call := After(t, allowed, calls, k), calls[k];
    if d in before.directory {
      DirectoryProtected(before, allowed, call.req, call.tags, d);
    } else if d in After(t, allowed, calls, k + 1).directory {
      NewDirectoryProtected(before, allowed, call.req, call.tags, d);
    }
  }
}
