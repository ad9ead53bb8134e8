/** What the mutating handlers answer, case by case, and that they do what they answer: an undisturbed
    handler commits exactly when its caller is authorised and the transaction can commit. */
module Answers {
  import opened Paths
  import opened Messages
  import opened Tables
  import opened StoreSpec
  import opened RoundTrip
  import opened Handlers
  import opened Protection
  import opened AccessRule

  // ---------------------------------------------------------------- all requests

  /** An authorised request whose transaction commits is carried out and answered OK. */
  lemma AuthorisedCommits(t: Tables, allowed: set<string>, req: Request, tags: seq<string>, op: Op)
    requires Authorised(t, allowed, req, tags, op) && Step(t, op).Some?
    ensures RunAlone(t, allowed, Start(req, tags)) == (Next(t, op), OK)
  {
    RunsAlone(t, allowed, req, tags);
  }

  /** An authorised request whose transaction rolls back is not answered OK. */
  lemma RolledBack(t: Tables, allowed: set<string>, req: Request, tags: seq<string>, op: Op)
    requires Authorised(t, allowed, req, tags, op) && Step(t, op).None?
    ensures var (u, status) := RunAlone(t, allowed, Start(req, tags)); u == t && status != OK
  {
    RunsAlone(t, allowed, req, tags);
  }

  /** OK means done: the request was authorised and its transaction committed; any other answer means that
      nothing changed. */
  lemma OkIffCommitted(t: Tables, allowed: set<string>, req: Request, tags: seq<string>)
    ensures var (u, status) := RunAlone(t, allowed, Start(req, tags));
            && (status == OK <==> exists op :: Authorised(t, allowed, req, tags, op) && Step(t, op).Some?)
            && (status == OK ==> exists op :: Authorised(t, allowed, req, tags, op) && Step(t, op) == Some(u))
            && (status != OK ==> u == t)
  {
    RunsAlone(t, allowed, req, tags);
    var first := Begin(t, allowed, req, tags);
    if PendingOp(first).Some? {
      Submits(t, allowed, req, tags, PendingOp(first).value);
    } else if !first.Finished? {
      var second := ThreadStep(t, allowed, first).1;
      if PendingOp(second).Some? {
        Submits(t, allowed, req, tags, PendingOp(second).value);
      } else {
        NoneAuthorised(t, allowed, req, tags);
      }
    } else {
      NoneAuthorised(t, allowed, req, tags);
    }
  }

  lemma Submits(t: Tables, allowed: set<string>, req: Request, tags: seq<string>, op: Op)
    requires Authorised(t, allowed, req, tags, op)
    ensures forall other :: Authorised(t, allowed, req, tags, other) ==> other == op
    ensures var (u, status) := RunAlone(t, allowed, Start(req, tags));
            if Step(t, op).Some? then status == OK && Step(t, op) == Some(u) else status != OK && u == t
  {
    if Step(t, op).Some? {
      AuthorisedCommits(t, allowed, req, tags, op);
    } else {
      RolledBack(t, allowed, req, tags, op);
    }
  }

  lemma NoneAuthorised(t: Tables, allowed: set<string>, req: Request, tags: seq<string>)
    requires var first := Begin(t, allowed, req, tags);
             first.Finished? || (PendingOp(first).None? && ThreadStep(t, allowed, first).1.Finished?)
    ensures !exists op :: Authorised(t, allowed, req, tags, op) && Step(t, op).Some?
    ensures var (u, status) := RunAlone(t, allowed, Start(req, tags)); u == t && status != OK
  {
    RunsAlone(t, allowed, req, tags);
    forall op | Authorised(t, allowed, req, tags, op) && Step(t, op).Some?
      ensures false
    {
      AuthorisedCommits(t, allowed, req, tags, op);
    }
  }

  // ---------------------------------------------------------------- who may create

  /** With an allow-list, exactly the callers who carry one of its tags. */
  lemma CanCreateIff(allowed: set<string>, tags: seq<string>)
    ensures allowed == {} ==> CanCreate(allowed, tags)
    ensures allowed != {} ==> (CanCreate(allowed, tags) <==> exists tag :: tag in tags && tag in allowed)
  {
  }

  // ---------------------------------------------------------------- one request after the other

  /** DeleteConfig. */
  lemma DeleteConfigAnswers(t: Tables, allowed: set<string>, id: Id, tags: seq<string>)
    requires Inv(t)
    ensures var (u, status) := RunAlone(t, allowed, Start(DeleteConfig(id), tags));
            var existing := GetConfigByID(t, id, false, NoId);
            && (id == NoId ==> status == InvalidArgument)
            && (id == BadId ==> status == Internal)
            && (existing.Absent? ==> status == NoSuchEntry)
            && (existing.Found? && !Grants(existing.value.acls, tags, WRITE) ==> status == PermissionDenied)
            && (existing.Found? && Grants(existing.value.acls, tags, WRITE) ==>
                  && status == OK && u == Next(t, OpDelete(id))
                  && forall version :: GetConfigByID(u, id, false, version) == Absent)
            && (status != OK ==> u == t)
  {
    RunsAlone(t, allowed, DeleteConfig(id), tags);
    if id.Num? && id.n in t.config {
      DeleteThenGet(t, id.n, NoId);
    }
  }

  /** SetConfig got past the config: a new one may be created, or the one named exists and grants WRITE. */
  ghost predicate FirstCheck(t: Tables, allowed: set<string>, conf: Config, tags: seq<string>) {
    var existing := GetConfigByID(t, conf.id, false, NoId);
    if conf.id == NoId then allowed == {} || exists tag :: tag in tags && tag in allowed
    else existing.Found? && Grants(existing.value.acls, tags, WRITE)
  }

  /** The directory at the path, if there is one, grants WRITE. */
  ghost predicate PlaceCheck(t: Tables, path: string, tags: seq<string>) {
    forall d :: d in t.directory && RowPath(t.directory[d]) == path ==> DirectoryGrants(LoadAcls(t.directoryAcl, d), tags, WRITE)
  }

  /** SetConfig. */
  lemma SetConfigAnswers(t: Tables, allowed: set<string>, conf: Config, now: int, tags: seq<string>)
    requires Inv(t)
    ensures var (u, status) := RunAlone(t, allowed, Start(SetConfig(Some(conf), now), tags));
            var first := FirstCheck(t, allowed, conf, tags);
            && (conf.id == BadId ==> status == Internal)
            && (conf.id.Num? && GetConfigByID(t, conf.id, false, NoId).Absent? ==> status == NoSuchEntry)
            && (conf.id == NoId && !first ==> status == PermissionDenied)
            && (GetConfigByID(t, conf.id, false, NoId).Found? && !first ==> status == PermissionDenied)
            && (first && !IsPlace(t.directory, conf.path) ==> status == FailedPrecondition)
            && (first && IsPlace(t.directory, conf.path) && !PlaceCheck(t, conf.path, tags) ==> status == PermissionDenied)
            && (first && IsPlace(t.directory, conf.path) && PlaceCheck(t, conf.path, tags) ==>
                  && status == (if Step(t, OpUpsert(conf, now)).Some? then OK else Internal)
                  && u == Next(t, OpUpsert(conf, now)))
            && (status != OK ==> u == t)
  {
    RunsAlone(t, allowed, SetConfig(Some(conf), now), tags);
    CanCreateIff(allowed, tags);
    if IsPlace(t.directory, conf.path) {
      PlaceGrantsIff(t, conf.path, tags);
    }
  }

  /** The deepest directory on the way to the parent, if there is one, grants WRITE. */
  ghost predicate ParentCheck(t: Tables, parent: string, tags: seq<string>) {
    forall d :: d in t.directory && DeepestOn(t, d, FullOf(CleanParts(parent))) ==> DirectoryGrants(LoadAcls(t.directoryAcl, d), tags, WRITE)
  }

  lemma GateOpenIff(t: Tables, parent: string, tags: seq<string>)
    requires TreeInv(t.directory, t.lastInode)
    ensures GateOpen(t, parent, tags) <==> ParentCheck(t, parent, tags)
  {
    CleanPartsComponents(parent);
    DeepestGrantsIff(t, CleanParts(parent), tags);
    if IsRoot(parent) {
      PartsOfRoot(parent);
    }
  }

  /** CreateDirectory. */
  lemma CreateDirectoryAnswers(t: Tables, allowed: set<string>, dir: Directory, tags: seq<string>)
    requires Inv(t)
    ensures var (u, status) := RunAlone(t, allowed, Start(CreateDir(Some(dir)), tags));
            var listed := allowed == {} || exists tag :: tag in tags && tag in allowed;
            var op := OpCreateDirectory(dir.path, dir.name, dir.acls);
            && (TrimSpace(dir.name) == "" ==> status == InvalidArgument)
            && (TrimSpace(dir.name) != "" && !listed ==> status == PermissionDenied)
            && (TrimSpace(dir.name) != "" && listed && !ParentCheck(t, dir.path, tags) ==> status == PermissionDenied)
            && (TrimSpace(dir.name) != "" && listed && ParentCheck(t, dir.path, tags) ==>
                  && u == Next(t, op)
                  && status == (if Step(t, op).Some? then OK
                                else if IsDirectory(t.directory, ComposedPath(dir.path, dir.name)) then Exists
                                else Internal))
            && (status != OK ==> u == t)
  {
    RunsAlone(t, allowed, CreateDir(Some(dir)), tags);
    CanCreateIff(allowed, tags);
    GateOpenIff(t, dir.path, tags);
  }

  /** Every directory above d grants READ, and d itself WRITE. */
  ghost predicate ChangeCheck(t: Tables, d: int, tags: seq<string>)
    requires d in t.directory
  {
    && (forall e :: e in t.directory && OnWay(t.directory[e], t.directory[d].path) ==> DirectoryGrants(LoadAcls(t.directoryAcl, e), tags, READ))
    && DirectoryGrants(LoadAcls(t.directoryAcl, d), tags, WRITE)
  }

  lemma ChangeCheckIff(t: Tables, d: int, tags: seq<string>)
    requires TreeInv(t.directory, t.lastInode) && d in t.directory
    ensures DirectoryWritable(t, d, tags) <==> ChangeCheck(t, d, tags)
  {
    assert DirectoryOk(t.directory, d);
    if t.directory[d].path != "/" {
      ParentIsDirectory(t.directory, d);
    }
    TraversableIff(t, t.directory[d].path, tags);
  }

  /** UpdateDirectory. */
  lemma UpdateDirectoryAnswers(t: Tables, allowed: set<string>, dir: Directory, tags: seq<string>)
    requires Inv(t)
    ensures var (u, status) := RunAlone(t, allowed, Start(UpdateDir(Some(dir)), tags));
            var existing := GetDirectoryByID(t, dir.id);
            var op := OpUpdateDirectory(dir.id, dir.name, dir.path, dir.acls);
            && (dir.id == NoId ==> status == InvalidArgument)
            && (dir.id == BadId ==> status == Internal)
            && (existing.Absent? ==> status == NoSuchEntry)
            && (existing.Found? && !ChangeCheck(t, dir.id.n, tags) ==> status == PermissionDenied)
            && (existing.Found? && ChangeCheck(t, dir.id.n, tags) ==>
                  && status == (if Step(t, op).Some? then OK else InvalidArgument)
                  && u == Next(t, op))
            && (status != OK ==> u == t)
  {
    RunsAlone(t, allowed, UpdateDir(Some(dir)), tags);
    if dir.id.Num? && dir.id.n in t.directory {
      ChangeCheckIff(t, dir.id.n, tags);
    }
  }

  /** DeleteDirectory. */
  lemma DeleteDirectoryAnswers(t: Tables, allowed: set<string>, id: Id, tags: seq<string>)
    requires Inv(t)
    ensures var (u, status) := RunAlone(t, allowed, Start(DeleteDir(id), tags));
            var existing := GetDirectoryByID(t, id);
            && (id == NoId ==> status == InvalidArgument)
            && (id == BadId ==> status == Internal)
            && (existing.Absent? ==> status == NoSuchEntry)
            && (existing.Found? && !ChangeCheck(t, id.n, tags) ==> status == PermissionDenied)
            && (existing.Found? && ChangeCheck(t, id.n, tags) ==>
                  && status == (if Step(t, OpDeleteDirectory(id)).Some? then OK else FailedPrecondition)
                  && u == Next(t, OpDeleteDirectory(id))
                  && (status == OK ==> GetDirectoryByID(u, id) == Absent))
            && (status != OK ==> u == t)
  {
    RunsAlone(t, allowed, DeleteDir(id), tags);
    if id.Num? && id.n in t.directory {
      ChangeCheckIff(t, id.n, tags);
    }
  }

  /** A request without a message is refused. */
  lemma EmptyRequests(t: Tables, allowed: set<string>, now: int, tags: seq<string>)
    ensures RunAlone(t, allowed, Start(SetConfig(None, now), tags)) == (t, InvalidArgument)
    ensures RunAlone(t, allowed, Start(CreateDir(None), tags)) == (t, InvalidArgument)
    ensures RunAlone(t, allowed, Start(UpdateDir(None), tags)) == (t, InvalidArgument)
  {
    RunsAlone(t, allowed, SetConfig(None, now), tags);
    RunsAlone(t, allowed, CreateDir(None), tags);
    RunsAlone(t, allowed, UpdateDir(None), tags);
  }
}
