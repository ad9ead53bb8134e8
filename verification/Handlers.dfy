/** The mutating handlers as programs over the store: each a sequence of atomic store calls, of which
    only the last changes anything. */
module Handlers {
  import opened Paths
  import opened Messages
  import opened Tables
  import opened StoreSpec
  import opened Access
  import opened Ensuring

  datatype Status = OK | InvalidArgument | NoSuchEntry | PermissionDenied | FailedPrecondition | Exists | Internal

  /** An empty allow-list lets everyone create. */
  predicate CanCreate(allowed: set<string>, identities: seq<string>) {
    allowed == {} || exists id :: id in identities && id in allowed
  }

  /** The directory holding path p grants WRITE; the root, which has no row, grants everything. */
  ghost predicate PlaceGrantsWrite(t: Tables, p: string, tags: seq<string>) {
    p == "" || p == "/" || exists id :: id in t.directory && RowPath(t.directory[id]) == p && DirGrants(t, id, tags, WRITE)
  }

  /** The deepest existing directory on the way to a path grants WRITE, if there is any. */
  ghost predicate DeepestGrantsWrite(t: Tables, ks: seq<string>, tags: seq<string>) {
    var m := ExistingDepth(t.directory, ks, 0);
    m == 0 || PlaceGrantsWrite(t, FullOf(ks[..m]), tags)
  }

  datatype Request =
    | SetConfig(conf: Option<Config>, now: int)
    | DeleteConfig(configId: Id)
    | CreateDir(newDir: Option<Directory>)
    | UpdateDir(dir: Option<Directory>)
    | DeleteDir(dirId: Id)

  /** Where a handler stands between two store calls. */
  datatype Thread =
    | Start(req: Request, tags: seq<string>)
    | SetGate(conf: Config, now: int, tags: seq<string>)
    | SetCommit(conf: Config, now: int)
    | DeleteCommit(configId: Id)
    | CreateCommit(dir: Directory)
    | UpdateGate(dir: Directory, seen: Directory, tags: seq<string>)
    | UpdateCommit(dir: Directory)
    | RemoveGate(dirId: Id, seen: Directory, tags: seq<string>)
    | RemoveCommit(dirId: Id)
    | Finished(status: Status)

  /** Store calls left, at most. */
  function Left(th: Thread): nat {
    match th
    case Start(_, _) => 3
    case SetGate(_, _, _) => 2
    case UpdateGate(_, _, _) => 2
    case RemoveGate(_, _, _) => 2
    case Finished(_) => 0
    case _ => 1
  }

  /** The transaction a handler is about to submit, if it got that far. */
  function PendingOp(th: Thread): Option<Op> {
    match th
    case SetCommit(conf, now) => Some(OpUpsert(conf, now))
    case DeleteCommit(id) => Some(OpDelete(id))
    case CreateCommit(dir) => Some(OpCreateDirectory(dir.path, dir.name, dir.acls))
    case UpdateCommit(dir) => Some(OpUpdateDirectory(dir.id, dir.name, dir.path, dir.acls))
    case RemoveCommit(id) => Some(OpDeleteDirectory(id))
    case _ => None
  }

  /** How a handler reports a transaction that rolled back. */
  ghost function FailureOf(t: Tables, op: Op): Status {
    match op
    case OpCreateDirectory(parent, name, _) =>
      if TrimSpace(name) != "" && IsDirectory(t.directory, ComposedPath(parent, name)) then Exists else Internal
    case OpUpdateDirectory(id, _, _, _) => if id.Num? && id.n in t.directory then InvalidArgument else Internal
    case OpDeleteDirectory(id) => if id.Num? && id.n in t.directory then FailedPrecondition else Internal
    case _ => Internal
  }

  ghost function Submitted(t: Tables, op: Op): (Tables, Thread) {
    (Next(t, op), Finished(if Step(t, op).Some? then OK else FailureOf(t, op)))
  }

  /** The first store call of a handler, with the checks before and after it. */
  ghost function Begin(t: Tables, allowed: set<string>, req: Request, tags: seq<string>): Thread {
    match req
    case SetConfig(conf, now) =>
      if conf.None? then Finished(InvalidArgument)
      else if conf.value.id != NoId then
        (match GetConfigByID(t, conf.value.id, false, NoId)
         case Failed => Finished(Internal)
         case Absent => Finished(NoSuchEntry)
         case Found(existing) =>
           if existing.Allows(tags, WRITE) then SetGate(conf.value, now, tags) else Finished(PermissionDenied))
      else if CanCreate(allowed, tags) then SetGate(conf.value, now, tags)
      else Finished(PermissionDenied)
    case DeleteConfig(id) =>
      if id == NoId then Finished(InvalidArgument)
      else
        (match GetConfigByID(t, id, false, NoId)
         case Failed => Finished(Internal)
         case Absent => Finished(NoSuchEntry)
         case Found(existing) => if existing.Allows(tags, WRITE) then DeleteCommit(id) else Finished(PermissionDenied))
    case CreateDir(dir) =>
      if dir.None? || TrimSpace(dir.value.name) == "" then Finished(InvalidArgument)
      else if !CanCreate(allowed, tags) then Finished(PermissionDenied)
      else if IsRoot(dir.value.path) || DeepestGrantsWrite(t, CleanParts(dir.value.path), tags) then
        CreateCommit(dir.value)
      else Finished(PermissionDenied)
    case UpdateDir(dir) =>
      if dir.None? || dir.value.id == NoId then Finished(InvalidArgument)
      else
        (match GetDirectoryByID(t, dir.value.id)
         case Failed => Finished(Internal)
         case Absent => Finished(NoSuchEntry)
         case Found(seen) => UpdateGate(dir.value, seen, tags))
    case DeleteDir(id) =>
      if id == NoId then Finished(InvalidArgument)
      else
        (match GetDirectoryByID(t, id)
         case Failed => Finished(Internal)
         case Absent => Finished(NoSuchEntry)
         case Found(seen) => RemoveGate(id, seen, tags))
  }

  /** One store call of one handler. */
  ghost function ThreadStep(t: Tables, allowed: set<string>, th: Thread): (Tables, Thread) {
    match th
    case Start(req, tags) => (t, Begin(t, allowed, req, tags))
    case SetGate(conf, now, tags) =>
      (t, if !IsPlace(t.directory, conf.path) then Finished(FailedPrecondition)
          else if !PlaceGrantsWrite(t, conf.path, tags) then Finished(PermissionDenied)
          else SetCommit(conf, now))
    case UpdateGate(dir, seen, tags) =>
      (t, if Traversable(t, seen.path, tags) && seen.Allows(tags, WRITE) then UpdateCommit(dir) else Finished(PermissionDenied))
    case RemoveGate(id, seen, tags) =>
      (t, if Traversable(t, seen.path, tags) && seen.Allows(tags, WRITE) then RemoveCommit(id) else Finished(PermissionDenied))
    case Finished(_) => (t, th)
    case _ => Submitted(t, PendingOp(th).value)
  }

  /** A handler run from where it stands to its end with nobody in between. */
  ghost function RunAlone(t: Tables, allowed: set<string>, th: Thread): (Tables, Status)
    decreases Left(th)
  {
    if th.Finished? then (t, th.status)
    else
      var (u, next) := ThreadStep(t, allowed, th);
      RunAlone(u, allowed, next)
  }

  lemma CommitAlone(t: Tables, allowed: set<string>, th: Thread)
    requires PendingOp(th).Some?
    ensures var op := PendingOp(th).value;
            RunAlone(t, allowed, th) == (Next(t, op), if Step(t, op).Some? then OK else FailureOf(t, op))
  {
    var (u, next) := ThreadStep(t, allowed, th);
    assert RunAlone(u, allowed, next) == (u, next.status);
  }

  /** Gates change nothing: an undisturbed handler ends where its last store call leaves it. */
  ghost predicate EndsWith(t: Tables, allowed: set<string>, th: Thread, from: Thread) {
    && (th.Finished? ==> RunAlone(t, allowed, from) == (t, th.status))
    && (PendingOp(th).Some? ==>
          var op := PendingOp(th).value;
          RunAlone(t, allowed, from) == (Next(t, op), if Step(t, op).Some? then OK else FailureOf(t, op)))
  }

  lemma RunsAlone(t: Tables, allowed: set<string>, req: Request, tags: seq<string>)
    ensures var first := Begin(t, allowed, req, tags);
            && EndsWith(t, allowed, first, Start(req, tags))
            && (first.SetGate? || first.UpdateGate? || first.RemoveGate? ==>
                  EndsWith(t, allowed, ThreadStep(t, allowed, first).1, Start(req, tags)))
  {
    var first := Begin(t, allowed, req, tags);
    assert RunAlone(t, allowed, Start(req, tags)) == RunAlone(t, allowed, first);
    if PendingOp(first).Some? {
      CommitAlone(t, allowed, first);
    } else if first.SetGate? || first.UpdateGate? || first.RemoveGate? {
      var second := ThreadStep(t, allowed, first).1;
      assert RunAlone(t, allowed, first) == RunAlone(t, allowed, second);
      if PendingOp(second).Some? {
        CommitAlone(t, allowed, second);
      }
    }
  }

  lemma BeginRuns(t: Tables, allowed: set<string>, req: Request, tags: seq<string>)
    ensures var first := Begin(t, allowed, req, tags);
            first.Finished? ==> RunAlone(t, allowed, Start(req, tags)) == (t, first.status)
  {
    RunsAlone(t, allowed, req, tags);
  }

  /** What becomes of a SetConfig that got past its first store call. */
  lemma SetGateRuns(t: Tables, allowed: set<string>, conf: Config, now: int, tags: seq<string>)
    requires Begin(t, allowed, SetConfig(Some(conf), now), tags) == SetGate(conf, now, tags)
    ensures RunAlone(t, allowed, Start(SetConfig(Some(conf), now), tags))
         == (if !IsPlace(t.directory, conf.path) then (t, FailedPrecondition)
             else if !PlaceGrantsWrite(t, conf.path, tags) then (t, PermissionDenied)
             else (Next(t, OpUpsert(conf, now)), if Step(t, OpUpsert(conf, now)).Some? then OK else Internal))
  {
    RunsAlone(t, allowed, SetConfig(Some(conf), now), tags);
  }
}
