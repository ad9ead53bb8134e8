/** Authorisation when handlers interleave: the gates a transaction passed held in states of the
    schedule, though not necessarily still in the one it commits in. */
module StaleGates {
  import opened Messages
  import opened Tables
  import opened StoreSpec
  import opened StoreInvariant
  import opened Access
  import opened Handlers
  import opened Protection
  import opened Interleaving

  // ---------------------------------------------------------------- the states of a schedule

  /** The world after the first n steps. */
  ghost function WorldAt(w: World, allowed: set<string>, schedule: seq<nat>, n: nat): World
    requires n <= |schedule|
  {
    if n == 0 then w else WorldStep(WorldAt(w, allowed, schedule, n - 1), allowed, schedule[n - 1])
  }

  ghost function StateAt(w: World, allowed: set<string>, schedule: seq<nat>, n: nat): Tables
    requires n <= |schedule|
  {
    WorldAt(w, allowed, schedule, n).t
  }

  lemma {:induction false} WorldAtShift(w: World, allowed: set<string>, schedule: seq<nat>, n: nat)
    requires 1 <= n <= |schedule|
    ensures WorldAt(w, allowed, schedule, n) == WorldAt(WorldStep(w, allowed, schedule[0]), allowed, schedule[1..], n - 1)
  {
    if n > 1 {
      WorldAtShift(w, allowed, schedule, n - 1);
    }
  }

  /** The last of these worlds is the one the schedule ends in. */
  lemma {:induction false} WorldAtEnd(w: World, allowed: set<string>, schedule: seq<nat>)
    ensures WorldAt(w, allowed, schedule, |schedule|) == Exec(w, allowed, schedule)
    decreases |schedule|
  {
    if schedule != [] {
      WorldAtEnd(WorldStep(w, allowed, schedule[0]), allowed, schedule[1..]);
      WorldAtShift(w, allowed, schedule, |schedule|);
    }
  }

  /** The states before each step of the schedule, oldest first. */
  ghost function Past(w: World, allowed: set<string>, schedule: seq<nat>, n: nat): (ts: seq<Tables>)
    requires n <= |schedule|
    ensures |ts| == n && forall j :: 0 <= j < n ==> ts[j] == StateAt(w, allowed, schedule, j)
  {
    seq(n, j requires 0 <= j < n => StateAt(w, allowed, schedule, j))
  }

  // ---------------------------------------------------------------- gates passed on the way

  /** The check of SetConfig before it looks at the directory. */
  ghost predicate ConfigGate(t: Tables, allowed: set<string>, conf: Config, tags: seq<string>) {
    if conf.id == NoId then CanCreate(allowed, tags) else conf.id.Num? && HoldsWrite(t, conf.id.n, tags)
  }

  ghost predicate PlaceGate(t: Tables, path: string, tags: seq<string>) {
    IsPlace(t.directory, path) && PlaceGrantsWrite(t, path, tags)
  }

  /** The directory a gate read and, later, the READ rule for its parent and its own WRITE. */
  ghost predicate Seen(t: Tables, id: Id, seen: Directory) {
    GetDirectoryByID(t, id) == Found(seen)
  }

  ghost predicate SeenGate(t: Tables, seen: Directory, tags: seq<string>) {
    Traversable(t, seen.path, tags) && seen.Allows(tags, WRITE)
  }

  ghost predicate ConfigGatePassed(ts: seq<Tables>, allowed: set<string>, conf: Config, tags: seq<string>) {
    exists j :: 0 <= j < |ts| && ConfigGate(ts[j], allowed, conf, tags)
  }

  ghost predicate SetGatesPassed(ts: seq<Tables>, allowed: set<string>, conf: Config, tags: seq<string>) {
    exists j, l :: 0 <= j < l < |ts| && ConfigGate(ts[j], allowed, conf, tags) && PlaceGate(ts[l], conf.path, tags)
  }

  ghost predicate DeleteGatePassed(ts: seq<Tables>, id: Id, tags: seq<string>) {
    exists j :: 0 <= j < |ts| && id.Num? && HoldsWrite(ts[j], id.n, tags)
  }

  ghost predicate CreateGatePassed(ts: seq<Tables>, parent: string, tags: seq<string>) {
    exists j :: 0 <= j < |ts| && GateOpen(ts[j], parent, tags)
  }

  ghost predicate SeenBefore(ts: seq<Tables>, id: Id, seen: Directory) {
    exists j :: 0 <= j < |ts| && Seen(ts[j], id, seen)
  }

  ghost predicate DirectoryGatesPassed(ts: seq<Tables>, id: Id, tags: seq<string>) {
    exists j, l, seen :: 0 <= j < l < |ts| && Seen(ts[j], id, seen) && SeenGate(ts[l], seen, tags)
  }

  /** The request asks for the transaction, and every gate on the way to it held in one of the states,
      in the order in which the handler looks. */
  ghost predicate LetThrough(ts: seq<Tables>, allowed: set<string>, req: Request, tags: seq<string>, op: Op) {
    match req
    case SetConfig(conf, now) => conf.Some? && op == OpUpsert(conf.value, now) && SetGatesPassed(ts, allowed, conf.value, tags)
    case DeleteConfig(id) => op == OpDelete(id) && DeleteGatePassed(ts, id, tags)
    case CreateDir(dir) =>
      && dir.Some? && op == OpCreateDirectory(dir.value.path, dir.value.name, dir.value.acls)
      && CanCreate(allowed, tags) && CreateGatePassed(ts, dir.value.path, tags)
    case UpdateDir(dir) =>
      && dir.Some? && op == OpUpdateDirectory(dir.value.id, dir.value.name, dir.value.path, dir.value.acls)
      && DirectoryGatesPassed(ts, dir.value.id, tags)
    case DeleteDir(id) => op == OpDeleteDirectory(id) && DirectoryGatesPassed(ts, id, tags)
  }

  /** Where the handler of a request stands, it stands by right: the gates behind it held in the past. */
  ghost predicate Earned(ts: seq<Tables>, allowed: set<string>, req: Request, tags: seq<string>, th: Thread) {
    match th
    case Start(r, g) => r == req && g == tags
    case SetGate(conf, now, g) => req == SetConfig(Some(conf), now) && g == tags && ConfigGatePassed(ts, allowed, conf, tags)
    case UpdateGate(dir, seen, g) => req == UpdateDir(Some(dir)) && g == tags && SeenBefore(ts, dir.id, seen)
    case RemoveGate(id, seen, g) => req == DeleteDir(id) && g == tags && SeenBefore(ts, id, seen)
    case Finished(_) => true
    case _ => LetThrough(ts, allowed, req, tags, PendingOp(th).value)
  }

  /** Time passing takes nothing away. */
  lemma EarnedLater(ts: seq<Tables>, t: Tables, allowed: set<string>, req: Request, tags: seq<string>, th: Thread)
    requires Earned(ts, allowed, req, tags, th)
    ensures Earned(ts + [t], allowed, req, tags, th)
  {
    var more := ts + [t];
    assert forall j :: 0 <= j < |ts| ==> more[j] == ts[j];
    match th
    case SetGate(conf, _, _) => ConfigGateLater(ts, more, allowed, conf, tags);
    case UpdateGate(dir, seen, _) => SeenLater(ts, more, dir.id, seen);
    case RemoveGate(id, seen, _) => SeenLater(ts, more, id, seen);
    case Start(_, _) =>
    case Finished(_) =>
    case _ => LetThroughLater(ts, more, allowed, req, tags, PendingOp(th).value);
  }

  lemma ConfigGateLater(ts: seq<Tables>, more: seq<Tables>, allowed: set<string>, conf: Config, tags: seq<string>)
    requires ts <= more && ConfigGatePassed(ts, allowed, conf, tags)
    ensures ConfigGatePassed(more, allowed, conf, tags)
  {
    var j :| 0 <= j < |ts| && ConfigGate(ts[j], allowed, conf, tags);
    assert more[j] == ts[j];
  }

  lemma SeenLater(ts: seq<Tables>, more: seq<Tables>, id: Id, seen: Directory)
    requires ts <= more && SeenBefore(ts, id, seen)
    ensures SeenBefore(more, id, seen)
  {
    var j :| 0 <= j < |ts| && Seen(ts[j], id, seen);
    assert more[j] == ts[j];
  }

  lemma DirectoryGatesLater(ts: seq<Tables>, more: seq<Tables>, id: Id, tags: seq<string>)
    requires ts <= more && DirectoryGatesPassed(ts, id, tags)
    ensures DirectoryGatesPassed(more, id, tags)
  {
    var j, l, seen :| 0 <= j < l < |ts| && Seen(ts[j], id, seen) && SeenGate(ts[l], seen, tags);
    assert more[j] == ts[j] && more[l] == ts[l];
  }

  lemma SetGatesLater(ts: seq<Tables>, more: seq<Tables>, allowed: set<string>, conf: Config, tags: seq<string>)
    requires ts <= more && SetGatesPassed(ts, allowed, conf, tags)
    ensures SetGatesPassed(more, allowed, conf, tags)
  {
    var j, l :| 0 <= j < l < |ts| && ConfigGate(ts[j], allowed, conf, tags) && PlaceGate(ts[l], conf.path, tags);
    assert more[j] == ts[j] && more[l] == ts[l];
  }

  lemma LetThroughLater(ts: seq<Tables>, more: seq<Tables>, allowed: set<string>, req: Request, tags: seq<string>, op: Op)
    requires ts <= more && LetThrough(ts, allowed, req, tags, op)
    ensures LetThrough(more, allowed, req, tags, op)
  {
    match req
    case SetConfig(conf, _) => SetGatesLater(ts, more, allowed, conf.value, tags);
    case DeleteConfig(id) =>
      var j :| 0 <= j < |ts| && id.Num? && HoldsWrite(ts[j], id.n, tags);
      assert more[j] == ts[j];
    case CreateDir(dir) =>
      var j :| 0 <= j < |ts| && GateOpen(ts[j], dir.value.path, tags);
      assert more[j] == ts[j];
    case UpdateDir(dir) => DirectoryGatesLater(ts, more, dir.value.id, tags);
    case DeleteDir(id) => DirectoryGatesLater(ts, more, id, tags);
  }

  /** The first store call. */
  lemma BeginEarns(ts: seq<Tables>, t: Tables, allowed: set<string>, req: Request, tags: seq<string>)
    ensures Earned(ts + [t], allowed, req, tags, Begin(t, allowed, req, tags))
  {
    var more := ts + [t];
    assert more[|ts|] == t;
    match req
    case SetConfig(conf, _) =>
      if Begin(t, allowed, req, tags).SetGate? {
        assert ConfigGate(more[|ts|], allowed, conf.value, tags);
      }
    case DeleteConfig(id) =>
      if Begin(t, allowed, req, tags).DeleteCommit? {
        assert HoldsWrite(more[|ts|], id.n, tags);
      }
    case CreateDir(dir) =>
      if Begin(t, allowed, req, tags).CreateCommit? {
        assert GateOpen(more[|ts|], dir.value.path, tags);
      }
    case UpdateDir(dir) =>
      if Begin(t, allowed, req, tags).UpdateGate? {
        assert Seen(more[|ts|], dir.value.id, Begin(t, allowed, req, tags).seen);
      }
    case DeleteDir(id) =>
      if Begin(t, allowed, req, tags).RemoveGate? {
        assert Seen(more[|ts|], id, Begin(t, allowed, req, tags).seen);
      }
  }

  lemma SecondGateEarns(ts: seq<Tables>, t: Tables, allowed: set<string>, req: Request, tags: seq<string>, th: Thread)
    requires Earned(ts, allowed, req, tags, th) && (th.SetGate? || th.UpdateGate? || th.RemoveGate?)
    ensures Earned(ts + [t], allowed, req, tags, ThreadStep(t, allowed, th).1)
  {
    var more, next := ts + [t], ThreadStep(t, allowed, th).1;
    assert more[|ts|] == t;
    if !next.Finished? {
      match th
      case SetGate(conf, _, _) =>
        var j :| 0 <= j < |ts| && ConfigGate(ts[j], allowed, conf, tags);
        assert ConfigGate(more[j], allowed, conf, tags) && PlaceGate(more[|ts|], conf.path, tags);
      case UpdateGate(dir, seen, _) => DirectoryGates(ts, t, dir.id, seen, tags);
      case RemoveGate(id, seen, _) => DirectoryGates(ts, t, id, seen, tags);
    }
  }

  lemma DirectoryGates(ts: seq<Tables>, t: Tables, id: Id, seen: Directory, tags: seq<string>)
    requires SeenBefore(ts, id, seen) && SeenGate(t, seen, tags)
    ensures DirectoryGatesPassed(ts + [t], id, tags)
  {
    var more := ts + [t];
    var j :| 0 <= j < |ts| && Seen(ts[j], id, seen);
    assert Seen(more[j], id, seen) && SeenGate(more[|ts|], seen, tags);
  }

  /** One store call of any handler. */
  lemma StepEarns(ts: seq<Tables>, t: Tables, allowed: set<string>, req: Request, tags: seq<string>, th: Thread)
    requires Earned(ts, allowed, req, tags, th)
    ensures Earned(ts + [t], allowed, req, tags, ThreadStep(t, allowed, th).1)
  {
    if th.Start? {
      BeginEarns(ts, t, allowed, req, tags);
    } else if th.SetGate? || th.UpdateGate? || th.RemoveGate? {
      SecondGateEarns(ts, t, allowed, req, tags, th);
    }
  }

  // ---------------------------------------------------------------- every schedule

  /** The handlers start with the requests. */
  ghost predicate Fresh(w: World, calls: seq<Call>) {
    |w.threads| == |calls| && forall i :: 0 <= i < |calls| ==> w.threads[i] == Start(calls[i].req, calls[i].tags)
  }

  ghost predicate AllEarned(ts: seq<Tables>, allowed: set<string>, calls: seq<Call>, threads: seq<Thread>) {
    |threads| == |calls| && forall i :: 0 <= i < |calls| ==> Earned(ts, allowed, calls[i].req, calls[i].tags, threads[i])
  }

  lemma {:induction false} EverybodyEarns(w: World, allowed: set<string>, schedule: seq<nat>, calls: seq<Call>, n: nat)
    requires Fresh(w, calls) && n <= |schedule|
    ensures AllEarned(Past(w, allowed, schedule, n), allowed, calls, WorldAt(w, allowed, schedule, n).threads)
  {
    if n > 0 {
      EverybodyEarns(w, allowed, schedule, calls, n - 1);
      var before, after := WorldAt(w, allowed, schedule, n - 1), WorldAt(w, allowed, schedule, n);
      var ts := Past(w, allowed, schedule, n - 1);
      assert Past(w, allowed, schedule, n) == ts + [before.t];
      forall i | 0 <= i < |calls|
        ensures Earned(ts + [before.t], allowed, calls[i].req, calls[i].tags, after.threads[i])
      {
        if i == schedule[n - 1] {
          StepEarns(ts, before.t, allowed, calls[i].req, calls[i].tags, before.threads[i]);
        } else {
          EarnedLater(ts, before.t, allowed, calls[i].req, calls[i].tags, before.threads[i]);
        }
      }
    }
  }

  /** Under every schedule of any handlers: whatever a step changes, it changes by one transaction of the
      handler whose turn it is, which that handler's request asks for and whose gates each held, for its
      caller, in an earlier state of the schedule. */
  lemma EveryChangeWasLetThrough(w: World, allowed: set<string>, schedule: seq<nat>, calls: seq<Call>, n: nat)
    requires Fresh(w, calls) && n < |schedule|
    requires StateAt(w, allowed, schedule, n + 1) != StateAt(w, allowed, schedule, n)
    ensures var i, t := schedule[n], StateAt(w, allowed, schedule, n);
            i < |calls| && exists op ::
              LetThrough(Past(w, allowed, schedule, n), allowed, calls[i].req, calls[i].tags, op)
              && StateAt(w, allowed, schedule, n + 1) == Next(t, op)
  {
    EverybodyEarns(w, allowed, schedule, calls, n);
    var before := WorldAt(w, allowed, schedule, n);
    var op := PendingOp(before.threads[schedule[n]]).value;
    assert StateAt(w, allowed, schedule, n + 1) == Next(before.t, op);
  }

  /** The request names the config, and its caller held WRITE on it and, for an update, on its directory,
      each in some state of the past. */
  ghost predicate MightChangeConfig(ts: seq<Tables>, req: Request, tags: seq<string>, path: string, c: int) {
    && (exists j :: 0 <= j < |ts| && HoldsWrite(ts[j], c, tags))
    && (|| req == DeleteConfig(Num(c))
        || (&& req.SetConfig? && req.conf.Some? && req.conf.value.id == Num(c) && req.conf.value.path == path
            && exists l :: 0 <= l < |ts| && PlaceGate(ts[l], path, tags)))
  }

  /** What is left of write protection under interleaving: a step changes a config's row, entries or
      versions only for a request that names it, from a caller who held the rights when they were checked. */
  lemma ConfigProtectedInterleaved(w: World, allowed: set<string>, schedule: seq<nat>, calls: seq<Call>, n: nat, c: int)
    requires Inv(w.t) && Fresh(w, calls) && n < |schedule| && c in StateAt(w, allowed, schedule, n).config
    ensures var t, i := StateAt(w, allowed, schedule, n), schedule[n];
            || SameConfig(t, StateAt(w, allowed, schedule, n + 1), c)
            || (i < |calls| && MightChangeConfig(Past(w, allowed, schedule, n), calls[i].req, calls[i].tags, t.config[c].path, c))
  {
    var t, u, i := StateAt(w, allowed, schedule, n), StateAt(w, allowed, schedule, n + 1), schedule[n];
    if u != t {
      EveryChangeWasLetThrough(w, allowed, schedule, calls, n);
      var ts := Past(w, allowed, schedule, n);
      var op :| LetThrough(ts, allowed, calls[i].req, calls[i].tags, op) && u == Next(t, op);
      StateInv(w, allowed, schedule, n);
      LetThroughProtects(ts, t, allowed, calls[i].req, calls[i].tags, op, c);
    }
  }

  /** As long as nobody replaced the config's entries meanwhile, the caller still holds WRITE. */
  lemma StillHolds(ts: seq<Tables>, t: Tables, req: Request, tags: seq<string>, path: string, c: int)
    requires MightChangeConfig(ts, req, tags, path, c) && c in t.config
    requires forall j :: 0 <= j < |ts| && c in ts[j].config ==> LoadAcls(ts[j].configAcl, c) == LoadAcls(t.configAcl, c)
    ensures HoldsWrite(t, c, tags)
  {
    var j :| 0 <= j < |ts| && HoldsWrite(ts[j], c, tags);
  }

  lemma LetThroughProtects(ts: seq<Tables>, t: Tables, allowed: set<string>, req: Request, tags: seq<string>, op: Op, c: int)
    requires Inv(t) && c in t.config && LetThrough(ts, allowed, req, tags, op)
    ensures SameConfig(t, Next(t, op), c) || MightChangeConfig(ts, req, tags, t.config[c].path, c)
  {
    if op.OpUpsert? && Updatable(t, op.config) && op.config.id == Num(c) {
      var j, l :| 0 <= j < l < |ts| && ConfigGate(ts[j], allowed, op.config, tags) && PlaceGate(ts[l], op.config.path, tags);
      assert HoldsWrite(ts[j], c, tags);
    } else if op == OpDelete(Num(c)) {
      var j :| 0 <= j < |ts| && HoldsWrite(ts[j], c, tags);
    } else {
      ConfigLeftAlone(t, op, c);
    }
  }

  lemma {:induction false} StateInv(w: World, allowed: set<string>, schedule: seq<nat>, n: nat)
    requires Inv(w.t) && n <= |schedule|
    ensures Inv(StateAt(w, allowed, schedule, n))
  {
    if n > 0 {
      StateInv(w, allowed, schedule, n - 1);
      var before := WorldAt(w, allowed, schedule, n - 1);
      if schedule[n - 1] < |before.threads| {
        ThreadStepIsOp(before.t, allowed, before.threads[schedule[n - 1]]);
        if StateAt(w, allowed, schedule, n) != before.t {
          var op :| StateAt(w, allowed, schedule, n) == Next(before.t, op);
          StepInv(before.t, op);
        }
      }
    }
  }

  // ---------------------------------------------------------------- a gate that went stale

  /** The three store calls of a SetConfig that may update config c. */
  lemma UpdateSteps(t: Tables, allowed: set<string>, conf: Config, now: int, tags: seq<string>)
    requires Inv(t) && Updatable(t, conf) && HoldsWrite(t, conf.id.n, tags) && PlaceGrantsWrite(t, conf.path, tags)
    ensures ThreadStep(t, allowed, Start(SetConfig(Some(conf), now), tags)) == (t, SetGate(conf, now, tags))
    ensures ThreadStep(t, allowed, SetGate(conf, now, tags)) == (t, SetCommit(conf, now))
    ensures ThreadStep(t, allowed, SetCommit(conf, now)) == (UpdateConfig(t, conf.id.n, conf, now), Finished(OK))
  {
  }

  lemma CommitStep(t: Tables, allowed: set<string>, conf: Config, now: int)
    requires Updatable(t, conf)
    ensures ThreadStep(t, allowed, SetCommit(conf, now)) == (UpdateConfig(t, conf.id.n, conf, now), Finished(OK))
  {
  }

  /** An update that takes the caller's WRITE away leaves the row it updates where it was. */
  lemma RevokingUpdate(t: Tables, revoke: Config, conf: Config, now: int, tags: seq<string>)
    requires Inv(t) && Updatable(t, revoke) && Updatable(t, conf) && revoke.id == conf.id
    requires !Grants(revoke.acls, tags, WRITE)
    ensures var u := UpdateConfig(t, revoke.id.n, revoke, now);
            Updatable(u, conf) && !HoldsWrite(u, conf.id.n, tags)
  {
    LoadReplaced(t.configAcl, revoke.id.n, revoke.acls, revoke.id.n);
    ConfigGrantsSurviveStorage(revoke.acls, tags, WRITE);
  }

  lemma TwoSteps(w: World, allowed: set<string>, i: nat, t: Tables, a: Thread, b: Thread, u: Tables, c: Thread)
    requires w.t == t && i < |w.threads| && w.threads[i] == a
    requires ThreadStep(t, allowed, a) == (t, b) && ThreadStep(t, allowed, b) == (u, c)
    ensures WorldStep(WorldStep(w, allowed, i), allowed, i) == World(u, w.threads[i := c])
  {
    assert w.threads[i := b][i := c] == w.threads[i := c];
  }

  /** The first handler takes its two gates, the second runs to its end, the first commits. */
  const GATES_FIRST: seq<nat> := [0, 0, 1, 1, 1, 0]

  lemma BothPastGates(t: Tables, allowed: set<string>, conf: Config, tags: seq<string>, revoke: Config, owner: seq<string>, now: int, w: World)
    requires Inv(t) && Updatable(t, conf) && HoldsWrite(t, conf.id.n, tags) && PlaceGrantsWrite(t, conf.path, tags)
    requires Updatable(t, revoke) && HoldsWrite(t, revoke.id.n, owner) && PlaceGrantsWrite(t, revoke.path, owner)
    requires w == World(t, [Start(SetConfig(Some(conf), now), tags), Start(SetConfig(Some(revoke), now), owner)])
    ensures WorldAt(w, allowed, GATES_FIRST, 4) == World(t, [SetCommit(conf, now), SetCommit(revoke, now)])
  {
    UpdateSteps(t, allowed, conf, now, tags);
    UpdateSteps(t, allowed, revoke, now, owner);
    TwoSteps(w, allowed, 0, t, w.threads[0], SetGate(conf, now, tags), t, SetCommit(conf, now));
    var w2 := World(t, [SetCommit(conf, now), w.threads[1]]);
    WorldAfterTwo(w, allowed, GATES_FIRST, 0);
    assert WorldAt(w, allowed, GATES_FIRST, 2) == w2;
    TwoSteps(w2, allowed, 1, t, w.threads[1], SetGate(revoke, now, owner), t, SetCommit(revoke, now));
    WorldAfterTwo(w, allowed, GATES_FIRST, 2);
  }

  /** Two callers update one config. The first passes both its gates; the second, who may, then replaces
      the entries so that the first holds WRITE no longer; the first commits all the same. */
  lemma WriteAfterRevocation(t: Tables, allowed: set<string>, conf: Config, tags: seq<string>, revoke: Config, owner: seq<string>, now: int)
    requires Inv(t) && Updatable(t, conf) && HoldsWrite(t, conf.id.n, tags) && PlaceGrantsWrite(t, conf.path, tags)
    requires Updatable(t, revoke) && HoldsWrite(t, revoke.id.n, owner) && PlaceGrantsWrite(t, revoke.path, owner)
    requires revoke.id == conf.id && !Grants(revoke.acls, tags, WRITE)
    ensures var w := World(t, [Start(SetConfig(Some(conf), now), tags), Start(SetConfig(Some(revoke), now), owner)]);
            var u := UpdateConfig(t, conf.id.n, revoke, now);
            && WorldAt(w, allowed, GATES_FIRST, 5) == World(u, [SetCommit(conf, now), Finished(OK)])
            && Updatable(u, conf) && !HoldsWrite(u, conf.id.n, tags)
            && WorldAt(w, allowed, GATES_FIRST, 6) == World(UpdateConfig(u, conf.id.n, conf, now), [Finished(OK), Finished(OK)])
  {
    var w := World(t, [Start(SetConfig(Some(conf), now), tags), Start(SetConfig(Some(revoke), now), owner)]);
    BothPastGates(t, allowed, conf, tags, revoke, owner, now, w);
    WorldAfterTwo(w, allowed, GATES_FIRST, 4);
    CommitStep(t, allowed, revoke, now);
    RevokingUpdate(t, revoke, conf, now, tags);
    CommitStep(UpdateConfig(t, revoke.id.n, revoke, now), allowed, conf, now);
  }

  lemma WorldAfterTwo(w: World, allowed: set<string>, schedule: seq<nat>, n: nat)
    requires n + 2 <= |schedule|
    ensures WorldAt(w, allowed, schedule, n + 1) == WorldStep(WorldAt(w, allowed, schedule, n), allowed, schedule[n])
    ensures WorldAt(w, allowed, schedule, n + 2) == WorldStep(WorldAt(w, allowed, schedule, n + 1), allowed, schedule[n + 1])
  {
  }
}
