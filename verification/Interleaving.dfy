/** Handlers running concurrently: store calls are atomic, and between two calls of one handler any
    number of calls of others may happen. */
module Interleaving {
  import opened Messages
  import opened Tables
  import opened StoreSpec
  import opened StoreInvariant
  import opened Versions
  import opened Handlers

  datatype World = World(t: Tables, threads: seq<Thread>)

  ghost function WorldStep(w: World, allowed: set<string>, i: nat): World {
    if i >= |w.threads| then w
    else
      var (u, next) := ThreadStep(w.t, allowed, w.threads[i]);
      World(u, w.threads[i := next])
  }

  /** Handlers make their next store call in the order the schedule says. */
  ghost function Exec(w: World, allowed: set<string>, schedule: seq<nat>): World
    decreases |schedule|
  {
    if schedule == [] then w else Exec(WorldStep(w, allowed, schedule[0]), allowed, schedule[1..])
  }

  lemma ThreadStepIsOp(t: Tables, allowed: set<string>, th: Thread)
    ensures ThreadStep(t, allowed, th).0 == t || exists op :: ThreadStep(t, allowed, th).0 == Next(t, op)
  {
  }

  /** Every schedule of any handlers changes the tables as some sequence of transactions does. */
  lemma {:induction false} ScheduleIsRun(w: World, allowed: set<string>, schedule: seq<nat>) returns (ops: seq<Op>)
    ensures Exec(w, allowed, schedule).t == Run(w.t, ops)
    decreases |schedule|
  {
    if schedule == [] {
      ops := [];
    } else {
      var i := schedule[0];
      var next := WorldStep(w, allowed, i);
      var rest := ScheduleIsRun(next, allowed, schedule[1..]);
      if next.t == w.t {
        ops := rest;
      } else {
        ThreadStepIsOp(w.t, allowed, w.threads[i]);
        var op :| next.t == Next(w.t, op);
        ops := [op] + rest;
        assert ops[1..] == rest;
      }
    }
  }

  /** Nothing is out of place: no config in a missing directory, no directory without its parent, no
      current version that is missing or another config's, no entry without its owner. */
  ghost predicate Intact(t: Tables) {
    && (forall c :: c in t.config ==> IsPlace(t.directory, t.config[c].path))
    && (forall d :: d in t.directory ==> t.directory[d].path == "/" || IsDirectory(t.directory, t.directory[d].path))
    && (forall c :: c in t.config ==> IsCurrent(t, c))
    && (forall r :: r in t.configAcl ==> r.owner in t.config)
    && (forall r :: r in t.directoryAcl ==> r.owner in t.directory)
  }

  ghost predicate IsCurrent(t: Tables, c: int)
    requires c in t.config
  {
    t.config[c].current.Some? && IsVersionOf(t.content, c, t.config[c].current.value)
  }

  lemma InvIsIntact(t: Tables)
    requires Inv(t)
    ensures Intact(t)
  {
    forall d | d in t.directory
      ensures t.directory[d].path == "/" || IsDirectory(t.directory, t.directory[d].path)
    {
      assert DirectoryOk(t.directory, d);
      if t.directory[d].path != "/" {
        ParentIsDirectory(t.directory, d);
      }
    }
    forall c | c in t.config
      ensures IsCurrent(t, c)
    {
      assert CurrentOk(t.config, t.content, c);
    }
  }

  /** The gates run outside the transactions, yet no interleaving damages the tables: whatever happens
      between a handler's gate and its transaction, the transaction repeats the structural checks. */
  lemma InterleavingsAreSafe(w: World, allowed: set<string>, schedule: seq<nat>)
    requires Inv(w.t)
    ensures Inv(Exec(w, allowed, schedule).t) && Intact(Exec(w, allowed, schedule).t)
  {
    var ops := ScheduleIsRun(w, allowed, schedule);
    RunInv(w.t, ops);
    InvIsIntact(Exec(w, allowed, schedule).t);
  }

  /** Versions stay permanent under concurrency too. */
  lemma VersionsSurviveInterleaving(w: World, allowed: set<string>, schedule: seq<nat>, c: int, v: int)
    requires Inv(w.t) && Resolves(w.t, c, v)
    ensures var u := Exec(w, allowed, schedule).t;
            if c in u.config then Resolves(u, c, v) && u.content[v] == w.t.content[v] else forall d :: !Resolves(u, d, v)
  {
    var ops := ScheduleIsRun(w, allowed, schedule);
    RunInv(w.t, ops);
    RunEvolves(w.t, ops);
  }

  /** The case the checks are for: SetConfig has passed its gate, another caller removes the directory,
      and the transaction then refuses, leaving the tables as the removal left them. */
  lemma RemovalBetweenGateAndUpsert(t: Tables, id: Id, conf: Config, now: int)
    requires Inv(t) && DeleteDirectory(t, id).Some? && conf.path == RowPath(t.directory[id.n])
    ensures var u := Next(t, OpDeleteDirectory(id));
            Upsert(u, conf, now) == None && Next(u, OpUpsert(conf, now)) == u
  {
    assert DirectoryOk(t.directory, id.n);
    NowhereAfterRemoval(t.directory, id.n);
  }

  lemma NowhereAfterRemoval(dirs: DirectoryTable, id: int)
    requires UniquePaths(dirs) && id in dirs && DirectoryOk(dirs, id)
    ensures !IsPlace(dirs - {id}, RowPath(dirs[id]))
  {
    RowPartsOfPath(dirs[id]);
  }
}
