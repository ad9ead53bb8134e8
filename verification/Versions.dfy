/** Content versions: the rows of config_content refine an append-only log per config, and a
    version, once written, answers the same for as long as its config lives. */
module Versions {
  import opened Messages
  import opened Tables
  import opened StoreSpec
  import opened StoreInvariant

  datatype Version = Version(content: Bytes, size: nat)

  // ---------------------------------------------------------------- the log of a config

  ghost predicate IsVersionOf(content: ContentTable, c: int, v: int) {
    v in content && content[v].configId == c
  }

  /** The versions of config c among the rows with id at most n, in id order. */
  ghost function LogUpTo(content: ContentTable, c: int, n: nat): seq<Version> {
    if n == 0 then []
    else
      LogUpTo(content, c, n - 1)
      + (if IsVersionOf(content, c, n) then [Version(content[n].content, content[n].size)] else [])
  }

  ghost function Log(t: Tables, c: int): seq<Version> {
    LogUpTo(t.content, c, t.lastInode)
  }

  lemma {:induction false} LogFrame(a: ContentTable, b: ContentTable, c: int, n: nat)
    requires forall v :: 1 <= v <= n ==> (IsVersionOf(a, c, v) <==> IsVersionOf(b, c, v))
    requires forall v :: 1 <= v <= n && IsVersionOf(a, c, v) && IsVersionOf(b, c, v) ==> a[v] == b[v]
    ensures LogUpTo(a, c, n) == LogUpTo(b, c, n)
  {
    if n > 0 {
      LogFrame(a, b, c, n - 1);
    }
  }

  lemma {:induction false} LogStops(a: ContentTable, c: int, n: nat, m: nat)
    requires n <= m && forall v :: n < v <= m ==> !IsVersionOf(a, c, v)
    ensures LogUpTo(a, c, m) == LogUpTo(a, c, n)
  {
    if n < m {
      LogStops(a, c, n, m - 1);
    }
  }

  lemma {:induction false} LogEnd(a: ContentTable, c: int, n: nat, v: nat)
    requires 1 <= v <= n && IsVersionOf(a, c, v)
    requires forall w :: IsVersionOf(a, c, w) ==> w <= v
    ensures LogUpTo(a, c, n) != []
    ensures LogUpTo(a, c, n)[|LogUpTo(a, c, n)| - 1] == Version(a[v].content, a[v].size)
  {
    LogStops(a, c, v, n);
  }

  // ---------------------------------------------------------------- the abstract history

  /** What a client knows: per live config, the contents supplied so far, oldest first. */
  type History = map<int, seq<Version>>

  /** The id the store answers an Upsert with. */
  ghost function StoredId(t: Tables, c: Config): Option<int> {
    if Insertable(t, c) then Some(t.lastInode + 1)
    else if Updatable(t, c) then Some(c.id.n)
    else None
  }

  /** The history after one request and its answer; the tables play no part in it. */
  ghost function Recorded(h: History, op: Op, stored: Option<int>): History {
    match op
    case OpUpsert(c, _) =>
      if stored.None? || c.content.None? then h
      else
        var v := Version(c.content.value, c.contentSize);
        if c.id == NoId then h[stored.value := [v]]
        else if stored.value in h then h[stored.value := h[stored.value] + [v]]
        else h
    case OpDelete(id) => if id.Num? then h - {id.n} else h
    case _ => h
  }

  ghost function HistoryOf(t: Tables, h: History, ops: seq<Op>): History
    decreases |ops|
  {
    if ops == [] then h
    else
      var stored := if ops[0].OpUpsert? then StoredId(t, ops[0].config) else None;
      HistoryOf(Next(t, ops[0]), Recorded(h, ops[0], stored), ops[1..])
  }

  /** The content rows of every live config, in id order, are its history, and the current version
      is the last of them. */
  ghost predicate Refines(t: Tables, h: History) {
    && h.Keys == t.config.Keys
    && forall c :: c in t.config ==> Log(t, c) == h[c] && IsLatest(t, c)
  }

  ghost predicate IsLatest(t: Tables, c: int)
    requires c in t.config
  {
    && Log(t, c) != []
    && t.config[c].current.Some?
    && IsVersionOf(t.content, c, t.config[c].current.value)
    && var row := t.content[t.config[c].current.value];
       Log(t, c)[|Log(t, c)| - 1] == Version(row.content, row.size)
  }

  ghost predicate VersionsOk(t: Tables) {
    VersionInv(t.config, t.content, t.lastInode)
  }

  lemma CurrentIsLatest(t: Tables, c: int)
    requires VersionsOk(t) && c in t.config
    ensures IsLatest(t, c)
  {
    assert CurrentOk(t.config, t.content, c);
    LogEnd(t.content, c, t.lastInode, t.config[c].current.value);
  }

  lemma SameContentRefines(t: Tables, u: Tables, h: History)
    requires VersionsOk(t) && VersionsOk(u) && Refines(t, h)
    requires u.content == t.content && u.config.Keys == t.config.Keys && t.lastInode <= u.lastInode
    ensures Refines(u, h)
  {
    forall c | c in u.config
      ensures Log(u, c) == h[c] && IsLatest(u, c)
    {
      LogStops(t.content, c, t.lastInode, u.lastInode);
      CurrentIsLatest(u, c);
    }
  }

  /** One appended row is one appended version of its config and none of any other. */
  lemma AppendedLog(a: ContentTable, n: nat, m: nat, row: ContentRow, c: int)
    requires n < m && forall v :: v in a ==> v <= n
    ensures LogUpTo(a[m := row], c, m)
         == LogUpTo(a, c, n) + (if row.configId == c then [Version(row.content, row.size)] else [])
  {
    LogFrame(a[m := row], a, c, m - 1);
    LogStops(a, c, n, m - 1);
  }

  lemma AppendedTo(t: Tables, u: Tables, m: nat, row: ContentRow, c: int)
    requires VersionsOk(t)
    requires u.lastInode == m > t.lastInode && u.content == t.content[m := row]
    ensures Log(u, c) == (if c in t.config then Log(t, c) else [])
                         + (if c == row.configId then [Version(row.content, row.size)] else [])
  {
    AppendedLog(t.content, t.lastInode, m, row, c);
    if c !in t.config {
      LogStops(t.content, c, 0, t.lastInode);
    }
  }

  lemma AppendRefines(t: Tables, u: Tables, h: History, m: nat, row: ContentRow)
    requires VersionsOk(t) && VersionsOk(u) && Refines(t, h)
    requires u.lastInode == m > t.lastInode && u.content == t.content[m := row]
    requires u.config.Keys == t.config.Keys + {row.configId}
    ensures var v := [Version(row.content, row.size)];
            Refines(u, h[row.configId := if row.configId in h then h[row.configId] + v else v])
  {
    forall c | c in u.config
      ensures IsLatest(u, c)
      ensures Log(u, c) == (if c in h then h[c] else []) + (if c == row.configId then [Version(row.content, row.size)] else [])
    {
      AppendedTo(t, u, m, row, c);
      CurrentIsLatest(u, c);
    }
  }

  lemma DeleteRefines(t: Tables, h: History, id: int)
    requires Inv(t) && Refines(t, h)
    ensures Refines(Delete(t, Num(id)).value, h - {id})
  {
    var u := Delete(t, Num(id)).value;
    DeleteInv(t, Num(id));
    forall c | c in u.config
      ensures Log(u, c) == h[c] && IsLatest(u, c)
    {
      LogFrame(u.content, t.content, c, t.lastInode);
      CurrentIsLatest(u, c);
    }
  }

  lemma CreateKeepsConfigs(t: Tables, parent: string, name: string, acls: seq<ConfigAcl>)
    requires Inv(t) && Creatable(t, parent, name)
    ensures OnlyDirectories(t, CreateDirectory(t, parent, name, acls).value)
    ensures t.lastInode <= CreateDirectory(t, parent, name, acls).value.lastInode
  {
    var full := ComposedPath(parent, name);
    Paths.CleanPartsComponents(full);
    EnsuredExactly(t, Paths.CleanParts(full), |Paths.CleanParts(full)|, acls);
  }

  lemma InsertRefines(t: Tables, h: History, c: Config, now: int)
    requires Inv(t) && Refines(t, h) && Insertable(t, c)
    ensures Refines(InsertConfig(t, c, c.content.value, now), h[t.lastInode + 1 := [Version(c.content.value, c.contentSize)]])
  {
    var u := InsertConfig(t, c, c.content.value, now);
    InsertConfigInv(t, c, now);
    assert t.lastInode + 1 !in t.config && u.config.Keys == t.config.Keys + {t.lastInode + 1};
    AppendRefines(t, u, h, t.lastInode + 2, ContentRow(t.lastInode + 1, c.content.value, c.contentSize, now, now));
  }

  lemma UpdateRefines(t: Tables, h: History, c: Config, now: int)
    requires VersionsOk(t) && Refines(t, h) && Updatable(t, c)
    ensures var u := UpdateConfig(t, c.id.n, c, now);
            Refines(u, if c.content.None? then h else h[c.id.n := h[c.id.n] + [Version(c.content.value, c.contentSize)]])
  {
    var u := UpdateConfig(t, c.id.n, c, now);
    UpdatedVersionInv(t, c, now);
    assert u.config.Keys == t.config.Keys;
    if c.content.None? {
      SameContentRefines(t, u, h);
    } else {
      AppendRefines(t, u, h, t.lastInode + 1, ContentRow(c.id.n, c.content.value, c.contentSize, now, now));
    }
  }

  lemma UpsertRefines(t: Tables, h: History, c: Config, now: int)
    requires Inv(t) && Refines(t, h)
    ensures Refines(Next(t, OpUpsert(c, now)), Recorded(h, OpUpsert(c, now), StoredId(t, c)))
  {
    if Insertable(t, c) {
      InsertRefines(t, h, c, now);
    } else if Updatable(t, c) {
      UpdateRefines(t, h, c, now);
    }
  }

  lemma DirectoryOpRefines(t: Tables, h: History, op: Op)
    requires Inv(t) && Refines(t, h) && (op.OpCreateDirectory? || op.OpUpdateDirectory? || op.OpDeleteDirectory?)
    ensures Refines(Next(t, op), h)
  {
    StepInv(t, op);
    if op.OpCreateDirectory? && Creatable(t, op.parent, op.name) {
      CreateKeepsConfigs(t, op.parent, op.name, op.acls);
    }
    SameContentRefines(t, Next(t, op), h);
  }

  lemma StepRefines(t: Tables, h: History, op: Op)
    requires Inv(t) && Refines(t, h)
    ensures var stored := if op.OpUpsert? then StoredId(t, op.config) else None;
            Refines(Next(t, op), Recorded(h, op, stored))
  {
    match op
    case OpUpsert(c, now) => UpsertRefines(t, h, c, now);
    case OpDelete(id) =>
      if id.Num? {
        DeleteRefines(t, h, id.n);
      }
    case _ => DirectoryOpRefines(t, h, op);
  }

  lemma {:induction false} RunRefines(t: Tables, h: History, ops: seq<Op>)
    requires Inv(t) && Refines(t, h)
    ensures Refines(Run(t, ops), HistoryOf(t, h, ops))
    decreases |ops|
  {
    if ops != [] {
      var stored := if ops[0].OpUpsert? then StoredId(t, ops[0].config) else None;
      StepInv(t, ops[0]);
      StepRefines(t, h, ops[0]);
      RunRefines(Next(t, ops[0]), Recorded(h, ops[0], stored), ops[1..]);
    }
  }

  /** Version-log refinement over all runs of a fresh store. */
  lemma VersionLogRefinement(ops: seq<Op>)
    ensures Refines(Run(EMPTY, ops), HistoryOf(EMPTY, map[], ops))
  {
    EmptyInv();
    RunRefines(EMPTY, map[], ops);
  }

  // ---------------------------------------------------------------- permanence

  /** How later states relate to earlier ones: inodes are never reused, content rows never change,
      and a version goes only together with its config. */
  ghost predicate Evolves(t: Tables, u: Tables) {
    && t.lastInode <= u.lastInode
    && (forall c :: c in u.config && c <= t.lastInode ==> c in t.config)
    && (forall v :: v in u.content && v <= t.lastInode ==> v in t.content && u.content[v] == t.content[v])
    && (forall v :: v in t.content && t.content[v].configId in u.config ==> v in u.content)
  }

  lemma StepEvolves(t: Tables, op: Op)
    requires Inv(t)
    ensures Evolves(t, Next(t, op))
  {
    if op.OpCreateDirectory? && Creatable(t, op.parent, op.name) {
      CreateKeepsConfigs(t, op.parent, op.name, op.acls);
    }
  }

  lemma EvolvesTransitive(t: Tables, u: Tables, w: Tables)
    requires Inv(t) && Evolves(t, u) && Evolves(u, w)
    ensures Evolves(t, w)
  {
    forall v | v in t.content && t.content[v].configId in w.config
      ensures v in w.content
    {
      assert t.content[v].configId in u.config;
      assert v in u.content && u.content[v] == t.content[v];
    }
  }

  lemma {:induction false} RunEvolves(t: Tables, ops: seq<Op>)
    requires Inv(t)
    ensures Evolves(t, Run(t, ops))
    decreases |ops|
  {
    if ops != [] {
      StepInv(t, ops[0]);
      StepEvolves(t, ops[0]);
      RunEvolves(Next(t, ops[0]), ops[1..]);
      EvolvesTransitive(t, Next(t, ops[0]), Run(t, ops));
    }
  }

  ghost predicate Resolves(t: Tables, c: int, v: int) {
    GetConfigByID(t, Num(c), true, Num(v)).Found?
  }

  /** Version permanence: a version of c answers with the same bytes and its own size in every later
      state in which c lives; once c is gone, neither it nor the version resolves in any later state;
      and the version never resolves through another config. */
  lemma VersionPermanence(t: Tables, c: int, v: int, ops: seq<Op>, more: seq<Op>)
    requires Inv(t) && Resolves(t, c, v)
    ensures var u, w := Run(t, ops), Run(t, ops + more);
            && (c in u.config ==>
                  && Resolves(u, c, v)
                  && GetConfigByID(u, Num(c), true, Num(v)).value.content == GetConfigByID(t, Num(c), true, Num(v)).value.content
                  && GetConfigByID(u, Num(c), true, Num(v)).value.contentSize == GetConfigByID(t, Num(c), true, Num(v)).value.contentSize)
            && (c !in u.config ==> GetConfigByID(w, Num(c), false, NoId) == Absent && forall d :: !Resolves(w, d, v))
            && (forall d :: d != c ==> !Resolves(u, d, v))
  {
    RunInv(t, ops);
    RunEvolves(t, ops);
    RunConcat(t, ops, more);
    RunInv(Run(t, ops), more);
    RunEvolves(Run(t, ops), more);
  }

  // ---------------------------------------------------------------- sizes

  /** Every version's size is the length of its content. */
  ghost predicate SizesAreLengths(t: Tables) {
    forall v :: v in t.content ==> t.content[v].size == |t.content[v].content|
  }

  /** The request carries content together with a size that is not its length. */
  predicate Missized(op: Op) {
    op.OpUpsert? && op.config.content.Some? && op.config.contentSize != |op.config.content.value|
  }

  /** The version an Upsert writes is the newest row, with the size and content it was sent; so its size
      is its length exactly when the request's was. */
  lemma UpsertSize(t: Tables, c: Config, now: int)
    requires Upsert(t, c, now).Some? && c.content.Some?
    ensures var u := Upsert(t, c, now).value;
            && u.lastInode in u.content && u.content[u.lastInode].content == c.content.value
            && (u.content[u.lastInode].size == |u.content[u.lastInode].content| <==> c.contentSize == |c.content.value|)
  {
  }

  /** One transaction: sizes stay lengths exactly unless it commits a request whose size is not the length. */
  lemma SizesStayLengths(t: Tables, op: Op)
    requires Inv(t) && SizesAreLengths(t)
    ensures SizesAreLengths(Next(t, op)) <==> !(Step(t, op).Some? && Missized(op))
  {
    match op
    case OpCreateDirectory(parent, name, acls) =>
      if Creatable(t, parent, name) {
        CreateKeepsConfigs(t, parent, name, acls);
      }
    case OpUpsert(c, now) =>
      if Insertable(t, c) || (Updatable(t, c) && c.content.Some?) {
        WrittenRow(t, c, now);
      }
    case _ =>
  }

  lemma WrittenRow(t: Tables, c: Config, now: int)
    requires Inv(t) && Upsert(t, c, now).Some? && c.content.Some?
    ensures var u := Upsert(t, c, now).value;
            && u.lastInode !in t.content
            && u.content.Keys == t.content.Keys + {u.lastInode}
            && (forall v :: v in t.content ==> u.content[v] == t.content[v])
            && u.content[u.lastInode].content == c.content.value && u.content[u.lastInode].size == c.contentSize
  {
  }

  /** Over a whole run: when no request is missized, every size is a length. */
  lemma {:induction false} RunSizes(t: Tables, ops: seq<Op>)
    requires Inv(t) && SizesAreLengths(t) && forall op :: op in ops ==> !Missized(op)
    ensures SizesAreLengths(Run(t, ops))
    decreases |ops|
  {
    if ops != [] {
      StepInv(t, ops[0]);
      SizesStayLengths(t, ops[0]);
      RunSizes(Next(t, ops[0]), ops[1..]);
    }
  }
}
