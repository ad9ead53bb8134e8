/** The service: gates computed from what the store answers, then at most one transaction. */
module Server {
  import opened Paths
  import opened Messages
  import opened Tables
  import opened StoreSpec
  import opened StoreInvariant
  import opened Access
  import opened Queries
  import opened Ensuring
  import opened Tree
  import opened TreeShape
  import opened Listing
  import opened SqliteStore
  import opened Handlers

  datatype Reply<+T> = Answer(value: T) | Refused(status: Status)

  class ConfigServer {
    const store: Store
    const createAllowedTags: set<string>

    /** NewServer: the allow-list for creation is trimmed, and blank entries are ignored. */
    constructor (s: Store, allowed: seq<string>)
      ensures store == s
      ensures forall tag :: tag in createAllowedTags <==> tag != "" && exists t :: t in allowed && TrimSpace(t) == tag
    {
      var tags: set<string> := {};
      for i := 0 to |allowed|
        invariant forall tag :: tag in tags <==> tag != "" && exists t :: t in allowed[..i] && TrimSpace(t) == tag
      {
        assert allowed[..i + 1] == allowed[..i] + [allowed[i]];
        var t := TrimSpace(allowed[i]);
        assert allowed[i] in allowed[..i + 1];
        if t != "" {
          tags := tags + {t};
        }
      }
      assert allowed[..|allowed|] == allowed;
      store, createAllowedTags := s, tags;
    }

    // -------------------------------------------------------------- gates

    method PathReadable(path: string, tags: seq<string>) returns (readable: bool)
      requires store.Valid()
      ensures readable <==> Traversable(store.State(), path, tags)
    {
      ChainDecidesRule(store.State(), path, tags);
      if path == "" || path == "/" {
        return true;
      }
      var chain, missing := store.DirectoryChain(path);
      if |missing| > 0 {
        MissingIsNoDirectory(store.State(), path, chain);
        return false;
      }
      ChainMeaning(store.State(), path, chain, tags);
      readable := forall d :: d in chain ==> d.Allows(tags, READ);
    }

    /** The directory a config at the path lives in; None with true stands for the root. */
    method ContainingDirectory(path: string) returns (dir: Option<Directory>, exists_: bool)
      requires store.Valid()
      ensures exists_ <==> IsPlace(store.directory, path)
      ensures dir.Some? ==> exists_ && dir.value.id.Num? && dir.value.id.n in store.directory
                            && dir.value == DirectoryMessage(store.State(), dir.value.id.n) && dir.value.FullPath() == path
      ensures dir.None? && exists_ ==> path == "" || path == "/"
    {
      if path == "" || path == "/" {
        return None, true;
      }
      var chain, missing := store.DirectoryChain(path);
      TargetFetchedIff(store.State(), path, chain);
      if path in missing {
        return None, false;
      }
      var found := FindByPath(chain, path);
      return found, found.Some?;
    }

    /** The directory part of SetConfig's checks: the directory exists and grants WRITE. */
    method DirectoryGate(path: string, tags: seq<string>) returns (gate: Status)
      requires store.Valid()
      ensures gate == if !IsPlace(store.directory, path) then FailedPrecondition
                      else if !PlaceGrantsWrite(store.State(), path, tags) then PermissionDenied
                      else OK
    {
      var containing, exists_ := ContainingDirectory(path);
      if !exists_ {
        return FailedPrecondition;
      }
      ContainingGrants(store.State(), path, containing, tags);
      if containing.Some? && !containing.value.Allows(tags, WRITE) {
        return PermissionDenied;
      }
      return OK;
    }

    /** The most specific directory of a chain; None when nothing on the way exists. */
    method DeepestExistingAncestor(chain: seq<Directory>) returns (deepest: Option<Directory>)
      ensures deepest.None? <==> chain == []
      ensures deepest.Some? ==> deepest.value in chain && forall d :: d in chain ==> |d.FullPath()| <= |deepest.value.FullPath()|
    {
      deepest := None;
      for i := 0 to |chain|
        invariant deepest.None? <==> i == 0
        invariant deepest.Some? ==> deepest.value in chain && forall k :: 0 <= k < i ==> |chain[k].FullPath()| <= |deepest.value.FullPath()|
      {
        if deepest.None? || |chain[i].FullPath()| > |deepest.value.FullPath()| {
          deepest := Some(chain[i]);
        }
      }
    }

    /** Every ancestor grants READ and the directory itself WRITE. */
    method DirectoryWritable(dir: Directory, tags: seq<string>) returns (writable: bool)
      requires store.Valid()
      ensures writable <==> Traversable(store.State(), dir.path, tags) && dir.Allows(tags, WRITE)
    {
      var readable := PathReadable(dir.path, tags);
      return readable && dir.Allows(tags, WRITE);
    }

    // -------------------------------------------------------------- reading handlers

    /** A listing; of one directory, what the unfiltered tree holds below it. */
    method List(directoryId: Id, tags: seq<string>) returns (r: Reply<Option<Directory>>)
      requires store.Valid()
      ensures directoryId == NoId ==> r.Answer? && r.value.Some? && IsTree(r.value.value, store.State(), tags, "")
      ensures directoryId == BadId ==> r == Refused(Internal)
      ensures directoryId.Num? && directoryId.n !in store.directory ==> r == Refused(NoSuchEntry)
      ensures directoryId.Num? && directoryId.n in store.directory ==>
                && r.Answer? && (r.value.Some? <==> Traversable(store.State(), RowPath(store.directory[directoryId.n]), tags))
                && forall whole :: IsTree(whole, store.State(), tags, "") ==> SameSubtree(r.value, FindDirectory(directoryId, whole))
    {
      var prefix := "";
      if directoryId != NoId {
        var directory := store.GetDirectoryByID(directoryId);
        if directory.Failed? {
          return Refused(Internal);
        }
        if directory.Absent? {
          return Refused(NoSuchEntry);
        }
        prefix := directory.value.FullPath();
      }
      var tree := store.TreeForACLTags(tags, prefix);
      if tree.None? {
        return Refused(Internal);
      }
      if directoryId == NoId {
        return Answer(tree);
      }
      SubtreeOfAny(store.State(), tags, directoryId.n, tree.value);
      return Answer(FindDirectory(directoryId, tree.value));
    }

    method GetConfig(id: Id, version: Option<Id>, tags: seq<string>) returns (r: Reply<Config>)
      requires store.Valid()
      ensures version.None? || version == Some(NoId) ==> (r.Answer? <==> CanGetConfig(store.State(), id, tags))
      ensures r.Answer? <==> GetConfigByID(store.State(), id, true, if version.Some? then version.value else NoId).Found?
                             && Visible(store.State(), id.n, tags)
      ensures r.Answer? ==> GetConfigByID(store.State(), id, true, if version.Some? then version.value else NoId) == Found(r.value)
      ensures id == NoId ==> r == Refused(InvalidArgument)
      ensures id != NoId ==>
                match GetConfigByID(store.State(), id, true, if version.Some? then version.value else NoId)
                case Failed => r == Refused(Internal)
                case Absent => r == Refused(NoSuchEntry)
                case Found(conf) => if Visible(store.State(), id.n, tags) then r == Answer(conf) else r == Refused(PermissionDenied)
    {
      if id == NoId {
        return Refused(InvalidArgument);
      }
      var conf := store.GetConfigByID(id, true, if version.Some? then version.value else NoId);
      if conf.Failed? {
        return Refused(Internal);
      }
      if conf.Absent? {
        return Refused(NoSuchEntry);
      }
      ChainDecidesRule(store.State(), conf.value.path, tags);
      if !conf.value.Allows(tags, READ) {
        return Refused(PermissionDenied);
      }
      var readable := PathReadable(conf.value.path, tags);
      if !readable {
        return Refused(PermissionDenied);
      }
      return Answer(conf.value);
    }

    method GetDirectory(id: Id, tags: seq<string>) returns (r: Reply<Directory>)
      requires store.Valid()
      ensures r.Answer? <==> CanGetDirectory(store.State(), id, tags)
      ensures r.Answer? ==> GetDirectoryByID(store.State(), id) == Found(r.value)
      ensures id == NoId ==> r == Refused(InvalidArgument)
      ensures id != NoId ==>
                match GetDirectoryByID(store.State(), id)
                case Failed => r == Refused(Internal)
                case Absent => r == Refused(NoSuchEntry)
                case Found(dir) => if CanGetDirectory(store.State(), id, tags) then r == Answer(dir) else r == Refused(PermissionDenied)
    {
      if id == NoId {
        return Refused(InvalidArgument);
      }
      var dir := store.GetDirectoryByID(id);
      if dir.Failed? {
        return Refused(Internal);
      }
      if dir.Absent? {
        return Refused(NoSuchEntry);
      }
      ChainDecidesRule(store.State(), dir.value.FullPath(), tags);
      var readable := PathReadable(dir.value.FullPath(), tags);
      if !readable {
        return Refused(PermissionDenied);
      }
      return Answer(dir.value);
    }

    // -------------------------------------------------------------- mutating handlers

    method SetConfig(conf: Option<Config>, now: int, tags: seq<string>) returns (status: Status, stored: Option<Config>)
      requires store.Valid()
      modifies store
      ensures store.Valid()
      ensures (store.State(), status) == RunAlone(old(store.State()), createAllowedTags, Start(Request.SetConfig(conf, now), tags))
      ensures status == OK <==> stored.Some?
      ensures stored.Some? ==> conf.Some? && GetConfigByID(store.State(), stored.value.id, false, NoId) == Found(stored.value)
                               && stored.value.id == if conf.value.id == NoId then Num(old(store.lastInode) + 1) else conf.value.id
    {
      ghost var t := store.State();
      BeginRuns(t, createAllowedTags, Request.SetConfig(conf, now), tags);
      if conf.None? {
        return InvalidArgument, None;
      }
      var c := conf.value;
      if c.id != NoId {
        var existing := store.GetConfigByID(c.id, false, NoId);
        if existing.Failed? {
          return Internal, None;
        }
        if existing.Absent? {
          return NoSuchEntry, None;
        }
        if !existing.value.Allows(tags, WRITE) {
          return PermissionDenied, None;
        }
      } else if !CanCreate(createAllowedTags, tags) {
        return PermissionDenied, None;
      }
      SetGateRuns(t, createAllowedTags, c, now, tags);
      var gate := DirectoryGate(c.path, tags);
      if gate != OK {
        return gate, None;
      }
      var upserted := store.Upsert(c, now);
      if upserted.Err? {
        return Internal, None;
      }
      return OK, Some(upserted.value);
    }

    method DeleteConfig(id: Id, tags: seq<string>) returns (status: Status)
      requires store.Valid()
      modifies store
      ensures store.Valid()
      ensures (store.State(), status) == RunAlone(old(store.State()), createAllowedTags, Start(Request.DeleteConfig(id), tags))
    {
      RunsAlone(store.State(), createAllowedTags, Request.DeleteConfig(id), tags);
      if id == NoId {
        return InvalidArgument;
      }
      var existing := store.GetConfigByID(id, false, NoId);
      if existing.Failed? {
        return Internal;
      }
      if existing.Absent? {
        return NoSuchEntry;
      }
      if !existing.value.Allows(tags, WRITE) {
        return PermissionDenied;
      }
      var deleted := store.Delete(id);
      return if deleted.Ok? then OK else Internal;
    }

    method CreateDirectory(dir: Option<Directory>, tags: seq<string>) returns (status: Status, created: Option<Directory>)
      requires store.Valid()
      modifies store
      ensures store.Valid()
      ensures (store.State(), status) == RunAlone(old(store.State()), createAllowedTags, Start(CreateDir(dir), tags))
      ensures status == OK <==> created.Some?
      ensures created.Some? ==> dir.Some? && created.value.FullPath() == ComposedPath(dir.value.path, dir.value.name) && created.value.id.Num?
                                && GetDirectoryByID(store.State(), created.value.id) == Found(created.value)
    {
      RunsAlone(store.State(), createAllowedTags, CreateDir(dir), tags);
      if dir.None? || TrimSpace(dir.value.name) == "" {
        return InvalidArgument, None;
      }
      if !CanCreate(createAllowedTags, tags) {
        return PermissionDenied, None;
      }
      var parent := dir.value.path;
      if parent != "" && parent != "/" {
        var chain, missing := store.DirectoryChain(parent);
        var deepest := DeepestExistingAncestor(chain);
        DeepestIsExisting(store.State(), parent, chain, deepest, tags);
        if deepest.Some? && !deepest.value.Allows(tags, WRITE) {
          return PermissionDenied, None;
        }
      }
      var r := store.CreateDirectory(dir.value);
      if r.Err? {
        return (if r.error == AlreadyExists then Exists else Internal), None;
      }
      return OK, Some(r.value);
    }

    method UpdateDirectory(dir: Option<Directory>, tags: seq<string>) returns (status: Status, updated: Option<Directory>)
      requires store.Valid()
      modifies store
      ensures store.Valid()
      ensures (store.State(), status) == RunAlone(old(store.State()), createAllowedTags, Start(UpdateDir(dir), tags))
      ensures status == OK <==> updated.Some?
      ensures updated.Some? ==> dir.Some? && GetDirectoryByID(store.State(), dir.value.id) == Found(updated.value)
    {
      RunsAlone(store.State(), createAllowedTags, UpdateDir(dir), tags);
      if dir.None? || dir.value.id == NoId {
        return InvalidArgument, None;
      }
      var existing := store.GetDirectoryByID(dir.value.id);
      if existing.Failed? {
        return Internal, None;
      }
      if existing.Absent? {
        return NoSuchEntry, None;
      }
      var writable := DirectoryWritable(existing.value, tags);
      if !writable {
        return PermissionDenied, None;
      }
      var r := store.UpdateDirectory(dir.value);
      if r.Err? {
        return (if r.error == DoesNotMatch then InvalidArgument else Internal), None;
      }
      return OK, Some(r.value);
    }

    method DeleteDirectory(id: Id, tags: seq<string>) returns (status: Status)
      requires store.Valid()
      modifies store
      ensures store.Valid()
      ensures (store.State(), status) == RunAlone(old(store.State()), createAllowedTags, Start(DeleteDir(id), tags))
    {
      RunsAlone(store.State(), createAllowedTags, DeleteDir(id), tags);
      if id == NoId {
        return InvalidArgument;
      }
      var existing := store.GetDirectoryByID(id);
      if existing.Failed? {
        return Internal;
      }
      if existing.Absent? {
        return NoSuchEntry;
      }
      var writable := DirectoryWritable(existing.value, tags);
      if !writable {
        return PermissionDenied;
      }
      var deleted := store.DeleteDirectory(id);
      if deleted.Err? {
        return if deleted.error == NotEmpty then FailedPrecondition else Internal;
      }
      return OK;
    }
  }

  // ---------------------------------------------------------------- what the chain tells the gates

  lemma MissingIsNoDirectory(t: Tables, path: string, chain: seq<Directory>)
    requires Inv(t) && Selected(chain, t, Wanted(t, [path])) && MissingOf([path], chain) != []
    requires path != "" && path != "/"
    ensures forall tags :: !Traversable(t, path, tags)
  {
    TargetFetchedIff(t, path, chain);
    assert !HasPath(chain, path);
    forall tags
      ensures !Traversable(t, path, tags)
    {
      if Traversable(t, path, tags) {
        TraversableIsDirectory(t, path, tags);
      }
    }
  }

  lemma NothingMissing(t: Tables, path: string, chain: seq<Directory>)
    requires Selected(chain, t, Wanted(t, [path])) && MissingOf([path], chain) == []
    ensures exists id :: id in t.directory && OnPath(t.directory[id], path) && RowPath(t.directory[id]) == path
  {
    assert HasPath(chain, path);
    var leaf :| leaf in chain && leaf.FullPath() == path;
    WantedForOne(t, path, leaf.id.n);
  }

  /** With nothing missing, the loop over the chain decides the gate. */
  lemma ChainMeaning(t: Tables, path: string, chain: seq<Directory>, tags: seq<string>)
    requires Selected(chain, t, Wanted(t, [path])) && MissingOf([path], chain) == []
    requires path != "" && path != "/"
    ensures ChainReadable(t, path, tags) <==> forall d :: d in chain ==> d.Allows(tags, READ)
  {
    NothingMissing(t, path, chain);
    if ChainReadable(t, path, tags) {
      forall d | d in chain
        ensures d.Allows(tags, READ)
      {
        ChainMembers(t, path, chain, d.id.n);
        assert DirGrants(t, d.id.n, tags, READ);
      }
    }
    if forall d :: d in chain ==> d.Allows(tags, READ) {
      forall id | id in t.directory && OnPath(t.directory[id], path)
        ensures DirGrants(t, id, tags, READ)
      {
        ChainMembers(t, path, chain, id);
        assert DirectoryMessage(t, id).Allows(tags, READ);
      }
    }
  }

  lemma ChainMembers(t: Tables, path: string, chain: seq<Directory>, id: int)
    requires Selected(chain, t, Wanted(t, [path])) && id in t.directory
    ensures OnPath(t.directory[id], path) <==> DirectoryMessage(t, id) in chain
  {
    if OnPath(t.directory[id], path) {
      assert OnSomePath(t.directory[id], [path]);
      assert id in Wanted(t, [path]);
    }
    if DirectoryMessage(t, id) in chain {
      WantedForOne(t, path, id);
    }
  }

  lemma ContainingGrants(t: Tables, path: string, dir: Option<Directory>, tags: seq<string>)
    requires Inv(t) && IsPlace(t.directory, path)
    requires dir.Some? ==> dir.value.id.Num? && dir.value.id.n in t.directory
                           && dir.value == DirectoryMessage(t, dir.value.id.n) && dir.value.FullPath() == path
    requires dir.None? ==> path == "" || path == "/"
    ensures PlaceGrantsWrite(t, path, tags) <==> dir.None? || dir.value.Allows(tags, WRITE)
  {
    if dir.Some? {
      DirectoriesCanonical(t.directory, t.lastInode, path);
    }
  }

  /** The longest directory of a chain is the deepest existing one on the way. */
  lemma LongestIsDeepest(t: Tables, parent: string, chain: seq<Directory>, e: Directory)
    requires Inv(t) && Selected(chain, t, Wanted(t, [parent]))
    requires e in chain && forall d :: d in chain ==> |d.FullPath()| <= |e.FullPath()|
    ensures var m := ExistingDepth(t.directory, CleanParts(parent), 0);
            m > 0 && e.FullPath() == FullOf(CleanParts(parent)[..m])
  {
    var ks := CleanParts(parent);
    var m := ExistingDepth(t.directory, ks, 0);
    CleanPartsComponents(parent);
    ChainIsShallow(t, parent, ks, chain, e);
    DeepestOnChain(t, parent, ks, chain);
    var d :| d in chain && d.FullPath() == FullOf(ks[..m]);
    ChainOfPrefixes(t, ks, m, e, d);
  }

  lemma DirectoryDecides(t: Tables, e: Directory, tags: seq<string>)
    requires Inv(t) && e.id.Num? && e.id.n in t.directory && e == DirectoryMessage(t, e.id.n)
    ensures PlaceGrantsWrite(t, e.FullPath(), tags) <==> e.Allows(tags, WRITE)
  {
    assert IsDirectory(t.directory, e.FullPath());
    DirectoriesCanonical(t.directory, t.lastInode, e.FullPath());
  }

  lemma DeepestIsExisting(t: Tables, parent: string, chain: seq<Directory>, deepest: Option<Directory>, tags: seq<string>)
    requires Inv(t) && Selected(chain, t, Wanted(t, [parent]))
    requires deepest.None? <==> chain == []
    requires deepest.Some? ==> deepest.value in chain && forall d :: d in chain ==> |d.FullPath()| <= |deepest.value.FullPath()|
    ensures DeepestGrantsWrite(t, CleanParts(parent), tags) <==> deepest.None? || deepest.value.Allows(tags, WRITE)
  {
    CleanPartsComponents(parent);
    if deepest.Some? {
      LongestIsDeepest(t, parent, chain, deepest.value);
      DirectoryDecides(t, deepest.value, tags);
    } else {
      DeepestOnChain(t, parent, CleanParts(parent), chain);
    }
  }

  lemma DeepestOnChain(t: Tables, parent: string, ks: seq<string>, chain: seq<Directory>)
    requires Inv(t) && ks == CleanParts(parent) && Components(ks) && Selected(chain, t, Wanted(t, [parent]))
    ensures var m := ExistingDepth(t.directory, ks, 0); m > 0 ==> HasPath(chain, FullOf(ks[..m]))
  {
    var m := ExistingDepth(t.directory, ks, 0);
    if m > 0 {
      FetchedIffExists(t, [parent], parent, chain, m, FullOf(ks[..m]));
    }
  }

  /** No directory of the chain lies deeper than the existing part of the path. */
  lemma ChainIsShallow(t: Tables, parent: string, ks: seq<string>, chain: seq<Directory>, e: Directory)
    requires Inv(t) && ks == CleanParts(parent) && Components(ks) && Selected(chain, t, Wanted(t, [parent])) && e in chain
    ensures IsPrefixPath(e.FullPath(), ks, ExistingDepth(t.directory, ks, 0))
  {
    WantedForOne(t, parent, e.id.n);
    OnPathOneWay(t.directory[e.id.n], parent);
    ExistingPrefixShallow(t, ks, e.id.n);
  }

  /** A prefix no shorter than the m-th, among the first m, is the m-th. */
  lemma ChainOfPrefixes(t: Tables, ks: seq<string>, m: nat, e: Directory, d: Directory)
    requires Components(ks) && m <= |ks| && IsPrefixPath(e.FullPath(), ks, m)
    requires d.FullPath() == FullOf(ks[..m]) && |d.FullPath()| <= |e.FullPath()|
    ensures e.FullPath() == FullOf(ks[..m])
  {
    var i :| 1 <= i <= m && e.FullPath() == FullOf(ks[..i]);
    PrefixPathOrder(ks, i, m);
  }

  // ---------------------------------------------------------------- listings

  /** Two answers are the same part of a tree up to sibling order, or both nothing. */
  ghost predicate SameSubtree(a: Option<Directory>, b: Option<Directory>) {
    match (a, b)
    case (Some(x), Some(y)) => ShapeOf(x) == ShapeOf(y) && forall i :: Tally(x, i) == Tally(y, i) <= 1
    case (None, None) => true
    case _ => false
  }

  lemma SubtreeOfAny(t: Tables, tags: seq<string>, id: int, pruned: Directory)
    requires Inv(t) && id in t.directory && IsTree(pruned, t, tags, RowPath(t.directory[id]))
    ensures FindDirectory(Num(id), pruned).Some? <==> Traversable(t, RowPath(t.directory[id]), tags)
    ensures forall whole :: IsTree(whole, t, tags, "") ==> SameSubtree(FindDirectory(Num(id), pruned), FindDirectory(Num(id), whole))
  {
    var ds, cs, b :| BuiltFrom(pruned, t, tags, RowPath(t.directory[id]), ds, cs, b);
    FoundDirectory(pruned, t, tags, RowPath(t.directory[id]), ds, cs, b, id);
    forall whole | IsTree(whole, t, tags, "")
      ensures SameSubtree(FindDirectory(Num(id), pruned), FindDirectory(Num(id), whole))
    {
      FilterPushdown(pruned, whole, t, tags, id);
    }
  }
}
