/** Reading back what was written: the answers of the single reads after each kind of write. */
module RoundTrip {
  import opened Paths
  import opened Messages
  import opened Tables
  import opened StoreSpec
  import opened StoreInvariant
  import opened Versions

  /** A new config reads back as supplied, under a fresh id and with a first version, its entries
      filtered to the recognised ones. */
  lemma CreateThenGet(t: Tables, c: Config, now: int)
    requires Inv(t) && Insertable(t, c)
    ensures var u, id := Next(t, OpUpsert(c, now)), t.lastInode + 1;
            && GetConfigByID(t, Num(id), false, NoId) == Absent
            && GetConfigByID(u, Num(id), true, NoId)
               == Found(Config(Num(id), c.name, c.path, Recognised(c.acls), c.content, c.contentSize, Num(id + 1), now, now))
  {
    var id := t.lastInode + 1;
    LoadAppend(t.configAcl, AclRows(id, c.acls), id);
    LoadInserted(id, c.acls, id);
    NoAclYet(t.configAcl, t.config.Keys, id);
    var u := InsertConfig(t, c, c.content.value, now);
    assert LoadAcls(u.configAcl, id) == [] + Recognised(c.acls) == Recognised(c.acls);
    assert u.content[id + 1] == ContentRow(id, c.content.value, c.contentSize, now, now);
    assert GetConfigByID(u, Num(id), true, NoId) == GetVersion(u, id, id + 1);
  }

  /** An updated config reads back with the supplied entries; content and size are the supplied ones
      when content was sent and otherwise what they were, and only the time of change moves. */
  lemma UpdateThenGet(t: Tables, c: Config, now: int)
    requires Inv(t) && Updatable(t, c)
    ensures var before := GetConfigByID(t, c.id, true, NoId);
            && before.Found?
            && GetConfigByID(Next(t, OpUpsert(c, now)), c.id, true, NoId)
               == Found(if c.content.None?
                        then before.value.(acls := Recognised(c.acls), updatedAt := now)
                        else before.value.(acls := Recognised(c.acls), updatedAt := now, content := c.content,
                                           contentSize := c.contentSize, currentContentId := Num(t.lastInode + 1)))
  {
    assert CurrentOk(t.config, t.content, c.id.n);
    assert Next(t, OpUpsert(c, now)) == UpdateConfig(t, c.id.n, c, now);
    UpdatedMessage(t, c, now, t.config[c.id.n].current.value);
  }

  lemma UpdatedMessage(t: Tables, c: Config, now: int, v: int)
    requires Updatable(t, c) && t.config[c.id.n].current == Some(v)
    requires v in t.content && t.content[v].configId == c.id.n
    ensures var u := UpdateConfig(t, c.id.n, c, now);
            var before := GetVersion(t, c.id.n, v).value;
            if c.content.None?
            then GetVersion(u, c.id.n, v) == Found(before.(acls := Recognised(c.acls), updatedAt := now))
            else GetVersion(u, c.id.n, t.lastInode + 1)
                 == Found(before.(acls := Recognised(c.acls), updatedAt := now, content := c.content,
                                  contentSize := c.contentSize, currentContentId := Num(t.lastInode + 1)))
  {
    LoadReplaced(t.configAcl, c.id.n, c.acls, c.id.n);
  }

  /** A read with a version named and one without agree on the current version. */
  lemma CurrentIsDefault(t: Tables, c: int)
    requires Inv(t) && c in t.config
    ensures GetConfigByID(t, Num(c), true, NoId) == GetConfigByID(t, Num(c), true, ConfigMessage(t, c).currentContentId)
    ensures GetConfigByID(t, Num(c), true, NoId).Found?
  {
    assert CurrentOk(t.config, t.content, c);
  }

  /** A created directory reads back at the composed path, with the recognised entries supplied. */
  lemma CreateDirectoryThenGet(t: Tables, parent: string, name: string, acls: seq<ConfigAcl>) returns (id: int)
    requires Inv(t) && Creatable(t, parent, name)
    ensures CleanParts(ComposedPath(parent, name)) != []
    ensures var d, ks := GetDirectoryByID(Next(t, OpCreateDirectory(parent, name, acls)), Num(id)), CleanParts(ComposedPath(parent, name));
            && id > t.lastInode
            && d.Found? && d.value.id == Num(id) && d.value.acls == Recognised(acls)
            && d.value.directories == [] && d.value.configs == []
            && d.value.FullPath() == ComposedPath(parent, name)
            && d.value.name == ks[|ks| - 1] && d.value.path == FullOf(ks[..|ks| - 1])
  {
    var full := ComposedPath(parent, name);
    var ks := CleanParts(full);
    var u := Next(t, OpCreateDirectory(parent, name, acls));
    CleanPartsComponents(full);
    EnsuredExactly(t, ks, |ks|, acls);
    LeafIsLastPrefix(u.directory, full, ks);
    assert forall d :: d in t.directory ==> RowPath(t.directory[d]) != full;
    id :| id in u.directory && RowPath(u.directory[id]) == full;
    assert NewIsMissingPrefix(t, u, ks, |ks|, acls, id);
    assert DirectoryOk(u.directory, id);
    CanonicalRoundTrip(full);
    RowAtPath(u.directory[id], ks);
  }

  lemma LeafIsLastPrefix(dirs: DirectoryTable, full: string, ks: seq<string>)
    requires Canonical(full) && full != "/" && ks == CleanParts(full) && HasPrefixes(dirs, ks, |ks|)
    ensures IsDirectory(dirs, full)
  {
    CanonicalRoundTrip(full);
    assert ks[..|ks|] == ks;
  }

  /** Replaced entries read back as the recognised ones; name and path stay. */
  lemma UpdateDirectoryThenGet(t: Tables, id: int, name: string, path: string, acls: seq<ConfigAcl>)
    requires Step(t, OpUpdateDirectory(Num(id), name, path, acls)).Some?
    ensures GetDirectoryByID(Next(t, OpUpdateDirectory(Num(id), name, path, acls)), Num(id))
         == Found(DirectoryMessage(t, id).(acls := Recognised(acls)))
  {
    LoadReplaced(t.directoryAcl, id, acls, id);
  }

  /** What a directory grants after its entries were replaced is what the supplied entries grant, unless
      they were all unrecognised; then it is open where they were closed. */
  lemma UpdatedDirectoryGrants(t: Tables, id: int, name: string, path: string, acls: seq<ConfigAcl>, tags: seq<string>, required: int)
    requires Step(t, OpUpdateDirectory(Num(id), name, path, acls)).Some?
    ensures var d := DirectoryMessage(Next(t, OpUpdateDirectory(Num(id), name, path, acls)), id);
            d.Allows(tags, required) == if acls != [] && Recognised(acls) == [] then true else DirectoryGrants(acls, tags, required)
  {
    UpdateDirectoryThenGet(t, id, name, path, acls);
    DirectoryGrantsSurviveStorage(acls, tags, required);
  }

  // ---------------------------------------------------------------- reads without content

  /** Without content a read answers the same message, size included, less the bytes; the version asked
      for then plays no part. */
  lemma SameWithoutContent(t: Tables, c: int, version: Id)
    requires Inv(t) && c in t.config
    ensures GetConfigByID(t, Num(c), true, NoId).Found?
    ensures GetConfigByID(t, Num(c), false, version) == Found(GetConfigByID(t, Num(c), true, NoId).value.(content := None))
  {
    assert CurrentOk(t.config, t.content, c);
  }

  /** The size a read or a listing gives is that of the last version written. */
  lemma SizeIsLatest(t: Tables, c: int)
    requires Inv(t) && c in t.config
    ensures Log(t, c) != [] && ConfigMessage(t, c).contentSize == Log(t, c)[|Log(t, c)| - 1].size
  {
    assert CurrentOk(t.config, t.content, c);
    CurrentIsLatest(t, c);
  }

  /** A created config answers, without its content, with everything else that was supplied. */
  lemma CreateThenSee(t: Tables, c: Config, now: int)
    requires Inv(t) && Insertable(t, c)
    ensures var u, id := Next(t, OpUpsert(c, now)), t.lastInode + 1;
            GetConfigByID(u, Num(id), false, NoId) ==
              Found(Config(Num(id), c.name, c.path, Recognised(c.acls), None, c.contentSize, Num(id + 1), now, now))
  {
    CreateThenGet(t, c, now);
    InsertConfigInv(t, c, now);
    SameWithoutContent(InsertConfig(t, c, c.content.value, now), t.lastInode + 1, NoId);
  }

  /** So does an updated one, with its size as before when no content was sent. */
  lemma UpdateThenSee(t: Tables, c: Config, now: int)
    requires Inv(t) && Updatable(t, c)
    ensures var before := GetConfigByID(t, c.id, false, NoId);
            && before.Found?
            && GetConfigByID(Next(t, OpUpsert(c, now)), c.id, false, NoId)
               == Found(if c.content.None?
                        then before.value.(acls := Recognised(c.acls), updatedAt := now)
                        else before.value.(acls := Recognised(c.acls), updatedAt := now,
                                           contentSize := c.contentSize, currentContentId := Num(t.lastInode + 1)))
  {
    UpdateThenGet(t, c, now);
    UpdateConfigInv(t, c, now);
    SameWithoutContent(t, c.id.n, NoId);
    SameWithoutContent(UpdateConfig(t, c.id.n, c, now), c.id.n, NoId);
  }

  // ---------------------------------------------------------------- exactly when a transaction commits

  /** A directory's entries are replaced exactly when it exists and the name and the path sent, if any,
      are the ones a read answers with. */
  lemma UpdateDirectoryCommitsIff(t: Tables, id: Id, name: string, path: string, acls: seq<ConfigAcl>)
    ensures Step(t, OpUpdateDirectory(id, name, path, acls)).Some? <==>
              var d := GetDirectoryByID(t, id);
              d.Found? && (name == "" || name == d.value.name) && (path == "" || path == d.value.path)
  {
  }

  /** Sending back what a read answered always commits. */
  lemma SendingBackCommits(t: Tables, id: Id, acls: seq<ConfigAcl>)
    requires GetDirectoryByID(t, id).Found?
    ensures var d := GetDirectoryByID(t, id).value;
            Step(t, OpUpdateDirectory(d.id, d.name, d.path, acls)).Some?
  {
    UpdateDirectoryCommitsIff(t, id, GetDirectoryByID(t, id).value.name, GetDirectoryByID(t, id).value.path, acls);
  }

  /** A directory is created exactly when the trimmed name is not empty, splitting, trimming and joining
      the composed path give it back, and no directory reads back with that full path. */
  lemma CreateDirectoryCommitsIff(t: Tables, parent: string, name: string, acls: seq<ConfigAcl>, full: string)
    requires full == (if parent == "" || parent == "/" then "" else parent) + "/" + TrimSpace(name)
    ensures Step(t, OpCreateDirectory(parent, name, acls)).Some? <==>
              && TrimSpace(name) != "" && full == "/" + Join(CleanParts(full))
              && forall d :: GetDirectoryByID(t, d).Found? ==> GetDirectoryByID(t, d).value.FullPath() != full
  {
    CanonicalRoundTrip(full);
    if IsDirectory(t.directory, full) {
      var d :| d in t.directory && RowPath(t.directory[d]) == full;
      assert GetDirectoryByID(t, Num(d)).Found?;
    }
  }

  /** The directory of a config: the root under either name, or one that reads back at the path. */
  lemma PlaceIff(t: Tables, p: string)
    ensures IsPlace(t.directory, p) <==>
              p == "" || p == "/" || exists d :: GetDirectoryByID(t, d).Found? && GetDirectoryByID(t, d).value.FullPath() == p
  {
    if IsDirectory(t.directory, p) {
      var d :| d in t.directory && RowPath(t.directory[d]) == p;
      assert GetDirectoryByID(t, Num(d)).Found?;
    }
  }

  /** An Upsert with an id commits exactly when the config exists and name and path are the ones a read
      answers with; then it is an update of that config. */
  lemma UpdateCommitsIff(t: Tables, c: Config, now: int)
    requires Inv(t) && c.id != NoId
    ensures Step(t, OpUpsert(c, now)).Some? <==>
              var before := GetConfigByID(t, c.id, false, NoId);
              before.Found? && before.value.name == c.name && before.value.path == c.path
    ensures Step(t, OpUpsert(c, now)).Some? <==> Updatable(t, c)
  {
  }

  /** An Upsert without an id commits exactly when content was sent, the directory exists and no config
      reads back with the same path and name. */
  lemma CreateCommitsIff(t: Tables, c: Config, now: int)
    requires Inv(t) && c.id == NoId
    ensures Step(t, OpUpsert(c, now)).Some? <==>
              && c.content.Some? && IsPlace(t.directory, c.path)
              && forall d :: GetConfigByID(t, d, false, NoId).Found? ==>
                   !(GetConfigByID(t, d, false, NoId).value.path == c.path && GetConfigByID(t, d, false, NoId).value.name == c.name)
    ensures Step(t, OpUpsert(c, now)).Some? <==> Insertable(t, c)
  {
    if NameTaken(t, c.path, c.name) {
      var d :| d in t.config && t.config[d].path == c.path && t.config[d].name == c.name;
      assert GetConfigByID(t, Num(d), false, NoId).Found?;
    }
  }

  /** After a delete neither the config nor any of its versions reads back, and an unknown id deletes
      nothing. */
  lemma DeleteThenGet(t: Tables, c: int, version: Id)
    requires Inv(t)
    ensures Step(t, OpDelete(Num(c))).Some?
    ensures GetConfigByID(Next(t, OpDelete(Num(c))), Num(c), false, version) == Absent
    ensures forall v :: v in t.content && t.content[v].configId == c ==> v !in Next(t, OpDelete(Num(c))).content
    ensures LoadAcls(Next(t, OpDelete(Num(c))).configAcl, c) == []
    ensures c !in t.config ==> Next(t, OpDelete(Num(c))).config == t.config && Next(t, OpDelete(Num(c))).content == t.content
  {
    LoadRemaining(t.configAcl, c, c);
    var u := Next(t, OpDelete(Num(c)));
    if c !in t.config {
      assert u.config == t.config;
      assert forall v :: v in t.content ==> t.content[v].configId != c;
      assert u.content == t.content;
    }
  }
}
