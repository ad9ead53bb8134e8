/** Writing to a config through the mount: read the current content, splice, write a new version. */
module FileWrite {
  import opened Messages
  import opened Tables
  import opened StoreSpec
  import opened StoreInvariant
  import opened Access
  import opened Versions
  import opened Handlers
  import opened Listing
  import opened Protection

  // ---------------------------------------------------------------- the splice

  /** The content with data laid over it at the offset; a gap is filled with zeros. */
  ghost function Spliced(content: Bytes, offset: nat, data: Bytes): (r: Bytes)
    ensures |r| == if offset + |data| > |content| then offset + |data| else |content|
    ensures forall i :: 0 <= i < |r| ==>
              r[i] == if offset <= i < offset + |data| then data[i - offset] else if i < |content| then content[i] else 0
  {
    seq(if offset + |data| > |content| then offset + |data| else |content|,
        i requires 0 <= i =>
          if offset <= i < offset + |data| then data[i - offset] else if i < |content| then content[i] else 0)
  }

  /** The buffer work of Config.Write: grow when the write ends beyond the content, then copy in place. */
  method SpliceInto(content: Bytes, offset: nat, data: Bytes) returns (spliced: Bytes)
    ensures spliced == Spliced(content, offset, data)
  {
    var end := offset + |data|;
    var size := if end > |content| then end else |content|;
    var buffer := new byte[size](_ => 0);
    for i := 0 to |content|
      invariant forall k :: 0 <= k < i ==> buffer[k] == content[k]
      invariant forall k :: i <= k < size ==> buffer[k] == 0
    {
      buffer[i] := content[i];
    }
    for i := 0 to |data|
      invariant forall k :: 0 <= k < size ==>
                  buffer[k] == if offset <= k < offset + i then data[k - offset] else if k < |content| then content[k] else 0
    {
      buffer[offset + i] := data[i];
    }
    return buffer[..];
  }

  /** Writing at the end appends. */
  lemma SpliceAtEnd(content: Bytes, data: Bytes)
    ensures Spliced(content, |content|, data) == content + data
  {
  }

  /** Within the content data replaces what was there; beyond its end the gap is zeros. */
  lemma SpliceCases(content: Bytes, offset: nat, data: Bytes)
    ensures offset + |data| <= |content| ==>
              Spliced(content, offset, data) == content[..offset] + data + content[offset + |data|..]
    ensures offset <= |content| < offset + |data| ==> Spliced(content, offset, data) == content[..offset] + data
    ensures offset > |content| && data != [] ==>
              exists gap :: Spliced(content, offset, data) == content + gap + data
                            && |gap| == offset - |content| && forall i :: 0 <= i < |gap| ==> gap[i] == 0
  {
    if offset > |content| {
      var gap: Bytes := seq(offset - |content|, _ => 0);
      assert Spliced(content, offset, data) == content + gap + data;
    }
  }

  // ---------------------------------------------------------------- one write

  /** The caller may read and write the config through the service. */
  ghost predicate MayReadWrite(t: Tables, c: int, tags: seq<string>) {
    Visible(t, c, tags) && HoldsWrite(t, c, tags) && PlaceGrantsWrite(t, t.config[c].path, tags)
  }

  ghost function CurrentContent(t: Tables, c: int): Bytes
    requires Inv(t) && c in t.config
  {
    assert CurrentOk(t.config, t.content, c);
    t.content[t.config[c].current.value].content
  }

  /** What the client sends back: the config as read, with the spliced content and its length. */
  ghost function WriteBack(full: Config, offset: nat, data: Bytes): Config
    requires full.content.Some?
  {
    var content := Spliced(full.content.value, offset, data);
    full.(content := Some(content), contentSize := |content|)
  }

  /** The tables after one write by a caller, and how SetConfig answered it. */
  ghost function Written(t: Tables, allowed: set<string>, tags: seq<string>, id: Id, offset: nat, data: Bytes, now: int): (Tables, Status) {
    if CanGetConfig(t, id, tags) then
      RunAlone(t, allowed, Start(SetConfig(Some(WriteBack(GetConfigByID(t, id, true, NoId).value, offset, data)), now), tags))
    else (t, PermissionDenied)
  }

  lemma {:induction false} TraversableFrame(t: Tables, u: Tables, p: string, tags: seq<string>)
    requires t.directory == u.directory && t.directoryAcl == u.directoryAcl
    ensures Traversable(t, p, tags) <==> Traversable(u, p, tags)
    decreases |p|
  {
    forall id | id in t.directory && |t.directory[id].path| < |p|
      ensures Traversable(t, t.directory[id].path, tags) <==> Traversable(u, t.directory[id].path, tags)
    {
      TraversableFrame(t, u, t.directory[id].path, tags);
    }
  }

  /** Reading a visible config gives its current content. */
  lemma ReadsCurrent(t: Tables, c: int, tags: seq<string>)
    requires Inv(t) && Visible(t, c, tags)
    ensures CanGetConfig(t, Num(c), tags)
    ensures GetConfigByID(t, Num(c), true, NoId).value
         == ConfigMessage(t, c).(content := Some(CurrentContent(t, c)), contentSize := t.content[t.config[c].current.value].size)
  {
    assert CurrentOk(t.config, t.content, c);
    ChainDecidesRule(t, t.config[c].path, tags);
  }

  /** A permitted SetConfig of an existing config is its update. */
  lemma PermittedUpdate(t: Tables, allowed: set<string>, tags: seq<string>, conf: Config, now: int)
    requires Inv(t) && Updatable(t, conf) && HoldsWrite(t, conf.id.n, tags) && PlaceGrantsWrite(t, conf.path, tags)
    ensures RunAlone(t, allowed, Start(SetConfig(Some(conf), now), tags)) == (UpdateConfig(t, conf.id.n, conf, now), OK)
  {
    RunsAlone(t, allowed, SetConfig(Some(conf), now), tags);
  }

  /** An update with the entries as loaded keeps the entries. */
  lemma UpdateKeepsAcls(t: Tables, c: int, conf: Config, now: int)
    requires Inv(t) && c in t.config && conf.acls == LoadAcls(t.configAcl, c)
    ensures LoadAcls(UpdateConfig(t, c, conf, now).configAcl, c) == LoadAcls(t.configAcl, c)
  {
    LoadReplaced(t.configAcl, c, conf.acls, c);
    LoadedRecognised(t.configAcl, c);
  }

  /** One more version, at the end of the log, and it is the current content. */
  lemma UpdateAppends(t: Tables, c: int, conf: Config, now: int)
    requires Inv(t) && Updatable(t, conf) && conf.id == Num(c) && conf.content.Some?
    ensures var u := UpdateConfig(t, c, conf, now);
            && Inv(u) && Log(u, c) == Log(t, c) + [Version(conf.content.value, conf.contentSize)]
            && CurrentContent(u, c) == conf.content.value
  {
    var u := UpdateConfig(t, c, conf, now);
    UpdateConfigInv(t, conf, now);
    AppendedLog(t.content, t.lastInode, u.lastInode, ContentRow(c, conf.content.value, conf.contentSize, now, now), c);
  }

  /** One write: the spliced content becomes the current version, sized by its length; earlier versions
      stay, and the caller's rights and the config's place are as before. */
  lemma WriteEffect(t: Tables, allowed: set<string>, tags: seq<string>, c: int, offset: nat, data: Bytes, now: int)
    requires Inv(t) && MayReadWrite(t, c, tags)
    ensures var (u, status) := Written(t, allowed, tags, Num(c), offset, data, now);
            var content := Spliced(CurrentContent(t, c), offset, data);
            && status == OK && Inv(u) && MayReadWrite(u, c, tags)
            && CurrentContent(u, c) == content
            && Log(u, c) == Log(t, c) + [Version(content, |content|)]
  {
    ReadsCurrent(t, c, tags);
    var conf := WriteBack(GetConfigByID(t, Num(c), true, NoId).value, offset, data);
    assert IsPlace(t.directory, t.config[c].path);
    PermittedUpdate(t, allowed, tags, conf, now);
    UpdateAppends(t, c, conf, now);
    UpdateKeepsAcls(t, c, conf, now);
    TraversableFrame(t, UpdateConfig(t, c, conf, now), t.config[c].path, tags);
    PlaceGrantsFrame(t, UpdateConfig(t, c, conf, now), t.config[c].path, tags);
  }

  lemma PlaceGrantsFrame(t: Tables, u: Tables, p: string, tags: seq<string>)
    requires t.directory == u.directory && t.directoryAcl == u.directoryAcl
    ensures PlaceGrantsWrite(t, p, tags) <==> PlaceGrantsWrite(u, p, tags)
  {
  }

  // ---------------------------------------------------------------- consecutive chunks

  ghost function Concat(chunks: seq<Bytes>): Bytes {
    if chunks == [] then [] else Concat(chunks[..|chunks| - 1]) + chunks[|chunks| - 1]
  }

  /** The tables after the chunks are written one after the other, each at its own time and where the
      one before ended. */
  ghost function WrittenAll(t: Tables, allowed: set<string>, tags: seq<string>, c: int, chunks: seq<Bytes>, times: seq<int>): Tables
    requires |times| == |chunks|
    decreases |chunks|
  {
    if chunks == [] then t
    else
      var n := |chunks| - 1;
      var before := WrittenAll(t, allowed, tags, c, chunks[..n], times[..n]);
      Written(before, allowed, tags, Num(c), |Concat(chunks[..n])|, chunks[n], times[n]).0
  }

  /** The versions consecutive writes leave behind: what had been written after each of them. */
  ghost function Stages(chunks: seq<Bytes>): seq<Version>
    decreases |chunks|
  {
    if chunks == [] then []
    else Stages(chunks[..|chunks| - 1]) + [Version(Concat(chunks), |Concat(chunks)|)]
  }

  /** Chunked writes compose: into an empty config, any partition of a byte string leaves its
      concatenation as the current content and every intermediate content as an older version. */
  lemma {:induction false} ChunksCompose(t: Tables, allowed: set<string>, tags: seq<string>, c: int, chunks: seq<Bytes>, times: seq<int>)
    requires Inv(t) && MayReadWrite(t, c, tags) && CurrentContent(t, c) == [] && |times| == |chunks|
    ensures var u := WrittenAll(t, allowed, tags, c, chunks, times);
            && Inv(u) && MayReadWrite(u, c, tags)
            && CurrentContent(u, c) == Concat(chunks)
            && Log(u, c) == Log(t, c) + Stages(chunks)
    decreases |chunks|
  {
    if chunks != [] {
      var n := |chunks| - 1;
      ChunksCompose(t, allowed, tags, c, chunks[..n], times[..n]);
      var before := WrittenAll(t, allowed, tags, c, chunks[..n], times[..n]);
      WriteEffect(before, allowed, tags, c, |Concat(chunks[..n])|, chunks[n], times[n]);
      SpliceAtEnd(Concat(chunks[..n]), chunks[n]);
    }
  }
}
