/** The client side: a snapshot refreshed from listings, and the changes made through it. */
module ClientFs {
  import opened Messages
  import opened Listing
  import opened Handlers
  import opened Server
  import opened ClientIndex
  import opened FileWrite

  datatype FsStatus = Done | NoEntry | Rejects(status: Status)

  class FilesystemSnapshot {
    const client: ConfigServer
    const tags: seq<string>
    var pathDirectory: PathIndex
    var idConfig: IdIndex
    var fullPathConfig: ConfigIndex

    constructor (client: ConfigServer, tags: seq<string>)
      ensures this.client == client && this.tags == tags
      ensures pathDirectory == map[] && idConfig == map[] && fullPathConfig == map[]
    {
      this.client, this.tags := client, tags;
      pathDirectory, idConfig, fullPathConfig := map[], map[], map[];
    }

    /** The maps are those of a tree the server builds for the caller from its present state. */
    ghost predicate UpToDate()
      reads this, client.store
    {
      exists tree :: IsTree(tree, client.store.State(), tags, "") && IndexOf(tree, pathDirectory, idConfig, fullPathConfig)
    }

    /** A change that the server made is followed by a refresh; any other answer is passed on. */
    ghost predicate Reports(answer: Status, reachable: bool, status: FsStatus)
      reads this, client.store
    {
      if answer != OK then status == Rejects(answer)
      else if reachable then status == Done && UpToDate()
      else status == Rejects(Internal)
    }

    /** Reloads the tree; when the server cannot be reached the last one stays. */
    method Refresh(reachable: bool) returns (status: FsStatus)
      requires client.store.Valid()
      modifies this
      ensures if reachable then status == Done && UpToDate() else status == Rejects(Internal) && unchanged(this)
    {
      var res := client.List(NoId, tags);
      if !reachable || res.Refused? {
        return Rejects(Internal);
      }
      pathDirectory, idConfig, fullPathConfig := DirectoryMap(res.value.value, map[], map[], map[]);
      assert IsTree(res.value.value, client.store.State(), tags, "");
      return Done;
    }

    /** unlink: the config the snapshot has at the path is deleted by id. */
    method Remove(path: string, reachable: bool) returns (status: FsStatus)
      requires client.store.Valid()
      modifies this, client.store
      ensures client.store.Valid()
      ensures path !in old(fullPathConfig) ==>
                status == NoEntry && client.store.State() == old(client.store.State()) && unchanged(this)
      ensures path in old(fullPathConfig) ==>
                var (u, answer) := RunAlone(old(client.store.State()), client.createAllowedTags,
                                            Start(DeleteConfig(old(fullPathConfig)[path].id), tags));
                client.store.State() == u && Reports(answer, reachable, status)
    {
      if path !in fullPathConfig {
        return NoEntry;
      }
      var answer := client.DeleteConfig(fullPathConfig[path].id, tags);
      if answer != OK {
        return Rejects(answer);
      }
      status := Refresh(reachable);
    }

    /** rmdir: the child with the name is looked up in the cached parent and deleted by id. */
    method Rmdir(parentPath: string, name: string, reachable: bool) returns (status: FsStatus)
      requires client.store.Valid()
      modifies this, client.store
      ensures client.store.Valid()
      ensures var target := if parentPath in old(pathDirectory) then ChildNamed(old(pathDirectory)[parentPath].directories, name) else None;
              if target.None? then
                status == NoEntry && client.store.State() == old(client.store.State()) && unchanged(this)
              else
                var (u, answer) := RunAlone(old(client.store.State()), client.createAllowedTags, Start(DeleteDir(target.value.id), tags));
                client.store.State() == u && Reports(answer, reachable, status)
    {
      if parentPath !in pathDirectory {
        return NoEntry;
      }
      var target := ChildNamed(pathDirectory[parentPath].directories, name);
      if target.None? {
        return NoEntry;
      }
      var answer := client.DeleteDirectory(target.value.id, tags);
      if answer != OK {
        return Rejects(answer);
      }
      status := Refresh(reachable);
    }

    /** Config.Write: the whole content is read, spliced and stored as a new version. */
    method Write(id: Id, offset: nat, data: Bytes, now: int, reachable: bool) returns (status: FsStatus)
      requires client.store.Valid()
      modifies this, client.store
      ensures client.store.Valid()
      ensures id !in old(idConfig) ==> status == Rejects(InvalidArgument) && client.store.State() == old(client.store.State())
      ensures id in old(idConfig) ==>
                var target := old(idConfig)[id].id;
                var (u, answer) := Written(old(client.store.State()), client.createAllowedTags, tags, target, offset, data, now);
                && client.store.State() == u
                && (CanGetConfig(old(client.store.State()), target, tags) ==> Reports(answer, reachable, status))
                && (!CanGetConfig(old(client.store.State()), target, tags) ==>
                      && client.store.State() == old(client.store.State())
                      && (target.Num? ==> status == Rejects(if target.n in old(client.store.config) then PermissionDenied else NoSuchEntry))
                      && status.Rejects?)
    {
      var full := client.GetConfig(if id in idConfig then idConfig[id].id else NoId, None, tags);
      if full.Refused? {
        return Rejects(full.status);
      }
      var content := SpliceInto(full.value.content.value, offset, data);
      var conf := full.value.(content := Some(content), contentSize := |content|);
      var answer, _ := client.SetConfig(Some(conf), now, tags);
      if answer != OK {
        return Rejects(answer);
      }
      status := Refresh(reachable);
    }
  }
}
