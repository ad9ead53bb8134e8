/** Deleting directories: what a success implies, what it removes, and when an empty directory is
    refused all the same. */
module Deletion {
  import opened Paths
  import opened SqlLike
  import opened Messages
  import opened Tables
  import opened StoreSpec
  import opened StoreInvariant
  import opened Protection

  /** Success means the directory was empty, by either encoding of the tree, and removes its row and
      its entries and nothing else. */
  lemma DeleteRemovesOnly(t: Tables, id: Id)
    requires Inv(t) && DeleteDirectory(t, id).Some?
    ensures Vacant(t, id.n)
    ensures var u := DeleteDirectory(t, id).value;
            && OnlyDirectories(t, u) && u.lastInode == t.lastInode
            && u.directory.Keys == t.directory.Keys - {id.n}
            && (forall d :: d in u.directory ==> SameDirectory(t, u, d))
            && LoadAcls(u.directoryAcl, id.n) == []
  {
    DeletedWasVacant(t, id);
    forall d
      ensures LoadAcls(WithoutOwner(t.directoryAcl, id.n), d) == if d == id.n then [] else LoadAcls(t.directoryAcl, d)
    {
      LoadRemaining(t.directoryAcl, id.n, d);
    }
  }

  /** A directory is deleted exactly when it is empty and, besides, no config path anywhere matches its
      path as a LIKE prefix. */
  lemma DeletesIff(t: Tables, id: int)
    requires Inv(t) && id in t.directory
    ensures DeleteDirectory(t, Num(id)).Some?
       <==> Vacant(t, id) && forall c :: c in t.config ==> !Like(t.config[c].path, RowPath(t.directory[id]) + "/%")
  {
    if DeleteDirectory(t, Num(id)).Some? {
      DeletedWasVacant(t, Num(id));
    }
  }

  /** For a path without '%', that is: no config lies under a path that agrees with it character by
      character, up to ASCII case and with '_' in it for any character. */
  lemma PlainPathDeletesIff(t: Tables, id: int)
    requires Inv(t) && id in t.directory && '%' !in RowPath(t.directory[id])
    ensures DeleteDirectory(t, Num(id)).Some?
       <==> Vacant(t, id) && forall c :: c in t.config ==> !PrefixMatches(t.config[c].path, RowPath(t.directory[id]) + "/")
  {
    var full := RowPath(t.directory[id]);
    DeletesIff(t, id);
    forall c | c in t.config
      ensures Like(t.config[c].path, full + "/%") <==> PrefixMatches(t.config[c].path, full + "/")
    {
      LikeExactly(t.config[c].path, full + "/");
      assert (full + "/") + "%" == full + "/%";
    }
  }

  // ---------------------------------------------------------------- an empty directory that is refused

  lemma TopPath(name: string, full: string)
    requires IsComponent(name) && full == "/" + name
    ensures full == FullOf([name]) && Canonical(full) && CleanParts(full) == [name]
  {
    assert Components([name]);
    assert Join([name]) == name;
    PartsOfFull([name]);
  }

  lemma SubPath(a: string, b: string, full: string)
    requires IsComponent(a) && IsComponent(b) && full == ("/" + a) + "/" + b
    ensures full == FullOf([a, b]) && Canonical(full) && CleanParts(full) == [a, b]
  {
    assert Components([a, b]);
    JoinSnoc([a], b);
    assert [a] + [b] == [a, b] && Join([a]) == a;
    assert "/" + (a + "/" + b) == full;
    PartsOfFull([a, b]);
  }

  /** Creating one top-level directory in a state without it. */
  lemma CreateTop(t: Tables, root: string, name: string)
    requires Inv(t) && IsRoot(root) && IsComponent(name) && !IsDirectory(t.directory, "/" + name)
    ensures var u := Next(t, OpCreateDirectory(root, name, []));
            && Inv(u) && IsDirectory(u.directory, "/" + name) && OnlyDirectories(t, u) && KeepsDirectories(t, u)
            && forall d :: d in u.directory && d !in t.directory ==> RowPath(u.directory[d]) == "/" + name
  {
    TopPath(name, "/" + name);
    assert ComposedPath(root, name) == "/" + name;
    StepInv(t, OpCreateDirectory(root, name, []));
    CreateAddsPrefixes(t, root, name, []);
    var u := Next(t, OpCreateDirectory(root, name, []));
    assert [name][..1] == [name] && FullOf([name]) == "/" + name;
    forall d | d in u.directory && d !in t.directory
      ensures RowPath(u.directory[d]) == "/" + name
    {
      assert NewIsMissingPrefix(t, u, [name], 1, [], d);
    }
  }

  /** Creating one directory below an existing top-level one. */
  lemma CreateSub(t: Tables, parent: string, top: string, name: string)
    requires Inv(t) && IsComponent(top) && parent == "/" + top && IsComponent(name)
    requires IsDirectory(t.directory, parent) && !IsDirectory(t.directory, parent + "/" + name)
    ensures var u := Next(t, OpCreateDirectory(parent, name, []));
            && Inv(u) && IsDirectory(u.directory, parent + "/" + name) && OnlyDirectories(t, u) && KeepsDirectories(t, u)
            && forall d :: d in u.directory && d !in t.directory ==> RowPath(u.directory[d]) == parent + "/" + name
  {
    SubPath(top, name, parent + "/" + name);
    assert ComposedPath(parent, name) == parent + "/" + name;
    StepInv(t, OpCreateDirectory(parent, name, []));
    CreateAddsPrefixes(t, parent, name, []);
    var u, ks := Next(t, OpCreateDirectory(parent, name, [])), [top, name];
    TopPath(top, parent);
    PartsOfFull([top]);
    assert ks[..1] == [top] && ks[..2] == ks && FullOf([top]) == parent;
    CanonicalRoundTrip(parent + "/" + name);
    forall d | d in u.directory && d !in t.directory
      ensures RowPath(u.directory[d]) == parent + "/" + name
    {
      assert NewIsMissingPrefix(t, u, ks, 2, [], d);
    }
  }

  /** The directories are /x, /y and /y/z, and there are no configs. */
  ghost predicate ThreeDirectories(t: Tables, x: string, y: string, z: string) {
    && t.config == map[]
    && IsDirectory(t.directory, "/" + x) && IsDirectory(t.directory, "/" + y + "/" + z)
    && forall d :: d in t.directory ==>
         RowPath(t.directory[d]) == "/" + x || RowPath(t.directory[d]) == "/" + y || RowPath(t.directory[d]) == "/" + y + "/" + z
  }

  lemma ThreeReachable(root: string, x: string, y: string, z: string) returns (t: Tables)
    requires IsRoot(root) && IsComponent(x) && IsComponent(y) && IsComponent(z) && x != y
    ensures Reachable(t) && Inv(t) && ThreeDirectories(t, x, y, z)
  {
    EmptyInv();
    EmptyReachable();
    var t1 := Next(EMPTY, OpCreateDirectory(root, x, []));
    CreateTop(EMPTY, root, x);
    ReachableNext(EMPTY, OpCreateDirectory(root, x, []));
    TopPathsDiffer(x, y);
    var t2 := Next(t1, OpCreateDirectory(root, y, []));
    CreateTop(t1, root, y);
    ReachableNext(t1, OpCreateDirectory(root, y, []));
    StillDirectory(t1.directory, t2.directory, "/" + x);
    NotDeeper(x, y, z);
    NotDeeper(y, y, z);
    t := Next(t2, OpCreateDirectory("/" + y, z, []));
    CreateSub(t2, "/" + y, y, z);
    ReachableNext(t2, OpCreateDirectory("/" + y, z, []));
    StillDirectory(t2.directory, t.directory, "/" + x);
  }

  /** A reachable state in which an empty directory cannot be deleted, for names where the path of one
      config matches another directory's path as a LIKE prefix. */
  lemma RefusedThoughEmpty(root: string, x: string, y: string, z: string) returns (t: Tables, id: int)
    requires IsRoot(root) && IsComponent(x) && IsComponent(y) && IsComponent(z) && x != y
    requires Like("/" + y + "/" + z, "/" + x + "/%")
    ensures Reachable(t) && id in t.directory && RowPath(t.directory[id]) == "/" + x
    ensures Vacant(t, id) && DeleteDirectory(t, Num(id)) == None
  {
    var before := ThreeReachable(root, x, y, z);
    id := DirectoryAt(before.directory, "/" + x);
    OnlyThese(before, x, y, z, id);
    t := WithConfigIn(before, "/" + y + "/" + z);
    OneConfigInside(before, t, "/" + y + "/" + z, id, x, y, z);
  }

  /** Creating a config in an existing directory of a store without configs. */
  lemma WithConfigIn(before: Tables, path: string) returns (t: Tables)
    requires Reachable(before) && before.config == map[] && IsDirectory(before.directory, path)
    ensures Reachable(t) && t.directory == before.directory
    ensures t.config.Keys == {before.lastInode + 1} && t.config[before.lastInode + 1].path == path
  {
    var conf := Config(NoId, "f", path, [], Some([]), 0, NoId, 0, 0);
    t := InsertConfig(before, conf, [], 0);
    InsertedReachable(before, conf, []);
    InsertedAlone(before, conf, []);
  }

  lemma InsertedAlone(before: Tables, conf: Config, content: Bytes)
    requires before.config == map[]
    ensures var t, c := InsertConfig(before, conf, content, 0), before.lastInode + 1;
            t.directory == before.directory && t.config.Keys == {c} && t.config[c].path == conf.path
  {
  }

  lemma InsertedReachable(before: Tables, conf: Config, content: Bytes)
    requires Reachable(before) && before.config == map[] && IsDirectory(before.directory, conf.path)
    requires conf.id == NoId && conf.content == Some(content)
    ensures Reachable(InsertConfig(before, conf, content, 0))
  {
    ReachableNext(before, OpUpsert(conf, 0));
    InsertedIntoNone(before, conf);
  }

  lemma InsertedIntoNone(before: Tables, conf: Config)
    requires before.config == map[] && IsDirectory(before.directory, conf.path) && conf.id == NoId && conf.content.Some?
    ensures Next(before, OpUpsert(conf, 0)) == InsertConfig(before, conf, conf.content.value, 0)
  {
    assert Insertable(before, conf);
  }

  lemma OneConfigInside(before: Tables, t: Tables, path: string, id: int, x: string, y: string, z: string)
    requires id in before.directory && RowPath(before.directory[id]) == "/" + x
    requires forall d :: d in before.directory ==> before.directory[d].path != "/" + x && before.directory[d].parentId != Some(id)
    requires IsComponent(x) && IsComponent(y) && IsComponent(z) && x != y
    requires path == "/" + y + "/" + z && Like(path, "/" + x + "/%")
    requires t.directory == before.directory
    requires t.config.Keys == {before.lastInode + 1} && t.config[before.lastInode + 1].path == path
    ensures Vacant(t, id) && DeleteDirectory(t, Num(id)) == None
  {
    NotDeeper(x, y, z);
    BeneathMeansSame(x, y, z);
    assert before.lastInode + 1 in t.config;
  }

  /** Paths of one or two names are equal only when the names are. */
  lemma TopPathsDiffer(x: string, y: string)
    requires x != y
    ensures "/" + x != "/" + y
  {
    assert ("/" + x)[1..] == x && ("/" + y)[1..] == y;
  }

  lemma SubPathsDiffer(a: string, b: string, c: string, d: string)
    requires IsComponent(a) && IsComponent(b) && IsComponent(c) && IsComponent(d) && a != c
    ensures "/" + a + "/" + b != "/" + c + "/" + d
  {
    SubPath(a, b, "/" + a + "/" + b);
    SubPath(c, d, "/" + c + "/" + d);
    assert [a, b][0] != [c, d][0];
    FullOfInjective([a, b], [c, d]);
  }

  lemma NotDeeper(x: string, y: string, z: string)
    requires IsComponent(x) && IsComponent(y) && IsComponent(z)
    ensures "/" + y + "/" + z != "/" + x
  {
    SubPath(y, z, "/" + y + "/" + z);
    TopPath(x, "/" + x);
    assert |[y, z]| != |[x]|;
    FullOfInjective([y, z], [x]);
  }

  lemma BeneathMeansSame(x: string, y: string, z: string)
    requires '/' !in x && '/' !in y
    ensures HasPrefix("/" + y + "/" + z, "/" + x + "/") ==> x == y
  {
    var s, p := "/" + y + "/" + z, "/" + x + "/";
    if p <= s {
      var rest := s[|p|..];
      assert s == p + rest;
      assert s[1..] == y + "/" + z;
      assert (p + rest)[1..] == x + "/" + rest;
      FirstNameUnique(x, rest, y, z);
    }
  }

  /** With directories at /x, /y and /y/z only, nothing lies in /x. */
  lemma OnlyThese(t: Tables, x: string, y: string, z: string, id: int)
    requires Inv(t) && IsComponent(x) && IsComponent(y) && IsComponent(z) && x != y
    requires forall d :: d in t.directory ==>
               RowPath(t.directory[d]) == "/" + x || RowPath(t.directory[d]) == "/" + y || RowPath(t.directory[d]) == "/" + y + "/" + z
    requires id in t.directory && RowPath(t.directory[id]) == "/" + x
    ensures forall d :: d in t.directory ==> t.directory[d].path != "/" + x && t.directory[d].parentId != Some(id)
  {
    forall d | d in t.directory
      ensures t.directory[d].path != "/" + x && t.directory[d].parentId != Some(id)
    {
      assert DirectoryOk(t.directory, d) && DirectoryOk(t.directory, id);
      ChildEncodingsAgree(t.directory, id, d);
      if t.directory[d].path == "/" + x {
        ChildOfX(t.directory[d], x, y, z);
      }
    }
  }

  lemma ChildOfX(r: DirectoryRow, x: string, y: string, z: string)
    requires IsComponent(x) && IsComponent(y) && IsComponent(z) && x != y && IsComponent(r.name) && r.path == "/" + x
    ensures RowPath(r) != "/" + x && RowPath(r) != "/" + y && RowPath(r) != "/" + y + "/" + z
  {
    assert RowPath(r) == "/" + x + "/" + r.name;
    NotDeeper(x, x, r.name);
    NotDeeper(y, x, r.name);
    SubPathsDiffer(x, r.name, y, z);
  }

  /** Deleting any empty directory does not always succeed: /a_b is refused while a config lies in /axb/c. */
  lemma EmptyDirectoryRefused()
    ensures exists t, id :: Reachable(t) && id in t.directory && Vacant(t, id) && DeleteDirectory(t, Num(id)) == None
  {
    LikeOverMatches();
    assert "/" + "axb" + "/" + "c" == "/axb/c" && "/" + "a_b" + "/%" == "/a_b/%";
    var t, id := RefusedThoughEmpty("/", "a_b", "axb", "c");
  }
}
