/** The messages of the service and the access rule their ACL entries state. */
module Messages {
  import opened Paths

  datatype Option<+T> = None | Some(value: T)

  newtype byte = x: int | 0 <= x < 256

  type Bytes = seq<byte>

  ghost predicate NoDuplicates<T>(s: seq<T>) {
    forall i, j :: 0 <= i < j < |s| ==> s[i] != s[j]
  }

  lemma ConsDistinct<T>(x: T, s: seq<T>)
    requires x !in s && NoDuplicates(s)
    ensures NoDuplicates([x] + s)
  {
  }

  lemma SnocDistinct<T>(s: seq<T>, x: T)
    requires x !in s && NoDuplicates(s)
    ensures NoDuplicates(s + [x])
  {
  }

  /** An id field: empty, the decimal form of a number, or anything else. */
  datatype Id = NoId | Num(n: int) | BadId

  /** ACL levels; an entry on the wire may carry any other number. */
  const UNKNOWN_ACL := 0
  const READ := 1
  const WRITE := 2

  datatype ConfigAcl = ConfigAcl(acl: int, tag: string, everyone: bool)

  datatype Config = Config(
    id: Id, name: string, path: string, acls: seq<ConfigAcl>,
    content: Option<Bytes>, contentSize: nat, currentContentId: Id, createdAt: int, updatedAt: int)
  {
    function FullPath(): string {
      path + "/" + name
    }

    /** Deny by default: some entry has to match. */
    predicate Allows(tags: seq<string>, required: int) {
      Grants(acls, tags, required)
    }
  }

  datatype Directory = Directory(
    id: Id, name: string, path: string, acls: seq<ConfigAcl>,
    directories: seq<Directory>, configs: seq<Config>)
  {
    function FullPath(): string {
      if path == "" then "/" else ChildPath(path, name)
    }

    /** No entries: transparent. Otherwise some entry has to match. */
    predicate Allows(tags: seq<string>, required: int) {
      DirectoryGrants(acls, tags, required)
    }
  }

  /** WRITE implies READ; other levels grant nothing and other requests are never granted. */
  predicate AclGrants(have: int, required: int) {
    if required == READ then have == READ || have == WRITE
    else if required == WRITE then have == WRITE
    else false
  }

  predicate EntryMatches(a: ConfigAcl, tags: seq<string>, required: int) {
    AclGrants(a.acl, required) && (a.everyone || (a.tag != "" && a.tag in tags))
  }

  predicate Grants(acls: seq<ConfigAcl>, tags: seq<string>, required: int) {
    exists a :: a in acls && EntryMatches(a, tags, required)
  }

  predicate DirectoryGrants(acls: seq<ConfigAcl>, tags: seq<string>, required: int) {
    acls == [] || Grants(acls, tags, required)
  }

  /** Entries with a recognised level; the only ones the store persists. */
  function Recognised(acls: seq<ConfigAcl>): seq<ConfigAcl> {
    if acls == [] then []
    else (if acls[0].acl == READ || acls[0].acl == WRITE then [acls[0]] else []) + Recognised(acls[1..])
  }

  lemma {:induction false} RecognisedMembers(acls: seq<ConfigAcl>, a: ConfigAcl)
    ensures a in Recognised(acls) <==> a in acls && (a.acl == READ || a.acl == WRITE)
  {
    if acls != [] {
      RecognisedMembers(acls[1..], a);
    }
  }

  lemma {:induction false} RecognisedAgain(acls: seq<ConfigAcl>)
    ensures Recognised(Recognised(acls)) == Recognised(acls)
  {
    if acls != [] {
      RecognisedAgain(acls[1..]);
      var rest := Recognised(acls[1..]);
      if acls[0].acl == READ || acls[0].acl == WRITE {
        assert ([acls[0]] + rest)[1..] == rest;
      } else {
        assert [] + rest == rest;
      }
    }
  }

  /** Dropping unrecognised entries on insert never changes what a config grants. */
  lemma ConfigGrantsSurviveStorage(acls: seq<ConfigAcl>, tags: seq<string>, required: int)
    ensures Grants(Recognised(acls), tags, required) <==> Grants(acls, tags, required)
  {
    forall a
      ensures a in Recognised(acls) && EntryMatches(a, tags, required) <==> a in acls && EntryMatches(a, tags, required)
    {
      RecognisedMembers(acls, a);
    }
  }

  /** It changes what a directory grants exactly when a non-empty list filters to nothing: the
      directory, meant to be closed to everyone, becomes transparent. */
  lemma DirectoryGrantsSurviveStorage(acls: seq<ConfigAcl>, tags: seq<string>, required: int)
    ensures DirectoryGrants(Recognised(acls), tags, required) != DirectoryGrants(acls, tags, required)
       <==> acls != [] && Recognised(acls) == []
    ensures acls != [] && Recognised(acls) == [] ==>
              !DirectoryGrants(acls, tags, required) && DirectoryGrants(Recognised(acls), tags, required)
  {
    ConfigGrantsSurviveStorage(acls, tags, required);
  }

  /** WRITE implies READ. */
  lemma WriteImpliesRead(acls: seq<ConfigAcl>, tags: seq<string>)
    ensures Grants(acls, tags, WRITE) ==> Grants(acls, tags, READ)
    ensures DirectoryGrants(acls, tags, WRITE) ==> DirectoryGrants(acls, tags, READ)
  {
    if Grants(acls, tags, WRITE) {
      var a :| a in acls && EntryMatches(a, tags, WRITE);
      assert EntryMatches(a, tags, READ);
    }
  }

  // ---------------------------------------------------------------- the rule spelled out

  /** READ needs an entry of level 1 or 2, WRITE one of level 2, and the entry has to be for everyone or
      carry one of the caller's tags; nothing else is ever granted. */
  lemma GrantsIff(acls: seq<ConfigAcl>, tags: seq<string>, required: int)
    ensures Grants(acls, tags, 1) <==>
              exists a :: a in acls && (a.acl == 1 || a.acl == 2) && (a.everyone || (a.tag != "" && exists tag :: tag in tags && tag == a.tag))
    ensures Grants(acls, tags, 2) <==>
              exists a :: a in acls && a.acl == 2 && (a.everyone || (a.tag != "" && exists tag :: tag in tags && tag == a.tag))
    ensures required != 1 && required != 2 ==> !Grants(acls, tags, required)
  {
    if Grants(acls, tags, 1) {
      var a :| a in acls && EntryMatches(a, tags, 1);
    }
    if Grants(acls, tags, 2) {
      var a :| a in acls && EntryMatches(a, tags, 2);
    }
    forall a | a in acls && (a.acl == 1 || a.acl == 2) && (a.everyone || (a.tag != "" && a.tag in tags))
      ensures EntryMatches(a, tags, 1)
    {
    }
    forall a | a in acls && a.acl == 2 && (a.everyone || (a.tag != "" && a.tag in tags))
      ensures EntryMatches(a, tags, 2)
    {
    }
  }

  /** A tag opens what an entry names it for. */
  lemma TagOpens(acls: seq<ConfigAcl>, tags: seq<string>, tag: string)
    requires tag != "" && tag in tags
    ensures (exists a :: a in acls && a.acl == READ && a.tag == tag) ==> Grants(acls, tags, READ)
    ensures (exists a :: a in acls && a.acl == WRITE && a.tag == tag) ==> Grants(acls, tags, READ) && Grants(acls, tags, WRITE)
  {
    GrantsIff(acls, tags, READ);
  }

  /** Without an entry for everyone or for one of the tags nothing is open. */
  lemma StrangerRefused(acls: seq<ConfigAcl>, tags: seq<string>, required: int)
    requires forall a :: a in acls ==> !a.everyone && a.tag !in tags
    ensures !Grants(acls, tags, required)
  {
    GrantsIff(acls, tags, required);
  }

  /** A directory without entries is open at every level; one with entries grants what a config with the
      same entries grants. */
  lemma DirectoryGrantsIff(acls: seq<ConfigAcl>, tags: seq<string>, required: int)
    ensures acls == [] ==> DirectoryGrants(acls, tags, required)
    ensures acls != [] ==> (DirectoryGrants(acls, tags, required) <==> Grants(acls, tags, required))
  {
  }

  lemma RecognisedOne(a: ConfigAcl)
    ensures Recognised([a]) == if a.acl == READ || a.acl == WRITE then [a] else []
  {
    assert [a][1..] == [];
  }

  /** The recognised entries keep their order and their number. */
  lemma {:induction false} RecognisedConcat(a: seq<ConfigAcl>, b: seq<ConfigAcl>)
    ensures Recognised(a + b) == Recognised(a) + Recognised(b)
  {
    if a == [] {
      assert a + b == b;
    } else {
      var both := a + b;
      assert both[0] == a[0] && both[1..] == a[1..] + b;
      RecognisedConcat(a[1..], b);
      var head := if a[0].acl == READ || a[0].acl == WRITE then [a[0]] else [];
      assert Recognised(both) == head + Recognised(both[1..]);
      assert Recognised(a) == head + Recognised(a[1..]);
    }
  }
}
