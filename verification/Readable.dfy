/** readableDirectories: the bulk computation of which directories a caller may walk. */
module Readable {
  import opened Paths
  import opened Messages

  /** The directories a caller's tags open, as the recursive rule over a list: the root is open, and a
      listed directory is when it grants READ and its own parent path is open. */
  ghost predicate OpenIn(ds: seq<Directory>, p: string, tags: seq<string>)
    decreases |p|
  {
    p == "" || p == "/"
    || exists d :: d in ds && d.FullPath() == p && |d.path| < |p| && d.Allows(tags, READ) && OpenIn(ds, d.path, tags)
  }

  ghost predicate ParentListed(ds: seq<Directory>, d: Directory) {
    d.path == "/" || exists e :: e in ds && e.FullPath() == d.path
  }

  /** A list that is closed under taking parents and has one directory per full path. */
  ghost predicate AncestorClosed(ds: seq<Directory>) {
    && (forall d :: d in ds ==> d.path != "" && |d.path| < |d.FullPath()| && d.FullPath() != "/")
    && (forall d {:trigger ParentListed(ds, d)} :: d in ds ==> ParentListed(ds, d))
    && (forall d, e :: d in ds && e in ds && d.FullPath() == e.FullPath() ==> d == e)
  }

  lemma OpenAt(ds: seq<Directory>, d: Directory, tags: seq<string>)
    requires AncestorClosed(ds) && d in ds
    ensures OpenIn(ds, d.FullPath(), tags) <==> d.Allows(tags, READ) && OpenIn(ds, d.path, tags)
  {
    assert d.FullPath() != "";
  }

  // ---------------------------------------------------------------- shallowest first

  function Depth(d: Directory): nat {
    CountSlashes(d.FullPath())
  }

  predicate ByDepth(ds: seq<Directory>) {
    |ds| <= 1 || (Depth(ds[0]) <= Depth(ds[1]) && ByDepth(ds[1..]))
  }

  function InsertByDepth(d: Directory, ds: seq<Directory>): (r: seq<Directory>)
    ensures |r| == |ds| + 1 && (r[0] == d || (ds != [] && r[0] == ds[0]))
    ensures forall e :: e in r <==> e == d || e in ds
  {
    if ds == [] || Depth(d) <= Depth(ds[0]) then [d] + ds
    else [ds[0]] + InsertByDepth(d, ds[1..])
  }

  /** slices.SortFunc on the slash count. Only what its contract says is relied on: the same
      directories, no deeper one before a shallower one. Ties may come in any order. */
  method SortByDepth(ds: seq<Directory>) returns (sorted: seq<Directory>)
    ensures forall d :: d in sorted <==> d in ds
    ensures ByDepth(sorted)
  {
    sorted := [];
    for i := 0 to |ds|
      invariant ByDepth(sorted)
      invariant forall d :: d in sorted <==> d in ds[..i]
    {
      InsertKeepsDepth(ds[i], sorted);
      sorted := InsertByDepth(ds[i], sorted);
      assert ds[..i + 1] == ds[..i] + [ds[i]];
    }
    assert ds[..|ds|] == ds;
  }

  lemma {:induction false} InsertKeepsDepth(d: Directory, ds: seq<Directory>)
    requires ByDepth(ds)
    ensures ByDepth(InsertByDepth(d, ds))
  {
    if ds == [] || Depth(d) <= Depth(ds[0]) {
      assert ([d] + ds)[1..] == ds;
    } else {
      InsertKeepsDepth(d, ds[1..]);
      assert InsertByDepth(d, ds)[1..] == InsertByDepth(d, ds[1..]);
    }
  }

  lemma {:induction false} HeadShallowest(ds: seq<Directory>, j: nat)
    requires ByDepth(ds) && j < |ds|
    ensures Depth(ds[0]) <= Depth(ds[j])
  {
    if j > 0 {
      var rest := ds[1..];
      assert rest[0] == ds[1] && rest[j - 1] == ds[j];
      HeadShallowest(rest, j - 1);
    }
  }

  lemma {:induction false} DepthOrder(ds: seq<Directory>, i: nat, j: nat)
    requires ByDepth(ds) && i <= j < |ds|
    ensures Depth(ds[i]) <= Depth(ds[j])
  {
    if i == 0 {
      HeadShallowest(ds, j);
    } else {
      var rest := ds[1..];
      assert ByDepth(rest);
      assert rest[i - 1] == ds[i] && rest[j - 1] == ds[j];
      DepthOrder(rest, i - 1, j - 1);
    }
  }

  /** A parent is shallower than its child, so it comes earlier. */
  lemma ParentComesFirst(ds: seq<Directory>, i: nat)
    requires AncestorClosed(ds) && ByDepth(ds) && i < |ds| && ds[i].path != "/"
    ensures exists j :: 0 <= j < i && ds[j].FullPath() == ds[i].path
  {
    assert ds[i] in ds && ParentListed(ds, ds[i]);
    var e :| e in ds && e.FullPath() == ds[i].path;
    var j :| 0 <= j < |ds| && ds[j] == e;
    ChildDeeper(e, ds[i]);
    if j >= i {
      DepthOrder(ds, i, j);
    }
  }

  lemma ChildDeeper(e: Directory, d: Directory)
    requires d.path != "" && d.path != "/" && e.FullPath() == d.path
    ensures Depth(e) < Depth(d)
  {
    CountSlashesConcat(d.path, "/" + d.name);
    assert d.FullPath() == d.path + ("/" + d.name);
  }

  // ---------------------------------------------------------------- the fold

  /** A key the map lacks reads as false. */
  predicate Lookup(m: map<string, bool>, p: string) {
    p in m && m[p]
  }

  /** What is known once the first i directories are folded in. */
  ghost predicate FoldedUpTo(ds: seq<Directory>, i: nat, readable: map<string, bool>, tags: seq<string>)
    requires i <= |ds|
  {
    && Lookup(readable, "") && Lookup(readable, "/")
    && (forall j :: 0 <= j < i ==> ds[j].FullPath() in readable)
    && (forall p :: p in readable && p != "" && p != "/" ==> exists j :: 0 <= j < i && ds[j].FullPath() == p)
    && (forall p :: p in readable ==> (readable[p] <==> OpenIn(ds, p, tags)))
  }

  lemma ParentKnown(ds: seq<Directory>, i: nat, readable: map<string, bool>, tags: seq<string>)
    requires AncestorClosed(ds) && ByDepth(ds) && i < |ds| && FoldedUpTo(ds, i, readable, tags)
    ensures ds[i].path in readable
  {
    if ds[i].path != "/" {
      ParentComesFirst(ds, i);
    }
  }

  lemma FoldStep(ds: seq<Directory>, i: nat, readable: map<string, bool>, tags: seq<string>)
    requires AncestorClosed(ds) && ByDepth(ds) && i < |ds| && FoldedUpTo(ds, i, readable, tags)
    ensures var d := ds[i];
            FoldedUpTo(ds, i + 1, readable[d.FullPath() := Lookup(readable, d.path) && d.Allows(tags, READ)], tags)
  {
    var d := ds[i];
    ParentKnown(ds, i, readable, tags);
    assert d in ds;
    OpenAt(ds, d, tags);
    var verdict := Lookup(readable, d.path) && d.Allows(tags, READ);
    assert verdict <==> OpenIn(ds, d.FullPath(), tags);
    FoldOne(ds, i, readable, tags, d.FullPath(), verdict);
  }

  lemma FoldOne(ds: seq<Directory>, i: nat, readable: map<string, bool>, tags: seq<string>, p: string, verdict: bool)
    requires i < |ds| && FoldedUpTo(ds, i, readable, tags)
    requires p == ds[i].FullPath() && p != "" && p != "/" && (verdict <==> OpenIn(ds, p, tags))
    ensures FoldedUpTo(ds, i + 1, readable[p := verdict], tags)
  {
    var next := readable[p := verdict];
    forall q | q in next && q != "" && q != "/"
      ensures exists j :: 0 <= j < i + 1 && ds[j].FullPath() == q
    {
      if q != p {
        assert q in readable;
        var j :| 0 <= j < i && ds[j].FullPath() == q;
      } else {
        assert ds[i].FullPath() == q;
      }
    }
  }

  /** What is not in the finished map is not open. */
  lemma FoldComplete(ds: seq<Directory>, readable: map<string, bool>, tags: seq<string>, p: string)
    requires FoldedUpTo(ds, |ds|, readable, tags)
    ensures Lookup(readable, p) <==> OpenIn(ds, p, tags)
  {
  }

  lemma {:induction false} OpenInMembers(ds: seq<Directory>, es: seq<Directory>, p: string, tags: seq<string>)
    requires forall d :: d in ds <==> d in es
    ensures OpenIn(ds, p, tags) <==> OpenIn(es, p, tags)
    decreases |p|
  {
    forall d | d in ds && |d.path| < |p|
      ensures OpenIn(ds, d.path, tags) <==> OpenIn(es, d.path, tags)
    {
      OpenInMembers(ds, es, d.path, tags);
    }
  }

  lemma ClosedMembers(ds: seq<Directory>, es: seq<Directory>)
    requires AncestorClosed(ds) && forall d :: d in ds <==> d in es
    ensures AncestorClosed(es)
  {
    forall d | d in es
      ensures ParentListed(es, d)
    {
      assert d in ds && ParentListed(ds, d);
    }
  }

  /** The fold in slash-count order decides the recursive rule for every path, whatever the order
      of the input and of ties. */
  method ReadableDirectories(dirs: seq<Directory>, tags: seq<string>) returns (readable: map<string, bool>)
    requires AncestorClosed(dirs)
    ensures forall p :: Lookup(readable, p) <==> OpenIn(dirs, p, tags)
  {
    var sorted := SortByDepth(dirs);
    ClosedMembers(dirs, sorted);
    readable := map["" := true, "/" := true];
    for i := 0 to |sorted|
      invariant FoldedUpTo(sorted, i, readable, tags)
    {
      FoldStep(sorted, i, readable, tags);
      var d := sorted[i];
      readable := readable[d.FullPath() := Lookup(readable, d.path) && d.Allows(tags, READ)];
    }
    forall p
      ensures Lookup(readable, p) <==> OpenIn(dirs, p, tags)
    {
      FoldComplete(sorted, readable, tags, p);
      OpenInMembers(sorted, dirs, p, tags);
    }
  }

  /** The readable directories are themselves closed under taking parents. */
  lemma OpenClosed(ds: seq<Directory>, d: Directory, tags: seq<string>)
    requires AncestorClosed(ds) && d in ds && OpenIn(ds, d.FullPath(), tags)
    ensures d.path == "/" || exists e :: e in ds && e.FullPath() == d.path && OpenIn(ds, e.FullPath(), tags)
  {
    OpenAt(ds, d, tags);
    assert ParentListed(ds, d);
  }
}
