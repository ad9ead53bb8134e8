/** String handling of paths: the Go library calls the store composes (Split, TrimSpace, Join,
    LastIndex, Sort), and the notion of a canonical path they induce. */
module Paths {

  // ---------------------------------------------------------------- library calls

  /** Unicode white space, as strings.TrimSpace strips it. */
  predicate IsSpace(c: char) {
    || '\t' <= c <= '\r' || c == ' ' || c == '\U{0085}' || c == '\U{00A0}' || c == '\U{1680}'
    || '\U{2000}' <= c <= '\U{200A}' || c == '\U{2028}' || c == '\U{2029}' || c == '\U{202F}'
    || c == '\U{205F}' || c == '\U{3000}'
  }

  function TrimLeft(s: string): (t: string)
    ensures t != "" ==> !IsSpace(t[0])
    ensures forall c :: c in t ==> c in s
  {
    if s != "" && IsSpace(s[0]) then TrimLeft(s[1..]) else s
  }

  function TrimRight(s: string): (t: string)
    ensures t != "" ==> s != "" && t[0] == s[0] && !IsSpace(t[|t| - 1])
    ensures forall c :: c in t ==> c in s
  {
    if s != "" && IsSpace(s[|s| - 1]) then TrimRight(s[..|s| - 1]) else s
  }

  predicate Trimmed(s: string) {
    s != "" ==> !IsSpace(s[0]) && !IsSpace(s[|s| - 1])
  }

  /** strings.TrimSpace */
  function TrimSpace(s: string): (t: string)
    ensures Trimmed(t)
    ensures Trimmed(s) ==> t == s
    ensures forall c :: c in t ==> c in s
  {
    TrimRight(TrimLeft(s))
  }

  lemma {:induction false} TrimLeftCut(s: string)
    ensures var i := |s| - |TrimLeft(s)|;
            0 <= i && TrimLeft(s) == s[i..] && forall k :: 0 <= k < i ==> IsSpace(s[k])
  {
    if s != "" && IsSpace(s[0]) {
      TrimLeftCut(s[1..]);
    }
  }

  lemma {:induction false} TrimRightCut(s: string)
    ensures var j := |TrimRight(s)|;
            j <= |s| && TrimRight(s) == s[..j] && forall k :: j <= k < |s| ==> IsSpace(s[k])
  {
    if s != "" && IsSpace(s[|s| - 1]) {
      TrimRightCut(s[..|s| - 1]);
    }
  }

  /** Trimming cuts white space off both ends and nothing else. */
  lemma TrimSpaceCuts(s: string) returns (i: nat, j: nat)
    ensures i <= j <= |s| && TrimSpace(s) == s[i..j]
    ensures forall k :: 0 <= k < i || j <= k < |s| ==> IsSpace(s[k])
    ensures Blank(s[..i]) && Blank(s[j..])
  {
    TrimLeftCut(s);
    TrimRightCut(TrimLeft(s));
    i := |s| - |TrimLeft(s)|;
    j := i + |TrimSpace(s)|;
  }

  /** The white space of Unicode by code point. */
  predicate WhiteSpace(c: char) {
    var n := c as int;
    || 9 <= n <= 13 || n == 32 || n == 0x85 || n == 0xA0 || n == 0x1680 || 0x2000 <= n <= 0x200A
    || n == 0x2028 || n == 0x2029 || n == 0x202F || n == 0x205F || n == 0x3000
  }

  predicate Blank(s: string) {
    forall c :: c in s ==> WhiteSpace(c)
  }

  lemma {:induction false} TrimLeftBlank(a: string, s: string)
    requires Blank(a) && s != "" && !IsSpace(s[0])
    ensures TrimLeft(a + s) == s
  {
    if a == "" {
      assert a + s == s;
    } else {
      assert a[0] in a && (a + s)[0] == a[0] && (a + s)[1..] == a[1..] + s;
      assert forall c :: c in a[1..] ==> c in a;
      TrimLeftBlank(a[1..], s);
    }
  }

  lemma {:induction false} TrimRightBlank(s: string, b: string)
    requires Blank(b) && s != "" && !IsSpace(s[|s| - 1])
    ensures TrimRight(s + b) == s
  {
    if b == "" {
      assert s + b == s;
    } else {
      var front := b[..|b| - 1];
      assert b[|b| - 1] in b && (s + b)[|s + b| - 1] == b[|b| - 1] && (s + b)[..|s + b| - 1] == s + front;
      assert forall c :: c in front ==> c in b;
      TrimRightBlank(s, front);
    }
  }

  /** Blanks around a name make no difference. */
  lemma PaddingTrimmed(a: string, s: string, b: string)
    requires Blank(a) && Blank(b) && s != "" && Trimmed(s)
    ensures TrimSpace(a + s + b) == s
  {
    assert a + s + b == a + (s + b) && (s + b)[0] == s[0];
    TrimLeftBlank(a, s + b);
    TrimRightBlank(s, b);
  }

  /** strings.Split(s, "/") */
  function Split(s: string): (parts: seq<string>)
    ensures |parts| >= 1
    ensures forall i :: 0 <= i < |parts| ==> '/' !in parts[i]
  {
    if s == "" then [""]
    else
      var rest := Split(s[1..]);
      if s[0] == '/' then [""] + rest else [[s[0]] + rest[0]] + rest[1..]
  }

  /** strings.Join(parts, "/") */
  function Join(parts: seq<string>): string {
    if parts == [] then ""
    else if |parts| == 1 then parts[0]
    else parts[0] + "/" + Join(parts[1..])
  }

  /** strings.LastIndex(s, "/") */
  function LastSlash(s: string): (i: int)
    ensures -1 <= i < |s|
  {
    if s == "" then -1
    else if s[|s| - 1] == '/' then |s| - 1
    else LastSlash(s[..|s| - 1])
  }

  /** strings.HasPrefix */
  predicate HasPrefix(s: string, prefix: string) {
    prefix <= s
  }

  /** strings.Count(s, "/") */
  function CountSlashes(s: string): nat {
    if s == "" then 0 else (if s[0] == '/' then 1 else 0) + CountSlashes(s[1..])
  }

  lemma {:induction false} CountSlashesConcat(a: string, b: string)
    ensures CountSlashes(a + b) == CountSlashes(a) + CountSlashes(b)
  {
    if a == "" {
      assert a + b == b;
    } else {
      assert (a + b)[1..] == a[1..] + b;
      CountSlashesConcat(a[1..], b);
    }
  }

  // ---------------------------------------------------------------- canonical paths

  /** A path component that splitting and trimming leave alone. */
  predicate IsComponent(k: string) {
    k != "" && '/' !in k && Trimmed(k)
  }

  predicate Components(ks: seq<string>) {
    forall i :: 0 <= i < |ks| ==> IsComponent(ks[i])
  }

  /** The non-empty trimmed parts, in order. */
  function Clean(parts: seq<string>): seq<string> {
    if parts == [] then []
    else
      var t := TrimSpace(parts[0]);
      (if t == "" then [] else [t]) + Clean(parts[1..])
  }

  function CleanParts(s: string): seq<string> {
    Clean(Split(s))
  }

  lemma {:induction false} CleanSnoc(parts: seq<string>, p: string)
    ensures Clean(parts + [p]) == Clean(parts) + (if TrimSpace(p) == "" then [] else [TrimSpace(p)])
  {
    if parts == [] {
      assert Clean([p][1..]) == [];
    } else {
      assert (parts + [p])[1..] == parts[1..] + [p];
      CleanSnoc(parts[1..], p);
    }
  }

  lemma CleanStep(parts: seq<string>, i: nat)
    requires i < |parts|
    ensures Clean(parts[..i + 1]) == Clean(parts[..i]) + (if |TrimSpace(parts[i])| == 0 then [] else [TrimSpace(parts[i])])
  {
    CleanSnoc(parts[..i], parts[i]);
    assert parts[..i + 1] == parts[..i] + [parts[i]];
  }

  /** The loop both getDirectoriesByPathString and ensureDirectories run over the split path. */
  method CleanPathParts(path: string) returns (parts: seq<string>)
    ensures parts == CleanParts(path)
  {
    var pathParts := Split(path);
    parts := [];
    for i := 0 to |pathParts|
      invariant parts == Clean(pathParts[..i])
    {
      CleanStep(pathParts, i);
      var clean := TrimSpace(pathParts[i]);
      if |clean| > 0 {
        parts := parts + [clean];
      }
    }
    assert pathParts[..|pathParts|] == pathParts;
  }

  /** The absolute path with the given components; the root is "/". */
  function FullOf(ks: seq<string>): string {
    "/" + Join(ks)
  }

  /** The empty path or a single slash: the root, under either name. */
  predicate IsRoot(p: string) {
    |p| == 0 || (|p| == 1 && p[0] == '/')
  }

  /** An absolute path whose parts are all proper components; the root included. */
  predicate Canonical(p: string) {
    p == "/" || (p != "" && p[0] == '/' && Components(Split(p[1..])))
  }

  /** The full path of an entry `name` inside the directory at full path `p`. */
  function ChildPath(p: string, name: string): string {
    if p == "/" then "/" + name else p + "/" + name
  }

  lemma {:induction false} CleanComponents(parts: seq<string>)
    requires forall i :: 0 <= i < |parts| ==> '/' !in parts[i]
    ensures Components(Clean(parts))
  {
    if parts != [] {
      CleanComponents(parts[1..]);
    }
  }

  lemma CleanPartsComponents(s: string)
    ensures Components(CleanParts(s))
  {
    CleanComponents(Split(s));
  }

  lemma {:induction false} SplitAfter(a: string, s: string)
    requires '/' !in a
    ensures Split(a + s) == [a + Split(s)[0]] + Split(s)[1..]
  {
    if a == "" {
      assert a + s == s && a + Split(s)[0] == Split(s)[0];
    } else {
      assert (a + s)[1..] == a[1..] + s;
      SplitAfter(a[1..], s);
      assert [a[0]] + (a[1..] + Split(s)[0]) == a + Split(s)[0];
    }
  }

  lemma {:induction false} SplitJoin(parts: seq<string>)
    requires parts != [] && forall i :: 0 <= i < |parts| ==> '/' !in parts[i]
    ensures Split(Join(parts)) == parts
  {
    if |parts| == 1 {
      SplitAfter(parts[0], "");
      assert parts[0] + "" == parts[0];
    } else {
      var rest := "/" + Join(parts[1..]);
      SplitJoin(parts[1..]);
      assert rest[1..] == Join(parts[1..]);
      SplitAfter(parts[0], rest);
      assert parts[0] + "/" + Join(parts[1..]) == parts[0] + rest;
      assert parts[0] + "" == parts[0];
    }
  }

  lemma {:induction false} CleanOfComponents(ks: seq<string>)
    requires Components(ks)
    ensures Clean(ks) == ks
  {
    if ks != [] {
      CleanOfComponents(ks[1..]);
    }
  }

  /** Round trip: the parts of the path built from components are those components, so the path is
      canonical and FullOf is injective on component lists. */
  lemma PartsOfFull(ks: seq<string>)
    requires Components(ks)
    ensures CleanParts(FullOf(ks)) == ks
    ensures Canonical(FullOf(ks))
  {
    var s := Join(ks);
    assert FullOf(ks)[1..] == s;
    assert Split(FullOf(ks)) == [""] + Split(s);
    assert ([""] + Split(s))[1..] == Split(s);
    assert TrimSpace("") == "";
    if ks != [] {
      SplitJoin(ks);
      CleanOfComponents(ks);
      assert Components(Split(s));
    } else {
      assert Split(s) == [""];
      assert Clean([""]) == [] by { assert Clean([""][1..]) == []; }
    }
  }

  lemma FullOfInjective(a: seq<string>, b: seq<string>)
    requires Components(a) && Components(b)
    ensures FullOf(a) == FullOf(b) <==> a == b
  {
    PartsOfFull(a);
    PartsOfFull(b);
  }

  lemma {:induction false} SplitConcat(a: string, b: string)
    ensures Split(a + "/" + b) == Split(a) + Split(b)
  {
    var s := a + "/" + b;
    if a == "" {
      assert s[1..] == b;
    } else {
      assert s[1..] == a[1..] + "/" + b;
      SplitConcat(a[1..], b);
    }
  }

  lemma {:induction false} CleanConcat(a: seq<string>, b: seq<string>)
    ensures Clean(a + b) == Clean(a) + Clean(b)
  {
    if a == [] {
      assert a + b == b;
    } else {
      assert (a + b)[1..] == a[1..] + b;
      CleanConcat(a[1..], b);
    }
  }

  /** The parts of a joined path are the parts of its halves. */
  lemma PartsOfConcat(a: string, b: string)
    ensures CleanParts(a + "/" + b) == CleanParts(a) + CleanParts(b)
  {
    SplitConcat(a, b);
    CleanConcat(Split(a), Split(b));
  }

  lemma CleanOne(s: string)
    ensures Clean([s]) == if TrimSpace(s) == "" then [] else [TrimSpace(s)]
  {
    CleanSnoc([], s);
    assert [] + [s] == [s];
  }

  lemma PartsOfEmpty(p: string)
    requires |p| == 0
    ensures CleanParts(p) == []
  {
    CleanOne(p);
    assert p == "" && Split(p) == [p];
  }

  /** A leading slash adds no part. */
  lemma PartsOfTop(p: string)
    requires p != "" && p[0] == '/'
    ensures CleanParts(p) == CleanParts(p[1..])
  {
    var none: string := p[..0];
    CleanOne(none);
    assert Split(p) == [none] + Split(p[1..]);
    CleanConcat([none], Split(p[1..]));
  }

  lemma PartsOfRoot(p: string)
    requires IsRoot(p)
    ensures CleanParts(p) == []
  {
    if |p| == 0 {
      PartsOfEmpty(p);
    } else {
      PartsOfTop(p);
      PartsOfEmpty(p[1..]);
    }
  }

  /** The parts of an entry's path are those of the directory and of the name, whatever the name holds. */
  lemma PartsOfChild(p: string, n: string, full: string)
    requires full == (if IsRoot(p) then "/" + n else p + "/" + n)
    ensures CleanParts(full) == CleanParts(p) + CleanParts(n)
  {
    if IsRoot(p) {
      PartsOfRoot(p);
      PartsOfTop(full);
      assert full[1..] == n;
    } else {
      PartsOfConcat(p, n);
    }
  }

  lemma ComponentsTail(ks: seq<string>, ls: seq<string>)
    requires Components(ks + ls)
    ensures Components(ls)
  {
    assert forall i :: 0 <= i < |ls| ==> ls[i] == (ks + ls)[|ks| + i];
  }

  lemma ComponentsOfRest(a: string, n: string, rest: string)
    requires |a| > 0 ==> rest == a[1..] + "/" + n
    requires |a| == 0 ==> rest == n
    requires Components(Split(rest))
    ensures Components(Split(n))
  {
    if |a| > 0 {
      SplitConcat(a[1..], n);
      ComponentsTail(Split(a[1..]), Split(n));
    }
  }

  /** In a canonical path every part of the last name is a component. */
  lemma CanonicalName(a: string, n: string, full: string)
    requires |n| > 0 && full == a + "/" + n && Canonical(full)
    ensures CleanParts(n) == Split(n)
  {
    assert |full| > 1;
    ComponentsOfRest(a, n, full[1..]);
    CleanOfComponents(Split(n));
  }

  /** A slash-free first name is determined by the path it begins. */
  lemma FirstNameUnique(a: string, p: string, b: string, q: string)
    requires '/' !in a && '/' !in b && a + "/" + p == b + "/" + q
    ensures a == b
  {
    SplitConcat(a, p);
    SplitConcat(b, q);
    SplitAfter(a, p[..0]);
    SplitAfter(b, q[..0]);
    assert a + p[..0] == a && b + q[..0] == b;
    assert Split(a) == [a] && Split(b) == [b];
    assert (Split(a) + Split(p))[0] == a && (Split(b) + Split(q))[0] == b;
  }

  /** A slash-free trimmed name is its own only part. */
  lemma PartsOfName(name: string)
    requires '/' !in name && name != "" && Trimmed(name)
    ensures CleanParts(name) == [name]
  {
    SplitAfter(name, "");
    assert name + "" == name;
    assert Clean([name][1..]) == [];
  }

  lemma {:induction false} JoinSplit(s: string)
    ensures Join(Split(s)) == s
  {
    if s != "" {
      JoinSplit(s[1..]);
      var rest := Split(s[1..]);
      if s[0] == '/' {
        assert ([""] + rest)[1..] == rest;
        assert Join([""] + rest) == "" + "/" + Join(rest);
      } else {
        JoinHead(s[0], rest);
        assert Split(s) == [[s[0]] + rest[0]] + rest[1..];
        assert [s[0]] + s[1..] == s;
      }
    }
  }

  lemma JoinHead(c: char, parts: seq<string>)
    requires parts != []
    ensures Join([[c] + parts[0]] + parts[1..]) == [c] + Join(parts)
  {
    var longer := [[c] + parts[0]] + parts[1..];
    assert longer[1..] == parts[1..];
    if |parts| > 1 {
      assert ([c] + parts[0]) + "/" + Join(parts[1..]) == [c] + (parts[0] + "/" + Join(parts[1..]));
    }
  }

  /** Canonical means that splitting, trimming and joining give the path back. */
  lemma CanonicalRoundTrip(p: string)
    ensures Canonical(p) <==> p == FullOf(CleanParts(p))
  {
    if Canonical(p) {
      if p == "/" {
        PartsOfFull([]);
      } else {
        var ks := Split(p[1..]);
        JoinSplit(p[1..]);
        assert p == FullOf(ks);
        PartsOfFull(ks);
      }
    }
    if p == FullOf(CleanParts(p)) {
      CleanPartsComponents(p);
      PartsOfFull(CleanParts(p));
    }
  }

  lemma {:induction false} JoinSnoc(ks: seq<string>, k: string)
    ensures Join(ks + [k]) == if ks == [] then k else Join(ks) + "/" + k
  {
    if ks == [] {
      assert ks + [k] == [k];
    } else {
      assert (ks + [k])[1..] == ks[1..] + [k];
      JoinSnoc(ks[1..], k);
      if |ks| > 1 {
        assert ks[0] + "/" + (Join(ks[1..]) + "/" + k) == (ks[0] + "/" + Join(ks[1..])) + "/" + k;
      }
    }
  }

  lemma FullOfRoot(ks: seq<string>)
    requires Components(ks)
    ensures FullOf(ks) == "/" <==> ks == []
  {
    if ks != [] {
      assert IsComponent(ks[0]);
      assert |Join(ks)| > 0;
    }
  }

  lemma FullOfSnoc(ks: seq<string>, k: string)
    requires Components(ks)
    ensures FullOf(ks + [k]) == ChildPath(FullOf(ks), k)
  {
    JoinSnoc(ks, k);
    FullOfRoot(ks);
    if ks != [] {
      assert "/" + (Join(ks) + "/" + k) == ("/" + Join(ks)) + "/" + k;
    }
  }

  lemma ComponentsSnoc(ks: seq<string>, k: string)
    requires Components(ks) && IsComponent(k)
    ensures Components(ks + [k])
  {
  }

  /** A component under a canonical path: its full path is canonical and has one more part. */
  lemma CanonicalChild(p: string, name: string)
    requires Canonical(p) && IsComponent(name)
    ensures Components(CleanParts(p) + [name])
    ensures ChildPath(p, name) == FullOf(CleanParts(p) + [name])
    ensures CleanParts(ChildPath(p, name)) == CleanParts(p) + [name]
    ensures Canonical(ChildPath(p, name))
    ensures ChildPath(p, name) != "/"
  {
    var ks := CleanParts(p);
    CanonicalRoundTrip(p);
    CleanPartsComponents(p);
    ComponentsSnoc(ks, name);
    FullOfSnoc(ks, name);
    PartsOfFull(ks + [name]);
    FullOfRoot(ks + [name]);
  }

  lemma {:induction false} LastSlashAfter(a: string, k: string)
    requires '/' !in k
    ensures LastSlash(a + "/" + k) == |a|
  {
    var s := a + "/" + k;
    if k != "" {
      assert s[..|s| - 1] == a + "/" + k[..|k| - 1];
      LastSlashAfter(a, k[..|k| - 1]);
    }
  }

  /** How ensureDirectories recovers the parent and the name of a path: by its last slash. */
  lemma LastSlashOfFull(ks: seq<string>, k: string)
    requires Components(ks) && IsComponent(k)
    ensures var p := FullOf(ks + [k]);
            var i := LastSlash(p);
            0 <= i && p[i + 1..] == k && p[..i] == (if ks == [] then "" else FullOf(ks))
  {
    var parent := if ks == [] then "" else FullOf(ks);
    FullOfSnoc(ks, k);
    FullOfRoot(ks);
    assert FullOf(ks + [k]) == parent + "/" + k;
    LastSlashAfter(parent, k);
  }

  /** A slash-free last name determines how a path splits into parent and name. */
  lemma LastNameUnique(p: string, a: string, q: string, b: string)
    requires '/' !in a && '/' !in b
    requires p + "/" + a == q + "/" + b
    ensures p == q && a == b
  {
    var s := p + "/" + a;
    LastSlashAfter(p, a);
    LastSlashAfter(q, b);
    assert p == s[..|p|] && q == s[..|q|];
    assert a == s[|p| + 1..] && b == s[|q| + 1..];
  }

  // ---------------------------------------------------------------- lexicographic order

  /** Byte order of UTF-8 strings, which is code point order. */
  predicate StrLe(a: string, b: string) {
    a == "" || (b != "" && (a[0] < b[0] || (a[0] == b[0] && StrLe(a[1..], b[1..]))))
  }

  lemma {:induction false} StrLeTotal(a: string, b: string)
    ensures StrLe(a, b) || StrLe(b, a)
  {
    if a != "" && b != "" && a[0] == b[0] {
      StrLeTotal(a[1..], b[1..]);
    }
  }

  lemma {:induction false} StrLeAntisymmetric(a: string, b: string)
    requires StrLe(a, b) && StrLe(b, a)
    ensures a == b
  {
    if a != "" && b != "" {
      StrLeAntisymmetric(a[1..], b[1..]);
      assert a == [a[0]] + a[1..] && b == [b[0]] + b[1..];
    }
  }

  lemma {:induction false} StrLeTransitive(a: string, b: string, c: string)
    requires StrLe(a, b) && StrLe(b, c)
    ensures StrLe(a, c)
  {
    if a != "" && a[0] == b[0] == c[0] {
      StrLeTransitive(a[1..], b[1..], c[1..]);
    }
  }

  lemma {:induction false} StrLePrefix(a: string, b: string)
    requires a <= b
    ensures StrLe(a, b)
  {
    if a != "" {
      assert a[1..] <= b[1..];
      StrLePrefix(a[1..], b[1..]);
    }
  }

  predicate SortedFrom(ss: seq<string>) {
    |ss| <= 1 || (StrLe(ss[0], ss[1]) && SortedFrom(ss[1..]))
  }

  lemma {:induction false} SortedHead(ss: seq<string>, i: nat)
    requires SortedFrom(ss) && i < |ss|
    ensures StrLe(ss[0], ss[i])
  {
    StrLeTotal(ss[0], ss[0]);
    if i > 0 {
      SortedHead(ss[1..], i - 1);
      StrLeTransitive(ss[0], ss[1], ss[i]);
    }
  }

  /** One step of sorting: s goes before the first string that is not smaller. */
  function InsertSorted(s: string, ss: seq<string>): (r: seq<string>)
    ensures multiset(r) == multiset(ss) + multiset{s}
    ensures |r| == |ss| + 1
    ensures r[0] == s || (ss != [] && r[0] == ss[0])
  {
    if ss == [] || StrLe(s, ss[0]) then [s] + ss
    else
      assert ss == [ss[0]] + ss[1..];
      [ss[0]] + InsertSorted(s, ss[1..])
  }

  /** slices.Sort */
  function SortStrings(ss: seq<string>): (r: seq<string>)
    ensures multiset(r) == multiset(ss)
  {
    if ss == [] then []
    else
      assert ss == [ss[0]] + ss[1..];
      InsertSorted(ss[0], SortStrings(ss[1..]))
  }

  lemma {:induction false} InsertSortedSorts(s: string, ss: seq<string>)
    requires SortedFrom(ss)
    ensures SortedFrom(InsertSorted(s, ss))
  {
    if ss == [] || StrLe(s, ss[0]) {
      assert ([s] + ss)[1..] == ss;
    } else {
      StrLeTotal(s, ss[0]);
      InsertSortedSorts(s, ss[1..]);
      assert InsertSorted(s, ss)[1..] == InsertSorted(s, ss[1..]);
    }
  }

  lemma {:induction false} SortStringsSorts(ss: seq<string>)
    ensures SortedFrom(SortStrings(ss))
  {
    if ss != [] {
      SortStringsSorts(ss[1..]);
      InsertSortedSorts(ss[0], SortStrings(ss[1..]));
    }
  }

  /** Sorting has one result: two sorted arrangements of the same strings are equal. */
  lemma {:induction false} SortedUnique(a: seq<string>, b: seq<string>)
    requires SortedFrom(a) && SortedFrom(b) && multiset(a) == multiset(b)
    ensures a == b
  {
    assert |a| == |multiset(a)| == |multiset(b)| == |b|;
    if a != [] {
      SameHead(a, b);
      RestMultiset(a);
      RestMultiset(b);
      SortedUnique(a[1..], b[1..]);
      assert a == [a[0]] + a[1..] && b == [b[0]] + b[1..];
    }
  }

  lemma SameHead(a: seq<string>, b: seq<string>)
    requires SortedFrom(a) && SortedFrom(b) && multiset(a) == multiset(b) && a != [] && b != []
    ensures a[0] == b[0]
  {
    assert a[0] in multiset(b) && b[0] in multiset(a);
    var i :| 0 <= i < |b| && b[i] == a[0];
    var j :| 0 <= j < |a| && a[j] == b[0];
    SortedHead(b, i);
    SortedHead(a, j);
    StrLeAntisymmetric(a[0], b[0]);
  }

  lemma RestMultiset(a: seq<string>)
    requires a != []
    ensures multiset(a[1..]) == multiset(a) - multiset{a[0]}
  {
    assert a == [a[0]] + a[1..];
  }

  /** The prefixes of a component list as full paths, shortest first, from index i on. */
  ghost function PrefixPaths(ks: seq<string>, i: nat): (ps: seq<string>)
    requires i <= |ks|
    ensures |ps| == |ks| - i
    ensures forall j :: 0 <= j < |ps| ==> ps[j] == FullOf(ks[..i + j + 1])
    decreases |ks| - i
  {
    if i == |ks| then [] else [FullOf(ks[..i + 1])] + PrefixPaths(ks, i + 1)
  }

  /** A shorter prefix is a proper string prefix of a longer one. */
  lemma {:induction false} PrefixPathOrder(ks: seq<string>, i: nat, j: nat)
    requires Components(ks) && i <= j <= |ks|
    ensures FullOf(ks[..i]) <= FullOf(ks[..j])
    ensures i < j ==> |FullOf(ks[..i])| < |FullOf(ks[..j])|
    decreases j
  {
    if i < j {
      assert ks[..j] == ks[..j - 1] + [ks[j - 1]];
      FullOfSnoc(ks[..j - 1], ks[j - 1]);
      PrefixPathOrder(ks, i, j - 1);
    }
  }

  /** Sorting the prefixes lexicographically puts every parent before its child: the list, already
      shortest first, is its own sorted form. */
  lemma {:induction false} PrefixPathsSorted(ks: seq<string>, i: nat)
    requires Components(ks) && i <= |ks|
    ensures SortedFrom(PrefixPaths(ks, i))
    decreases |ks| - i
  {
    if i + 1 < |ks| {
      PrefixPathsSorted(ks, i + 1);
      PrefixPathOrder(ks, i + 1, i + 2);
      StrLePrefix(FullOf(ks[..i + 1]), FullOf(ks[..i + 2]));
      assert PrefixPaths(ks, i)[1..] == PrefixPaths(ks, i + 1);
    }
  }
}
