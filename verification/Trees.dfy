/** The file tree as a value. A node carries the identity `id` of the object that stores it, so one
    tree describes both what the file system holds and which objects hold it. Children are kept as
    the source keeps them: a map from key to child, and the keys in insertion order. */
module Trees {
  import opened Options
  import opened Text

  type Path = seq<string>

  /** `orig` is the "originalPath" mark that the trash leaves on a node; "" stands for no mark. */
  datatype Tree<L> =
    | File(id: L, orig: string, content: string)
    | Folder(id: L, orig: string, keys: seq<string>, kids: map<string, Tree<L>>)

  /** The key list and the child map of every folder name the same children. */
  ghost predicate WF<L>(t: Tree<L>)
  {
    t.Folder? ==>
      && Distinct(t.keys)
      && (forall k :: k in t.keys <==> k in t.kids)
      && (forall k | k in t.kids :: WF(t.kids[k]))
  }

  /* ---------- addressing by exact keys ---------- */

  function At<L>(t: Tree<L>, p: Path): Option<Tree<L>>
    decreases |p|
  {
    if p == [] then Some(t)
    else if t.Folder? && p[0] in t.kids then At(t.kids[p[0]], p[1..])
    else None
  }

  predicate Has<L>(t: Tree<L>, p: Path)
  {
    At(t, p).Some?
  }

  function Get<L>(t: Tree<L>, p: Path): Tree<L>
    requires Has(t, p)
  {
    At(t, p).value
  }

  /** The tree with the subtree at p exchanged for u. */
  function Graft<L>(t: Tree<L>, p: Path, u: Tree<L>): Tree<L>
    requires Has(t, p)
    decreases |p|
  {
    if p == [] then u
    else t.(kids := t.kids[p[0] := Graft(t.kids[p[0]], p[1..], u)])
  }

  function Put<L>(f: Tree<L>, k: string, u: Tree<L>): Tree<L>
    requires f.Folder?
  {
    f.(keys := if k in f.kids then f.keys else f.keys + [k], kids := f.kids[k := u])
  }

  function Drop<L>(f: Tree<L>, k: string): Tree<L>
    requires f.Folder?
  {
    f.(keys := Without(f.keys, k), kids := f.kids - {k})
  }

  function Without(names: seq<string>, k: string): seq<string>
  {
    if names == [] then []
    else (if names[0] == k then [] else [names[0]]) + Without(names[1..], k)
  }

  predicate HasFolder<L>(t: Tree<L>, p: Path)
  {
    Has(t, p) && Get(t, p).Folder?
  }

  function Insert<L>(t: Tree<L>, p: Path, k: string, u: Tree<L>): Tree<L>
    requires HasFolder(t, p)
  {
    Graft(t, p, Put(Get(t, p), k, u))
  }

  function Remove<L>(t: Tree<L>, p: Path, k: string): Tree<L>
    requires HasFolder(t, p)
  {
    Graft(t, p, Drop(Get(t, p), k))
  }

  /* ---------- addressing by names, case ignored ---------- */

  /** The first key equal to the name up to case. */
  function Find(keys: seq<string>, name: string): Option<string>
  {
    if keys == [] then None
    else if Lower(keys[0]) == Lower(name) then Some(keys[0])
    else Find(keys[1..], name)
  }

  /** The exact path that a list of names leads to. */
  ghost function Locate<L>(t: Tree<L>, parts: seq<string>): Option<Path>
    requires WF(t)
    decreases |parts|
  {
    if parts == [] then Some([])
    else if t.File? then None
    else
      match Find(t.keys, parts[0])
      case None => None
      case Some(k) =>
        FindIsKey(t.keys, parts[0]);
        Under([k], Locate(t.kids[k], parts[1..]))
  }

  function Under(p: Path, q: Option<Path>): Option<Path>
  {
    match q case None => None case Some(r) => Some(p + r)
  }

  /* ---------- measures of a whole tree ---------- */

  /** The objects a tree is stored in. */
  ghost function Objects<L>(t: Tree<L>): set<L>
  {
    {t.id} + if t.File? then {} else set k, o | k in t.kids && o in Objects(t.kids[k]) :: o
  }

  /** No object is used twice: the objects form a tree, with no sharing and no cycle. */
  ghost predicate Unshared<L>(t: Tree<L>)
  {
    t.Folder? ==>
      && (forall k | k in t.kids :: t.id !in Objects(t.kids[k]) && Unshared(t.kids[k]))
      && (forall j, k | j in t.kids && k in t.kids && j != k :: Objects(t.kids[j]) !! Objects(t.kids[k]))
  }

  /** The contents of all files, with multiplicity. */
  ghost function Contents<L>(t: Tree<L>): multiset<string>
    requires WF(t)
    decreases t, 1, 0
  {
    if t.File? then multiset{t.content} else ContentsOf(t, t.keys)
  }

  ghost function ContentsOf<L>(t: Tree<L>, keys: seq<string>): multiset<string>
    requires t.Folder? && WF(t) && forall k :: k in keys ==> k in t.kids
    decreases t, 0, |keys|
  {
    if keys == [] then multiset{}
    else Contents(t.kids[keys[0]]) + ContentsOf(t, keys[1..])
  }

  /** A property of key lists that holds in every folder. */
  ghost predicate InAllFolders<L>(t: Tree<L>, P: seq<string> -> bool)
  {
    t.Folder? ==> P(t.keys) && forall k | k in t.kids :: InAllFolders(t.kids[k], P)
  }

  predicate FoldDistinct(names: seq<string>)
  {
    forall i, j :: 0 <= i < j < |names| ==> Lower(names[i]) != Lower(names[j])
  }

  /** At most one of the names equals this one up to case. */
  predicate Single(names: seq<string>, name: string)
  {
    forall j, k :: j in names && k in names && Lower(j) == Lower(name) == Lower(k) ==> j == k
  }

  /** Sibling names are unique up to case. */
  ghost predicate CaseUnique<L>(t: Tree<L>)
  {
    InAllFolders(t, FoldDistinct)
  }

  /** The tree without object identities: what a user can observe. */
  ghost function Erase<L>(t: Tree<L>): Tree<()>
  {
    match t
    case File(_, orig, content) => File((), orig, content)
    case Folder(_, orig, keys, kids) => Folder((), orig, keys, map k | k in kids :: Erase(kids[k]))
  }

  /* ---------- key lists ---------- */

  lemma {:induction false} FindIsKey(keys: seq<string>, name: string)
    ensures Find(keys, name).Some? ==>
      Find(keys, name).value in keys && Lower(Find(keys, name).value) == Lower(name)
    ensures Find(keys, name).None? ==> forall k :: k in keys ==> Lower(k) != Lower(name)
  {
    if keys != [] { FindIsKey(keys[1..], name); }
  }

  lemma {:induction false} FindUpToCase(keys: seq<string>, a: string, b: string)
    requires Lower(a) == Lower(b)
    ensures Find(keys, a) == Find(keys, b)
  {
    if keys != [] { FindUpToCase(keys[1..], a, b); }
  }

  lemma {:induction false} FindAppended(keys: seq<string>, k: string, name: string)
    ensures Find(keys + [k], name) ==
      if Find(keys, name).Some? then Find(keys, name)
      else if Lower(k) == Lower(name) then Some(k) else None
  {
    if keys == [] {
      assert keys + [k] == [k];
    } else {
      assert (keys + [k])[1..] == keys[1..] + [k];
      FindAppended(keys[1..], k, name);
    }
  }

  /** Without the key that is found a name finds nothing exactly when no other key equals it up to case. */
  lemma {:induction false} FindWithout(keys: seq<string>, k: string, name: string)
    ensures Find(keys, name) != Some(k) ==> Find(Without(keys, k), name) == Find(keys, name)
    ensures Find(keys, name) == Some(k) ==> (Find(Without(keys, k), name) == None <==> Single(keys, k))
    decreases keys
  {
    FindIsKey(keys, name);
    WithoutMembers(keys, k);
    FindIsKey(Without(keys, k), name);
    if keys != [] {
      var rest := Without(keys[1..], k);
      FindWithout(keys[1..], k, name);
      assert [] + rest == rest && ([keys[0]] + rest)[1..] == rest;
    }
  }

  /** A key that no other key equals up to case is found by any spelling of it. */
  lemma FindMember(keys: seq<string>, k: string, name: string)
    requires Single(keys, k) && k in keys && Lower(k) == Lower(name)
    ensures Find(keys, name) == Some(k)
  {
    FindIsKey(keys, name);
  }

  lemma DistinctIsSingle(keys: seq<string>, name: string)
    requires FoldDistinct(keys)
    ensures Single(keys, name)
  {
    forall j, k | j in keys && k in keys && Lower(j) == Lower(name) == Lower(k) ensures j == k {
      var m :| 0 <= m < |keys| && keys[m] == j;
      var n :| 0 <= n < |keys| && keys[n] == k;
    }
  }

  lemma {:induction false} WithoutMembers(names: seq<string>, k: string)
    ensures forall n :: n in Without(names, k) <==> n in names && n != k
    ensures |Without(names, k)| <= |names|
  {
    if names != [] { WithoutMembers(names[1..], k); }
  }

  lemma {:induction false} WithoutAbsent(names: seq<string>, k: string)
    requires k !in names
    ensures Without(names, k) == names
  {
    if names != [] {
      WithoutAbsent(names[1..], k);
      assert names == [names[0]] + names[1..];
    }
  }

  lemma {:induction false} WithoutConcat(a: seq<string>, b: seq<string>, k: string)
    ensures Without(a + b, k) == Without(a, k) + Without(b, k)
  {
    if a == [] {
      assert a + b == b;
    } else {
      assert (a + b)[1..] == a[1..] + b;
      WithoutConcat(a[1..], b, k);
    }
  }

  lemma DistinctCons(x: string, names: seq<string>)
    ensures Distinct([x] + names) <==> Distinct(names) && x !in names
    ensures FoldDistinct([x] + names) <==>
      FoldDistinct(names) && forall i :: 0 <= i < |names| ==> Lower(names[i]) != Lower(x)
  {
    var all := [x] + names;
    assert forall i :: 0 <= i < |names| ==> all[i + 1] == names[i];
    assert forall i :: 1 <= i < |all| ==> all[i] == names[i - 1];
    assert all[0] == x;
  }

  lemma {:induction false} WithoutDistinct(names: seq<string>, k: string)
    ensures Distinct(names) ==> Distinct(Without(names, k))
    ensures FoldDistinct(names) ==> FoldDistinct(Without(names, k))
  {
    if names != [] {
      var x, tail := names[0], names[1..];
      WithoutDistinct(tail, k);
      assert [x] + tail == names;
      DistinctCons(x, tail);
      WithoutConcat([x], tail, k);
      ConsStaysDistinct(x, tail, Without(tail, k), k);
      assert Without([x], k) == if x == k then [] else [x];
      if x == k { assert [] + Without(tail, k) == Without(tail, k); }
    }
  }

  lemma ConsStaysDistinct(x: string, tail: seq<string>, rest: seq<string>, k: string)
    requires rest == Without(tail, k)
    ensures Distinct(rest) && x !in tail ==> Distinct([x] + rest)
    ensures FoldDistinct(rest) && (forall i :: 0 <= i < |tail| ==> Lower(tail[i]) != Lower(x)) ==>
      FoldDistinct([x] + rest)
  {
    WithoutMembers(tail, k);
    DistinctCons(x, rest);
    if forall i :: 0 <= i < |tail| ==> Lower(tail[i]) != Lower(x) {
      forall i | 0 <= i < |rest| ensures Lower(rest[i]) != Lower(x) {
        assert rest[i] in tail;
      }
    }
  }

  lemma FoldDistinctAppended(names: seq<string>, k: string)
    requires FoldDistinct(names)
    ensures FoldDistinct(names + [k]) <==> Find(names, k) == None
  {
    FindIsKey(names, k);
    if Find(names, k).Some? {
      var i :| 0 <= i < |names| && names[i] == Find(names, k).value;
      assert (names + [k])[i] == names[i] && (names + [k])[|names|] == k;
    }
  }

  /* ---------- well-formedness of edited trees ---------- */

  lemma PutWF<L>(f: Tree<L>, k: string, u: Tree<L>)
    requires WF(f) && f.Folder? && WF(u)
    ensures WF(Put(f, k, u))
  {
  }

  lemma DropWF<L>(f: Tree<L>, k: string)
    requires WF(f) && f.Folder?
    ensures WF(Drop(f, k))
  {
    WithoutMembers(f.keys, k);
    WithoutDistinct(f.keys, k);
  }

  lemma {:induction false} GetWF<L>(t: Tree<L>, p: Path)
    requires WF(t) && Has(t, p)
    ensures WF(Get(t, p))
    decreases |p|
  {
    if p != [] { GetWF(t.kids[p[0]], p[1..]); }
  }

  lemma {:induction false} GraftWF<L>(t: Tree<L>, p: Path, u: Tree<L>)
    requires WF(t) && Has(t, p) && WF(u)
    ensures WF(Graft(t, p, u))
    decreases |p|
  {
    if p != [] { GraftWF(t.kids[p[0]], p[1..], u); }
  }

  lemma InsertWF<L>(t: Tree<L>, p: Path, k: string, u: Tree<L>)
    requires WF(t) && HasFolder(t, p) && WF(u)
    ensures WF(Insert(t, p, k, u))
  {
    GetWF(t, p);
    PutWF(Get(t, p), k, u);
    GraftWF(t, p, Put(Get(t, p), k, u));
  }

  lemma RemoveWF<L>(t: Tree<L>, p: Path, k: string)
    requires WF(t) && HasFolder(t, p)
    ensures WF(Remove(t, p, k))
  {
    GetWF(t, p);
    DropWF(Get(t, p), k);
    GraftWF(t, p, Drop(Get(t, p), k));
  }

  /* ---------- what an edit does to every exact path ---------- */

  lemma {:induction false} AtConcat<L>(t: Tree<L>, p: Path, q: Path)
    ensures At(t, p + q) == if Has(t, p) then At(Get(t, p), q) else None
    decreases |p|
  {
    if p == [] {
      assert p + q == q;
    } else {
      assert (p + q)[1..] == p[1..] + q;
      if t.Folder? && p[0] in t.kids { AtConcat(t.kids[p[0]], p[1..], q); }
    }
  }

  lemma AtChild<L>(t: Tree<L>, p: Path, k: string)
    ensures At(t, p + [k]) == if HasFolder(t, p) && k in Get(t, p).kids then Some(Get(t, p).kids[k]) else None
  {
    AtConcat(t, p, [k]);
    assert [k][1..] == [];
  }

  /** A graft at p shows the new subtree below p, rebuilds the ancestors of p and leaves every other
      path alone. */
  lemma {:induction false} GraftAt<L>(t: Tree<L>, p: Path, u: Tree<L>, q: Path)
    requires Has(t, p)
    ensures p <= q ==> At(Graft(t, p, u), q) == At(u, q[|p|..])
    ensures q <= p ==>
      && Has(t, q) && Has(Get(t, q), p[|q|..])
      && At(Graft(t, p, u), q) == Some(Graft(Get(t, q), p[|q|..], u))
    ensures !(p <= q) && !(q <= p) ==> At(Graft(t, p, u), q) == At(t, q)
    decreases |p|
  {
    if p == [] {
      assert q[0..] == q;
    } else if q == [] {
      assert p[0..] == p;
    } else if q[0] == p[0] {
      GraftAt(t.kids[p[0]], p[1..], u, q[1..]);
      TailPrefix(p, q);
      TailPrefix(q, p);
    } else {
      assert !(p <= q) && !(q <= p);
    }
  }

  lemma TailPrefix(p: Path, q: Path)
    requires p != [] && q != [] && p[0] == q[0]
    ensures p <= q <==> p[1..] <= q[1..]
    ensures p <= q ==> q[1..][|p[1..]|..] == q[|p|..]
  {
    assert p == [p[0]] + p[1..] && q == [q[0]] + q[1..];
  }

  lemma {:induction false} GraftGraft<L>(t: Tree<L>, p: Path, u: Tree<L>, v: Tree<L>)
    requires Has(t, p)
    ensures Has(Graft(t, p, u), p) && Graft(Graft(t, p, u), p, v) == Graft(t, p, v)
    ensures Get(Graft(t, p, u), p) == u
    decreases |p|
  {
    if p != [] { GraftGraft(t.kids[p[0]], p[1..], u, v); }
  }

  lemma {:induction false} GraftSame<L>(t: Tree<L>, p: Path)
    requires Has(t, p)
    ensures Graft(t, p, Get(t, p)) == t
    decreases |p|
  {
    if p != [] {
      GraftSame(t.kids[p[0]], p[1..]);
      assert t.kids[p[0] := t.kids[p[0]]] == t.kids;
    }
  }

  /* ---------- what an edit does to every list of names ---------- */

  lemma {:induction false} LocateIsPath<L>(t: Tree<L>, parts: seq<string>)
    requires WF(t)
    ensures Locate(t, parts).Some? ==>
      var p := Locate(t, parts).value;
      |p| == |parts| && Has(t, p) && forall i :: 0 <= i < |p| ==> Lower(p[i]) == Lower(parts[i])
    decreases |parts|
  {
    if parts != [] && t.Folder? && Find(t.keys, parts[0]).Some? {
      FindIsKey(t.keys, parts[0]);
      var k := Find(t.keys, parts[0]).value;
      LocateIsPath(t.kids[k], parts[1..]);
    }
  }

  /** Lookup depends on the spelling of a name only up to case. */
  lemma {:induction false} LocateUpToCase<L>(t: Tree<L>, a: seq<string>, b: seq<string>)
    requires WF(t) && |a| == |b| && forall i :: 0 <= i < |a| ==> Lower(a[i]) == Lower(b[i])
    ensures Locate(t, a) == Locate(t, b)
    decreases |a|
  {
    if a != [] && t.Folder? {
      FindUpToCase(t.keys, a[0], b[0]);
      FindIsKey(t.keys, a[0]);
      match Find(t.keys, a[0])
      case None =>
      case Some(k) => LocateUpToCase(t.kids[k], a[1..], b[1..]);
    }
  }

  lemma {:induction false} LocateConcat<L>(t: Tree<L>, a: seq<string>, b: seq<string>)
    requires WF(t)
    ensures Locate(t, a + b) ==
      match Locate(t, a)
      case None => None
      case Some(p) => (LocateIsPath(t, a); GetWF(t, p); Under(p, Locate(Get(t, p), b)))
    decreases |a|
  {
    if a == [] {
      assert a + b == b;
      UnderNothing(Locate(t, b));
    } else if t.Folder? {
      assert (a + b)[1..] == a[1..] + b;
      FindIsKey(t.keys, a[0]);
      match Find(t.keys, a[0])
      case None =>
      case Some(k) =>
        LocateConcat(t.kids[k], a[1..], b);
        LocateIsPath(t.kids[k], a[1..]);
        match Locate(t.kids[k], a[1..])
        case None =>
        case Some(p) =>
          GetWF(t.kids[k], p);
          UnderUnder(k, p, Locate(Get(t.kids[k], p), b));
    }
  }

  lemma UnderNothing(q: Option<Path>)
    ensures Under([], q) == q
  {
    match q case None => case Some(r) => assert [] + r == r;
  }

  lemma UnderUnder(k: string, p: Path, q: Option<Path>)
    ensures Under([k], Under(p, q)) == Under([k] + p, q) && ([k] + p)[1..] == p
  {
    match q case None => case Some(r) => assert [k] + (p + r) == [k] + p + r;
  }

  lemma {:induction false} LocateGraftThrough<L>(t: Tree<L>, p: Path, u: Tree<L>, parts: seq<string>)
    requires WF(t) && Has(t, p) && WF(u) && Locate(t, parts) == Some(p)
    ensures WF(Graft(t, p, u)) && Locate(Graft(t, p, u), parts) == Some(p)
    decreases |p|
  {
    GraftWF(t, p, u);
    LocateIsPath(t, parts);
    if p != [] {
      FindIsKey(t.keys, parts[0]);
      var k := Find(t.keys, parts[0]).value;
      var r := Locate(t.kids[k], parts[1..]).value;
      assert ([k] + r)[1..] == r;
      LocateGraftThrough(t.kids[k], p[1..], u, parts[1..]);
    }
  }

  lemma {:induction false} LocateGraftPast<L>(t: Tree<L>, p: Path, u: Tree<L>, parts: seq<string>)
    requires WF(t) && Has(t, p) && WF(u)
    requires |parts| < |p| || Locate(t, parts[..|p|]) != Some(p)
    ensures WF(Graft(t, p, u)) && Locate(Graft(t, p, u), parts) == Locate(t, parts)
    decreases |p|
  {
    GraftWF(t, p, u);
    assert parts[..0] == [];
    if p != [] && parts != [] {
      FindIsKey(t.keys, parts[0]);
      match Find(t.keys, parts[0])
      case None =>
      case Some(k) =>
        if k == p[0] {
          if |parts| >= |p| {
            assert parts[..|p|][1..] == parts[1..][..|p[1..]|];
            assert p == [k] + p[1..];
          }
          LocateGraftPast(t.kids[k], p[1..], u, parts[1..]);
        }
    }
  }

  /** A graft at p changes lookup only for the names that pass through p, where lookup goes on in the
      new subtree. */
  lemma Rejoined(parts: seq<string>, n: nat)
    requires n <= |parts|
    ensures parts[..n] + parts[n..] == parts
  {
  }

  lemma LocateGraft<L>(t: Tree<L>, p: Path, u: Tree<L>, parts: seq<string>)
    requires WF(t) && Has(t, p) && WF(u)
    ensures WF(Graft(t, p, u))
    ensures Locate(Graft(t, p, u), parts) ==
      if |parts| >= |p| && Locate(t, parts[..|p|]) == Some(p) then Under(p, Locate(u, parts[|p|..]))
      else Locate(t, parts)
  {
    if |parts| >= |p| && Locate(t, parts[..|p|]) == Some(p) {
      LocateGraftThrough(t, p, u, parts[..|p|]);
      GraftGraft(t, p, u, u);
      LocateConcat(Graft(t, p, u), parts[..|p|], parts[|p|..]);
      Rejoined(parts, |p|);
    } else {
      LocateGraftPast(t, p, u, parts);
    }
  }

  /* ---------- what an edit does to the measures ---------- */

  lemma {:induction false} GetInAllFolders<L>(t: Tree<L>, p: Path, P: seq<string> -> bool)
    requires InAllFolders(t, P) && Has(t, p)
    ensures InAllFolders(Get(t, p), P)
    decreases |p|
  {
    if p != [] { GetInAllFolders(t.kids[p[0]], p[1..], P); }
  }

  lemma {:induction false} GraftInAllFolders<L>(t: Tree<L>, p: Path, u: Tree<L>, P: seq<string> -> bool)
    requires InAllFolders(t, P) && Has(t, p)
    ensures InAllFolders(Graft(t, p, u), P) <==> InAllFolders(u, P)
    decreases |p|
  {
    if p != [] {
      GraftInAllFolders(t.kids[p[0]], p[1..], u, P);
      var g := Graft(t, p, u);
      if InAllFolders(g, P) { assert InAllFolders(g.kids[p[0]], P); }
    }
  }

  lemma {:induction false} ObjectsAt<L>(t: Tree<L>, p: Path)
    requires Has(t, p)
    ensures Objects(Get(t, p)) <= Objects(t)
    ensures Unshared(t) ==> Unshared(Get(t, p))
    decreases |p|
  {
    if p != [] {
      ObjectsAt(t.kids[p[0]], p[1..]);
      forall o | o in Objects(t.kids[p[0]]) ensures o in Objects(t) {}
    }
  }

  lemma ObjectsOfKid<L>(t: Tree<L>, k: string)
    requires t.Folder? && k in t.kids
    ensures Objects(t.kids[k]) <= Objects(t)
  {
    forall o | o in Objects(t.kids[k]) ensures o in Objects(t) {}
  }

  lemma ObjectsOtherKids<L>(t: Tree<L>, k: string)
    requires t.Folder? && k in t.kids && Unshared(t)
    ensures t.id !in Objects(t.kids[k])
    ensures forall j | j in t.kids && j != k :: Objects(t.kids[j]) <= Objects(t) - Objects(t.kids[k])
  {
    forall j | j in t.kids && j != k ensures Objects(t.kids[j]) <= Objects(t) - Objects(t.kids[k]) {
      ObjectsOfKid(t, j);
    }
  }

  /** Exchanging one child exchanges its objects. */
  lemma ObjectsSetKid<L>(t: Tree<L>, k: string, v: Tree<L>)
    requires t.Folder? && k in t.kids && Unshared(t)
    requires (Objects(t) - Objects(t.kids[k])) !! Objects(v)
    ensures Objects(t.(kids := t.kids[k := v])) == Objects(t) - Objects(t.kids[k]) + Objects(v)
  {
    var g := t.(kids := t.kids[k := v]);
    ObjectsOtherKids(t, k);
    ObjectsOfKid(g, k);
    forall o | o in Objects(g) ensures o in Objects(t) - Objects(t.kids[k]) + Objects(v) {
      if o != t.id { var j := HolderOf(g, o); }
    }
    forall o | o in Objects(t) - Objects(t.kids[k]) ensures o in Objects(g) {
      if o != t.id {
        var j := HolderOf(t, o);
        assert j in g.kids && o in Objects(g.kids[j]);
      }
    }
  }

  /** An object of a folder other than its own is one of a child. */
  lemma HolderOf<L>(t: Tree<L>, o: L) returns (j: string)
    requires t.Folder? && o in Objects(t) && o != t.id
    ensures j in t.kids && o in Objects(t.kids[j])
  {
    j :| j in t.kids && o in Objects(t.kids[j]);
  }

  lemma UnsharedSetKid<L>(t: Tree<L>, k: string, v: Tree<L>)
    requires t.Folder? && k in t.kids && Unshared(t) && Unshared(v)
    requires (Objects(t) - Objects(t.kids[k])) !! Objects(v)
    ensures Unshared(t.(kids := t.kids[k := v]))
  {
    ObjectsOtherKids(t, k);
  }

  lemma ObjectsPut<L>(f: Tree<L>, k: string, u: Tree<L>)
    requires f.Folder? && Unshared(f) && Unshared(u) && Objects(f) !! Objects(u)
    ensures Unshared(Put(f, k, u))
    ensures Objects(u) <= Objects(Put(f, k, u)) <= Objects(f) + Objects(u)
    ensures k !in f.kids ==> Objects(Put(f, k, u)) == Objects(f) + Objects(u)
  {
    var g := Put(f, k, u);
    forall j | j in f.kids ensures Objects(f.kids[j]) <= Objects(f) { ObjectsOfKid(f, j); }
    forall o | o in Objects(g) ensures o in Objects(f) + Objects(u) {
      if o != g.id {
        var j :| j in g.kids && o in Objects(g.kids[j]);
      }
    }
    ObjectsOfKid(g, k);
    if k !in f.kids {
      forall o | o in Objects(f) ensures o in Objects(g) {
        if o != f.id {
          var j :| j in f.kids && o in Objects(f.kids[j]);
          assert o in Objects(g.kids[j]);
        }
      }
    }
  }

  lemma ObjectsDrop<L>(f: Tree<L>, k: string)
    requires f.Folder? && Unshared(f) && k in f.kids
    ensures Unshared(Drop(f, k))
    ensures Objects(Drop(f, k)) == Objects(f) - Objects(f.kids[k])
  {
    var g := Drop(f, k);
    forall j | j in f.kids ensures Objects(f.kids[j]) <= Objects(f) { ObjectsOfKid(f, j); }
    forall o | o in Objects(g) ensures o in Objects(f) - Objects(f.kids[k]) {
      if o != g.id {
        var j :| j in g.kids && o in Objects(g.kids[j]);
      }
    }
    forall o | o in Objects(f) - Objects(f.kids[k]) ensures o in Objects(g) {
      if o != f.id {
        var j :| j in f.kids && o in Objects(f.kids[j]);
        assert j in g.kids && o in Objects(g.kids[j]);
      }
    }
  }

  /** A graft exchanges the objects of the old subtree for those of the new one. */
  lemma {:induction false} ObjectsGraft<L>(t: Tree<L>, p: Path, u: Tree<L>)
    requires Has(t, p) && Unshared(t) && Unshared(u)
    requires (Objects(t) - Objects(Get(t, p))) !! Objects(u)
    ensures Objects(Graft(t, p, u)) == Objects(t) - Objects(Get(t, p)) + Objects(u)
    ensures Unshared(Graft(t, p, u))
    decreases |p|
  {
    if p != [] {
      var s, k := t.kids[p[0]], p[0];
      ObjectsAt(s, p[1..]);
      ObjectsOfKid(t, k);
      assert Objects(s) - Objects(Get(t, p)) <= Objects(t) - Objects(Get(t, p));
      ObjectsGraft(s, p[1..], u);
      GraftedKid(t, k, Graft(s, p[1..], u), Objects(Get(t, p)), Objects(u));
    }
  }

  lemma GraftedKid<L>(t: Tree<L>, k: string, v: Tree<L>, gone: set<L>, come: set<L>)
    requires t.Folder? && k in t.kids && Unshared(t) && Unshared(v)
    requires gone <= Objects(t.kids[k]) && (Objects(t) - gone) !! come
    requires Objects(v) == Objects(t.kids[k]) - gone + come
    ensures Objects(t.(kids := t.kids[k := v])) == Objects(t) - gone + come
    ensures Unshared(t.(kids := t.kids[k := v]))
  {
    ObjectsOfKid(t, k);
    ObjectsSetKid(t, k, v);
    UnsharedSetKid(t, k, v);
  }

  lemma {:induction false} ContentsSame<L>(t: Tree<L>, v: Tree<L>, keys: seq<string>)
    requires t.Folder? && v.Folder? && WF(t) && WF(v)
    requires forall k :: k in keys ==> k in t.kids && k in v.kids && t.kids[k] == v.kids[k]
    ensures ContentsOf(t, keys) == ContentsOf(v, keys)
  {
    if keys != [] { ContentsSame(t, v, keys[1..]); }
  }

  /** The contents below one key can be taken out of the sum. */
  lemma {:induction false} ContentsSplit<L>(t: Tree<L>, keys: seq<string>, k: string)
    requires t.Folder? && WF(t) && Distinct(keys) && k in keys && forall j :: j in keys ==> j in t.kids
    ensures forall j :: j in Without(keys, k) ==> j in t.kids
    ensures ContentsOf(t, keys) == Contents(t.kids[k]) + ContentsOf(t, Without(keys, k))
  {
    WithoutMembers(keys, k);
    var x, tail := keys[0], keys[1..];
    WithoutFirst(x, tail, keys, k);
    if x != k {
      ContentsSplit(t, tail, k);
      var rest := Without(tail, k);
      assert ([x] + rest)[1..] == rest;
      assert ContentsOf(t, [x] + rest) == Contents(t.kids[x]) + ContentsOf(t, rest);
    }
  }

  lemma WithoutFirst(x: string, tail: seq<string>, keys: seq<string>, k: string)
    requires keys != [] && x == keys[0] && tail == keys[1..] && Distinct(keys)
    ensures Distinct(tail) && x !in tail
    ensures Without(keys, k) == if x == k then tail else [x] + Without(tail, k)
    ensures k in keys && x != k ==> k in tail
  {
    assert keys == [x] + tail;
    DistinctCons(x, tail);
    assert k in keys ==> k == x || k in tail;
    if x == k {
      WithoutAbsent(tail, k);
      NothingBefore(tail);
    }
  }

  lemma NothingBefore(names: seq<string>)
    ensures [] + names == names
  {
  }

  lemma ContentsSetKid<L>(t: Tree<L>, k: string, v: Tree<L>)
    requires t.Folder? && WF(t) && k in t.kids && WF(v)
    ensures WF(t.(kids := t.kids[k := v]))
    ensures Contents(t.(kids := t.kids[k := v])) + Contents(t.kids[k]) == Contents(t) + Contents(v)
  {
    var g := t.(kids := t.kids[k := v]);
    SetKidWF(t, k, v);
    ContentsSplit(t, t.keys, k);
    ContentsSplit(g, t.keys, k);
    WithoutMembers(t.keys, k);
    ContentsSame(t, g, Without(t.keys, k));
  }

  lemma SetKidWF<L>(t: Tree<L>, k: string, v: Tree<L>)
    requires t.Folder? && WF(t) && k in t.kids && WF(v)
    ensures WF(t.(kids := t.kids[k := v]))
  {
    var kids := t.kids[k := v];
    assert kids.Keys == t.kids.Keys;
  }

  /** Chaining two exchanges of multisets. */
  lemma Exchange(a: multiset<string>, s: multiset<string>, t: multiset<string>, v: multiset<string>,
                 g: multiset<string>, u: multiset<string>)
    requires a + s == t + v && v + g == s + u
    ensures a + g == t + u
  {
    forall x ensures (a + g)[x] == (t + u)[x] {
      assert (a + s)[x] == (t + v)[x] && (v + g)[x] == (s + u)[x];
    }
  }

  lemma {:induction false} ContentsGraft<L>(t: Tree<L>, p: Path, u: Tree<L>)
    requires WF(t) && Has(t, p) && WF(u)
    ensures WF(Graft(t, p, u)) && WF(Get(t, p))
    ensures Contents(Graft(t, p, u)) + Contents(Get(t, p)) == Contents(t) + Contents(u)
    decreases |p|
  {
    GraftWF(t, p, u);
    GetWF(t, p);
    if p != [] {
      ContentsGraft(t.kids[p[0]], p[1..], u);
      var s := t.kids[p[0]];
      var v := Graft(s, p[1..], u);
      ContentsSetKid(t, p[0], v);
      Exchange(Contents(Graft(t, p, u)), Contents(s), Contents(t), Contents(v), Contents(Get(t, p)), Contents(u));
    }
  }

  lemma WithoutLast(names: seq<string>, k: string)
    requires k !in names
    ensures Without(names + [k], k) == names
  {
    WithoutConcat(names, [k], k);
    WithoutAbsent(names, k);
    assert Without([k], k) == [] && names + [] == names;
  }

  lemma ContentsInsert<L>(t: Tree<L>, p: Path, k: string, u: Tree<L>)
    requires WF(t) && HasFolder(t, p) && k !in Get(t, p).kids && WF(u)
    ensures WF(Insert(t, p, k, u)) && Contents(Insert(t, p, k, u)) == Contents(t) + Contents(u)
  {
    var f := Get(t, p);
    GetWF(t, p);
    var g := Put(f, k, u);
    PutWF(f, k, u);
    ContentsSplit(g, g.keys, k);
    WithoutLast(f.keys, k);
    ContentsSame(f, g, f.keys);
    ContentsGraft(t, p, g);
    Exchange(Contents(Insert(t, p, k, u)), Contents(f), Contents(t), Contents(g), multiset{}, Contents(u));
  }

  lemma ContentsRemove<L>(t: Tree<L>, p: Path, k: string)
    requires WF(t) && HasFolder(t, p) && k in Get(t, p).kids
    ensures WF(Remove(t, p, k)) && WF(Get(t, p).kids[k])
    ensures Contents(Remove(t, p, k)) + Contents(Get(t, p).kids[k]) == Contents(t)
  {
    var f := Get(t, p);
    GetWF(t, p);
    var g := Drop(f, k);
    DropWF(f, k);
    ContentsSplit(f, f.keys, k);
    WithoutMembers(f.keys, k);
    ContentsSame(f, g, g.keys);
    ContentsGraft(t, p, g);
    Exchange(Contents(Remove(t, p, k)), Contents(f), Contents(t), Contents(g), Contents(f.kids[k]), multiset{});
  }

  /** Inserting fresh objects keeps the objects a tree. */
  lemma ObjectsInsert<L>(t: Tree<L>, p: Path, k: string, u: Tree<L>)
    requires HasFolder(t, p) && Unshared(t) && Unshared(u) && Objects(t) !! Objects(u)
    ensures Unshared(Insert(t, p, k, u))
    ensures Objects(Insert(t, p, k, u)) <= Objects(t) + Objects(u)
    ensures k !in Get(t, p).kids ==> Objects(Insert(t, p, k, u)) == Objects(t) + Objects(u)
  {
    ObjectsAt(t, p);
    ObjectsPut(Get(t, p), k, u);
    ObjectsGraft(t, p, Put(Get(t, p), k, u));
  }

  lemma ObjectsRemove<L>(t: Tree<L>, p: Path, k: string)
    requires HasFolder(t, p) && Unshared(t) && k in Get(t, p).kids
    ensures Unshared(Remove(t, p, k))
    ensures Objects(Remove(t, p, k)) == Objects(t) - Objects(Get(t, p).kids[k])
  {
    ObjectsAt(t, p);
    ObjectsOfKid(Get(t, p), k);
    ObjectsDrop(Get(t, p), k);
    ObjectsGraft(t, p, Drop(Get(t, p), k));
  }
}
