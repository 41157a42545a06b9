/** What the trash and the recursive listing promise. */
module FilesLaws {
  import opened Text
  import opened Paths
  import opened Options
  import opened Trees
  import opened CopyNames
  import opened VfsSpec
  import opened VfsLaws
  import opened OperationLaws
  import opened ShellSpec
  import opened ShellLaws
  import opened FilesSpec

  /* ---------- recursive listing ---------- */

  /** The listing names every proper descendant: a path is listed exactly when it leads somewhere. */
  lemma {:induction false} DescendantsComplete<L>(f: Tree<L>, q: Path)
    requires WF(f)
    ensures q in Descendants(f) <==> q != [] && Has(f, q)
    decreases f, 1, 0
  {
    if f.Folder? { DescendantsOfComplete(f, f.keys, q); }
  }

  lemma KidPath<L>(f: Tree<L>, k: string)
    requires f.Folder? && k in f.kids
    ensures At(f, [k]) == Some(f.kids[k])
  {
    assert [k][1..] == [];
  }

  lemma {:induction false} DescendantsOfComplete<L>(f: Tree<L>, keys: seq<string>, q: Path)
    requires f.Folder? && WF(f) && forall k :: k in keys ==> k in f.kids
    ensures q in DescendantsOf(f, keys) <==> q != [] && q[0] in keys && Has(f, q)
    decreases f, 0, |keys|
  {
    if keys != [] {
      var k := keys[0];
      var kid := f.kids[k];
      DescendantsOfComplete(f, keys[1..], q);
      var below := AllUnder(k, Descendants(kid));
      KidPath(f, k);
      if q in below {
        var i :| 0 <= i < |below| && below[i] == q;
        DescendantsComplete(kid, Descendants(kid)[i]);
        assert q[1..] == Descendants(kid)[i];
      }
      if q != [] && q[0] == k && Has(f, q) {
        assert q == [k] + q[1..];
        if q[1..] != [] {
          DescendantsComplete(kid, q[1..]);
          var i :| 0 <= i < |Descendants(kid)| && Descendants(kid)[i] == q[1..];
          assert below[i] == q;
        } else {
          assert q == [k];
        }
      }
    }
  }

  /** No descendant is listed twice. */
  lemma {:induction false} DescendantsDistinct<L>(f: Tree<L>)
    requires WF(f)
    ensures Distinct(Descendants(f))
    decreases f, 1, 0
  {
    if f.Folder? { DescendantsOfDistinct(f, f.keys); }
  }

  lemma {:induction false} DescendantsOfDistinct<L>(f: Tree<L>, keys: seq<string>)
    requires f.Folder? && WF(f) && Distinct(keys) && forall k :: k in keys ==> k in f.kids
    ensures Distinct(DescendantsOf(f, keys))
    decreases f, 0, |keys|
  {
    if keys != [] {
      var k := keys[0];
      var kid := f.kids[k];
      var here, rest := AllUnder(k, Descendants(kid)), DescendantsOf(f, keys[1..]);
      DescendantsDistinct(kid);
      DescendantsOfDistinct(f, keys[1..]);
      forall i, j | 0 <= i < j < |here| ensures here[i] != here[j] {
        assert here[i][1..] == Descendants(kid)[i] && here[j][1..] == Descendants(kid)[j];
      }
      forall i | 0 <= i < |here| ensures here[i] != [k] && here[i][0] == k {
        DescendantsComplete(kid, Descendants(kid)[i]);
        assert Descendants(kid)[i] in Descendants(kid);
        assert here[i][1..] == Descendants(kid)[i];
      }
      forall j | 0 <= j < |rest| ensures rest[j] != [] && rest[j][0] != k {
        assert rest[j] in rest;
        DescendantsOfComplete(f, keys[1..], rest[j]);
      }
      DistinctParts([[k]], here, rest);
    }
  }

  lemma DistinctParts(a: seq<Path>, b: seq<Path>, c: seq<Path>)
    requires Distinct(a) && Distinct(b) && Distinct(c)
    requires forall i, j :: 0 <= i < |a| && 0 <= j < |b| ==> a[i] != b[j]
    requires forall i, j :: 0 <= i < |a| && 0 <= j < |c| ==> a[i] != c[j]
    requires forall i, j :: 0 <= i < |b| && 0 <= j < |c| ==> b[i] != c[j]
    ensures Distinct(a + b + c)
  {
  }

  /** Each line of the listing spells, by its folder path and name, the descendant it stands for. */
  lemma {:induction false} WalkSpells<L>(f: Tree<L>, path: string)
    requires WF(f) && GoodTree(f) && CaseUnique(f)
    ensures AllSpell(f, path, Walk(f, path), Descendants(f))
    decreases f, 1, 0
  {
    if f.Folder? { WalkKeysSpell(f, f.keys, path); }
  }

  ghost predicate Spells<L>(f: Tree<L>, path: string, item: Item<L>, q: Path)
  {
    && Has(f, q) && q != [] && Get(f, q).id == item.id && item.name == Last(q)
    && Parts(ChildPath(item.parentPath, item.name)) == Parts(path) + q
  }

  ghost predicate AllSpell<L>(f: Tree<L>, path: string, items: seq<Item<L>>, paths: seq<Path>)
  {
    |items| == |paths| && forall i :: 0 <= i < |items| ==> Spells(f, path, items[i], paths[i])
  }

  lemma {:induction false} WalkKeysSpell<L>(f: Tree<L>, keys: seq<string>, path: string)
    requires f.Folder? && WF(f) && GoodTree(f) && CaseUnique(f) && forall k :: k in keys ==> k in f.kids
    ensures AllSpell(f, path, WalkKeys(f, keys, path), DescendantsOf(f, keys))
    decreases f, 0, |keys|
  {
    if keys != [] {
      var k := keys[0];
      var kid := f.kids[k];
      assert k in f.keys;
      DistinctIsSingle(f.keys, k);
      FindMember(f.keys, k, k);
      WalkSpells(kid, ChildPath(path, k));
      WalkKeysSpell(f, keys[1..], path);
      KidSpells(f, k, path, Walk(kid, ChildPath(path, k)), Descendants(kid));
      SpellsConcat(f, path, [Item(kid.id, k, path)], [[k]], Walk(kid, ChildPath(path, k)),
                   AllUnder(k, Descendants(kid)));
      SpellsConcat(f, path, [Item(kid.id, k, path)] + Walk(kid, ChildPath(path, k)),
                   [[k]] + AllUnder(k, Descendants(kid)),
                   WalkKeys(f, keys[1..], path), DescendantsOf(f, keys[1..]));
    }
  }

  lemma SpellsConcat<L>(f: Tree<L>, path: string, a: seq<Item<L>>, p: seq<Path>, b: seq<Item<L>>, q: seq<Path>)
    requires AllSpell(f, path, a, p) && AllSpell(f, path, b, q)
    ensures AllSpell(f, path, a + b, p + q)
  {
    var items, paths := a + b, p + q;
    forall i | 0 <= i < |items| ensures Spells(f, path, items[i], paths[i]) {
      if i < |a| {
        assert items[i] == a[i] && paths[i] == p[i];
      } else {
        assert items[i] == b[i - |a|] && paths[i] == q[i - |a|];
      }
    }
  }

  lemma KidSpells<L>(f: Tree<L>, k: string, path: string, items: seq<Item<L>>, paths: seq<Path>)
    requires f.Folder? && k in f.kids && GoodName(k) && AllSpell(f.kids[k], ChildPath(path, k), items, paths)
    ensures AllSpell(f, path, [Item(f.kids[k].id, k, path)], [[k]])
    ensures AllSpell(f, path, items, AllUnder(k, paths))
  {
    PartsOfChildPath(path, k);
    KidPath(f, k);
    forall i | 0 <= i < |items| ensures Spells(f, path, items[i], AllUnder(k, paths)[i]) {
      SpellsBelow(f, path, k, items[i], paths[i]);
    }
  }

  lemma SpellsBelow<L>(f: Tree<L>, path: string, k: string, item: Item<L>, q: Path)
    requires f.Folder? && k in f.kids && GoodName(k) && Spells(f.kids[k], ChildPath(path, k), item, q)
    ensures Spells(f, path, item, [k] + q)
  {
    PartsOfChildPath(path, k);
    assert ([k] + q)[1..] == q;
    assert Parts(path) + [k] + q == Parts(path) + ([k] + q);
  }

  /** Exact keys, all good and unique up to case, locate themselves. */
  lemma {:induction false} KeysLocate<L>(t: Tree<L>, q: Path)
    requires WF(t) && CaseUnique(t) && Has(t, q)
    ensures Locate(t, q) == Some(q)
    decreases |q|
  {
    if q != [] {
      DistinctIsSingle(t.keys, q[0]);
      FindMember(t.keys, q[0], q[0]);
      KeysLocate(t.kids[q[0]], q[1..]);
      assert [q[0]] + q[1..] == q;
    }
  }

  /** An entry "/" makes the collector come back to the folder it is in, without end. */
  lemma SlashLeadsBack<L>(t: Tree<L>, path: string)
    requires WF(t)
    ensures Resolve(t, ChildPath(path, "/")) == Resolve(t, path)
  {
    if path == "/" {
      PartsConcat("", "/");
      PartsConcat("", "");
      assert "" + "/" + "/" == "//" && "" + "/" + "" == "/";
    } else {
      PartsConcat(path, "/");
      PartsConcat("", "");
      assert path + "/" + "/" == ChildPath(path, "/") && "" + "/" + "" == "/";
    }
  }

  /** The listing of a folder holds each proper descendant exactly once, and every line leads back, through
      its folder path and name, to the node it stands for. */
  lemma ListingLaw<L>(t: Tree<L>, path: string, i: nat)
    requires WF(t) && ResolveFolder(t, path).Some?
    requires CaseUnique(Get(t, ResolveFolder(t, path).value)) && GoodTree(Get(t, ResolveFolder(t, path).value))
    ensures var d := ResolveFolder(t, path).value;
      var f := Get(t, d);
      && WF(f) && |Walk(f, path)| == |Descendants(f)| && Distinct(Descendants(f))
      && (forall q :: q in Descendants(f) <==> q != [] && Has(f, q))
      && (i < |Walk(f, path)| ==>
          var item := Walk(f, path)[i];
          && Resolve(t, ChildPath(item.parentPath, item.name)) == Some(d + Descendants(f)[i])
          && At(t, d + Descendants(f)[i]).Some?
          && Get(t, d + Descendants(f)[i]).id == item.id)
  {
    var d := ResolveFolder(t, path).value;
    var f := Get(t, d);
    GetWF(t, d);
    WalkSpells(f, path);
    DescendantsDistinct(f);
    forall q ensures q in Descendants(f) <==> q != [] && Has(f, q) { DescendantsComplete(f, q); }
    if i < |Walk(f, path)| {
      var item, q := Walk(f, path)[i], Descendants(f)[i];
      assert Spells(f, path, item, q);
      KeysLocate(f, q);
      LocateConcat(t, Parts(path), q);
      AtConcat(t, d, q);
    }
  }

  /* ---------- emptying the trash ---------- */

  ghost function Emptied<L>(f: Tree<L>): Tree<L>
    requires f.Folder?
  {
    f.(keys := [], kids := map[])
  }

  /** How many keys fall in each class of names equal up to case. */
  ghost function Classes(keys: seq<string>): multiset<string>
  {
    if keys == [] then multiset{} else multiset{Lower(keys[0])} + Classes(keys[1..])
  }

  lemma {:induction false} ClassesWithout(keys: seq<string>, k: string)
    requires Distinct(keys) && k in keys
    ensures Classes(keys) == multiset{Lower(k)} + Classes(Without(keys, k))
  {
    var x, tail := keys[0], keys[1..];
    assert keys == [x] + tail;
    DistinctCons(x, tail);
    WithoutConcat([x], tail, k);
    if x == k {
      WithoutAbsent(tail, k);
      assert Without(keys, k) == [] + tail == tail;
    } else {
      ClassesWithout(tail, k);
      var rest := Without(tail, k);
      assert Without(keys, k) == [x] + rest && ([x] + rest)[1..] == rest;
    }
  }

  /** A name whose class is not empty is found. */
  lemma {:induction false} FoundByClass(keys: seq<string>, x: string)
    ensures Lower(x) in Classes(keys) <==> Find(keys, x).Some?
  {
    if keys != [] { FoundByClass(keys[1..], x); }
  }

  lemma TrashItemPath(x: string)
    requires GoodName(x)
    ensures Parts(TRASH) == ["Trash"] && Parts(TRASH + "/" + x) == Parts(TRASH) + [x]
  {
    PartsOfAbsPath(["Trash"]);
    assert AbsPath(["Trash"]) == TRASH;
    PartsOfChildPath(TRASH, x);
  }

  /** One deletion takes the first key equal to the name up to case. */
  lemma OneDeleted<L>(t: Tree<L>, x: string, d: Path)
    requires WF(t) && ResolveFolder(t, TRASH) == Some(d) && GoodName(x) && Find(Keys(t, d), x).Some?
    ensures var f, k := Get(t, d), Find(Keys(t, d), x).value;
      var t1 := Graft(t, d, Drop(f, k));
      && DeletePath(t, TRASH + "/" + x).tree == t1 && WF(t1)
      && ResolveFolder(t1, TRASH) == Some(d) && Get(t1, d) == Drop(f, k)
      && Graft(t1, d, Emptied(Drop(f, k))) == Graft(t, d, Emptied(f))
  {
    TrashItemPath(x);
    DeletedFrom(t, TRASH + "/" + x, Parts(TRASH), x, d);
  }

  lemma DeletedFrom<L>(t: Tree<L>, path: string, parts: seq<string>, x: string, d: Path)
    requires WF(t) && Parts(path) == parts + [x] && Locate(t, parts) == Some(d) && HasFolder(t, d)
    requires Find(Keys(t, d), x).Some?
    ensures var f, k := Get(t, d), Find(Keys(t, d), x).value;
      var t1 := Graft(t, d, Drop(f, k));
      && DeletePath(t, path).tree == t1 && WF(t1) && Locate(t1, parts) == Some(d)
      && Has(t1, d) && Get(t1, d) == Drop(f, k)
      && Graft(t1, d, Emptied(Drop(f, k))) == Graft(t, d, Emptied(f))
  {
    var f, k := Get(t, d), Find(Keys(t, d), x).value;
    TargetEntry(t, parts, x, d);
    ChildOf(d, k);
    GetWF(t, d);
    DropWF(f, k);
    LocateGraftThrough(t, d, Drop(f, k), parts);
    GraftGraft(t, d, Drop(f, k), Emptied(f));
  }

  /** Deleting one name per key, counted up to case, empties the folder, though each deletion takes the
      first key equal up to case rather than the named one; nothing outside the folder changes. */
  lemma {:induction false} DeleteAllEmpties<L>(t: Tree<L>, names: seq<string>, d: Path)
    requires WF(t) && ResolveFolder(t, TRASH) == Some(d) && GoodNames(names)
    requires Classes(Keys(t, d)) == Classes(names)
    ensures DeleteAll(t, names) == Graft(t, d, Emptied(Get(t, d)))
    decreases |names|
  {
    var f := Get(t, d);
    if names == [] {
      NoKeysLeft(f);
      GraftSame(t, d);
    } else {
      var x, tail := names[0], names[1..];
      assert x in names;
      FoundByClass(f.keys, x);
      FoundByClass(names, x);
      FindIsKey(f.keys, x);
      var k := Find(f.keys, x).value;
      OneDeleted(t, x, d);
      GetWF(t, d);
      ClassesWithout(f.keys, k);
      SameRest(Lower(x), Classes(Without(f.keys, k)), Classes(tail));
      DeleteAllEmpties(Graft(t, d, Drop(f, k)), tail, d);
    }
  }

  lemma SameRest(c: string, a: multiset<string>, b: multiset<string>)
    requires multiset{c} + a == multiset{c} + b
    ensures a == b
  {
    forall x ensures a[x] == b[x] {
      assert (multiset{c} + a)[x] == (multiset{c} + b)[x];
    }
  }

  lemma NoClasses(keys: seq<string>)
    ensures Classes(keys) == multiset{} <==> keys == []
  {
    if keys != [] { assert Lower(keys[0]) in Classes(keys); }
  }

  lemma NoKeysLeft<L>(f: Tree<L>)
    requires f.Folder? && WF(f) && Classes(f.keys) == multiset{}
    ensures Emptied(f) == f
  {
    NoClasses(f.keys);
    assert forall k :: k in f.kids ==> k in f.keys;
    assert f.kids.Keys == {};
  }

  /** Emptying the trash removes all of its content and nothing else, keys equal up to case included, exactly when
      every key in it can be spelled by a path segment. (An entry "/", as a copy of the root is named, makes the
      command delete the trash itself.) */
  lemma EmptyTrashLaw<L>(t: Tree<L>)
    requires WF(t)
    ensures match ResolveFolder(t, TRASH)
      case None => EmptyTrash(t) == t
      case Some(d) => EmptyTrash(t) == Graft(t, d, Emptied(Get(t, d))) <==> GoodNames(Keys(t, d))
  {
    match ResolveFolder(t, TRASH)
    case None =>
    case Some(d) =>
      if GoodNames(Keys(t, d)) {
        DeleteAllEmpties(t, Keys(t, d), d);
      } else {
        var k :| k in Keys(t, d) && !GoodName(k);
        BadKeyStays(t, Keys(t, d), d, k);
        GraftGraft(t, d, Emptied(Get(t, d)), Get(t, d));
      }
  }

  /** The emptied trash is found and lists nothing. */
  lemma EmptiedTrash<L>(t: Tree<L>)
    requires WF(t) && ResolveFolder(t, TRASH).Some? && GoodNames(Keys(t, ResolveFolder(t, TRASH).value))
    ensures WF(EmptyTrash(t)) && ListDirectory(EmptyTrash(t), TRASH) == Some([])
  {
    var d := ResolveFolder(t, TRASH).value;
    EmptyTrashLaw(t);
    LocateGraftThrough(t, d, Emptied(Get(t, d)), Parts(TRASH));
    GraftGraft(t, d, Emptied(Get(t, d)), Get(t, d));
  }

  /** As long as the folder is there, an entry that no path can spell is in it. */
  ghost predicate Keeps<L>(t: Tree<L>, d: Path, k: string)
  {
    Has(t, d) ==> HasFolder(t, d) && k in Keys(t, d)
  }

  lemma {:induction false} BadKeyStays<L>(t: Tree<L>, names: seq<string>, d: Path, k: string)
    requires WF(t) && !GoodName(k) && Keeps(t, d, k)
    ensures Keeps(DeleteAll(t, names), d, k)
    decreases |names|
  {
    if names != [] {
      DeleteWF(t, TRASH + "/" + names[0]);
      DeletionKeepsBadKey(t, TRASH + "/" + names[0], d, k);
      BadKeyStays(DeletePath(t, TRASH + "/" + names[0]).tree, names[1..], d, k);
    }
  }

  lemma DeletionKeepsBadKey<L>(t: Tree<L>, path: string, d: Path, k: string)
    requires WF(t) && !GoodName(k) && Keeps(t, d, k)
    ensures Keeps(DeletePath(t, path).tree, d, k)
  {
    if DeletePath(t, path).ok {
      var p := Resolve(t, path).value;
      LastIsGood(t, path);
      RemovalCreatesNothing(t, p, d);
      if Has(t, d) && !(p <= d) {
        RemoveKeepsFolder(t, p, d);
        WithoutMembers(Keys(t, d), Last(p));
      }
    }
  }

  lemma RemovalCreatesNothing<L>(t: Tree<L>, p: Path, d: Path)
    requires WF(t) && Has(t, p) && p != []
    ensures HasFolder(t, Init(p)) && (Has(Remove(t, Init(p), Last(p)), d) ==> Has(t, d) && !(p <= d))
  {
    InitHasFolder(t, p);
    InitAndLast(p);
    var e, f := Init(p), Drop(Get(t, Init(p)), Last(p));
    GraftAt(t, e, f, d);
    if e <= d {
      var r := d[|e|..];
      assert d == e + r;
      AtConcat(t, e, r);
      assert r != [] && r[0] == Last(p) ==> At(f, r) == None;
      if p <= d { assert r[0] == d[|e|] == p[|e|]; }
    }
  }

  /* ---------- to the trash and back ---------- */

  /** The situation in which an item can make the round trip: its name finds it in its folder, it is not the trash and
      does not hold it, and the trash holds no entry of its name. */
  ghost predicate CanRoundTrip<L>(t: Tree<L>, parentPath: string, name: string)
  {
    && WF(t) && GoodName(name) && parentPath != ""
    && ResolveFolder(t, parentPath).Some? && ResolveFolder(t, TRASH).Some?
    && Find(Keys(t, ResolveFolder(t, parentPath).value), name) == Some(name)
    && !(ResolveFolder(t, parentPath).value + [name] <= ResolveFolder(t, TRASH).value)
    && Find(Keys(t, ResolveFolder(t, TRASH).value), name) == None
  }

  /** The item as it comes back: last in its folder, and marked. */
  ghost function Returned<L>(t: Tree<L>, d: Path, name: string, parentPath: string): Tree<L>
    requires HasFolder(t, d) && name in Get(t, d).kids
  {
    var f := Get(t, d);
    Graft(t, d, Put(Drop(f, name), name, f.kids[name].(orig := parentPath)))
  }

  /** Replacing a child is grafting it. */
  lemma GraftChild<L>(t: Tree<L>, d: Path, name: string, u: Tree<L>)
    requires WF(t) && HasFolder(t, d) && name in Get(t, d).kids
    ensures Has(t, d + [name]) && Graft(t, d + [name], u) == Insert(t, d, name, u)
    ensures Remove(t, d, name) == Graft(t, d, Drop(Put(Get(t, d), name, u), name))
    decreases |d|
  {
    AtChild(t, d, name);
    GraftConcat(t, d, [name], u);
    var f := Get(t, d);
    assert [name][1..] == [];
    assert Graft(f, [name], u) == f.(kids := f.kids[name := u]);
    assert f.kids[name := u] - {name} == f.kids - {name};
  }

  lemma {:induction false} GraftConcat<L>(t: Tree<L>, p: Path, q: Path, u: Tree<L>)
    requires Has(t, p) && Has(Get(t, p), q)
    ensures Has(t, p + q) && Graft(t, p + q, u) == Graft(t, p, Graft(Get(t, p), q, u))
    decreases |p|
  {
    AtConcat(t, p, q);
    if p == [] {
      assert p + q == q;
    } else {
      assert (p + q)[1..] == p[1..] + q;
      GraftConcat(t.kids[p[0]], p[1..], q, u);
    }
  }

  /** Marking a node changes no lookup. */
  lemma MarkKeepsLocate<L>(t: Tree<L>, p: Path, orig: string, parts: seq<string>)
    requires WF(t) && Has(t, p)
    ensures WF(Graft(t, p, Get(t, p).(orig := orig)))
    ensures Locate(Graft(t, p, Get(t, p).(orig := orig)), parts) == Locate(t, parts)
  {
    var s := Get(t, p);
    var u := s.(orig := orig);
    GetWF(t, p);
    GraftWF(t, p, u);
    LocateGraft(t, p, u, parts);
    if |parts| >= |p| && Locate(t, parts[..|p|]) == Some(p) {
      assert parts[..|p|] + parts[|p|..] == parts;
      LocateConcat(t, parts[..|p|], parts[|p|..]);
      assert Locate(u, parts[|p|..]) == Locate(s, parts[|p|..]);
    }
  }

  /** Inserting under a new key leaves the other folders where and as they are, as far as their keys go. */
  lemma InsertKeepsFolder<L>(t: Tree<L>, e: Path, k: string, u: Tree<L>, d: Path)
    requires WF(t) && HasFolder(t, e) && k !in Get(t, e).kids && HasFolder(t, d)
    ensures HasFolder(Insert(t, e, k, u), d)
    ensures Keys(Insert(t, e, k, u), d) == if d == e then Keys(t, d) + [k] else Keys(t, d)
  {
    GraftAt(t, e, Put(Get(t, e), k, u), d);
    if e <= d { InsertBelow(t, e, k, u, d, d[|e|..]); }
  }

  lemma InsertBelow<L>(t: Tree<L>, e: Path, k: string, u: Tree<L>, d: Path, r: Path)
    requires HasFolder(t, e) && k !in Get(t, e).kids && HasFolder(t, d) && e <= d && r == d[|e|..]
    ensures d == e + r
    ensures r == [] ==> d == e
    ensures r != [] ==> At(Put(Get(t, e), k, u), r) == At(t, d)
  {
    AtConcat(t, e, r);
  }

  lemma RemoveInserted<L>(t: Tree<L>, d: Path, k: string, u: Tree<L>)
    requires WF(t) && HasFolder(t, d) && k !in Get(t, d).kids
    ensures HasFolder(Insert(t, d, k, u), d) && Remove(Insert(t, d, k, u), d, k) == t
    ensures Has(Insert(t, d, k, u), d + [k]) && Get(Insert(t, d, k, u), d + [k]) == u
  {
    var f := Get(t, d);
    GetWF(t, d);
    GraftGraft(t, d, Put(f, k, u), f);
    DropPut(f, k, u);
    GraftGraft(t, d, Put(f, k, u), Drop(Put(f, k, u), k));
    GraftSame(t, d);
    AtChild(Insert(t, d, k, u), d, k);
  }

  /** Marking the item in its folder. */
  lemma MarkedItem<L>(t: Tree<L>, parentPath: string, name: string)
    requires CanRoundTrip(t, parentPath, name)
    ensures var d, e := ResolveFolder(t, parentPath).value, ResolveFolder(t, TRASH).value;
      var t2 := MarkOrigin(t, parentPath, name);
      && name in Get(t, d).kids && WF(t2)
      && t2 == Insert(t, d, name, Get(t, d).kids[name].(orig := parentPath))
      && Resolve(t2, ChildPath(parentPath, name)) == Some(d + [name])
      && Resolve(t2, TRASH) == Some(e)
  {
    var d := ResolveFolder(t, parentPath).value;
    ItemFound(t, parentPath, name);
    MarkedTree(t, d, parentPath, name);
    MarkKeepsLocate(t, d + [name], parentPath, Parts(ChildPath(parentPath, name)));
    MarkKeepsLocate(t, d + [name], parentPath, Parts(TRASH));
  }

  lemma MarkedTree<L>(t: Tree<L>, d: Path, parentPath: string, name: string)
    requires WF(t) && ResolveFolder(t, parentPath) == Some(d) && name in Get(t, d).kids && name in Keys(t, d)
    ensures WF(MarkOrigin(t, parentPath, name)) && Has(t, d + [name])
    ensures MarkOrigin(t, parentPath, name) == Graft(t, d + [name], Get(t, d + [name]).(orig := parentPath))
    ensures MarkOrigin(t, parentPath, name) == Insert(t, d, name, Get(t, d).kids[name].(orig := parentPath))
  {
    AtChild(t, d, name);
    GraftChild(t, d, name, Get(t, d).kids[name].(orig := parentPath));
  }

  lemma ItemFound<L>(t: Tree<L>, parentPath: string, name: string)
    requires CanRoundTrip(t, parentPath, name)
    ensures var d := ResolveFolder(t, parentPath).value;
      && name in Get(t, d).kids && At(t, d + [name]) == Some(Get(t, d).kids[name])
      && Resolve(t, ChildPath(parentPath, name)) == Some(d + [name])
  {
    var d := ResolveFolder(t, parentPath).value;
    GetWF(t, d);
    FindIsKey(Get(t, d).keys, name);
    AtChild(t, d, name);
    PartsOfChildPath(parentPath, name);
    TargetEntry(t, Parts(parentPath), name, d);
  }

  /** The first half: the marked item ends up in the trash under its own name. */
  lemma ToTrash<L>(t: Tree<L>, parentPath: string, name: string)
    requires CanRoundTrip(t, parentPath, name)
    ensures var d, e := ResolveFolder(t, parentPath).value, ResolveFolder(t, TRASH).value;
      var x := Remove(t, d, name);
      && name in Get(t, d).kids && HasFolder(x, e)
      && var moved := MovePath(MarkOrigin(t, parentPath, name), ChildPath(parentPath, name), TRASH);
      && moved.ok && moved.tree == Insert(x, e, name, Get(t, d).kids[name].(orig := parentPath))
  {
    var d, e := ResolveFolder(t, parentPath).value, ResolveFolder(t, TRASH).value;
    MarkedItem(t, parentPath, name);
    GetWF(t, d);
    FindAbsent(t, e, name);
    MarkedMoves(t, d, name, Get(t, d).kids[name].(orig := parentPath), e);
    MoveResolved(MarkOrigin(t, parentPath, name), ChildPath(parentPath, name), TRASH, d + [name], e);
  }

  lemma MarkedMoves<L>(t: Tree<L>, d: Path, name: string, u: Tree<L>, e: Path)
    requires WF(t) && HasFolder(t, d) && name in Get(t, d).kids && HasFolder(t, e) && !(d + [name] <= e)
    requires name !in Keys(t, e) && WF(u)
    ensures var t2, x := Insert(t, d, name, u), Remove(t, d, name);
      && WF(t2) && HasFolder(t2, e) && Has(t2, d + [name]) && HasFolder(x, e)
      && FreshName(SetOf(Keys(t2, e)), name, u.File?) == name && Get(t2, d + [name]) == u
      && Transfer(t2, d + [name], e, name) == Insert(x, e, name, u)
  {
    var t2 := Insert(t, d, name, u);
    InsertWF(t, d, name, u);
    MarkedFolders(t, d, name, u, e);
    FreshNameIsFree(SetOf(Keys(t2, e)), name, u.File?);
    MarkedThenRemoved(t, d, name, u);
    RemoveKeepsFolder(t2, d + [name], e);
  }

  lemma MarkedThenRemoved<L>(t: Tree<L>, d: Path, name: string, u: Tree<L>)
    requires WF(t) && HasFolder(t, d) && name in Get(t, d).kids
    ensures var t2 := Insert(t, d, name, u);
      HasFolder(t2, d) && name in Get(t2, d).kids && Remove(t2, d, name) == Remove(t, d, name)
    ensures Init(d + [name]) == d && Last(d + [name]) == name
  {
    GraftChild(t, d, name, u);
    GraftGraft(t, d, Put(Get(t, d), name, u), Drop(Put(Get(t, d), name, u), name));
    ChildOf(d, name);
  }

  /** Marking the item keeps the keys of every folder, and the item can be read back. */
  lemma MarkedFolders<L>(t: Tree<L>, d: Path, name: string, u: Tree<L>, e: Path)
    requires WF(t) && HasFolder(t, d) && name in Get(t, d).kids && HasFolder(t, e) && !(d + [name] <= e)
    ensures var t2 := Insert(t, d, name, u);
      && HasFolder(t2, d) && Get(t2, d) == Put(Get(t, d), name, u) && At(t2, d + [name]) == Some(u)
      && HasFolder(t2, e) && Keys(t2, e) == Keys(t, e)
  {
    var g := Put(Get(t, d), name, u);
    var t2 := Insert(t, d, name, u);
    GraftGraft(t, d, g, g);
    AtChild(t2, d, name);
    GraftAt(t, d, g, e);
    if d == e {
      assert e[|d|..] == [];
    } else if d <= e {
      var r := e[|d|..];
      assert e == d + r && r != [];
      assert r[0] == name ==> d + [name] <= e;
      AtConcat(t, d, r);
    }
  }

  lemma TrashEntry<L>(t: Tree<L>, e: Path, name: string)
    requires WF(t) && ResolveFolder(t, TRASH) == Some(e) && Find(Keys(t, e), name) == Some(name) && GoodName(name)
    ensures Resolve(t, TRASH + "/" + name) == Some(e + [name])
  {
    TrashItemPath(name);
    TargetEntry(t, Parts(TRASH), name, e);
    assert Parts(TRASH) + [name] == ["Trash", name];
  }

  lemma OriginOf<L>(t: Tree<L>, e: Path, name: string)
    requires WF(t) && ResolveFolder(t, TRASH) == Some(e) && name in Get(t, e).kids && Get(t, e).kids[name].orig != ""
    ensures Origin(t, name) == Get(t, e).kids[name].orig
  {
  }

  lemma MoveResolved<L>(t: Tree<L>, src: string, dst: string, p: Path, d: Path)
    requires WF(t) && Resolve(t, src) == Some(p) && ResolveFolder(t, dst) == Some(d) && p != [] && !(p <= d)
    ensures MovePath(t, src, dst) == Outcome(true, Transfer(t, p, d, MovedName(t, p, d)))
  {
  }

  /** Finding the item in the trash again. */
  lemma FoundInTrash<L>(x: Tree<L>, e: Path, name: string, u: Tree<L>)
    requires WF(x) && WF(u) && GoodName(name) && u.orig != ""
    requires ResolveFolder(x, TRASH) == Some(e) && Find(Keys(x, e), name) == None && name !in Get(x, e).kids
    ensures var t3 := Insert(x, e, name, u);
      && WF(t3) && Resolve(t3, TRASH + "/" + name) == Some(e + [name]) && At(t3, e + [name]) == Some(u)
      && Origin(t3, name) == u.orig
  {
    InsertedFolder(x, e, name, u, Parts(TRASH));
    var t3 := Insert(x, e, name, u);
    FindAppended(Keys(x, e), name, name);
    TrashEntry(t3, e, name);
    OriginOf(t3, e, name);
    AtChild(t3, e, name);
  }

  /** The folder it came from still resolves. */
  lemma OriginResolves<L>(x: Tree<L>, d: Path, e: Path, parentPath: string, name: string, u: Tree<L>)
    requires WF(x) && WF(u) && HasFolder(x, e) && name !in Get(x, e).kids && ResolveFolder(x, parentPath) == Some(d)
    ensures WF(Insert(x, e, name, u)) && ResolveFolder(Insert(x, e, name, u), parentPath) == Some(d)
    ensures Keys(Insert(x, e, name, u), d) == if d == e then Keys(x, d) + [name] else Keys(x, d)
  {
    StatInsert(x, e, name, u, Parts(parentPath));
    StatLocates(x, Parts(parentPath));
    StatLocates(Insert(x, e, name, u), Parts(parentPath));
    InsertKeepsFolder(x, e, name, u, d);
  }

  /** The second half: putting the item back. */
  lemma FromTrash<L>(x: Tree<L>, d: Path, e: Path, parentPath: string, name: string, u: Tree<L>)
    requires WF(x) && WF(u) && GoodName(name) && parentPath != "" && u.orig == parentPath
    requires ResolveFolder(x, parentPath) == Some(d) && ResolveFolder(x, TRASH) == Some(e) && d != e
    requires Find(Keys(x, e), name) == None && name !in Keys(x, d)
    ensures var t3 := Insert(x, e, name, u);
      && WF(t3) && PutBack(t3, name).ok && PutBack(t3, name).tree == Insert(x, d, name, u)
  {
    FindAbsent(x, e, name);
    FoundInTrash(x, e, name, u);
    OriginResolves(x, d, e, parentPath, name, u);
    NotBelowNewKey(x, e, name, d);
    var t3 := Insert(x, e, name, u);
    FreshNameIsFree(SetOf(Keys(t3, d)), name, u.File?);
    RemoveInserted(x, e, name, u);
    ChildOf(e, name);
    MoveResolved(t3, TRASH + "/" + name, parentPath, e + [name], d);
  }

  lemma NotBelowNewKey<L>(x: Tree<L>, e: Path, name: string, d: Path)
    requires HasFolder(x, e) && name !in Get(x, e).kids && Has(x, d)
    ensures !(e + [name] <= d)
  {
    AtChild(x, e, name);
    if e + [name] <= d {
      assert d == e + [name] + d[|e| + 1..];
      AtConcat(x, e + [name], d[|e| + 1..]);
    }
  }

  /** Between the two halves: the tree without the item. */
  lemma WithoutItem<L>(t: Tree<L>, parentPath: string, name: string)
    requires CanRoundTrip(t, parentPath, name)
    ensures var d, e := ResolveFolder(t, parentPath).value, ResolveFolder(t, TRASH).value;
      var x := Remove(t, d, name);
      && d != e && WF(x) && ResolveFolder(x, parentPath) == Some(d) && ResolveFolder(x, TRASH) == Some(e)
      && Find(Keys(x, e), name) == None && name !in Keys(x, d)
  {
    var d, e := ResolveFolder(t, parentPath).value, ResolveFolder(t, TRASH).value;
    GetWF(t, d);
    FindIsKey(Keys(t, d), name);
    FindAbsent(t, e, name);
    KeysWithout(t, d, name, e);
    FolderStays(t, d, name, Parts(parentPath), d);
    FolderStays(t, d, name, Parts(TRASH), e);
  }

  lemma FolderStays<L>(t: Tree<L>, d: Path, name: string, parts: seq<string>, e: Path)
    requires WF(t) && HasFolder(t, d) && name in Get(t, d).kids && Locate(t, parts) == Some(e) && !(d + [name] <= e)
    ensures WF(Remove(t, d, name)) && Locate(Remove(t, d, name), parts) == Some(e)
  {
    ChildOf(d, name);
    AtChild(t, d, name);
    StillLocated(t, d + [name], parts, e);
  }

  lemma KeysWithout<L>(t: Tree<L>, d: Path, name: string, e: Path)
    requires WF(t) && HasFolder(t, d) && HasFolder(t, e) && name in Get(t, d).kids && !(d + [name] <= e)
    requires Find(Keys(t, e), name) == None
    ensures var x := Remove(t, d, name);
      && WF(x) && HasFolder(x, d) && HasFolder(x, e) && Find(Keys(x, e), name) == None && name !in Keys(x, d)
  {
    var p := d + [name];
    ChildOf(d, name);
    RemoveWF(t, d, name);
    AtChild(t, d, name);
    RemoveKeepsFolder(t, p, d);
    RemoveKeepsFolder(t, p, e);
    WithoutMembers(Keys(t, d), name);
    FindWithout(Keys(t, e), name, name);
  }

  /** Moving an item to the trash and putting it back restores the tree, a created trash folder, the mark
      and the position among its siblings aside. */
  lemma TrashRoundTrip<L>(t: Tree<L>, parentPath: string, name: string, id: L)
    requires WF(t) && CanRoundTrip(EnsureTrash(t, id), parentPath, name)
    ensures var t1 := EnsureTrash(t, id);
      var d := ResolveFolder(t1, parentPath).value;
      var trashed := MoveToTrash(t, parentPath, name, id);
      && name in Get(t1, d).kids && WF(trashed.tree)
      && trashed.ok && PutBack(trashed.tree, name).ok
      && PutBack(trashed.tree, name).tree == Returned(t1, d, name, parentPath)
  {
    var t1 := EnsureTrash(t, id);
    var d, e := ResolveFolder(t1, parentPath).value, ResolveFolder(t1, TRASH).value;
    var f := Get(t1, d);
    ToTrash(t1, parentPath, name);
    WithoutItem(t1, parentPath, name);
    var u := f.kids[name].(orig := parentPath);
    GetWF(t1, d);
    FromTrash(Remove(t1, d, name), d, e, parentPath, name, u);
    GraftGraft(t1, d, Drop(f, name), Put(Drop(f, name), name, u));
  }

  /** What a name leads to from the root. */
  lemma TopEntry<L>(t: Tree<L>, name: string)
    requires WF(t) && t.Folder? && GoodName(name)
    ensures ResolveFolder(t, "/") == Some([])
    ensures Resolve(t, AbsPath([name])) == match Find(t.keys, name) case None => None case Some(k) => Some([k])
  {
    PartsOfRoot();
    PartsOfAbsPath([name]);
    TargetEntry(t, [], name, []);
    assert [] + [name] == [name];
    match Find(t.keys, name) case None => case Some(k) => assert [] + [k] == [k];
  }

  /** Making a folder in the root under a name that leads nowhere. */
  lemma MadeAtTop<L>(t: Tree<L>, name: string, id: L)
    requires WF(t) && t.Folder? && GoodName(name) && Resolve(t, AbsPath([name])) == None
    ensures var node := Folder(id, "", [], map[]);
      && Mkdir(t, "/", name, id) == Outcome(true, Insert(t, [], name, node)) && WF(Insert(t, [], name, node))
      && ListDirectory(Insert(t, [], name, node), AbsPath([name])) == Some([])
  {
    var node := Folder(id, "", [], map[]);
    TopEntry(t, name);
    FindAbsent(t, [], name);
    InsertWF(t, [], name, node);
    PutWF(t, name, node);
    TopEntry(Insert(t, [], name, node), name);
    FindAppended(t.keys, name, name);
    AtChild(Insert(t, [], name, node), [], name);
    assert [] + [name] == [name];
  }

  /** Before anything is trashed the trash is there: what was there, or else a new empty folder. */
  lemma TrashIsThere<L>(t: Tree<L>, id: L)
    requires WF(t) && t.Folder?
    ensures Resolve(t, "/Trash").Some? ==> EnsureTrash(t, id) == t
    ensures Resolve(t, "/Trash") == None ==>
      && EnsureTrash(t, id) == Insert(t, [], "Trash", Folder(id, "", [], map[]))
      && ListDirectory(EnsureTrash(t, id), "/Trash") == Some([])
  {
    if Resolve(t, "/Trash") == None {
      assert GoodName("Trash") && AbsPath(["Trash"]) == "/Trash";
      MadeAtTop(t, "Trash", id);
    }
  }

  lemma MoveOutcome<L>(t: Tree<L>, src: string, dst: string, p: Path)
    requires WF(t) && Resolve(t, src) == Some(p) && p != []
    ensures var moved, d := MovePath(t, src, dst), ResolveFolder(t, dst);
      && (moved.ok <==> d.Some?) && (!moved.ok ==> moved.tree == t)
      && (d.Some? && !(p <= d.value) ==>
            moved.tree ==
              Transfer(t, p, d.value, FreshName(SetOf(Keys(t, d.value)), Last(p), Get(t, p).File?)))
  {
  }

  lemma OriginIs<L>(t: Tree<L>, e: Path, name: string)
    requires WF(t) && ResolveFolder(t, TRASH) == Some(e) && name in Get(t, e).kids
    ensures Has(t, e + [name])
    ensures Origin(t, name) == if Get(t, e + [name]).orig == "" then "/workspace" else Get(t, e + [name]).orig
  {
    AtChild(t, e, name);
  }

  /** An item that its own name finds goes back to the folder it remembers, or to the workspace if it remembers none,
      exactly if that is a folder; there it takes the first name tried that is free. */
  lemma PutBackLaw<L>(t: Tree<L>, e: Path, name: string)
    requires WF(t) && ResolveFolder(t, TRASH) == Some(e) && GoodName(name) && Find(Keys(t, e), name) == Some(name)
    ensures Has(t, e + [name])
    ensures var p, item := e + [name], Get(t, e + [name]);
      var d := ResolveFolder(t, if item.orig == "" then "/workspace" else item.orig);
      && (PutBack(t, name).ok <==> d.Some?) && (!PutBack(t, name).ok ==> PutBack(t, name).tree == t)
      && (d.Some? && !(p <= d.value) ==>
            PutBack(t, name).tree == Transfer(t, p, d.value, FreshName(SetOf(Keys(t, d.value)), name, item.File?)))
  {
    GetWF(t, e);
    FindIsKey(Keys(t, e), name);
    OriginIs(t, e, name);
    TrashEntry(t, e, name);
    ChildOf(e, name);
    MoveOutcome(t, TRASH + "/" + name, Origin(t, name), e + [name]);
  }

  /** What the returned tree shows is what the tree showed, every list of names leading where it led, to the same
      object and content, exactly when no sibling equals the item up to case; the contents are the same in any case. */
  lemma ReturnedShowsTheSame<L>(t: Tree<L>, parentPath: string, name: string)
    requires CanRoundTrip(t, parentPath, name)
    ensures var d := ResolveFolder(t, parentPath).value;
      && name in Get(t, d).kids && WF(Returned(t, d, name, parentPath))
      && Contents(Returned(t, d, name, parentPath)) == Contents(t)
      && ((forall parts :: StatOf(Returned(t, d, name, parentPath), parts) == StatOf(t, parts)) <==>
          Single(Keys(t, d), name))
  {
    var d := ResolveFolder(t, parentPath).value;
    GetWF(t, d);
    FindIsKey(Keys(t, d), name);
    ReturnedContents(t, d, name, parentPath);
    ReturnedShows(t, d, name, parentPath, Parts(parentPath));
  }

  lemma ReturnedShows<L>(t: Tree<L>, d: Path, name: string, orig: string, a: seq<string>)
    requires WF(t) && HasFolder(t, d) && name in Get(t, d).kids && Find(Keys(t, d), name) == Some(name)
    requires Locate(t, a) == Some(d) && WF(Returned(t, d, name, orig))
    ensures (forall parts :: StatOf(Returned(t, d, name, orig), parts) == StatOf(t, parts)) <==>
      Single(Keys(t, d), name)
  {
    if Single(Keys(t, d), name) {
      ReturnedInPlace(t, d, name, orig);
    } else {
      TwinComesFirst(t, d, name, orig, a);
    }
  }

  lemma ReturnedInPlace<L>(t: Tree<L>, d: Path, name: string, orig: string)
    requires WF(t) && HasFolder(t, d) && name in Get(t, d).kids && Single(Keys(t, d), name)
    requires WF(Returned(t, d, name, orig))
    ensures forall parts :: StatOf(Returned(t, d, name, orig), parts) == StatOf(t, parts)
  {
    GetWF(t, d);
    forall parts ensures StatOf(Returned(t, d, name, orig), parts) == StatOf(t, parts) {
      ReorderedBelow(t, d, name, Get(t, d).kids[name].(orig := orig), parts);
    }
  }

  /** Behind a sibling that equals it up to case the returned item is found no more. */
  lemma TwinComesFirst<L>(t: Tree<L>, d: Path, name: string, orig: string, a: seq<string>)
    requires WF(t) && HasFolder(t, d) && Find(Keys(t, d), name) == Some(name) && !Single(Keys(t, d), name)
    requires Locate(t, a) == Some(d)
    ensures name in Get(t, d).kids && WF(Returned(t, d, name, orig))
    ensures StatOf(Returned(t, d, name, orig), a + [name]) != StatOf(t, a + [name])
  {
    var f := Get(t, d);
    GetWF(t, d);
    FindIsKey(f.keys, name);
    var g := Put(Drop(f, name), name, f.kids[name].(orig := orig));
    DropWF(f, name);
    PutWF(Drop(f, name), name, f.kids[name].(orig := orig));
    GraftWF(t, d, g);
    var r := Returned(t, d, name, orig);
    FindWithout(f.keys, name, name);
    FindAppended(Without(f.keys, name), name, name);
    var twin := Find(g.keys, name).value;
    FindIsKey(Without(f.keys, name), name);
    WithoutMembers(f.keys, name);
    LocateGraftThrough(t, d, g, a);
    GraftGraft(t, d, g, f);
    TargetEntry(t, a, name, d);
    TargetEntry(r, a, name, d);
    StatLocates(t, a + [name]);
    StatLocates(r, a + [name]);
    assert (d + [twin])[|d|] != (d + [name])[|d|];
  }

  lemma ReturnedContents<L>(t: Tree<L>, d: Path, name: string, parentPath: string)
    requires WF(t) && HasFolder(t, d) && name in Get(t, d).kids
    ensures WF(Returned(t, d, name, parentPath)) && Contents(Returned(t, d, name, parentPath)) == Contents(t)
  {
    var f := Get(t, d);
    GetWF(t, d);
    var s := f.kids[name];
    var u := s.(orig := parentPath);
    var g := Put(Drop(f, name), name, u);
    DropWF(f, name);
    PutWF(Drop(f, name), name, u);
    GraftWF(t, d, g);
    ReorderedContents(f, name, u);
    ContentsGraft(t, d, g);
    SameSum(Contents(Graft(t, d, g)), Contents(t), Contents(f));
  }

  lemma ReorderedBelow<L>(t: Tree<L>, d: Path, name: string, u: Tree<L>, parts: seq<string>)
    requires WF(t) && HasFolder(t, d) && name in Get(t, d).kids && Single(Keys(t, d), name) && WF(u)
    requires u == Get(t, d).kids[name].(orig := u.orig)
    ensures var g := Put(Drop(Get(t, d), name), name, u);
      WF(g) && WF(Graft(t, d, g)) && StatOf(Graft(t, d, g), parts) == StatOf(t, parts)
  {
    var f := Get(t, d);
    var g := Put(Drop(f, name), name, u);
    GetWF(t, d);
    DropWF(f, name);
    PutWF(Drop(f, name), name, u);
    StatGraft(t, d, g, parts);
    if Through(t, d, parts) {
      var rest := parts[|d|..];
      RestOf(parts, |d|);
      StatBelow(t, parts[..|d|], rest);
      ReorderedFolder(f, name, u, rest);
    }
  }

  lemma SameSum(a: multiset<string>, b: multiset<string>, c: multiset<string>)
    requires a + c == b + c
    ensures a == b
  {
    forall x ensures a[x] == b[x] { assert (a + c)[x] == (b + c)[x]; }
  }

  lemma ReorderedFolder<L>(f: Tree<L>, name: string, u: Tree<L>, parts: seq<string>)
    requires WF(f) && f.Folder? && Single(f.keys, name) && name in f.kids && u == f.kids[name].(orig := u.orig)
    ensures WF(Put(Drop(f, name), name, u))
    ensures StatOf(Put(Drop(f, name), name, u), parts) == StatOf(f, parts)
  {
    DropWF(f, name);
    StatDrop(f, name, parts);
    FindMember(f.keys, name, name);
    FindWithout(f.keys, name, name);
    StatPut(Drop(f, name), name, u, parts);
    if parts != [] && Lower(parts[0]) == Lower(name) {
      FindMember(f.keys, name, parts[0]);
      assert StatOf(u, parts[1..]) == StatOf(f.kids[name], parts[1..]);
    } else if parts != [] && StatOf(f, parts).Some? {
      FindIsKey(f.keys, parts[0]);
      assert StatOf(f, parts).value.path[0] == Find(f.keys, parts[0]).value;
    }
  }

  lemma ReorderedContents<L>(f: Tree<L>, name: string, u: Tree<L>)
    requires WF(f) && f.Folder? && name in f.kids && u == f.kids[name].(orig := u.orig)
    ensures WF(Put(Drop(f, name), name, u)) && Contents(Put(Drop(f, name), name, u)) == Contents(f)
  {
    DropWF(f, name);
    PutWF(Drop(f, name), name, u);
    WithoutMembers(f.keys, name);
    assert Contents(u) == Contents(f.kids[name]) by {
      if u.Folder? { ContentsSame(u, f.kids[name], u.keys); }
    }
    ContentsRemove(f, [], name);
    ContentsInsert(Drop(f, name), [], name, u);
  }
}
