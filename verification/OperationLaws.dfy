/** What each operation of the virtual file system promises, for all trees, paths and names. */
module OperationLaws {
  import opened Text
  import opened Paths
  import opened Options
  import opened Trees
  import opened CopyNames
  import opened VfsSpec
  import opened VfsLaws

  ghost predicate GoodTree<L>(t: Tree<L>)
  {
    InAllFolders(t, GoodNames)
  }

  /** The keys of the folder that an edit leaves behind decide whether sibling names stay unique. */
  lemma CaseUniqueInsert<L>(t: Tree<L>, d: Path, k: string, u: Tree<L>)
    requires CaseUnique(t) && CaseUnique(u) && HasFolder(t, d) && WF(Get(t, d)) && k !in Get(t, d).kids
    ensures CaseUnique(Insert(t, d, k, u)) <==> Find(Keys(t, d), k) == None
  {
    var f := Get(t, d);
    GetInAllFolders(t, d, FoldDistinct);
    GraftInAllFolders(t, d, Put(f, k, u), FoldDistinct);
    FoldDistinctAppended(f.keys, k);
  }

  lemma CaseUniqueRemove<L>(t: Tree<L>, d: Path, k: string)
    requires CaseUnique(t) && HasFolder(t, d)
    ensures CaseUnique(Remove(t, d, k)) && FoldDistinct(Keys(t, d))
  {
    var f := Get(t, d);
    GetInAllFolders(t, d, FoldDistinct);
    WithoutDistinct(f.keys, k);
    GraftInAllFolders(t, d, Drop(f, k), FoldDistinct);
  }

  lemma GoodTreeInsert<L>(t: Tree<L>, d: Path, k: string, u: Tree<L>)
    requires GoodTree(t) && GoodTree(u) && HasFolder(t, d) && WF(Get(t, d)) && k !in Get(t, d).kids
    ensures GoodTree(Insert(t, d, k, u)) <==> GoodName(k)
  {
    var f := Get(t, d);
    GetInAllFolders(t, d, GoodNames);
    GraftInAllFolders(t, d, Put(f, k, u), GoodNames);
    assert k in f.keys + [k];
    assert forall n :: n in f.keys + [k] <==> n in f.keys || n == k;
  }

  lemma GoodTreeRemove<L>(t: Tree<L>, d: Path, k: string)
    requires GoodTree(t) && HasFolder(t, d)
    ensures GoodTree(Remove(t, d, k))
  {
    GetInAllFolders(t, d, GoodNames);
    WithoutMembers(Get(t, d).keys, k);
    GraftInAllFolders(t, d, Drop(Get(t, d), k), GoodNames);
  }

  lemma FindAbsent<L>(t: Tree<L>, d: Path, k: string)
    requires WF(t) && HasFolder(t, d) && Find(Keys(t, d), k) == None
    ensures k !in Keys(t, d) && k !in Get(t, d).kids
  {
    GetWF(t, d);
    FindIsKey(Keys(t, d), k);
  }

  /* ---------- mkdir and createFile ---------- */

  /** A created entry keeps sibling names unique and is the only thing that changes. */
  lemma CreateLaw<L>(t: Tree<L>, parentPath: string, name: string, node: Tree<L>, parts: seq<string>)
    requires WF(t) && WF(node) && Create(t, parentPath, name, node).ok
    ensures WF(Create(t, parentPath, name, node).tree)
    ensures var t' := Create(t, parentPath, name, node).tree;
      var d := ResolveFolder(t, parentPath).value;
      && (CaseUnique(t) && CaseUnique(node) ==> CaseUnique(t'))
      && Contents(t') == Contents(t) + Contents(node)
      && StatOf(t', parts) ==
         if StatOf(t, parts).Some? then StatOf(t, parts)
         else if Through(t, d, parts) && |parts| > |d| && Lower(parts[|d|]) == Lower(name)
         then Below(d + [name], StatOf(node, parts[|d| + 1..])) else None
  {
    var d := ResolveFolder(t, parentPath).value;
    FindAbsent(t, d, name);
    if CaseUnique(t) && CaseUnique(node) { CaseUniqueInsert(t, d, name, node); }
    ContentsInsert(t, d, name, node);
    StatInsert(t, d, name, node, parts);
  }

  /** A created entry can be reached by its own name exactly when one path segment can spell that name. */
  lemma CreatedIsReachable<L>(t: Tree<L>, parentPath: string, name: string, node: Tree<L>)
    requires WF(t) && WF(node) && Create(t, parentPath, name, node).ok
    ensures WF(Create(t, parentPath, name, node).tree)
    ensures var t' := Create(t, parentPath, name, node).tree;
      var place := ResolveFolder(t, parentPath).value + [name];
      Resolve(t', ChildPath(parentPath, name)) == Some(place) <==> GoodName(name)
  {
    var d := ResolveFolder(t, parentPath).value;
    FindAbsent(t, d, name);
    InsertWF(t, d, name, node);
    var t' := Insert(t, d, name, node);
    if GoodName(name) {
      InsertedIsReachable(t, parentPath, d, name, node);
    } else if Resolve(t', ChildPath(parentPath, name)) == Some(d + [name]) {
      LastIsGood(t', ChildPath(parentPath, name));
    }
  }

  /** The entry put into the folder that a path leads to is what that path plus its name leads to,
      exactly when no key that was there equals the name up to case. */
  lemma InsertedIsReachable<L>(t: Tree<L>, parentPath: string, d: Path, name: string, node: Tree<L>)
    requires WF(t) && WF(node) && ResolveFolder(t, parentPath) == Some(d) && GoodName(name) && name !in Keys(t, d)
    ensures WF(Insert(t, d, name, node))
    ensures Resolve(Insert(t, d, name, node), ChildPath(parentPath, name)) == Some(d + [name]) <==>
      Find(Keys(t, d), name) == None
  {
    GetWF(t, d);
    InsertWF(t, d, name, node);
    var f := Get(t, d);
    var g := Put(f, name, node);
    var t' := Insert(t, d, name, node);
    PutWF(f, name, node);
    LocateIsPath(t, Parts(parentPath));
    LocateGraftThrough(t, d, g, Parts(parentPath));
    GraftGraft(t, d, g, f);
    ChildOfFolder(t', parentPath, name);
    FindAppended(f.keys, name, name);
    FindIsKey(f.keys, name);
    var k := Find(g.keys, name).value;
    assert Resolve(t', ChildPath(parentPath, name)) == Some(d + [k]);
    assert (d + [k])[|d|] == k && (d + [name])[|d|] == name;
  }

  lemma ChildOfFolder<L>(t: Tree<L>, parentPath: string, name: string)
    requires WF(t) && ResolveFolder(t, parentPath).Some? && GoodName(name)
    ensures var d := ResolveFolder(t, parentPath).value;
      && |Parts(parentPath)| == |d|
      && Parts(ChildPath(parentPath, name)) == Parts(parentPath) + [name]
      && Resolve(t, ChildPath(parentPath, name)) ==
         match Find(Keys(t, d), name) case None => None case Some(k) => Some(d + [k])
  {
    PartsOfChildPath(parentPath, name);
    ResolveEntry(t, ChildPath(parentPath, name));
    LocateIsPath(t, Parts(parentPath));
    ChildOf(Parts(parentPath), name);
  }

  /** Every key on a resolved path is a good name. */
  lemma LastIsGood<L>(t: Tree<L>, path: string)
    requires WF(t) && Resolve(t, path).Some? && Resolve(t, path).value != []
    ensures GoodName(Last(Resolve(t, path).value))
  {
    var p := Resolve(t, path).value;
    PartsAreGood(path);
    LocateIsPath(t, Parts(path));
    assert Parts(path)[|p| - 1] in Parts(path);
    GoodUpToCase(Parts(path)[|p| - 1], Last(p));
  }

  /* ---------- deletePath ---------- */

  /** After a deletion the path leads nowhere exactly when no sibling had the same name up to case, and then
      nothing but the deleted subtree is affected. */
  lemma DeleteLaw<L>(t: Tree<L>, path: string, parts: seq<string>)
    requires WF(t) && DeletePath(t, path).ok
    ensures var t' := DeletePath(t, path).tree;
      var p := Resolve(t, path).value;
      && p != [] && HasFolder(t, Init(p)) && WF(t') && WF(Get(t, p))
      && (Resolve(t', path) == None <==> Single(Keys(t, Init(p)), Last(p)))
      && Contents(t') + Contents(Get(t, p)) == Contents(t)
      && (CaseUnique(t) ==> CaseUnique(t'))
      && (Single(Keys(t, Init(p)), Last(p)) ==>
          StatOf(t', parts) ==
            if StatOf(t, parts).Some? && p <= StatOf(t, parts).value.path then None else StatOf(t, parts))
  {
    var p := Resolve(t, path).value;
    var d, k := Init(p), Last(p);
    InitHasFolder(t, p);
    RemoveWF(t, d, k);
    var t' := Remove(t, d, k);
    InitAndLast(p);
    ContentsRemove(t, d, k);
    if CaseUnique(t) { CaseUniqueRemove(t, d, k); }
    StatRemove(t, d, k, parts);
    AfterDelete(t, path);
  }

  lemma AfterDelete<L>(t: Tree<L>, path: string)
    requires WF(t) && Resolve(t, path).Some? && Resolve(t, path).value != []
    ensures var p := Resolve(t, path).value;
      && HasFolder(t, Init(p)) && WF(Remove(t, Init(p), Last(p)))
      && (Resolve(Remove(t, Init(p), Last(p)), path) == None <==> Single(Keys(t, Init(p)), Last(p)))
  {
    var p := Resolve(t, path).value;
    var d, k, parts := Init(p), Last(p), Parts(path);
    InitHasFolder(t, p);
    RemoveWF(t, d, k);
    var t' := Remove(t, d, k);
    var f := Get(t, d);
    GetWF(t, d);
    DropWF(f, k);
    ResolveEntry(t, path);
    LocateIsPath(t, parts);
    InitAndLast(p);
    InitAndLast(parts);
    LocateGraftThrough(t, d, Drop(f, k), Init(parts));
    ResolveEntry(t', path);
    GraftGraft(t, d, Drop(f, k), f);
    FindWithout(f.keys, k, Last(parts));
  }

  /* ---------- one entry moved to another key ---------- */

  ghost predicate Transferable<L>(t: Tree<L>, p: Path, d: Path, name: string)
  {
    && WF(t) && Has(t, p) && p != [] && HasFolder(t, d) && !(p <= d)
    && (name !in Keys(t, d) || (d == Init(p) && name == Last(p)))
  }

  /** No sibling of the entry equals it up to case. */
  ghost predicate AloneAt<L>(t: Tree<L>, p: Path)
    requires WF(t) && Has(t, p) && p != []
  {
    InitHasFolder(t, p);
    Single(Keys(t, Init(p)), Last(p))
  }

  lemma AloneIfUnique<L>(t: Tree<L>, p: Path)
    requires WF(t) && Has(t, p) && p != [] && CaseUnique(t)
    ensures AloneAt(t, p)
  {
    InitHasFolder(t, p);
    GetInAllFolders(t, Init(p), FoldDistinct);
    DistinctIsSingle(Keys(t, Init(p)), Last(p));
  }

  /** The tree between the removal and the insertion. */
  ghost function Lifted<L>(t: Tree<L>, p: Path): Tree<L>
    requires Has(t, p) && p != []
  {
    InitHasFolder(t, p);
    Remove(t, Init(p), Last(p))
  }

  lemma LiftedFacts<L>(t: Tree<L>, p: Path, d: Path, name: string)
    requires Transferable(t, p, d, name)
    ensures var t1 := Lifted(t, p);
      && WF(t1) && HasFolder(t1, d) && name !in Keys(t1, d) && name !in Get(t1, d).kids
      && WF(Get(t, p)) && Transfer(t, p, d, name) == Insert(t1, d, name, Get(t, p))
      && HasFolder(t, Init(p)) && Last(p) in Get(t, Init(p)).kids && Get(t, Init(p)).kids[Last(p)] == Get(t, p)
  {
    InitHasFolder(t, p);
    RemoveWF(t, Init(p), Last(p));
    RemoveKeepsFolder(t, p, d);
    WithoutMembers(Keys(t, d), Last(p));
    GetWF(t, p);
    GetWF(Lifted(t, p), d);
  }

  /** Moving an entry loses nothing and copies nothing: the same contents, in the same objects, still
      forming a tree. */
  lemma TransferConserves<L>(t: Tree<L>, p: Path, d: Path, name: string)
    requires Transferable(t, p, d, name)
    ensures var t' := Transfer(t, p, d, name);
      && WF(t') && Contents(t') == Contents(t)
      && (Unshared(t) ==> Unshared(t') && Objects(t') == Objects(t))
  {
    LiftedFacts(t, p, d, name);
    var t1, s := Lifted(t, p), Get(t, p);
    InsertWF(t1, d, name, s);
    ContentsRemove(t, Init(p), Last(p));
    ContentsInsert(t1, d, name, s);
    if Unshared(t) { TransferKeepsObjects(t, p, d, name); }
  }

  lemma TransferKeepsObjects<L>(t: Tree<L>, p: Path, d: Path, name: string)
    requires Transferable(t, p, d, name) && Unshared(t)
    ensures Unshared(Transfer(t, p, d, name)) && Objects(Transfer(t, p, d, name)) == Objects(t)
  {
    LiftedFacts(t, p, d, name);
    ObjectsAt(t, p);
    ObjectsRemove(t, Init(p), Last(p));
    ObjectsInsert(Lifted(t, p), d, name, Get(t, p));
  }

  lemma TransferKeepsUnique<L>(t: Tree<L>, p: Path, d: Path, name: string)
    requires Transferable(t, p, d, name) && CaseUnique(t)
    ensures HasFolder(Lifted(t, p), d)
    ensures CaseUnique(Transfer(t, p, d, name)) <==> Find(Keys(Lifted(t, p), d), name) == None
  {
    LiftedFacts(t, p, d, name);
    CaseUniqueRemove(t, Init(p), Last(p));
    GetInAllFolders(t, p, FoldDistinct);
    GetWF(Lifted(t, p), d);
    CaseUniqueInsert(Lifted(t, p), d, name, Get(t, p));
  }

  /** What every list of names shows after an entry has moved that no sibling equals up to case. Names that
      led below the old place lead nowhere, the new name leads to the moved entry, all else is as before. */
  lemma TransferShows<L>(t: Tree<L>, p: Path, d: Path, name: string, parts: seq<string>)
    requires Transferable(t, p, d, name) && AloneAt(t, p)
    requires HasFolder(Lifted(t, p), d) && Find(Keys(Lifted(t, p), d), name) == None
    ensures WF(Transfer(t, p, d, name)) && WF(Get(t, p))
    ensures StatOf(Transfer(t, p, d, name), parts) ==
      if Through(t, d, parts) && |parts| > |d| && Lower(parts[|d|]) == Lower(name)
      then Below(d + [name], StatOf(Get(t, p), parts[|d| + 1..]))
      else if StatOf(t, parts).Some? && p <= StatOf(t, parts).value.path then None
      else StatOf(t, parts)
  {
    LiftedFacts(t, p, d, name);
    var t1, s := Lifted(t, p), Get(t, p);
    InitAndLast(p);
    StatRemove(t, Init(p), Last(p), parts);
    StatInsert(t1, d, name, s, parts);
    ThroughLifted(t, p, d, parts);
    if Through(t, d, parts) && |parts| > |d| && Lower(parts[|d|]) == Lower(name) {
      NothingYet(t1, d, name, parts);
    }
  }

  /** Removing the entry at p does not change which names lead to a folder outside it. */
  lemma ThroughLifted<L>(t: Tree<L>, p: Path, d: Path, parts: seq<string>)
    requires WF(t) && Has(t, p) && p != [] && HasFolder(t, d) && !(p <= d) && AloneAt(t, p)
    ensures WF(Lifted(t, p)) && (Through(Lifted(t, p), d, parts) <==> Through(t, d, parts))
  {
    InitHasFolder(t, p);
    RemoveWF(t, Init(p), Last(p));
    InitAndLast(p);
    if |parts| >= |d| {
      var a := parts[..|d|];
      StatRemove(t, Init(p), Last(p), a);
      StatLocates(t, a);
      StatLocates(Lifted(t, p), a);
    }
  }

  /** A name that no key equals up to case shows nothing. */
  lemma NothingYet<L>(t: Tree<L>, d: Path, name: string, parts: seq<string>)
    requires WF(t) && HasFolder(t, d) && Find(Keys(t, d), name) == None
    requires Through(t, d, parts) && |parts| > |d| && Lower(parts[|d|]) == Lower(name)
    ensures StatOf(t, parts) == None
  {
    var a, b := parts[..|d|], parts[|d|..];
    assert a + b == parts;
    StatBelow(t, a, b);
    FindUpToCase(Keys(t, d), parts[|d|], name);
    assert b[0] == parts[|d|];
  }

  /** Whatever names lead to the folder: adding the new name and further names leads into the new entry. */
  lemma InsertedShows<L>(t: Tree<L>, d: Path, name: string, u: Tree<L>, parts: seq<string>, n: string,
                         rest: seq<string>)
    requires WF(t) && WF(u) && HasFolder(t, d) && Find(Keys(t, d), name) == None
    requires Locate(t, parts) == Some(d) && Lower(n) == Lower(name)
    ensures WF(Insert(t, d, name, u))
    ensures StatOf(Insert(t, d, name, u), parts + [n] + rest) == Below(d + [name], StatOf(u, rest))
  {
    var all := parts + [n] + rest;
    FindAbsent(t, d, name);
    LocateIsPath(t, parts);
    assert all[..|d|] == parts && all[|d|] == n && all[|d| + 1..] == rest;
    NothingYet(t, d, name, all);
    StatInsert(t, d, name, u, all);
  }

  /** Whatever names lead to the destination folder: adding the new name and further names leads into the
      moved subtree, to the very objects that were found below the old place. */
  lemma TransferReaches<L>(t: Tree<L>, p: Path, d: Path, name: string, parts: seq<string>, n: string, rest: seq<string>)
    requires Transferable(t, p, d, name) && Locate(t, parts) == Some(d) && Lower(n) == Lower(name)
    requires HasFolder(Lifted(t, p), d) && Find(Keys(Lifted(t, p), d), name) == None
    ensures WF(Transfer(t, p, d, name)) && WF(Get(t, p))
    ensures StatOf(Transfer(t, p, d, name), parts + [n] + rest) == Below(d + [name], StatOf(Get(t, p), rest))
  {
    LiftedFacts(t, p, d, name);
    var t1 := Lifted(t, p);
    LocateIsPath(t, parts);
    StillLocated(t, p, parts, d);
    InsertedShows(t1, d, name, Get(t, p), parts, n, rest);
  }

  /* ---------- renamePath ---------- */

  lemma NewNameIsFree<L>(t: Tree<L>, p: Path, newName: string)
    requires WF(t) && p != [] && HasFolder(t, Init(p)) && Transferable(t, p, Init(p), newName)
    requires Find(Keys(t, Init(p)), newName) == None
    ensures HasFolder(Lifted(t, p), Init(p)) && Find(Keys(Lifted(t, p), Init(p)), newName) == None
  {
    LiftedFacts(t, p, Init(p), newName);
    RemoveKeepsFolder(t, p, Init(p));
    var keys := Keys(t, Init(p));
    FindIsKey(keys, newName);
    FindIsKey(Without(keys, Last(p)), newName);
    WithoutMembers(keys, Last(p));
  }

  lemma RenameIsTransfer<L>(t: Tree<L>, path: string, newName: string)
    requires WF(t) && RenamePath(t, path, newName).ok
    ensures var p := Resolve(t, path).value;
      && p != [] && Transferable(t, p, Init(p), newName)
      && RenamePath(t, path, newName).tree == Transfer(t, p, Init(p), newName)
      && HasFolder(Lifted(t, p), Init(p)) && Find(Keys(Lifted(t, p), Init(p)), newName) == None
      && Locate(t, Init(Parts(path))) == Some(Init(p)) && Parts(path) == Init(Parts(path)) + [Last(Parts(path))]
  {
    var p := Resolve(t, path).value;
    InitHasFolder(t, p);
    FindAbsent(t, Init(p), newName);
    NewNameIsFree(t, p, newName);
    ResolveEntry(t, path);
    LocateIsPath(t, Parts(path));
    InitAndLast(Parts(path));
  }

  /** A renamed subtree is found, object for object, at every path that differs from an old one in the
      new name; nothing is lost. */
  lemma RenameReaches<L>(t: Tree<L>, path: string, newName: string, rest: seq<string>)
    requires WF(t) && RenamePath(t, path, newName).ok
    ensures var p := Resolve(t, path).value;
      var t' := RenamePath(t, path, newName).tree;
      && p != [] && WF(t') && WF(Get(t, p)) && Parts(path) != []
      && StatOf(t, Parts(path) + rest) == Below(p, StatOf(Get(t, p), rest))
      && StatOf(t', Init(Parts(path)) + [newName] + rest) == Below(Init(p) + [newName], StatOf(Get(t, p), rest))
      && Contents(t') == Contents(t)
      && (Unshared(t) ==> Unshared(t') && Objects(t') == Objects(t))
  {
    var p := Resolve(t, path).value;
    RenameIsTransfer(t, path, newName);
    TransferConserves(t, p, Init(p), newName);
    TransferReaches(t, p, Init(p), newName, Init(Parts(path)), newName, rest);
    StatBelow(t, Parts(path), rest);
  }

  /** Renaming keeps sibling names unique, and if no sibling equals the entry up to case it affects only names
      that spell the old or the new entry. */
  lemma RenameLaw<L>(t: Tree<L>, path: string, newName: string, parts: seq<string>)
    requires WF(t) && RenamePath(t, path, newName).ok
    ensures var p := Resolve(t, path).value;
      var t' := RenamePath(t, path, newName).tree;
      && p != [] && WF(t') && WF(Get(t, p)) && (CaseUnique(t) ==> CaseUnique(t'))
      && (AloneAt(t, p) ==>
           StatOf(t', parts) ==
           if Through(t, Init(p), parts) && |parts| >= |p| && Lower(parts[|p| - 1]) == Lower(newName)
           then Below(Init(p) + [newName], StatOf(Get(t, p), parts[|p|..]))
           else if StatOf(t, parts).Some? && p <= StatOf(t, parts).value.path then None
           else StatOf(t, parts))
  {
    var p := Resolve(t, path).value;
    RenameIsTransfer(t, path, newName);
    TransferConserves(t, p, Init(p), newName);
    GetWF(t, p);
    if CaseUnique(t) { TransferKeepsUnique(t, p, Init(p), newName); }
    if AloneAt(t, p) { TransferWithin(t, p, newName, parts); }
  }

  lemma TransferWithin<L>(t: Tree<L>, p: Path, name: string, parts: seq<string>)
    requires WF(t) && Has(t, p) && p != [] && HasFolder(t, Init(p)) && Transferable(t, p, Init(p), name)
      && AloneAt(t, p)
    requires HasFolder(Lifted(t, p), Init(p)) && Find(Keys(Lifted(t, p), Init(p)), name) == None
    ensures WF(Transfer(t, p, Init(p), name)) && WF(Get(t, p))
    ensures StatOf(Transfer(t, p, Init(p), name), parts) ==
      if Through(t, Init(p), parts) && |parts| >= |p| && Lower(parts[|p| - 1]) == Lower(name)
      then Below(Init(p) + [name], StatOf(Get(t, p), parts[|p|..]))
      else if StatOf(t, parts).Some? && p <= StatOf(t, parts).value.path then None
      else StatOf(t, parts)
  {
    assert |Init(p)| == |p| - 1;
    TransferShows(t, p, Init(p), name, parts);
  }

  /* ---------- movePath ---------- */

  /** The name under which movePath files the entry. */
  ghost function MovedName<L>(t: Tree<L>, p: Path, d: Path): string
    requires Has(t, p) && p != [] && HasFolder(t, d)
  {
    FreshName(SetOf(Keys(t, d)), Last(p), Get(t, p).File?)
  }

  lemma MoveIsTransfer<L>(t: Tree<L>, src: string, dst: string)
    requires WF(t) && MovePath(t, src, dst).ok
    ensures var p, d := Resolve(t, src).value, ResolveFolder(t, dst).value;
      && p != [] && MovedName(t, p, d) !in Keys(t, d) && GoodName(MovedName(t, p, d))
      && (p <= d ==> MovePath(t, src, dst).tree == Lifted(t, p))
      && (!(p <= d) ==>
          && Transferable(t, p, d, MovedName(t, p, d))
          && MovePath(t, src, dst).tree == Transfer(t, p, d, MovedName(t, p, d)))
  {
    var p, d := Resolve(t, src).value, ResolveFolder(t, dst).value;
    FreshNameIsFree(SetOf(Keys(t, d)), Last(p), Get(t, p).File?);
    LastIsGood(t, src);
    FreshNameIsGood(SetOf(Keys(t, d)), Last(p), Get(t, p).File?);
  }

  /** A move keeps every file content exactly when the destination is not inside the moved subtree or
      that subtree holds no file; it keeps the objects a tree, with none lost, exactly in the first case. */
  lemma MoveConserves<L>(t: Tree<L>, src: string, dst: string)
    requires WF(t) && Unshared(t) && MovePath(t, src, dst).ok
    ensures var p, d := Resolve(t, src).value, ResolveFolder(t, dst).value;
      var t' := MovePath(t, src, dst).tree;
      && WF(t') && Unshared(t') && WF(Get(t, p))
      && (Contents(t') == Contents(t) <==> !(p <= d) || Contents(Get(t, p)) == multiset{})
      && (Objects(t') == Objects(t) <==> !(p <= d))
  {
    var p, d := Resolve(t, src).value, ResolveFolder(t, dst).value;
    MoveIsTransfer(t, src, dst);
    if p <= d {
      InitHasFolder(t, p);
      RemoveWF(t, Init(p), Last(p));
      ContentsRemove(t, Init(p), Last(p));
      ObjectsRemove(t, Init(p), Last(p));
      ObjectsAt(t, p);
      var t', s := Lifted(t, p), Get(t, p);
      if Contents(t') == Contents(t) {
        assert forall x :: Contents(t)[x] == Contents(t')[x] + Contents(s)[x];
      }
      assert s.id in Objects(t) && s.id !in Objects(t');
    } else {
      TransferConserves(t, p, d, MovedName(t, p, d));
    }
  }

  lemma StillLocated<L>(t: Tree<L>, p: Path, a: seq<string>, d: Path)
    requires WF(t) && Has(t, p) && p != [] && Locate(t, a) == Some(d) && !(p <= d)
    ensures WF(Lifted(t, p)) && Locate(Lifted(t, p), a) == Some(d)
  {
    InitHasFolder(t, p);
    RemoveWF(t, Init(p), Last(p));
    InitAndLast(p);
    StatLocates(t, a);
    StatRemove(t, Init(p), Last(p), a);
    StatLocates(Lifted(t, p), a);
  }

  /** The destination still resolves after the entry is lifted off its old place. */
  lemma LiftedDestination<L>(t: Tree<L>, p: Path, dst: string)
    requires WF(t) && Has(t, p) && p != [] && ResolveFolder(t, dst).Some? && !(p <= ResolveFolder(t, dst).value)
    ensures WF(Lifted(t, p)) && ResolveFolder(Lifted(t, p), dst) == ResolveFolder(t, dst)
  {
    StillLocated(t, p, Parts(dst), ResolveFolder(t, dst).value);
    RemoveKeepsFolder(t, p, ResolveFolder(t, dst).value);
  }

  /** The destination path plus the chosen name leads to the moved entry exactly when no key left there
      equals that name up to case. */
  lemma MoveReaches<L>(t: Tree<L>, src: string, dst: string)
    requires WF(t) && MovePath(t, src, dst).ok
    requires !(Resolve(t, src).value <= ResolveFolder(t, dst).value)
    ensures var p, d := Resolve(t, src).value, ResolveFolder(t, dst).value;
      var t', name := MovePath(t, src, dst).tree, MovedName(t, p, d);
      && WF(t') && HasFolder(Lifted(t, p), d)
      && (Resolve(t', ChildPath(dst, name)) == Some(d + [name]) <==> Find(Keys(Lifted(t, p), d), name) == None)
  {
    var p, d := Resolve(t, src).value, ResolveFolder(t, dst).value;
    var name := MovedName(t, p, d);
    MoveIsTransfer(t, src, dst);
    LiftedFacts(t, p, d, name);
    LiftedDestination(t, p, dst);
    InsertedIsReachable(Lifted(t, p), dst, d, name, Get(t, p));
  }

  /** In that case every path below the new place leads to the object that the matching old path led to. */
  lemma MoveKeepsObjects<L>(t: Tree<L>, src: string, dst: string, rest: seq<string>)
    requires WF(t) && MovePath(t, src, dst).ok
    requires !(Resolve(t, src).value <= ResolveFolder(t, dst).value)
    ensures var p, d := Resolve(t, src).value, ResolveFolder(t, dst).value;
      var t', name := MovePath(t, src, dst).tree, MovedName(t, p, d);
      && WF(t') && WF(Get(t, p)) && HasFolder(Lifted(t, p), d)
      && StatOf(t, Parts(src) + rest) == Below(p, StatOf(Get(t, p), rest))
      && (Find(Keys(Lifted(t, p), d), name) == None ==>
          StatOf(t', Parts(dst) + [name] + rest) == Below(d + [name], StatOf(Get(t, p), rest)))
  {
    var p, d := Resolve(t, src).value, ResolveFolder(t, dst).value;
    var name := MovedName(t, p, d);
    MoveIsTransfer(t, src, dst);
    LiftedFacts(t, p, d, name);
    TransferConserves(t, p, d, name);
    StatBelow(t, Parts(src), rest);
    if Find(Keys(Lifted(t, p), d), name) == None {
      TransferReaches(t, p, d, name, Parts(dst), name, rest);
    }
  }

  /** Moving keeps unique names unique exactly when the chosen name is equal to none up to case, and then, if no
      sibling equalled the entry either, all names outside the old and the new place show what they showed. */
  lemma MoveLaw<L>(t: Tree<L>, src: string, dst: string, parts: seq<string>)
    requires WF(t) && MovePath(t, src, dst).ok
    requires !(Resolve(t, src).value <= ResolveFolder(t, dst).value)
    ensures var p, d := Resolve(t, src).value, ResolveFolder(t, dst).value;
      var t', name := MovePath(t, src, dst).tree, MovedName(t, p, d);
      && WF(t') && WF(Get(t, p)) && HasFolder(Lifted(t, p), d)
      && (CaseUnique(t) ==> (CaseUnique(t') <==> Find(Keys(Lifted(t, p), d), name) == None))
      && (AloneAt(t, p) && Find(Keys(Lifted(t, p), d), name) == None ==>
           StatOf(t', parts) ==
           if Through(t, d, parts) && |parts| > |d| && Lower(parts[|d|]) == Lower(name)
           then Below(d + [name], StatOf(Get(t, p), parts[|d| + 1..]))
           else if StatOf(t, parts).Some? && p <= StatOf(t, parts).value.path then None
           else StatOf(t, parts))
  {
    var p, d := Resolve(t, src).value, ResolveFolder(t, dst).value;
    var name := MovedName(t, p, d);
    MoveIsTransfer(t, src, dst);
    TransferConserves(t, p, d, name);
    LiftedFacts(t, p, d, name);
    if CaseUnique(t) { TransferKeepsUnique(t, p, d, name); }
    if AloneAt(t, p) && Find(Keys(Lifted(t, p), d), name) == None { TransferShows(t, p, d, name, parts); }
  }

  /* ---------- copyPath ---------- */

  lemma CopyKids<L>(c: Tree<L>, s: Tree<L>)
    requires IsCopy(c, s)
    ensures c.File? <==> s.File?
    ensures c.orig == ""
    ensures c.File? ==> c.content == s.content
    ensures c.Folder? ==> c.keys == s.keys && c.kids.Keys == s.kids.Keys
    ensures c.Folder? ==> forall k | k in c.kids :: IsCopy(c.kids[k], s.kids[k])
  {
    if c.Folder? {
      forall k | k in c.kids ensures k in s.kids && IsCopy(c.kids[k], s.kids[k]) {
        assert k in Erase(c).kids;
        assert Erase(c).kids[k] == Erase(c.kids[k]);
      }
      forall k | k in s.kids ensures k in c.kids { assert k in Blank(s).kids; }
    }
  }

  /** A copy shows what its source shows: the same paths, kinds and contents. */
  lemma {:induction false} CopyShows<L>(c: Tree<L>, s: Tree<L>, parts: seq<string>)
    requires WF(c) && WF(s) && IsCopy(c, s)
    ensures StatOf(c, parts).Some? <==> StatOf(s, parts).Some?
    ensures StatOf(c, parts).Some? ==>
      && StatOf(c, parts).value.path == StatOf(s, parts).value.path
      && StatOf(c, parts).value.content == StatOf(s, parts).value.content
    decreases |parts|
  {
    CopyKids(c, s);
    if parts != [] && c.Folder? {
      FindIsKey(c.keys, parts[0]);
      match Find(c.keys, parts[0])
      case None =>
      case Some(k) => CopyShows(c.kids[k], s.kids[k], parts[1..]);
    }
  }

  lemma {:induction false} CopyContents<L>(c: Tree<L>, s: Tree<L>)
    requires WF(c) && WF(s) && IsCopy(c, s)
    ensures Contents(c) == Contents(s)
    ensures CaseUnique(c) <==> CaseUnique(s)
    decreases c, 1, 0
  {
    CopyKids(c, s);
    if c.Folder? {
      CopyContentsOf(c, s, c.keys);
      forall k | k in c.kids ensures CaseUnique(c.kids[k]) <==> CaseUnique(s.kids[k]) {
        CopyContents(c.kids[k], s.kids[k]);
      }
    }
  }

  lemma {:induction false} CopyContentsOf<L>(c: Tree<L>, s: Tree<L>, keys: seq<string>)
    requires WF(c) && WF(s) && IsCopy(c, s) && c.Folder? && s.Folder?
    requires forall k :: k in keys ==> k in c.kids && k in s.kids
    ensures ContentsOf(c, keys) == ContentsOf(s, keys)
    decreases c, 0, |keys|
  {
    if keys != [] {
      CopyKids(c, s);
      CopyContents(c.kids[keys[0]], s.kids[keys[0]]);
      CopyContentsOf(c, s, keys[1..]);
    }
  }

  ghost function CopiedName<L>(t: Tree<L>, p: Path, d: Path): string
    requires Has(t, p) && HasFolder(t, d)
  {
    FreshName(SetOf(Keys(t, d)), NameAt(p), Get(t, p).File?)
  }

  /** A copy adds one subtree under a key that was free, equal to its source in kinds, keys and contents
      and sharing no object with it; every name that led somewhere leads there still. */
  lemma CopyLaw<L>(t: Tree<L>, src: string, dst: string, c: Tree<L>, parts: seq<string>)
    requires WF(t) && WF(c) && CopyPath(t, src, dst, c).ok && IsCopy(c, Get(t, Resolve(t, src).value))
    ensures var p, d := Resolve(t, src).value, ResolveFolder(t, dst).value;
      var t', name := CopyPath(t, src, dst, c).tree, CopiedName(t, p, d);
      && WF(t') && name !in Keys(t, d) && t' == Insert(t, d, name, c)
      && Contents(t') == Contents(t) + Contents(Get(t, p))
      && (Unshared(t) && Unshared(c) && Objects(c) !! Objects(t) ==>
            Unshared(t') && Objects(t') == Objects(t) + Objects(c))
      && (StatOf(t, parts).Some? ==> StatOf(t', parts) == StatOf(t, parts))
      && (CaseUnique(t) ==> (CaseUnique(t') <==> Find(Keys(t, d), name) == None))
  {
    var p, d := Resolve(t, src).value, ResolveFolder(t, dst).value;
    var name := CopiedName(t, p, d);
    FreshNameIsFree(SetOf(Keys(t, d)), NameAt(p), Get(t, p).File?);
    assert name !in Get(t, d).kids;
    ContentsInsert(t, d, name, c);
    CopyContents(c, Get(t, p));
    StatInsert(t, d, name, c, parts);
    if Unshared(t) && Unshared(c) && Objects(c) !! Objects(t) { ObjectsInsert(t, d, name, c); }
    if CaseUnique(t) {
      GetInAllFolders(t, p, FoldDistinct);
      CaseUniqueInsert(t, d, name, c);
    }
  }

  /** The copy can be reached by its name exactly when the source was not the root (whose name no path
      segment spells) and no key in the destination equals the chosen name up to case. */
  lemma CopyReaches<L>(t: Tree<L>, src: string, dst: string, c: Tree<L>, rest: seq<string>)
    requires WF(t) && WF(c) && CopyPath(t, src, dst, c).ok
    ensures var p, d := Resolve(t, src).value, ResolveFolder(t, dst).value;
      var t', name := CopyPath(t, src, dst, c).tree, CopiedName(t, p, d);
      && WF(t')
      && (Resolve(t', ChildPath(dst, name)) == Some(d + [name]) <==> p != [] && Find(Keys(t, d), name) == None)
      && (p != [] && Find(Keys(t, d), name) == None ==>
          StatOf(t', Parts(dst) + [name] + rest) == Below(d + [name], StatOf(c, rest)))
  {
    var p, d := Resolve(t, src).value, ResolveFolder(t, dst).value;
    var name := CopiedName(t, p, d);
    FreshNameIsFree(SetOf(Keys(t, d)), NameAt(p), Get(t, p).File?);
    GetWF(t, d);
    InsertWF(t, d, name, c);
    if p != [] {
      LastIsGood(t, src);
      FreshNameIsGood(SetOf(Keys(t, d)), NameAt(p), Get(t, p).File?);
      InsertedIsReachable(t, dst, d, name, c);
      if Find(Keys(t, d), name) == None { InsertedShows(t, d, name, c, Parts(dst), name, rest); }
    } else {
      SlashStays(SetOf(Keys(t, d)), Get(t, p).File?);
      SlashIsHidden(Insert(t, d, name, c), d, name, ChildPath(dst, name));
    }
  }

  /** No path leads to an entry whose name holds a slash. */
  lemma SlashIsHidden<L>(t: Tree<L>, d: Path, name: string, path: string)
    requires WF(t) && '/' in name
    ensures Resolve(t, path) != Some(d + [name])
  {
    if Resolve(t, path) == Some(d + [name]) {
      LastIsGood(t, path);
      ChildOf(d, name);
    }
  }

  /** Every name tried for a copy of the root holds a slash. */
  lemma SlashStays(taken: set<string>, isFile: bool)
    ensures '/' in FreshName(taken, "/", isFile)
  {
    StemAndSuffix("/", isFile);
    var stem, suffix := Stem("/", isFile), Suffix("/", isFile);
    assert '/' in stem + suffix;
    assert '/' in stem || '/' in suffix;
  }

  /* ---------- copies are independent ---------- */

  /** Neither of two places lies at or inside the other. */
  predicate Apart(x: Path, y: Path)
  {
    !(x <= y) && !(y <= x)
  }

  lemma ApartInside(e: Path, x: Path, y: Path)
    requires Apart(e, y) && e <= x
    ensures Apart(x, y)
  {
    PrefixFacts(e, x, y);
  }

  lemma PrefixFacts(e: Path, x: Path, y: Path)
    ensures e <= x && x <= y ==> e <= y
    ensures e <= x && y <= x ==> e <= y || y <= e
  {
    if e <= x && x <= y { assert y[..|e|] == x[..|e|]; }
    if e <= x && y <= x {
      if |e| <= |y| { assert y[..|e|] == x[..|e|]; } else { assert e[..|y|] == x[..|y|]; }
    }
  }

  lemma PrefixOfChild(d: Path, k: string, y: Path)
    ensures y <= d + [k] <==> y <= d || y == d + [k]
  {
    if y <= d + [k] && |y| <= |d| { assert (d + [k])[..|y|] == d[..|y|]; }
    if y <= d { assert (d + [k])[..|y|] == d[..|y|]; }
  }

  /** Removing an entry changes nothing apart from it. */
  lemma RemoveElsewhere<L>(t: Tree<L>, q: Path, y: Path)
    requires WF(t) && Has(t, q) && q != [] && Apart(q, y)
    ensures HasFolder(t, Init(q)) && At(Lifted(t, q), y) == At(t, y)
  {
    InitHasFolder(t, q);
    var d, k := Init(q), Last(q);
    GraftAt(t, d, Drop(Get(t, d), k), y);
    InitAndLast(q);
    if d <= y {
      var rest := y[|d|..];
      assert y == d + rest;
      AtConcat(t, d, rest);
      assert rest != [] && rest[0] != k;
    }
  }

  /** Filing an entry changes nothing apart from it. */
  lemma InsertElsewhere<L>(t: Tree<L>, d: Path, k: string, u: Tree<L>, y: Path)
    requires HasFolder(t, d) && Apart(d + [k], y)
    ensures At(Insert(t, d, k, u), y) == At(t, y)
  {
    GraftAt(t, d, Put(Get(t, d), k, u), y);
    if d <= y {
      var rest := y[|d|..];
      assert y == d + rest;
      AtConcat(t, d, rest);
      assert rest != [] && rest[0] != k;
    }
  }

  lemma DeleteElsewhere<L>(t: Tree<L>, path: string, y: Path)
    requires WF(t) && DeletePath(t, path).ok && Apart(Resolve(t, path).value, y)
    ensures At(DeletePath(t, path).tree, y) == At(t, y)
  {
    RemoveElsewhere(t, Resolve(t, path).value, y);
  }

  lemma RenameElsewhere<L>(t: Tree<L>, path: string, newName: string, y: Path)
    requires WF(t) && RenamePath(t, path, newName).ok && Has(t, y) && Apart(Resolve(t, path).value, y)
    ensures At(RenamePath(t, path, newName).tree, y) == At(t, y)
  {
    var p := Resolve(t, path).value;
    var d := Init(p);
    RenameIsTransfer(t, path, newName);
    LiftedFacts(t, p, d, newName);
    InitAndLast(p);
    FindAbsent(t, d, newName);
    if d + [newName] <= y { BelowNewKey(t, d, newName, y); }
    PrefixOfChild(d, newName, y);
    PrefixOfChild(d, Last(p), y);
    RemoveElsewhere(t, p, y);
    InsertElsewhere(Lifted(t, p), d, newName, Get(t, p), y);
  }

  lemma BelowNewKey<L>(t: Tree<L>, d: Path, k: string, y: Path)
    requires HasFolder(t, d) && k !in Get(t, d).kids && d + [k] <= y
    ensures !Has(t, y)
  {
    AtChild(t, d, k);
    assert y == d + [k] + y[|d| + 1..];
    AtConcat(t, d + [k], y[|d| + 1..]);
  }

  /** Where writeFile stores the content. */
  ghost function WrittenAt<L>(t: Tree<L>, path: string): Path
    requires WF(t) && WriteFile(t, path, "", t.id).ok
  {
    if Resolve(t, path).Some? && Get(t, Resolve(t, path).value).File? then Resolve(t, path).value
    else ParentOf(t, path).value + [Last(Parts(path))]
  }

  lemma WriteElsewhere<L>(t: Tree<L>, path: string, content: string, id: L, y: Path)
    requires WF(t) && WriteFile(t, path, content, id).ok && WriteFile(t, path, "", t.id).ok
    requires Apart(WrittenAt(t, path), y)
    ensures At(WriteFile(t, path, content, id).tree, y) == At(t, y)
  {
    var r := Resolve(t, path);
    if r.Some? && Get(t, r.value).File? {
      GraftAt(t, r.value, Get(t, r.value).(content := content), y);
    } else {
      InsertElsewhere(t, ParentOf(t, path).value, Last(Parts(path)), File(id, "", content), y);
    }
  }

  /** The place of a copy is apart from everything that was there and does not hold it. */
  lemma CopyIsApart<L>(t: Tree<L>, d: Path, name: string, c: Tree<L>, y: Path)
    requires HasFolder(t, d) && name !in Get(t, d).kids && Has(t, y) && !(y <= d)
    ensures Apart(d + [name], y) && At(Insert(t, d, name, c), y) == At(t, y)
  {
    if d + [name] <= y { BelowNewKey(t, d, name, y); }
    PrefixOfChild(d, name, y);
    InsertElsewhere(t, d, name, c, y);
  }

  /** Whatever is deleted, renamed or written at or inside the first place leaves the other as it is. */
  ghost predicate EditsSpare<L>(t: Tree<L>, e: Path, y: Path, path: string, text: string, id: L)
    requires WF(t)
  {
    && (DeletePath(t, path).ok && e <= Resolve(t, path).value ==> At(DeletePath(t, path).tree, y) == At(t, y))
    && (RenamePath(t, path, text).ok && e <= Resolve(t, path).value ==>
          At(RenamePath(t, path, text).tree, y) == At(t, y))
    && (WriteFile(t, path, text, id).ok && e <= WrittenAt(t, path) ==>
          At(WriteFile(t, path, text, id).tree, y) == At(t, y))
  }

  lemma EditsInside<L>(t: Tree<L>, e: Path, y: Path, path: string, text: string, id: L)
    requires WF(t) && Has(t, y) && Apart(e, y)
    ensures EditsSpare(t, e, y, path, text, id)
  {
    if Resolve(t, path).Some? && e <= Resolve(t, path).value {
      ApartInside(e, Resolve(t, path).value, y);
      if DeletePath(t, path).ok { DeleteElsewhere(t, path, y); }
      if RenamePath(t, path, text).ok { RenameElsewhere(t, path, text, y); }
    }
    if WriteFile(t, path, text, id).ok && e <= WrittenAt(t, path) {
      ApartInside(e, WrittenAt(t, path), y);
      WriteElsewhere(t, path, text, id, y);
    }
  }

  /** After a copy: what was there before and does not hold the copy is still there, and no edit inside the copy changes
      it; nor does an edit inside it change the copy. This is so for the source, unless the copy was made inside it, and
      for everything in the source that does not hold the copy in any case. */
  lemma CopyIsIndependent<L>(t: Tree<L>, src: string, dst: string, c: Tree<L>, y: Path, path: string, text: string,
                             id: L)
    requires WF(t) && WF(c) && CopyPath(t, src, dst, c).ok
    requires Has(t, y) && !(y <= ResolveFolder(t, dst).value)
    ensures WF(CopyPath(t, src, dst, c).tree)
    ensures var t' := CopyPath(t, src, dst, c).tree;
      var e := ResolveFolder(t, dst).value + [CopiedName(t, Resolve(t, src).value, ResolveFolder(t, dst).value)];
      && At(t', y) == At(t, y) && At(t', e) == Some(c)
      && EditsSpare(t', e, y, path, text, id) && EditsSpare(t', y, e, path, text, id)
  {
    var p, d := Resolve(t, src).value, ResolveFolder(t, dst).value;
    var name := CopiedName(t, p, d);
    FreshNameIsFree(SetOf(Keys(t, d)), NameAt(p), Get(t, p).File?);
    FiledApart(t, d, name, c, y, path, text, id);
  }

  lemma FiledApart<L>(t: Tree<L>, d: Path, name: string, c: Tree<L>, y: Path, path: string, text: string, id: L)
    requires WF(t) && WF(c) && HasFolder(t, d) && name !in Keys(t, d) && Has(t, y) && !(y <= d)
    ensures WF(Insert(t, d, name, c))
    ensures At(Insert(t, d, name, c), y) == At(t, y) && At(Insert(t, d, name, c), d + [name]) == Some(c)
    ensures EditsSpare(Insert(t, d, name, c), d + [name], y, path, text, id)
    ensures EditsSpare(Insert(t, d, name, c), y, d + [name], path, text, id)
  {
    GetWF(t, d);
    InsertWF(t, d, name, c);
    CopyIsApart(t, d, name, c, y);
    EntryAt(t, d, name, c);
    EditsInside(Insert(t, d, name, c), d + [name], y, path, text, id);
    EditsInside(Insert(t, d, name, c), y, d + [name], path, text, id);
  }

  /* ---------- writeFile and readFile ---------- */

  /** Writing to a path that leads to no folder: reading the path gives the new content, names stay
      unique, and every name that leads elsewhere shows what it showed. */
  lemma WriteLaw<L>(t: Tree<L>, path: string, content: string, id: L, parts: seq<string>)
    requires WF(t) && WriteFile(t, path, content, id).ok && ResolveFolder(t, path) == None
    ensures var t' := WriteFile(t, path, content, id).tree;
      && WF(t')
      && ReadFile(t', path) == Some(content)
      && (CaseUnique(t) ==> CaseUnique(t'))
      && (Locate(t', parts) != Locate(t', Parts(path)) ==> StatOf(t', parts) == StatOf(t, parts))
  {
    var r := Resolve(t, path);
    if r.Some? {
      OverwriteLaw(t, r.value, content, Parts(path), parts);
    } else {
      WriteNewLaw(t, path, content, id, parts);
    }
  }

  lemma OverwriteLaw<L>(t: Tree<L>, p: Path, content: string, a: seq<string>, parts: seq<string>)
    requires WF(t) && Locate(t, a) == Some(p) && Has(t, p) && Get(t, p).File?
    ensures var t' := Graft(t, p, Get(t, p).(content := content));
      && WF(t')
      && Locate(t', a) == Some(p) && At(t', p) == Some(Get(t, p).(content := content))
      && (CaseUnique(t) ==> CaseUnique(t'))
      && (Locate(t', parts) != Some(p) ==> StatOf(t', parts) == StatOf(t, parts))
  {
    var u := Get(t, p).(content := content);
    GraftWF(t, p, u);
    LocateGraftThrough(t, p, u, a);
    GraftGraft(t, p, u, u);
    if CaseUnique(t) { GraftInAllFolders(t, p, u, FoldDistinct); }
    OthersAfterOverwrite(t, p, u, parts);
  }

  /** A file that takes the place of a file shows at the names that lead to it and nowhere else. */
  lemma OthersAfterOverwrite<L>(t: Tree<L>, p: Path, u: Tree<L>, parts: seq<string>)
    requires WF(t) && Has(t, p) && Get(t, p).File? && u.File? && WF(u)
    ensures WF(Graft(t, p, u))
    ensures Locate(Graft(t, p, u), parts) != Some(p) ==> StatOf(Graft(t, p, u), parts) == StatOf(t, parts)
  {
    StatGraft(t, p, u, parts);
    if Through(t, p, parts) {
      var x, y := parts[..|p|], parts[|p|..];
      assert x + y == parts;
      LocateGraftThrough(t, p, u, x);
      LocateConcat(Graft(t, p, u), x, y);
      StatBelow(t, x, y);
      if y == [] { assert p + [] == p; }
    }
  }

  lemma WriteNewLaw<L>(t: Tree<L>, path: string, content: string, id: L, parts: seq<string>)
    requires WF(t) && WriteFile(t, path, content, id).ok && Resolve(t, path) == None
    ensures var t' := WriteFile(t, path, content, id).tree;
      var p := ParentOf(t, path).value + [Last(Parts(path))];
      && WF(t')
      && Locate(t', Parts(path)) == Some(p) && At(t', p) == Some(File(id, "", content))
      && (CaseUnique(t) ==> CaseUnique(t'))
      && (Locate(t', parts) != Some(p) ==> StatOf(t', parts) == StatOf(t, parts))
  {
    ResolveEntry(t, path);
    var d := ParentOf(t, path).value;
    var a := Parts(path);
    var k := Last(a);
    var u := File(id, "", content);
    FindAbsent(t, d, k);
    InsertWF(t, d, k, u);
    var t' := Insert(t, d, k, u);
    if CaseUnique(t) { CaseUniqueInsert(t, d, k, u); }
    InitAndLast(a);
    NewFileFound(t, d, k, u, Init(a));
    EntryAt(t, d, k, u);
    OthersAfterFile(t, d, k, u, parts);
  }

  lemma NewFileFound<L>(t: Tree<L>, d: Path, k: string, u: Tree<L>, parts: seq<string>)
    requires WF(t) && WF(u) && HasFolder(t, d) && Locate(t, parts) == Some(d) && Find(Keys(t, d), k) == None
    ensures WF(Insert(t, d, k, u)) && Locate(Insert(t, d, k, u), parts + [k]) == Some(d + [k])
  {
    InsertedShows(t, d, k, u, parts, k, []);
    assert parts + [k] + [] == parts + [k] && d + [k] + [] == d + [k];
    StatLocates(Insert(t, d, k, u), parts + [k]);
  }

  lemma EntryAt<L>(t: Tree<L>, d: Path, k: string, u: Tree<L>)
    requires HasFolder(t, d)
    ensures At(Insert(t, d, k, u), d + [k]) == Some(u)
  {
    AtChild(Insert(t, d, k, u), d, k);
    GraftGraft(t, d, Put(Get(t, d), k, u), u);
  }

  /** A new file shows at the names that lead to it and nowhere else. */
  lemma OthersAfterFile<L>(t: Tree<L>, d: Path, k: string, u: Tree<L>, parts: seq<string>)
    requires WF(t) && HasFolder(t, d) && k !in Get(t, d).kids && u.File? && WF(u)
    ensures WF(Insert(t, d, k, u))
    ensures Locate(Insert(t, d, k, u), parts) != Some(d + [k]) ==> StatOf(Insert(t, d, k, u), parts) == StatOf(t, parts)
  {
    StatInsert(t, d, k, u, parts);
    StatLocates(Insert(t, d, k, u), parts);
    if StatOf(t, parts) == None && Locate(Insert(t, d, k, u), parts).Some? {
      assert parts[|d| + 1..] == [] && d + [k] + [] == d + [k];
    }
  }

  /** Writing to a path that leads to a folder replaces the folder when the path spells its key exactly,
      and otherwise files the new content under a second spelling that no path reaches. Only in the
      first case does reading give the content back and do names stay unique. */
  lemma WriteOverFolder<L>(t: Tree<L>, path: string, content: string, id: L)
    requires WF(t) && WriteFile(t, path, content, id).ok && ResolveFolder(t, path).Some?
    ensures var t' := WriteFile(t, path, content, id).tree;
      var p := ResolveFolder(t, path).value;
      && WF(t') && p != [] && Parts(path) != []
      && (ReadFile(t', path) == Some(content) <==> Last(Parts(path)) == Last(p))
      && (Last(Parts(path)) != Last(p) ==> Resolve(t', path) == Some(p) && Get(t', p) == Get(t, p))
      && (CaseUnique(t) ==> (CaseUnique(t') <==> Last(Parts(path)) == Last(p)))
  {
    ResolveEntry(t, path);
    var p := ResolveFolder(t, path).value;
    var d, k := ParentOf(t, path).value, Last(Parts(path));
    ChildOf(d, Find(Keys(t, d), k).value);
    FiledOver(t, d, k, Last(p), File(id, "", content), path);
    if CaseUnique(t) { PutKeepsUnique(t, d, k, File(id, "", content)); }
  }

  /** Filing an entry under a name that another spelling of it already finds. */
  lemma FiledOver<L>(t: Tree<L>, d: Path, k: string, j: string, u: Tree<L>, path: string)
    requires WF(t) && WF(u) && ParentOf(t, path) == Some(d) && HasFolder(t, d) && Parts(path) != []
    requires k == Last(Parts(path)) && Find(Keys(t, d), k) == Some(j)
    ensures WF(Insert(t, d, k, u)) && Resolve(Insert(t, d, k, u), path) == Some(d + [j]) && Has(t, d + [j])
    ensures At(Insert(t, d, k, u), d + [j]) == if j == k then Some(u) else At(t, d + [j])
  {
    var f := Get(t, d);
    var g := Put(f, k, u);
    InsertWF(t, d, k, u);
    GetWF(t, d);
    PutWF(f, k, u);
    LocateIsPath(t, Init(Parts(path)));
    LocateGraftThrough(t, d, g, Init(Parts(path)));
    GraftGraft(t, d, g, u);
    ResolveEntry(Insert(t, d, k, u), path);
    FindIsKey(f.keys, k);
    FindAppended(f.keys, k, k);
    AtChild(Insert(t, d, k, u), d, j);
    AtChild(t, d, j);
  }

  lemma PutKeepsUnique<L>(t: Tree<L>, d: Path, k: string, u: Tree<L>)
    requires WF(t) && CaseUnique(t) && CaseUnique(u) && HasFolder(t, d) && Find(Keys(t, d), k).Some?
    ensures CaseUnique(Insert(t, d, k, u)) <==> Find(Keys(t, d), k) == Some(k)
  {
    var f := Get(t, d);
    GetWF(t, d);
    GetInAllFolders(t, d, FoldDistinct);
    GraftInAllFolders(t, d, Put(f, k, u), FoldDistinct);
    FoldDistinctAppended(f.keys, k);
    FindIsKey(f.keys, k);
    if k in f.keys { FindMember(f.keys, k, k); }
  }

  /* ---------- keys stay spellable ---------- */

  /** Creation keeps every key spellable by a path segment exactly when the new name is. */
  lemma CreateKeepsGood<L>(t: Tree<L>, parentPath: string, name: string, node: Tree<L>)
    requires WF(t) && GoodTree(t) && GoodTree(node) && Create(t, parentPath, name, node).ok
    ensures GoodTree(Create(t, parentPath, name, node).tree) <==> GoodName(name)
  {
    var d := ResolveFolder(t, parentPath).value;
    GetWF(t, d);
    FindAbsent(t, d, name);
    GoodTreeInsert(t, d, name, node);
  }

  lemma DeleteKeepsGood<L>(t: Tree<L>, path: string)
    requires WF(t) && GoodTree(t)
    ensures GoodTree(DeletePath(t, path).tree)
  {
    if DeletePath(t, path).ok {
      var p := Resolve(t, path).value;
      InitHasFolder(t, p);
      GoodTreeRemove(t, Init(p), Last(p));
    }
  }

  lemma TransferKeepsGood<L>(t: Tree<L>, p: Path, d: Path, name: string)
    requires Transferable(t, p, d, name) && GoodTree(t)
    ensures GoodTree(Transfer(t, p, d, name)) <==> GoodName(name)
  {
    LiftedFacts(t, p, d, name);
    GoodTreeRemove(t, Init(p), Last(p));
    GetInAllFolders(t, p, GoodNames);
    GetWF(Lifted(t, p), d);
    GoodTreeInsert(Lifted(t, p), d, name, Get(t, p));
  }

  lemma RenameKeepsGood<L>(t: Tree<L>, path: string, newName: string)
    requires WF(t) && GoodTree(t) && RenamePath(t, path, newName).ok
    ensures GoodTree(RenamePath(t, path, newName).tree) <==> GoodName(newName)
  {
    RenameIsTransfer(t, path, newName);
    TransferKeepsGood(t, Resolve(t, path).value, Init(Resolve(t, path).value), newName);
  }

  lemma MoveKeepsGood<L>(t: Tree<L>, src: string, dst: string)
    requires WF(t) && GoodTree(t)
    ensures GoodTree(MovePath(t, src, dst).tree)
  {
    if MovePath(t, src, dst).ok {
      var p, d := Resolve(t, src).value, ResolveFolder(t, dst).value;
      MoveIsTransfer(t, src, dst);
      if p <= d {
        InitHasFolder(t, p);
        GoodTreeRemove(t, Init(p), Last(p));
      } else {
        TransferKeepsGood(t, p, d, MovedName(t, p, d));
      }
    }
  }

  /** A copy keeps every key spellable exactly when its source is not the root. */
  lemma CopyKeepsGood<L>(t: Tree<L>, src: string, dst: string, c: Tree<L>)
    requires WF(t) && WF(c) && GoodTree(t) && CopyPath(t, src, dst, c).ok && IsCopy(c, Get(t, Resolve(t, src).value))
    ensures GoodTree(CopyPath(t, src, dst, c).tree) <==> Resolve(t, src).value != []
  {
    var p, d := Resolve(t, src).value, ResolveFolder(t, dst).value;
    var name := CopiedName(t, p, d);
    FreshNameIsFree(SetOf(Keys(t, d)), NameAt(p), Get(t, p).File?);
    GetWF(t, d);
    GetInAllFolders(t, p, GoodNames);
    CopyIsGood(c, Get(t, p));
    GoodTreeInsert(t, d, name, c);
    if p != [] {
      LastIsGood(t, src);
      FreshNameIsGood(SetOf(Keys(t, d)), NameAt(p), Get(t, p).File?);
    } else {
      SlashStays(SetOf(Keys(t, d)), Get(t, p).File?);
    }
  }

  lemma {:induction false} CopyIsGood<L>(c: Tree<L>, s: Tree<L>)
    requires IsCopy(c, s) && GoodTree(s)
    ensures GoodTree(c)
    decreases c
  {
    CopyKids(c, s);
    if c.Folder? {
      forall k | k in c.kids ensures GoodTree(c.kids[k]) { CopyIsGood(c.kids[k], s.kids[k]); }
    }
  }

  lemma WriteKeepsGood<L>(t: Tree<L>, path: string, content: string, id: L)
    requires WF(t) && GoodTree(t)
    ensures GoodTree(WriteFile(t, path, content, id).tree)
  {
    if WriteFile(t, path, content, id).ok {
      var r := Resolve(t, path);
      if r.Some? && Get(t, r.value).File? {
        GraftInAllFolders(t, r.value, Get(t, r.value).(content := content), GoodNames);
      } else {
        var d, k := ParentOf(t, path).value, Last(Parts(path));
        PartsAreGood(path);
        assert k in Parts(path);
        GetInAllFolders(t, d, GoodNames);
        GraftInAllFolders(t, d, Put(Get(t, d), k, File(id, "", content)), GoodNames);
      }
    }
  }
}
