/** What cp and mv do, exactly, for every tree and all normalised operands. */
module ShellLaws {
  import opened Text
  import opened Paths
  import opened Options
  import opened Trees
  import opened CopyNames
  import opened VfsSpec
  import opened VfsLaws
  import opened OperationLaws
  import opened ShellSpec

  /* ---------- path strings ---------- */

  lemma {:induction false} NonEmptyGood(names: seq<string>)
    requires GoodNames(names)
    ensures NonEmpty(names) == names
  {
    if names != [] {
      assert names[0] in names;
      NonEmptyGood(names[1..]);
      assert names == [names[0]] + names[1..];
    }
  }

  lemma SplitOfAbsPath(names: seq<string>)
    requires GoodNames(names) && names != []
    ensures Split(AbsPath(names), '/') == [""] + names
  {
    SplitJoin(names, '/');
    SplitConcat("", Join(names, '/'), '/');
    assert "" + "/" + Join(names, '/') == AbsPath(names);
  }

  lemma SplitPathOfAbsPath(names: seq<string>)
    requires GoodNames(names) && names != []
    ensures SplitPath(AbsPath(names)) == (AbsPath(Init(names)), Last(names))
    ensures LastSegment(AbsPath(names)) == Last(names)
  {
    SplitOfAbsPath(names);
    NonEmptyGood(names);
    assert ([""] + names)[1..] == names;
    assert NonEmpty([""] + names) == [] + names == names;
  }

  lemma ChildOfAbsPath(names: seq<string>, n: string)
    requires GoodNames(names) && GoodName(n)
    ensures ChildPath(AbsPath(names), n) == AbsPath(names + [n])
  {
    if names == [] {
      assert [] + [n] == [n];
    } else {
      JoinSnoc(names, n, '/');
      assert names[0] in names;
      assert AbsPath(names) != "/" by {
        SplitOfAbsPath(names);
        PartsOfRoot();
        SplitConcat("", "", '/');
        assert "" + "/" + "" == "/";
      }
      assert "/" + (Join(names, '/') + "/" + n) == "/" + Join(names, '/') + "/" + n;
    }
  }

  function LowerAll(parts: seq<string>): seq<string>
  {
    if parts == [] then [] else [Lower(parts[0])] + LowerAll(parts[1..])
  }

  lemma {:induction false} LowerAllAt(parts: seq<string>)
    ensures |LowerAll(parts)| == |parts|
    ensures forall i :: 0 <= i < |parts| ==> LowerAll(parts)[i] == Lower(parts[i])
  {
    if parts != [] { LowerAllAt(parts[1..]); }
  }

  lemma {:induction false} LowerSplit(s: string)
    ensures Split(Lower(s), '/') == LowerAll(Split(s, '/'))
  {
    if s != "" {
      LowerSplit(s[1..]);
      FoldedDots(s[0]);
      assert Lower(s)[1..] == Lower(s[1..]);
      var rest := Split(s[1..], '/');
      if s[0] == '/' {
        assert ([""] + rest)[1..] == rest;
      } else {
        assert ([[s[0]] + rest[0]] + rest[1..])[1..] == rest[1..];
        LowerConcat([s[0]], rest[0]);
      }
    }
  }

  ghost predicate SameUpToCase(a: seq<string>, b: seq<string>)
  {
    |a| == |b| && forall i :: 0 <= i < |a| ==> Lower(a[i]) == Lower(b[i])
  }

  /** Two canonical path strings fold alike exactly when they spell the same names up to case. */
  lemma LowerAbsPath(a: seq<string>, b: seq<string>)
    requires GoodNames(a) && GoodNames(b)
    ensures Lower(AbsPath(a)) == Lower(AbsPath(b)) <==> SameUpToCase(a, b)
  {
    if Lower(AbsPath(a)) == Lower(AbsPath(b)) {
      LowerSplit(AbsPath(a));
      LowerSplit(AbsPath(b));
      LowerAllAt(Split(AbsPath(a), '/'));
      LowerAllAt(Split(AbsPath(b), '/'));
      SplitOfAny(a);
      SplitOfAny(b);
      var x, y := Split(AbsPath(a), '/'), Split(AbsPath(b), '/');
      assert |x| == |y| && forall i :: 0 <= i < |x| ==> Lower(x[i]) == Lower(y[i]);
      VoidOrGood(a, b, x, y);
    }
    if SameUpToCase(a, b) {
      LowerJoin(a, b);
      LowerCommonPrefix("/", Join(a, '/'), Join(b, '/'));
    }
  }

  lemma SplitOfAny(names: seq<string>)
    requires GoodNames(names)
    ensures Split(AbsPath(names), '/') == [""] + if names == [] then [""] else names
  {
    if names == [] {
      SplitConcat("", "", '/');
      assert "" + "/" + "" == "/" == AbsPath(names);
    } else {
      SplitOfAbsPath(names);
    }
  }

  lemma VoidOrGood(a: seq<string>, b: seq<string>, x: seq<string>, y: seq<string>)
    requires GoodNames(a) && GoodNames(b)
    requires x == [""] + (if a == [] then [""] else a) && y == [""] + (if b == [] then [""] else b)
    requires |x| == |y| && forall i :: 0 <= i < |x| ==> Lower(x[i]) == Lower(y[i])
    ensures SameUpToCase(a, b)
  {
    assert |Lower(x[1])| == |x[1]| && |Lower(y[1])| == |y[1]|;
    if a != [] { assert a[0] in a && x[1] == a[0]; }
    if b != [] { assert b[0] in b && y[1] == b[0]; }
    assert forall i :: 0 <= i < |a| ==> a[i] == x[i + 1];
    assert forall i :: 0 <= i < |b| ==> b[i] == y[i + 1];
  }

  lemma {:induction false} LowerJoin(a: seq<string>, b: seq<string>)
    requires SameUpToCase(a, b)
    ensures Lower(Join(a, '/')) == Lower(Join(b, '/'))
  {
    if |a| > 1 {
      LowerJoin(a[1..], b[1..]);
      LowerConcat(a[0] + ['/'], Join(a[1..], '/'));
      LowerConcat(b[0] + ['/'], Join(b[1..], '/'));
      LowerConcat(a[0], ['/']);
      LowerConcat(b[0], ['/']);
    }
  }

  /* ---------- operands ---------- */

  /** Two normalised operands: the first leads to a node other than the root, the second to or into an existing
      folder. */
  ghost predicate Operands<L>(t: Tree<L>, sp: seq<string>, dp: seq<string>)
  {
    && WF(t) && t.Folder?
    && GoodNames(sp) && GoodNames(dp) && sp != []
    && Locate(t, sp).Some?
    && ResolveFolder(t, AbsPath(FolderParts(t, dp))).Some?
  }

  /** The second operand leads to a folder. */
  ghost predicate Into<L>(t: Tree<L>, dp: seq<string>)
    requires WF(t)
  {
    dp == [] || ResolveFolder(t, AbsPath(dp)).Some?
  }

  ghost function FolderParts<L>(t: Tree<L>, dp: seq<string>): seq<string>
    requires WF(t)
  {
    if Into(t, dp) then dp else Init(dp)
  }

  /** The name wanted for the source in its new folder. */
  ghost function WantedName<L>(t: Tree<L>, sp: seq<string>, dp: seq<string>): string
    requires WF(t) && sp != []
  {
    if Into(t, dp) then Last(sp) else Last(dp)
  }

  /** Where the source is. */
  ghost function Source<L>(t: Tree<L>, sp: seq<string>): (p: Path)
    requires WF(t) && Locate(t, sp).Some?
    ensures Has(t, p) && |p| == |sp|
  {
    LocateIsPath(t, sp);
    Locate(t, sp).value
  }

  /** The folder that the source is to end up in. */
  ghost function TargetFolder<L>(t: Tree<L>, sp: seq<string>, dp: seq<string>): (d: Path)
    requires Operands(t, sp, dp)
    ensures HasFolder(t, d) && Locate(t, FolderParts(t, dp)) == Some(d)
  {
    FolderPartsGood(t, dp);
    PartsOfAbsPath(FolderParts(t, dp));
    ResolveFolder(t, AbsPath(FolderParts(t, dp))).value
  }

  lemma FolderPartsGood<L>(t: Tree<L>, dp: seq<string>)
    requires WF(t) && GoodNames(dp)
    ensures GoodNames(FolderParts(t, dp))
  {
  }

  /** What the target path leads to before the command, if anything. */
  ghost function OldTarget<L>(t: Tree<L>, sp: seq<string>, dp: seq<string>): (q: Option<Path>)
    requires Operands(t, sp, dp)
    ensures q.Some? ==> Has(t, q.value) && q.value != []
  {
    LocateIsPath(t, FolderParts(t, dp) + [WantedName(t, sp, dp)]);
    Locate(t, FolderParts(t, dp) + [WantedName(t, sp, dp)])
  }

  /** At most one entry of the folder bears the wanted name up to case. */
  ghost predicate OneTarget<L>(t: Tree<L>, sp: seq<string>, dp: seq<string>)
    requires Operands(t, sp, dp)
  {
    Single(Keys(t, TargetFolder(t, sp, dp)), WantedName(t, sp, dp))
  }

  /** The target neither is nor holds the source. */
  ghost predicate SpareSource<L>(t: Tree<L>, sp: seq<string>, dp: seq<string>)
    requires Operands(t, sp, dp)
  {
    !(OldTarget(t, sp, dp).Some? && OldTarget(t, sp, dp).value <= Source(t, sp))
  }

  /** The target neither is, holds nor lies in the source. */
  ghost predicate ApartFromSource<L>(t: Tree<L>, sp: seq<string>, dp: seq<string>)
    requires Operands(t, sp, dp)
  {
    SpareSource(t, sp, dp) && !(OldTarget(t, sp, dp).Some? && Source(t, sp) <= OldTarget(t, sp, dp).value)
  }

  /** The tree with the old target deleted. */
  ghost function Cleared<L>(t: Tree<L>, sp: seq<string>, dp: seq<string>): Tree<L>
    requires Operands(t, sp, dp)
  {
    match OldTarget(t, sp, dp) case None => t case Some(q) => Lifted(t, q)
  }

  lemma OperandStrings<L>(t: Tree<L>, sp: seq<string>, dp: seq<string>)
    requires Operands(t, sp, dp)
    ensures var fp, n := FolderParts(t, dp), WantedName(t, sp, dp);
      && GoodName(n) && GoodNames(fp)
      && Resolve(t, AbsPath(sp)) == Some(Source(t, sp))
      && Destination(t, AbsPath(sp), AbsPath(dp)) == (AbsPath(fp), n)
      && ChildPath(AbsPath(fp), n) == AbsPath(fp + [n])
      && Parts(AbsPath(fp + [n])) == fp + [n]
      && ClearTarget(t, AbsPath(fp + [n])) == Cleared(t, sp, dp)
      && LastSegment(AbsPath(sp)) == Last(sp)
      && SplitPath(AbsPath(sp)).0 == AbsPath(Init(sp))
  {
    var fp, n := FolderParts(t, dp), WantedName(t, sp, dp);
    assert Last(sp) in sp;
    if dp != [] { assert Last(dp) in dp; }
    PartsOfAbsPath(sp);
    SplitPathOfAbsPath(sp);
    if dp != [] { SplitPathOfAbsPath(dp); }
    if dp == [] { PartsOfAbsPath(dp); }
    ChildOfAbsPath(fp, n);
    PartsOfAbsPath(fp + [n]);
  }

  /** The cleared tree: the folder is where it was, and holds no entry of the wanted name. */
  lemma ClearedFolder<L>(t: Tree<L>, sp: seq<string>, dp: seq<string>)
    requires Operands(t, sp, dp) && OneTarget(t, sp, dp)
    ensures var base, d, q := Cleared(t, sp, dp), TargetFolder(t, sp, dp), OldTarget(t, sp, dp);
      && WF(base) && HasFolder(base, d)
      && Locate(base, FolderParts(t, dp)) == Some(d)
      && Resolve(base, AbsPath(FolderParts(t, dp))) == Some(d)
      && Find(Keys(base, d), WantedName(t, sp, dp)) == None
      && (q.Some? ==> Init(q.value) == d && AloneAt(t, q.value))
  {
    var d, q := TargetFolder(t, sp, dp), OldTarget(t, sp, dp);
    var fp, n := FolderParts(t, dp), WantedName(t, sp, dp);
    FolderPartsGood(t, dp);
    PartsOfAbsPath(fp);
    TargetEntry(t, fp, n, d);
    FindIsKey(Keys(t, d), n);
    if q.Some? { WithoutTarget(t, fp, n, d, q.value); }
  }

  lemma WithoutTarget<L>(t: Tree<L>, fp: seq<string>, n: string, d: Path, q: Path)
    requires WF(t) && Locate(t, fp) == Some(d) && HasFolder(t, d) && Single(Keys(t, d), n)
    requires Find(Keys(t, d), n).Some? && q == d + [Find(Keys(t, d), n).value] && Has(t, q)
    ensures Init(q) == d && AloneAt(t, q)
    ensures WF(Lifted(t, q)) && HasFolder(Lifted(t, q), d) && Locate(Lifted(t, q), fp) == Some(d)
    ensures Find(Keys(Lifted(t, q), d), n) == None
  {
    var k := Find(Keys(t, d), n).value;
    FindIsKey(Keys(t, d), n);
    ChildOf(d, k);
    InitHasFolder(t, q);
    RemoveWF(t, d, k);
    RemoveKeepsFolder(t, q, d);
    StillLocated(t, q, fp, d);
    FindWithout(Keys(t, d), k, n);
  }

  /** A source outside the old target is where it was; one at or inside it is gone. */
  lemma ClearedSource<L>(t: Tree<L>, sp: seq<string>, dp: seq<string>)
    requires Operands(t, sp, dp) && OneTarget(t, sp, dp)
    ensures var base, s := Cleared(t, sp, dp), Source(t, sp);
      && WF(base)
      && (!SpareSource(t, sp, dp) ==> Resolve(base, AbsPath(sp)) == None)
      && (SpareSource(t, sp, dp) ==> Resolve(base, AbsPath(sp)) == Some(s) && (Get(base, s).File? <==> Get(t, s).File?))
  {
    var q := OldTarget(t, sp, dp);
    PartsOfAbsPath(sp);
    if q.Some? {
      ClearedFolder(t, sp, dp);
      InitAndLast(q.value);
      InitHasFolder(t, q.value);
      RemoveWF(t, Init(q.value), Last(q.value));
      StatRemove(t, Init(q.value), Last(q.value), sp);
      StatLocates(t, sp);
      StatLocates(Cleared(t, sp, dp), sp);
    }
  }

  /** The target path leads to the entry of the folder that has the wanted name up to case. */
  lemma TargetEntry<L>(t: Tree<L>, fp: seq<string>, n: string, d: Path)
    requires WF(t) && Locate(t, fp) == Some(d) && HasFolder(t, d)
    ensures Locate(t, fp + [n]) == match Find(Keys(t, d), n) case None => None case Some(k) => Some(d + [k])
    ensures Find(Keys(t, d), n).Some? ==> Find(Keys(t, d), n).value in Get(t, d).kids
  {
    GetWF(t, d);
    LocateConcat(t, fp, [n]);
    FindIsKey(Keys(t, d), n);
    assert [n][1..] == [];
    match Find(Keys(t, d), n) case None => case Some(k) => assert [k] + [] == [k];
  }

  /* ---------- landing and renaming ---------- */

  /** Inserting under one free key, then transferring to another, is inserting under the other. */
  lemma InsertThenTransfer<L>(t: Tree<L>, d: Path, k: string, u: Tree<L>, n: string)
    requires WF(t) && HasFolder(t, d) && k !in Get(t, d).kids
    ensures HasFolder(Insert(t, d, k, u), d) && Has(Insert(t, d, k, u), d + [k])
    ensures Transfer(Insert(t, d, k, u), d + [k], d, n) == Insert(t, d, n, u)
  {
    var f := Get(t, d);
    GetWF(t, d);
    var g := Put(f, k, u);
    var t2 := Insert(t, d, k, u);
    GraftGraft(t, d, g, f);
    AtChild(t2, d, k);
    ChildOf(d, k);
    DropPut(f, k, u);
    GraftGraft(t, d, g, Drop(g, k));
    GraftGraft(t, d, f, Put(f, n, u));
    GraftSame(t, d);
  }

  lemma DropPut<L>(f: Tree<L>, k: string, u: Tree<L>)
    requires WF(f) && f.Folder? && k !in f.kids
    ensures Drop(Put(f, k, u), k) == f
  {
    WithoutConcat(f.keys, [k], k);
    WithoutAbsent(f.keys, k);
    assert f.keys + [] == f.keys;
    assert f.kids[k := u] - {k} == f.kids;
  }

  /** The landing goes right: the entry lands under the source's own name, or at once under the wanted one. */
  predicate Fits(keys: seq<string>, own: string, landed: string, wanted: string)
  {
    Find(keys, own) == None || Lower(landed) == Lower(wanted)
  }

  function FinalKey(landed: string, wanted: string): string
  {
    if Lower(landed) == Lower(wanted) then landed else wanted
  }

  /** After an entry has landed in a folder that holds no entry of the wanted name, the concluding rename
      gives it the wanted name exactly when the landing went right. Otherwise another entry, the one that
      bore the source's name, is renamed instead. */
  lemma LandingLaw<L>(t: Tree<L>, srcFull: string, fp: seq<string>, d: Path, n: string, k: string, u: Tree<L>)
    requires WF(t) && WF(u) && GoodNames(fp) && GoodName(n) && GoodName(LastSegment(srcFull)) && GoodName(k)
    requires Locate(t, fp) == Some(d) && HasFolder(t, d) && Find(Keys(t, d), n) == None
    requires Lower(k) == Lower(LastSegment(srcFull))
    ensures var landed := FreshName(SetOf(Keys(t, d)), k, u.File?);
      && WF(Insert(t, d, landed, u))
      && (RenameLanded(Insert(t, d, landed, u), srcFull, AbsPath(fp), n) == Insert(t, d, FinalKey(landed, n), u) <==>
          Fits(Keys(t, d), k, landed, n))
  {
    var own := LastSegment(srcFull);
    var keys := Keys(t, d);
    var landed := FreshName(SetOf(keys), k, u.File?);
    FreshNameIsFree(SetOf(keys), k, u.File?);
    assert landed !in Get(t, d).kids by { GetWF(t, d); }
    InsertWF(t, d, landed, u);
    var t2 := Insert(t, d, landed, u);
    PrefixCase(AbsPath(fp), own, n);
    FindUpToCase(keys, k, own);
    FindIsKey(keys, k);
    if Lower(own) == Lower(n) {
      FindUpToCase(keys, own, n);
    } else {
      InsertedFolder(t, d, landed, u, fp);
      LandedRename(t, fp, d, own, n, k, u);
    }
  }

  lemma PrefixCase(parent: string, a: string, b: string)
    ensures Lower(ChildPath(parent, a)) == Lower(ChildPath(parent, b)) <==> Lower(a) == Lower(b)
  {
    if parent == "/" { LowerCommonPrefix("/", a, b); } else { LowerCommonPrefix(parent + "/", a, b); }
  }

  lemma InsertedFolder<L>(t: Tree<L>, d: Path, k: string, u: Tree<L>, fp: seq<string>)
    requires WF(t) && WF(u) && Locate(t, fp) == Some(d) && HasFolder(t, d) && k !in Get(t, d).kids
    ensures WF(Insert(t, d, k, u)) && Locate(Insert(t, d, k, u), fp) == Some(d)
    ensures HasFolder(Insert(t, d, k, u), d) && Get(Insert(t, d, k, u), d) == Put(Get(t, d), k, u)
    ensures Keys(Insert(t, d, k, u), d) == Keys(t, d) + [k]
  {
    GetWF(t, d);
    PutWF(Get(t, d), k, u);
    LocateGraftThrough(t, d, Put(Get(t, d), k, u), fp);
    GraftGraft(t, d, Put(Get(t, d), k, u), u);
  }

  /** The rename that concludes cp and mv, when the source's own name is not the wanted one. */
  lemma LandedRename<L>(t: Tree<L>, fp: seq<string>, d: Path, own: string, n: string, k: string, u: Tree<L>)
    requires WF(t) && WF(u) && GoodNames(fp) && GoodName(n) && GoodName(own)
    requires Locate(t, fp) == Some(d) && HasFolder(t, d) && Find(Keys(t, d), n) == None
    requires Lower(k) == Lower(own) && Lower(own) != Lower(n)
    ensures var landed := FreshName(SetOf(Keys(t, d)), k, u.File?);
      && WF(Insert(t, d, landed, u))
      && (RenamePath(Insert(t, d, landed, u), ChildPath(AbsPath(fp), own), n).tree ==
          Insert(t, d, FinalKey(landed, n), u) <==>
          Fits(Keys(t, d), k, landed, n))
  {
    var keys := Keys(t, d);
    var landed := FreshName(SetOf(keys), k, u.File?);
    FreshNameIsFree(SetOf(keys), k, u.File?);
    GetWF(t, d);
    FindIsKey(keys, k);
    FindUpToCase(keys, k, own);
    if Find(keys, k) == None {
      LandedItself(t, fp, d, own, n, k, u);
    } else {
      OtherRenamed(t, fp, d, own, n, k, landed, u);
    }
  }

  /** With no other entry of the source's name in the folder, what has landed is renamed, unless nothing is. */
  lemma LandedItself<L>(t: Tree<L>, fp: seq<string>, d: Path, own: string, n: string, k: string, u: Tree<L>)
    requires WF(t) && WF(u) && GoodNames(fp) && GoodName(n) && GoodName(own)
    requires Locate(t, fp) == Some(d) && HasFolder(t, d) && Find(Keys(t, d), n) == None
    requires Lower(k) == Lower(own) && Find(Keys(t, d), own) == None && k !in Get(t, d).kids && Lower(own) != Lower(n)
    ensures WF(Insert(t, d, k, u))
    ensures RenamePath(Insert(t, d, k, u), ChildPath(AbsPath(fp), own), n).tree == Insert(t, d, n, u)
  {
    FindAppended(Keys(t, d), k, own);
    RenameOfLanded(t, fp, d, own, n, k, u, k);
    InsertThenTransfer(t, d, k, u, n);
  }

  /** With another entry of the source's name in the folder, that entry is renamed, unless nothing is. */
  lemma OtherRenamed<L>(t: Tree<L>, fp: seq<string>, d: Path, own: string, n: string, k: string, landed: string,
                        u: Tree<L>)
    requires WF(t) && WF(u) && GoodNames(fp) && GoodName(n) && GoodName(own)
    requires Locate(t, fp) == Some(d) && HasFolder(t, d) && Find(Keys(t, d), n) == None
    requires Lower(k) == Lower(own) && Find(Keys(t, d), k).Some? && landed !in Get(t, d).kids
    requires Lower(own) != Lower(n)
    ensures WF(Insert(t, d, landed, u))
    ensures RenamePath(Insert(t, d, landed, u), ChildPath(AbsPath(fp), own), n).tree ==
      Insert(t, d, FinalKey(landed, n), u)
      <==> Lower(landed) == Lower(n)
  {
    var keys := Keys(t, d);
    GetWF(t, d);
    FindIsKey(keys, k);
    FindAppended(keys, landed, own);
    FindUpToCase(keys, k, own);
    RenameOfLanded(t, fp, d, own, n, landed, u, Find(keys, k).value);
    if Lower(landed) != Lower(n) {
      WrongEntryRenamed(t, d, landed, u, Find(keys, k).value, n);
    }
  }

  /** The entry that the concluding rename picks: the first one that bears the source's name. */
  lemma RenameOfLanded<L>(t: Tree<L>, fp: seq<string>, d: Path, own: string, n: string, landed: string, u: Tree<L>,
                          e: string)
    requires WF(t) && WF(u) && GoodNames(fp) && GoodName(n) && GoodName(own)
    requires Locate(t, fp) == Some(d) && HasFolder(t, d) && Find(Keys(t, d), n) == None && landed !in Get(t, d).kids
    requires Find(Keys(t, d) + [landed], own) == Some(e)
    ensures WF(Insert(t, d, landed, u))
    ensures var t2 := Insert(t, d, landed, u);
      && Has(t2, d + [e]) && HasFolder(t2, d)
      && RenamePath(t2, ChildPath(AbsPath(fp), own), n).tree ==
         if Lower(landed) == Lower(n) then t2 else Transfer(t2, d + [e], d, n)
  {
    InsertedFolder(t, d, landed, u, fp);
    var t2 := Insert(t, d, landed, u);
    PartsOfAbsPath(fp);
    ChildOfFolder(t2, AbsPath(fp), own);
    FindAppended(Keys(t, d), landed, n);
    ChildOf(d, e);
  }

  /** If another entry is renamed to the wanted name, its own key is gone from the folder. */
  lemma WrongEntryRenamed<L>(t: Tree<L>, d: Path, landed: string, u: Tree<L>, e: string, n: string)
    requires WF(t) && WF(u) && HasFolder(t, d) && landed !in Get(t, d).kids && e in Keys(t, d) && e != n
    ensures var t2 := Insert(t, d, landed, u);
      && HasFolder(t2, d) && Has(t2, d + [e])
      && Transfer(t2, d + [e], d, n) != Insert(t, d, n, u)
  {
    var f := Get(t, d);
    GetWF(t, d);
    var t2 := Insert(t, d, landed, u);
    GraftGraft(t, d, Put(f, landed, u), f);
    AtChild(t2, d, e);
    var p := d + [e];
    assert Init(p) == d && Last(p) == e;
    RemoveKeepsFolder(t2, p, d);
    var t3 := Remove(t2, d, e);
    GraftGraft(t3, d, Put(Get(t3, d), n, Get(t2, p)), u);
    WithoutMembers(Get(t2, d).keys, e);
    assert e !in Get(Transfer(t2, p, d, n), d).kids;
    GraftGraft(t, d, Put(f, n, u), u);
    assert e in Get(Insert(t, d, n, u), d).kids;
  }

  /* ---------- cp ---------- */

  /** When the old target is the source or holds it, both commands delete the source and then fail. */
  lemma OverwritingTheSource<L>(t: Tree<L>, sp: seq<string>, dp: seq<string>, c: Tree<L>)
    requires Operands(t, sp, dp) && WF(c) && OneTarget(t, sp, dp) && !SpareSource(t, sp, dp)
    ensures Cp(t, AbsPath(sp), AbsPath(dp), c) == Lifted(t, OldTarget(t, sp, dp).value)
    ensures Mv(t, AbsPath(sp), AbsPath(dp)) == Lifted(t, OldTarget(t, sp, dp).value)
  {
    OperandStrings(t, sp, dp);
    ClearedSource(t, sp, dp);
    FolderPartsGood(t, dp);
    PartsOfAbsPath(FolderParts(t, dp));
  }

  /** The key under which a copied or moved source first lands. */
  ghost function LandedKey<L>(t: Tree<L>, sp: seq<string>, dp: seq<string>, base: Tree<L>): string
    requires Operands(t, sp, dp) && HasFolder(base, TargetFolder(t, sp, dp))
  {
    FreshName(SetOf(Keys(base, TargetFolder(t, sp, dp))), Last(Source(t, sp)), Get(t, Source(t, sp)).File?)
  }

  lemma CpUnfolds<L>(t: Tree<L>, sp: seq<string>, dp: seq<string>, c: Tree<L>)
    requires Operands(t, sp, dp) && WF(c)
    requires OneTarget(t, sp, dp) && SpareSource(t, sp, dp)
    ensures var base, d := Cleared(t, sp, dp), TargetFolder(t, sp, dp);
      && WF(base) && HasFolder(base, d) && WF(Insert(base, d, LandedKey(t, sp, dp, base), c))
      && Cp(t, AbsPath(sp), AbsPath(dp), c) ==
         RenameLanded(Insert(base, d, LandedKey(t, sp, dp, base), c), AbsPath(sp), AbsPath(FolderParts(t, dp)),
                      WantedName(t, sp, dp))
  {
    var base := Cleared(t, sp, dp);
    ClearedFolder(t, sp, dp);
    ClearedSource(t, sp, dp);
    CpClears(t, sp, dp, c);
    InsertWF(base, TargetFolder(t, sp, dp), LandedKey(t, sp, dp, base), c);
    assert CopyPath(base, AbsPath(sp), AbsPath(FolderParts(t, dp)), c) ==
      Outcome(true, Insert(base, TargetFolder(t, sp, dp), LandedKey(t, sp, dp, base), c));
  }

  lemma CpClears<L>(t: Tree<L>, sp: seq<string>, dp: seq<string>, c: Tree<L>)
    requires Operands(t, sp, dp) && WF(c)
    ensures WF(Cleared(t, sp, dp))
    ensures Cp(t, AbsPath(sp), AbsPath(dp), c) ==
      CpCleared(Cleared(t, sp, dp), AbsPath(sp), AbsPath(FolderParts(t, dp)), WantedName(t, sp, dp), c)
  {
    OperandStrings(t, sp, dp);
    FolderPartsGood(t, dp);
    PartsOfAbsPath(FolderParts(t, dp));
  }

  lemma SourceNames<L>(t: Tree<L>, sp: seq<string>, dp: seq<string>)
    requires Operands(t, sp, dp)
    ensures Source(t, sp) != [] && GoodName(Last(Source(t, sp)))
    ensures LastSegment(AbsPath(sp)) == Last(sp) && GoodName(Last(sp)) && Lower(Last(Source(t, sp))) == Lower(Last(sp))
  {
    OperandStrings(t, sp, dp);
    LastIsGood(t, AbsPath(sp));
    LocateIsPath(t, sp);
    assert Last(sp) in sp;
  }

  /** cp, for a source that is not at or inside the old target: apart from the deleted old target the
      command adds the copy under the wanted name and changes nothing else, exactly when no other entry of
      the folder bears the source's name, or the fallback name is the wanted one. */
  lemma CpLaw<L>(t: Tree<L>, sp: seq<string>, dp: seq<string>, c: Tree<L>)
    requires Operands(t, sp, dp) && WF(c) && (c.File? <==> Get(t, Source(t, sp)).File?)
    requires OneTarget(t, sp, dp) && SpareSource(t, sp, dp)
    ensures var base, d, n := Cleared(t, sp, dp), TargetFolder(t, sp, dp), WantedName(t, sp, dp);
      && HasFolder(base, d)
      && var landed := LandedKey(t, sp, dp, base);
      && (Cp(t, AbsPath(sp), AbsPath(dp), c) == Insert(base, d, FinalKey(landed, n), c) <==>
          Fits(Keys(base, d), Last(Source(t, sp)), landed, n))
  {
    var base, d := Cleared(t, sp, dp), TargetFolder(t, sp, dp);
    CpUnfolds(t, sp, dp, c);
    ClearedFolder(t, sp, dp);
    SourceNames(t, sp, dp);
    OperandStrings(t, sp, dp);
    LandingLaw(base, AbsPath(sp), FolderParts(t, dp), d, WantedName(t, sp, dp), Last(Source(t, sp)), c);
  }

  /** cp within one folder: the landing goes right only if the fallback name is the wanted one. Otherwise it is the
      original that gets the wanted name, and the copy keeps the fallback name. */
  lemma CpWithinFolder<L>(t: Tree<L>, sp: seq<string>, dp: seq<string>, c: Tree<L>)
    requires Operands(t, sp, dp) && WF(c) && (c.File? <==> Get(t, Source(t, sp)).File?)
    requires OneTarget(t, sp, dp) && SpareSource(t, sp, dp) && TargetFolder(t, sp, dp) == Init(Source(t, sp))
    ensures var base, d, n, s := Cleared(t, sp, dp), TargetFolder(t, sp, dp), WantedName(t, sp, dp), Source(t, sp);
      && HasFolder(base, d) && Has(base, s)
      && var landed := LandedKey(t, sp, dp, base);
      && var copied := Insert(base, d, landed, c);
      && (Fits(Keys(base, d), Last(s), landed, n) <==> Lower(landed) == Lower(n))
      && Has(copied, s) && HasFolder(copied, d)
      && Cp(t, AbsPath(sp), AbsPath(dp), c) == if Lower(landed) == Lower(n) then copied else Transfer(copied, s, d, n)
  {
    var base, d, n, s := Cleared(t, sp, dp), TargetFolder(t, sp, dp), WantedName(t, sp, dp), Source(t, sp);
    SourceBeside(t, sp, dp);
    WithinLands(base, FolderParts(t, dp), sp, s, n, c);
    CpUnfolds(t, sp, dp, c);
    FindUpToCase(Keys(base, d), Last(sp), Last(s));
  }

  /** The source, still in its folder once the target is deleted. */
  lemma SourceBeside<L>(t: Tree<L>, sp: seq<string>, dp: seq<string>)
    requires Operands(t, sp, dp) && OneTarget(t, sp, dp) && SpareSource(t, sp, dp)
    requires TargetFolder(t, sp, dp) == Init(Source(t, sp))
    ensures var base, d, n, s := Cleared(t, sp, dp), TargetFolder(t, sp, dp), WantedName(t, sp, dp), Source(t, sp);
      && WF(base) && Has(base, s) && HasFolder(base, d) && GoodNames(FolderParts(t, dp)) && GoodName(n)
      && GoodName(Last(sp)) && LastSegment(AbsPath(sp)) == Last(sp) && Lower(Last(sp)) == Lower(Last(s))
      && Locate(base, FolderParts(t, dp)) == Some(d) && Locate(base, sp) == Some(s)
      && Find(Keys(base, d), Last(sp)) == Some(Last(s)) && Last(s) in Keys(base, d)
      && Find(Keys(base, d), n) == None && Lower(Last(sp)) != Lower(n)
  {
    ClearedFolder(t, sp, dp);
    ClearedSource(t, sp, dp);
    SourceNames(t, sp, dp);
    OperandStrings(t, sp, dp);
    PartsOfAbsPath(sp);
    SourceEntry(Cleared(t, sp, dp), sp, Source(t, sp), WantedName(t, sp, dp));
  }

  /** The source, as an entry of its folder: its path string finds it first, and it does not bear the wanted name. */
  lemma SourceEntry<L>(t: Tree<L>, sp: seq<string>, s: Path, n: string)
    requires WF(t) && sp != [] && Locate(t, sp) == Some(s)
    ensures |s| == |sp| && Has(t, s) && HasFolder(t, Init(s)) && Last(s) in Keys(t, Init(s))
    ensures Find(Keys(t, Init(s)), Last(sp)) == Some(Last(s))
    ensures Find(Keys(t, Init(s)), n) == None ==> Lower(Last(sp)) != Lower(n)
  {
    LocateIsPath(t, sp);
    InitHasFolder(t, s);
    LocatePrefix(t, sp, |sp| - 1);
    InitAndLast(sp);
    InitAndLast(s);
    TargetEntry(t, Init(sp), Last(sp), Init(s));
    ChildOf(Init(s), Find(Keys(t, Init(s)), Last(sp)).value);
    FindIsKey(Keys(t, Init(s)), Last(sp));
    FindIsKey(Keys(t, Init(s)), n);
  }

  lemma WithinLands<L>(t: Tree<L>, fp: seq<string>, sp: seq<string>, s: Path, n: string, c: Tree<L>)
    requires WF(t) && WF(c) && GoodNames(fp) && GoodName(n) && sp != [] && GoodName(Last(sp))
    requires s != [] && Has(t, s) && HasFolder(t, Init(s)) && Locate(t, fp) == Some(Init(s))
    requires Find(Keys(t, Init(s)), Last(sp)) == Some(Last(s)) && Find(Keys(t, Init(s)), n) == None
    requires Lower(Last(sp)) != Lower(n) && LastSegment(AbsPath(sp)) == Last(sp)
    ensures var d := Init(s);
      var landed := FreshName(SetOf(Keys(t, d)), Last(s), c.File?);
      && WF(Insert(t, d, landed, c)) && Has(Insert(t, d, landed, c), s) && HasFolder(Insert(t, d, landed, c), d)
      && RenameLanded(Insert(t, d, landed, c), AbsPath(sp), AbsPath(fp), n) ==
         if Lower(landed) == Lower(n) then Insert(t, d, landed, c) else Transfer(Insert(t, d, landed, c), s, d, n)
  {
    var d, keys := Init(s), Keys(t, Init(s));
    var landed := FreshName(SetOf(keys), Last(s), c.File?);
    FreshNameIsFree(SetOf(keys), Last(s), c.File?);
    GetWF(t, d);
    FindAppended(keys, landed, Last(sp));
    RenameOfLanded(t, fp, d, Last(sp), n, landed, c, Last(s));
    InitAndLast(s);
    PrefixCase(AbsPath(fp), Last(sp), n);
  }

  /** In that case the target path shows the original, object for object, and the source path leads nowhere. */
  lemma CpWithinFolderMoves<L>(t: Tree<L>, sp: seq<string>, dp: seq<string>, c: Tree<L>, rest: seq<string>)
    requires Operands(t, sp, dp) && WF(c) && (c.File? <==> Get(t, Source(t, sp)).File?)
    requires OneTarget(t, sp, dp) && SpareSource(t, sp, dp) && TargetFolder(t, sp, dp) == Init(Source(t, sp))
    requires var base := Cleared(t, sp, dp);
      && HasFolder(base, TargetFolder(t, sp, dp))
      && Lower(LandedKey(t, sp, dp, base)) != Lower(WantedName(t, sp, dp))
      && WF(base) && Has(base, Source(t, sp)) && AloneAt(base, Source(t, sp))
    ensures var base, d, n, s := Cleared(t, sp, dp), TargetFolder(t, sp, dp), WantedName(t, sp, dp), Source(t, sp);
      var after := Cp(t, AbsPath(sp), AbsPath(dp), c);
      && WF(Get(base, s))
      && StatOf(after, FolderParts(t, dp) + [n] + rest) == Below(d + [n], StatOf(Get(base, s), rest))
      && Locate(after, sp) == None
  {
    var base, n, s := Cleared(t, sp, dp), WantedName(t, sp, dp), Source(t, sp);
    CpWithinFolder(t, sp, dp, c);
    SourceBeside(t, sp, dp);
    FreshNameIsFree(SetOf(Keys(base, Init(s))), Last(s), c.File?);
    FreshNameDiffers(SetOf(Keys(base, Init(s))), Last(s), c.File?);
    CopyBesideSource(base, FolderParts(t, dp), sp, s, n, LandedKey(t, sp, dp, base), c, rest);
  }

  /** With a copy beside it under a fallback name, the source is still alone and can still take the wanted name. */
  lemma CopyBeside<L>(t: Tree<L>, fp: seq<string>, s: Path, n: string, landed: string, c: Tree<L>)
    requires WF(t) && WF(c) && s != [] && Has(t, s) && AloneAt(t, s)
    requires HasFolder(t, Init(s)) && Locate(t, fp) == Some(Init(s)) && Last(s) in Keys(t, Init(s))
    requires Find(Keys(t, Init(s)), n) == None
    requires landed !in Keys(t, Init(s)) && Lower(landed) != Lower(n) && Lower(landed) != Lower(Last(s))
    ensures var d, copied := Init(s), Insert(t, Init(s), landed, c);
      && WF(Get(t, s)) && WF(copied) && landed !in Get(t, d).kids && Locate(copied, fp) == Some(d)
      && Has(copied, s) && Get(copied, s) == Get(t, s) && AloneAt(copied, s)
      && Transferable(copied, s, d, n) && HasFolder(Lifted(copied, s), d) && Find(Keys(Lifted(copied, s), d), n) == None
  {
    var d, keys := Init(s), Keys(t, Init(s));
    var copied := Insert(t, d, landed, c);
    GetWF(t, d);
    GetWF(t, s);
    InsertedFolder(t, d, landed, c, fp);
    InitAndLast(s);
    AtChild(t, d, Last(s));
    AtChild(copied, d, Last(s));
    FindAppended(keys, landed, n);
    LiftedKeys(copied, s, d, n);
    FindAbsent(copied, d, n);
  }

  lemma CopyBesideSource<L>(t: Tree<L>, fp: seq<string>, sp: seq<string>, s: Path, n: string, landed: string,
                            c: Tree<L>, rest: seq<string>)
    requires WF(t) && WF(c) && sp != [] && Locate(t, sp) == Some(s) && s != [] && Has(t, s) && AloneAt(t, s)
    requires HasFolder(t, Init(s)) && Locate(t, fp) == Some(Init(s)) && Last(s) in Keys(t, Init(s))
    requires Find(Keys(t, Init(s)), n) == None && Lower(Last(sp)) != Lower(n)
    requires landed !in Keys(t, Init(s)) && Lower(landed) != Lower(n) && Lower(landed) != Lower(Last(s))
    ensures var d, copied := Init(s), Insert(t, Init(s), landed, c);
      && WF(Get(t, s)) && Has(copied, s) && HasFolder(copied, d) && WF(copied) && WF(Transfer(copied, s, d, n))
      && StatOf(Transfer(copied, s, d, n), fp + [n] + rest) == Below(d + [n], StatOf(Get(t, s), rest))
      && Locate(Transfer(copied, s, d, n), sp) == None
  {
    var d, copied := Init(s), Insert(t, Init(s), landed, c);
    CopyBeside(t, fp, s, n, landed, c);
    TransferReaches(copied, s, d, n, fp, n, rest);
    SourcePathIsGone(t, copied, d, sp, s, n, landed, c);
  }

  lemma SourcePathIsGone<L>(t: Tree<L>, copied: Tree<L>, d: Path, sp: seq<string>, s: Path, n: string, landed: string,
                            c: Tree<L>)
    requires WF(t) && WF(c) && HasFolder(t, d) && landed !in Get(t, d).kids && copied == Insert(t, d, landed, c)
      && WF(copied)
    requires sp != [] && Locate(t, sp) == Some(s) && s != [] && Init(s) == d && Lower(Last(sp)) != Lower(n)
    requires Transferable(copied, s, d, n) && HasFolder(Lifted(copied, s), d)
    requires Find(Keys(Lifted(copied, s), d), n) == None && AloneAt(copied, s)
    ensures WF(Transfer(copied, s, d, n)) && Locate(Transfer(copied, s, d, n), sp) == None
  {
    StatInsert(t, d, landed, c, sp);
    StatLocates(t, sp);
    StatLocates(copied, sp);
    LocateIsPath(t, sp);
    TransferShows(copied, s, d, n, sp);
    StatLocates(Transfer(copied, s, d, n), sp);
  }

  /** When the landing goes right, the target path shows the copy, the source is still found, and whatever
      the tree without the old target showed is shown still. */
  lemma CpDelivers<L>(t: Tree<L>, sp: seq<string>, dp: seq<string>, c: Tree<L>, rest: seq<string>, parts: seq<string>)
    requires Operands(t, sp, dp) && WF(c) && (c.File? <==> Get(t, Source(t, sp)).File?)
    requires OneTarget(t, sp, dp) && SpareSource(t, sp, dp)
    requires var base := Cleared(t, sp, dp);
      HasFolder(base, TargetFolder(t, sp, dp)) &&
      Fits(Keys(base, TargetFolder(t, sp, dp)), Last(Source(t, sp)), LandedKey(t, sp, dp, base), WantedName(t, sp, dp))
    ensures var base, d, n := Cleared(t, sp, dp), TargetFolder(t, sp, dp), WantedName(t, sp, dp);
      var after, key := Cp(t, AbsPath(sp), AbsPath(dp), c), FinalKey(LandedKey(t, sp, dp, base), n);
      && WF(base)
      && StatOf(after, FolderParts(t, dp) + [n] + rest) == Below(d + [key], StatOf(c, rest))
      && Locate(after, sp) == Some(Source(t, sp))
      && (StatOf(base, parts).Some? ==> StatOf(after, parts) == StatOf(base, parts))
  {
    var base, d, n, fp := Cleared(t, sp, dp), TargetFolder(t, sp, dp), WantedName(t, sp, dp), FolderParts(t, dp);
    var key := FinalKey(LandedKey(t, sp, dp, base), n);
    CpLaw(t, sp, dp, c);
    ClearedFolder(t, sp, dp);
    ClearedSource(t, sp, dp);
    PartsOfAbsPath(sp);
    FindUpToCase(Keys(base, d), n, key);
    FindAbsent(base, d, key);
    InsertedShows(base, d, key, c, fp, n, rest);
    StatInsert(base, d, key, c, sp);
    StatInsert(base, d, key, c, parts);
    StatLocates(base, sp);
    StatLocates(Insert(base, d, key, c), sp);
  }

  /** Deleting a target that neither is, holds nor lies in the source leaves the source's subtree as it was. */
  lemma ClearedKeepsSource<L>(t: Tree<L>, sp: seq<string>, dp: seq<string>)
    requires Operands(t, sp, dp)
    requires OneTarget(t, sp, dp) && ApartFromSource(t, sp, dp)
    ensures var base, s := Cleared(t, sp, dp), Source(t, sp); Has(base, s) && Get(base, s) == Get(t, s)
  {
    if OldTarget(t, sp, dp).Some? { RemoveElsewhere(t, OldTarget(t, sp, dp).value, Source(t, sp)); }
  }

  /** What cp copied, when it got that far, is the source. */
  lemma ReachesCopying<L>(t: Tree<L>, sp: seq<string>, dp: seq<string>, c: Tree<L>)
    requires Operands(t, sp, dp) && OneTarget(t, sp, dp) && SpareSource(t, sp, dp)
    ensures CpReaches(t, AbsPath(sp), AbsPath(dp), c)
    ensures CpBase(t, AbsPath(sp), AbsPath(dp)) == Cleared(t, sp, dp)
    ensures WF(Cleared(t, sp, dp)) && Resolve(Cleared(t, sp, dp), AbsPath(sp)) == Some(Source(t, sp))
  {
    OperandStrings(t, sp, dp);
    ClearedFolder(t, sp, dp);
    ClearedSource(t, sp, dp);
  }

  lemma CopiedTheSource<L>(t: Tree<L>, sp: seq<string>, dp: seq<string>, c: Tree<L>)
    requires Operands(t, sp, dp) && CpCopies(t, AbsPath(sp), AbsPath(dp), c)
    requires OneTarget(t, sp, dp) && ApartFromSource(t, sp, dp)
    ensures IsCopy(c, Get(t, Source(t, sp)))
  {
    ReachesCopying(t, sp, dp, c);
    ClearedKeepsSource(t, sp, dp);
  }

  /** cp does what it says: under the condition of CpLaw the target path shows, at every path below it, what the
      source showed and still shows. */
  lemma CpShowsSource<L>(t: Tree<L>, sp: seq<string>, dp: seq<string>, c: Tree<L>, rest: seq<string>)
    requires Operands(t, sp, dp) && WF(c) && CpCopies(t, AbsPath(sp), AbsPath(dp), c)
    requires OneTarget(t, sp, dp) && ApartFromSource(t, sp, dp)
    requires var base := Cleared(t, sp, dp);
      HasFolder(base, TargetFolder(t, sp, dp)) &&
      Fits(Keys(base, TargetFolder(t, sp, dp)), Last(Source(t, sp)), LandedKey(t, sp, dp, base), WantedName(t, sp, dp))
    ensures var after := Cp(t, AbsPath(sp), AbsPath(dp), c);
      var source, target := StatOf(t, sp + rest), StatOf(after, FolderParts(t, dp) + [WantedName(t, sp, dp)] + rest);
      && (source.Some? <==> target.Some?)
      && (source.Some? ==> source.value.content == target.value.content && StatOf(after, sp + rest) == source)
  {
    var s := Source(t, sp);
    CopiedTheSource(t, sp, dp, c);
    ClearedKeepsSource(t, sp, dp);
    ClearedSource(t, sp, dp);
    GetWF(t, s);
    PartsOfAbsPath(sp);
    CpDelivers(t, sp, dp, c, rest, sp + rest);
    CopyShows(c, Get(t, s), rest);
    StatBelow(t, sp, rest);
    StatBelow(Cleared(t, sp, dp), sp, rest);
  }

  /* ---------- mv ---------- */

  /** The two path strings fold alike exactly when the source lies in the folder already. */
  lemma SameFolder<L>(t: Tree<L>, sp: seq<string>, dp: seq<string>)
    requires Operands(t, sp, dp)
    ensures Lower(SplitPath(AbsPath(sp)).0) == Lower(AbsPath(FolderParts(t, dp))) <==>
      TargetFolder(t, sp, dp) == Init(Source(t, sp))
  {
    var fp, d, s := FolderParts(t, dp), TargetFolder(t, sp, dp), Source(t, sp);
    OperandStrings(t, sp, dp);
    LowerAbsPath(Init(sp), fp);
    LocatePrefix(t, sp, |sp| - 1);
    LocateIsPath(t, fp);
    LocateIsPath(t, Init(sp));
    if SameUpToCase(Init(sp), fp) { LocateUpToCase(t, Init(sp), fp); }
  }

  /** mv within one folder renames the entry and changes nothing else, the deleted old target aside. */
  lemma MvWithinFolder<L>(t: Tree<L>, sp: seq<string>, dp: seq<string>)
    requires Operands(t, sp, dp) && TargetFolder(t, sp, dp) == Init(Source(t, sp))
    requires OneTarget(t, sp, dp) && SpareSource(t, sp, dp)
    ensures var base, d, s := Cleared(t, sp, dp), TargetFolder(t, sp, dp), Source(t, sp);
      && Has(base, s) && HasFolder(base, d)
      && Mv(t, AbsPath(sp), AbsPath(dp)) == Transfer(base, s, d, WantedName(t, sp, dp))
  {
    OperandStrings(t, sp, dp);
    ClearedFolder(t, sp, dp);
    ClearedSource(t, sp, dp);
    SameFolder(t, sp, dp);
  }

  lemma MvUnfolds<L>(t: Tree<L>, sp: seq<string>, dp: seq<string>)
    requires Operands(t, sp, dp) && TargetFolder(t, sp, dp) != Init(Source(t, sp))
    requires OneTarget(t, sp, dp) && SpareSource(t, sp, dp)
    ensures var base, d, s := Cleared(t, sp, dp), TargetFolder(t, sp, dp), Source(t, sp);
      && WF(base) && Has(base, s) && HasFolder(base, d)
      && var moved := if s <= d then Lifted(base, s) else Transfer(base, s, d, LandedKey(t, sp, dp, base));
      && WF(moved)
      && Mv(t, AbsPath(sp), AbsPath(dp)) ==
         RenameLanded(moved, AbsPath(sp), AbsPath(FolderParts(t, dp)), WantedName(t, sp, dp))
  {
    var base, d, s := Cleared(t, sp, dp), TargetFolder(t, sp, dp), Source(t, sp);
    OperandStrings(t, sp, dp);
    ClearedFolder(t, sp, dp);
    ClearedSource(t, sp, dp);
    SameFolder(t, sp, dp);
    MoveWF(base, AbsPath(sp), AbsPath(FolderParts(t, dp)));
    InitHasFolder(base, s);
  }

  /** mv between folders, for a source that neither is nor holds nor lies inside what it is moved onto:
      the subtree changes place and nothing else changes, under the same condition as for cp. */
  lemma MvBetweenFolders<L>(t: Tree<L>, sp: seq<string>, dp: seq<string>)
    requires Operands(t, sp, dp) && TargetFolder(t, sp, dp) != Init(Source(t, sp))
    requires !(Source(t, sp) <= TargetFolder(t, sp, dp))
    requires OneTarget(t, sp, dp) && SpareSource(t, sp, dp)
    ensures var base, d, s, n := Cleared(t, sp, dp), TargetFolder(t, sp, dp), Source(t, sp), WantedName(t, sp, dp);
      && HasFolder(base, d) && Has(base, s)
      && var landed := LandedKey(t, sp, dp, base);
      && (Mv(t, AbsPath(sp), AbsPath(dp)) == Transfer(base, s, d, FinalKey(landed, n)) <==>
          Fits(Keys(base, d), Last(s), landed, n))
  {
    var base, d, n, s := Cleared(t, sp, dp), TargetFolder(t, sp, dp), WantedName(t, sp, dp), Source(t, sp);
    MvUnfolds(t, sp, dp);
    ClearedFolder(t, sp, dp);
    ClearedSource(t, sp, dp);
    SourceNames(t, sp, dp);
    OperandStrings(t, sp, dp);
    LiftedBase(base, s, d, FolderParts(t, dp));
    LandingLaw(Lifted(base, s), AbsPath(sp), FolderParts(t, dp), d, n, Last(s), Get(base, s));
  }

  lemma LiftedBase<L>(base: Tree<L>, s: Path, d: Path, fp: seq<string>)
    requires WF(base) && Has(base, s) && s != [] && HasFolder(base, d) && !(s <= d) && d != Init(s)
      && Locate(base, fp) == Some(d)
    ensures var t1 := Lifted(base, s);
      && WF(t1) && WF(Get(base, s)) && HasFolder(t1, d) && Keys(t1, d) == Keys(base, d) && Locate(t1, fp) == Some(d)
      && forall n :: Transfer(base, s, d, n) == Insert(t1, d, n, Get(base, s))
  {
    InitHasFolder(base, s);
    RemoveWF(base, Init(s), Last(s));
    RemoveKeepsFolder(base, s, d);
    StillLocated(base, s, fp, d);
    GetWF(base, s);
  }

  /** mv of a folder into its own subtree cuts the folder off: everything in it is lost. */
  lemma MvIntoItself<L>(t: Tree<L>, sp: seq<string>, dp: seq<string>)
    requires Operands(t, sp, dp) && OneTarget(t, sp, dp) && Source(t, sp) <= TargetFolder(t, sp, dp)
    requires AloneAt(t, Source(t, sp))
    ensures Has(Cleared(t, sp, dp), Source(t, sp))
    ensures Mv(t, AbsPath(sp), AbsPath(dp)) == Lifted(Cleared(t, sp, dp), Source(t, sp))
  {
    var base, d, s, q := Cleared(t, sp, dp), TargetFolder(t, sp, dp), Source(t, sp), OldTarget(t, sp, dp);
    ClearedFolder(t, sp, dp);
    assert q.Some? ==> |q.value| == |d| + 1;
    assert SpareSource(t, sp, dp);
    MvUnfolds(t, sp, dp);
    if q.Some? { StillAlone(t, q.value, s); }
    CutOffFolder(base, s, FolderParts(t, dp));
    SourceNames(t, sp, dp);
    FolderPartsGood(t, dp);
    var fp := FolderParts(t, dp);
    PartsOfAbsPath(fp);
    PartsOfChildPath(AbsPath(fp), Last(sp));
    ChildOf(fp, Last(sp));
    ResolveEntry(Lifted(base, s), ChildPath(AbsPath(fp), Last(sp)));
  }

  /** An entry that no sibling equals up to case is still alone when another entry is gone. */
  lemma StillAlone<L>(t: Tree<L>, q: Path, s: Path)
    requires WF(t) && Has(t, q) && q != [] && Has(t, s) && s != [] && !(q <= s) && AloneAt(t, s)
    ensures WF(Lifted(t, q)) && Has(Lifted(t, q), s) && AloneAt(Lifted(t, q), s)
  {
    InitHasFolder(t, q);
    InitHasFolder(t, s);
    RemoveWF(t, Init(q), Last(q));
    InitAndLast(s);
    InitAndLast(q);
    assert !(q <= Init(s));
    RemoveKeepsFolder(t, q, Init(s));
    WithoutMembers(Keys(t, Init(s)), Last(q));
    AtChild(t, Init(s), Last(s));
    AtChild(Lifted(t, q), Init(s), Last(s));
    GetWF(t, Init(s));
    GetWF(Lifted(t, q), Init(s));
    assert Last(s) in Keys(Lifted(t, q), Init(s));
  }

  lemma CutOffFolder<L>(base: Tree<L>, s: Path, fp: seq<string>)
    requires WF(base) && Has(base, s) && s != [] && AloneAt(base, s)
    requires Locate(base, fp).Some? && s <= Locate(base, fp).value
    ensures WF(Lifted(base, s)) && Locate(Lifted(base, s), fp) == None
  {
    InitHasFolder(base, s);
    RemoveWF(base, Init(s), Last(s));
    InitAndLast(s);
    StatRemove(base, Init(s), Last(s), fp);
    StatLocates(base, fp);
    StatLocates(Lifted(base, s), fp);
  }

  /** When mv does its work, the target path shows the moved subtree, object for object; the source path leads nowhere
      exactly when no sibling of the source equalled it up to case, and then every other path shows what it showed
      without the old target; nothing is lost. */
  lemma MvDelivers<L>(t: Tree<L>, sp: seq<string>, dp: seq<string>, rest: seq<string>, parts: seq<string>)
    requires Operands(t, sp, dp) && !(Source(t, sp) <= TargetFolder(t, sp, dp))
    requires OneTarget(t, sp, dp) && SpareSource(t, sp, dp)
    requires var base, d := Cleared(t, sp, dp), TargetFolder(t, sp, dp);
      HasFolder(base, d) &&
      (d == Init(Source(t, sp)) ||
       Fits(Keys(base, d), Last(Source(t, sp)), LandedKey(t, sp, dp, base), WantedName(t, sp, dp)))
    ensures var base, d, n, s := Cleared(t, sp, dp), TargetFolder(t, sp, dp), WantedName(t, sp, dp), Source(t, sp);
      var after := Mv(t, AbsPath(sp), AbsPath(dp));
      var key := if d == Init(s) then n else FinalKey(LandedKey(t, sp, dp, base), n);
      && WF(base) && Has(base, s) && WF(Get(base, s))
      && StatOf(after, FolderParts(t, dp) + [n] + rest) == Below(d + [key], StatOf(Get(base, s), rest))
      && (Locate(after, sp) == None <==> AloneAt(base, s))
      && (AloneAt(base, s) && !BelowNames(base, d, key, parts) ==>
           StatOf(after, parts) ==
             if StatOf(base, parts).Some? && s <= StatOf(base, parts).value.path then None else StatOf(base, parts))
      && Contents(after) == Contents(base)
      && (Unshared(base) ==> Unshared(after) && Objects(after) == Objects(base))
  {
    var base, d, n, s := Cleared(t, sp, dp), TargetFolder(t, sp, dp), WantedName(t, sp, dp), Source(t, sp);
    var key := if d == Init(s) then n else FinalKey(LandedKey(t, sp, dp, base), n);
    MvTransfers(t, sp, dp);
    LiftedKeys(base, s, d, key);
    TransferConserves(base, s, d, key);
    TransferReaches(base, s, d, key, FolderParts(t, dp), n, rest);
    SourceGone(base, sp, s, d, key);
    if AloneAt(base, s) { TransferShows(base, s, d, key, parts); }
  }

  /** These names pass through the folder to an entry of this name. */
  ghost predicate BelowNames<L>(t: Tree<L>, d: Path, name: string, parts: seq<string>)
    requires WF(t)
  {
    Through(t, d, parts) && |parts| > |d| && Lower(parts[|d|]) == Lower(name)
  }

  lemma MvTransfers<L>(t: Tree<L>, sp: seq<string>, dp: seq<string>)
    requires Operands(t, sp, dp) && !(Source(t, sp) <= TargetFolder(t, sp, dp))
    requires OneTarget(t, sp, dp) && SpareSource(t, sp, dp)
    requires var base, d := Cleared(t, sp, dp), TargetFolder(t, sp, dp);
      HasFolder(base, d) &&
      (d == Init(Source(t, sp)) ||
       Fits(Keys(base, d), Last(Source(t, sp)), LandedKey(t, sp, dp, base), WantedName(t, sp, dp)))
    ensures var base, d, n, s := Cleared(t, sp, dp), TargetFolder(t, sp, dp), WantedName(t, sp, dp), Source(t, sp);
      var key := if d == Init(s) then n else FinalKey(LandedKey(t, sp, dp, base), n);
      && Transferable(base, s, d, key) && Mv(t, AbsPath(sp), AbsPath(dp)) == Transfer(base, s, d, key)
      && Locate(base, sp) == Some(s) && Locate(base, FolderParts(t, dp)) == Some(d)
      && Find(Keys(base, d), key) == None && Lower(key) == Lower(n)
  {
    var base, d, n, s := Cleared(t, sp, dp), TargetFolder(t, sp, dp), WantedName(t, sp, dp), Source(t, sp);
    var key := if d == Init(s) then n else FinalKey(LandedKey(t, sp, dp, base), n);
    ClearedFolder(t, sp, dp);
    ClearedSource(t, sp, dp);
    PartsOfAbsPath(sp);
    if d == Init(s) { MvWithinFolder(t, sp, dp); } else { MvBetweenFolders(t, sp, dp); }
    FindUpToCase(Keys(base, d), n, key);
    FindAbsent(base, d, key);
  }

  /** After a move the names that led to the entry lead nowhere exactly when no sibling equalled it up to case. */
  lemma SourceGone<L>(t: Tree<L>, sp: seq<string>, s: Path, d: Path, key: string)
    requires Transferable(t, s, d, key) && sp != [] && Locate(t, sp) == Some(s)
    requires Find(Keys(t, d), key) == None
    ensures WF(Transfer(t, s, d, key))
    ensures Locate(Transfer(t, s, d, key), sp) == None <==> AloneAt(t, s)
  {
    LiftedFacts(t, s, d, key);
    LiftedKeys(t, s, d, key);
    InsertWF(Lifted(t, s), d, key, Get(t, s));
    StatLocates(t, sp);
    StatLocates(Transfer(t, s, d, key), sp);
    if AloneAt(t, s) {
      TransferShows(t, s, d, key, sp);
      if BelowNames(t, d, key, sp) { NothingYet(t, d, key, sp); }
    } else {
      TwinRemains(t, sp, s);
      StatInsert(Lifted(t, s), d, key, Get(t, s), sp);
    }
  }

  lemma TwinRemains<L>(t: Tree<L>, sp: seq<string>, s: Path)
    requires WF(t) && Has(t, s) && s != [] && sp != [] && Locate(t, sp) == Some(s) && !AloneAt(t, s)
    ensures WF(Lifted(t, s)) && StatOf(Lifted(t, s), sp).Some?
  {
    SourceEntry(t, sp, s, "");
    LocatePrefix(t, sp, |sp| - 1);
    InitAndLast(sp);
    StillLocated(t, s, Init(sp), Init(s));
    RemoveKeepsFolder(t, s, Init(s));
    FindWithout(Keys(t, Init(s)), Last(s), Last(sp));
    TargetEntry(Lifted(t, s), Init(sp), Last(sp), Init(s));
    StatLocates(Lifted(t, s), sp);
  }

  lemma LiftedKeys<L>(base: Tree<L>, s: Path, d: Path, key: string)
    requires WF(base) && Has(base, s) && s != [] && HasFolder(base, d) && !(s <= d) && Find(Keys(base, d), key) == None
    ensures HasFolder(Lifted(base, s), d) && Find(Keys(Lifted(base, s), d), key) == None && WF(Get(base, s))
  {
    RemoveKeepsFolder(base, s, d);
    GetWF(base, s);
    var keys := Keys(base, d);
    FindIsKey(keys, key);
    WithoutMembers(keys, Last(s));
    FindIsKey(Without(keys, Last(s)), key);
  }
}
