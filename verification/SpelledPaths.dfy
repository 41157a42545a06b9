/** cp and mv with operands spelled in any way, such as `./a` or `a/../b`. They mean what the names mean that they lead
    through, with one exception: mv compares path strings to find out whether the source is in the target folder. */
module SpelledPaths {
  import opened Text
  import opened Paths
  import opened Options
  import opened Trees
  import opened CopyNames
  import opened VfsSpec
  import opened VfsLaws
  import opened OperationLaws
  import opened ShellSpec
  import opened ShellLaws

  /* ---------- path strings as they are spelled ---------- */

  lemma {:induction false} NonEmptyConcat(a: seq<string>, b: seq<string>)
    ensures NonEmpty(a + b) == NonEmpty(a) + NonEmpty(b)
  {
    if a == [] {
      assert a + b == b;
    } else {
      assert (a + b)[1..] == a[1..] + b;
      NonEmptyConcat(a[1..], b);
    }
  }

  lemma {:induction false} NonEmptyKeeps(parts: seq<string>)
    ensures DropVoid(NonEmpty(parts)) == DropVoid(parts)
    ensures forall n <- NonEmpty(parts) :: n != "" && n in parts
  {
    if parts != [] {
      NonEmptyKeeps(parts[1..]);
      var rest := NonEmpty(parts[1..]);
      if parts[0] != "" {
        assert ([parts[0]] + rest)[1..] == rest;
      } else {
        assert NonEmpty(parts) == rest;
      }
    }
  }

  /** Joining the pieces of a path string again does not change what it means. */
  lemma RejoinedParts(path: string)
    ensures Parts(AbsPath(NonEmpty(Split(path, '/')))) == Parts(path)
  {
    var names := NonEmpty(Split(path, '/'));
    NonEmptyKeeps(Split(path, '/'));
    SplitPartsLackSeparator(path, '/');
    SegmentsOfJoined(names);
  }

  lemma SegmentsOfJoined(names: seq<string>)
    requires forall n <- names :: '/' !in n
    ensures Segments(AbsPath(names)) == DropVoid(names)
  {
    if names == [] {
      PartsOfRoot();
      assert AbsPath(names) == "/";
    } else {
      SplitJoin(names, '/');
      SplitConcat("", Join(names, '/'), '/');
      assert "" + "/" + Join(names, '/') == AbsPath(names);
      assert Split("", '/') == [""];
      assert ([""] + names)[1..] == names;
    }
  }

  /** The last piece of a path string is its last name, and what stands before it leads through the names before. */
  lemma LastPiece(path: string)
    requires GoodName(LastSegment(path))
    ensures Parts(path) != [] && Last(Parts(path)) == LastSegment(path)
    ensures SplitPath(path).1 == LastSegment(path) && Parts(SplitPath(path).0) == Init(Parts(path))
  {
    if '/' in path {
      var a, b := LastSlash(path);
      SplitConcat(a, b, '/');
      assert path == a + ['/'] + b;
      SplitSegment(b, '/');
      LastPieceOf(path, a, b);
    } else {
      SplitSegment(path, '/');
      PartsStep("", path);
      assert NonEmpty([path]) == [path] by { assert [path][1..] == []; }
      ChildOf([], path);
      assert [] + [path] == [path];
      PartsOfRoot();
      assert AbsPath([]) == "/";
    }
  }

  lemma LastPieceOf(path: string, a: string, b: string)
    requires path == a + "/" + b && Split(path, '/') == Split(a, '/') + [b] && '/' !in b && GoodName(b)
    ensures LastSegment(path) == b
    ensures Parts(path) != [] && Last(Parts(path)) == b
    ensures SplitPath(path).1 == b && Parts(SplitPath(path).0) == Init(Parts(path))
  {
    PartsStep(a, b);
    ChildOf(Parts(a), b);
    NonEmptyConcat(Split(a, '/'), [b]);
    assert NonEmpty([b]) == [b] by { assert [b][1..] == []; }
    ChildOf(NonEmpty(Split(a, '/')), b);
    RejoinedParts(a);
  }

  /* ---------- operations depend on what paths mean ---------- */

  lemma SameResolution<L>(t: Tree<L>, x: string, x': string)
    requires WF(t) && Parts(x) == Parts(x')
    ensures Resolve(t, x) == Resolve(t, x') && ResolveFolder(t, x) == ResolveFolder(t, x')
  {
    assert Resolve(t, x) == Resolve(t, x');
  }

  lemma SameDeletion<L>(t: Tree<L>, x: string, x': string)
    requires WF(t) && Parts(x) == Parts(x')
    ensures DeletePath(t, x) == DeletePath(t, x')
  {
    SameResolution(t, x, x');
  }

  lemma SameRename<L>(t: Tree<L>, x: string, x': string, n: string)
    requires WF(t) && Parts(x) == Parts(x')
    ensures RenamePath(t, x, n) == RenamePath(t, x', n)
  {
    SameResolution(t, x, x');
  }

  lemma SameCopy<L>(t: Tree<L>, x: string, x': string, d: string, d': string, c: Tree<L>)
    requires WF(t) && Parts(x) == Parts(x') && Parts(d) == Parts(d')
    ensures CopyPath(t, x, d, c) == CopyPath(t, x', d', c)
  {
    SameResolution(t, x, x');
    SameResolution(t, d, d');
  }

  lemma SameMove<L>(t: Tree<L>, x: string, x': string, d: string, d': string)
    requires WF(t) && Parts(x) == Parts(x') && Parts(d) == Parts(d')
    ensures MovePath(t, x, d) == MovePath(t, x', d')
  {
    SameResolution(t, x, x');
    SameResolution(t, d, d');
  }

  lemma SameClearing<L>(t: Tree<L>, d: string, d': string, n: string)
    requires WF(t) && Parts(d) == Parts(d') && GoodName(n)
    ensures ClearTarget(t, ChildPath(d, n)) == ClearTarget(t, ChildPath(d', n))
  {
    PartsOfChildPath(d, n);
    PartsOfChildPath(d', n);
    SameResolution(t, ChildPath(d, n), ChildPath(d', n));
    SameDeletion(t, ChildPath(d, n), ChildPath(d', n));
  }

  lemma SameRenaming<L>(t: Tree<L>, x: string, x': string, d: string, d': string, n: string)
    requires WF(t) && Parts(d) == Parts(d') && LastSegment(x) == LastSegment(x') && GoodName(LastSegment(x))
    ensures RenameLanded(t, x, d, n) == RenameLanded(t, x', d', n)
  {
    var own := LastSegment(x);
    PrefixCase(d, own, n);
    PrefixCase(d', own, n);
    PartsOfChildPath(d, own);
    PartsOfChildPath(d', own);
    SameRename(t, ChildPath(d, own), ChildPath(d', own), n);
  }

  /** The second operand leads to a folder, or ends in a name. */
  ghost predicate Names<L>(t: Tree<L>, y: string)
    requires WF(t)
  {
    ResolveFolder(t, y).Some? || GoodName(LastSegment(y))
  }

  lemma SameDestination<L>(t: Tree<L>, x: string, y: string)
    requires WF(t) && t.Folder? && GoodName(LastSegment(x)) && Names(t, y)
    ensures GoodNames(Parts(x)) && GoodNames(Parts(y))
    ensures LastSegment(AbsPath(Parts(x))) == LastSegment(x)
    ensures var (d, n) := Destination(t, x, y);
      var (d', n') := Destination(t, AbsPath(Parts(x)), AbsPath(Parts(y)));
      n == n' && GoodName(n) && Parts(d) == Parts(d')
  {
    var sp, dp := Parts(x), Parts(y);
    PartsAreGood(x);
    PartsAreGood(y);
    PartsOfAbsPath(sp);
    PartsOfAbsPath(dp);
    LastPiece(x);
    SplitPathOfAbsPath(sp);
    SameResolution(t, y, AbsPath(dp));
    if ResolveFolder(t, y) == None {
      LastPiece(y);
      SplitPathOfAbsPath(dp);
      forall n | n in Init(dp) ensures n in dp {}
      PartsOfAbsPath(Init(dp));
    }
  }

  /* ---------- cp ---------- */

  lemma SameCopying<L>(base: Tree<L>, x: string, x': string, d: string, d': string, n: string, c: Tree<L>)
    requires WF(base) && WF(c) && Parts(x) == Parts(x') && Parts(d) == Parts(d')
    requires LastSegment(x) == LastSegment(x') && GoodName(LastSegment(x))
    ensures CpCleared(base, x, d, n, c) == CpCleared(base, x', d', n, c)
  {
    SameCopy(base, x, x', d, d', c);
    CopyWF(base, x, d, c);
    if CopyPath(base, x, d, c).ok { SameRenaming(CopyPath(base, x, d, c).tree, x, x', d, d', n); }
  }

  /** cp does with operands spelled in any way what it does with the names they lead through, if the first ends in a
      name and the second does or leads to a folder. */
  lemma CpSpelled<L>(t: Tree<L>, x: string, y: string, c: Tree<L>)
    requires WF(t) && t.Folder? && WF(c) && GoodName(LastSegment(x)) && Names(t, y)
    ensures Cp(t, x, y, c) == Cp(t, AbsPath(Parts(x)), AbsPath(Parts(y)), c)
  {
    var x', y' := AbsPath(Parts(x)), AbsPath(Parts(y));
    SameDestination(t, x, y);
    PartsOfAbsPath(Parts(x));
    var (d, n) := Destination(t, x, y);
    var (d', n') := Destination(t, x', y');
    SameResolution(t, x, x');
    SameResolution(t, d, d');
    SameClearing(t, d, d', n);
    SameCopying(ClearTarget(t, ChildPath(d, n)), x, x', d, d', n, c);
  }

  /* ---------- mv ---------- */

  /** The two path strings by which mv tells whether the source is in the target folder. */
  ghost predicate LooksInPlace<L>(t: Tree<L>, x: string, y: string)
    requires WF(t)
  {
    Lower(SplitPath(x).0) == Lower(Destination(t, x, y).0)
  }

  lemma MvUnfolded<L>(t: Tree<L>, x: string, y: string)
    requires WF(t) && Resolve(t, x).Some? && Resolve(t, Destination(t, x, y).0).Some?
    ensures var (d, n) := Destination(t, x, y);
      Mv(t, x, y) == MvCleared(ClearTarget(t, ChildPath(d, n)), x, d, n)
  {
  }

  /** mv does with operands spelled in any way what it does with the names they lead through, if the strings of the two
      folders tell the truth. */
  lemma MvSpelled<L>(t: Tree<L>, x: string, y: string)
    requires WF(t) && t.Folder? && GoodName(LastSegment(x)) && Names(t, y)
    requires LooksInPlace(t, x, y) <==> LooksInPlace(t, AbsPath(Parts(x)), AbsPath(Parts(y)))
    ensures Mv(t, x, y) == Mv(t, AbsPath(Parts(x)), AbsPath(Parts(y)))
  {
    var x', y' := AbsPath(Parts(x)), AbsPath(Parts(y));
    SameDestination(t, x, y);
    PartsOfAbsPath(Parts(x));
    var (d, n) := Destination(t, x, y);
    var (d', n') := Destination(t, x', y');
    SameResolution(t, x, x');
    SameResolution(t, d, d');
    SameClearing(t, d, d', n);
    SameMoving(ClearTarget(t, ChildPath(d, n)), x, x', d, d', n);
  }

  lemma SameMoving<L>(base: Tree<L>, x: string, x': string, d: string, d': string, n: string)
    requires WF(base) && Parts(x) == Parts(x') && Parts(d) == Parts(d')
    requires LastSegment(x) == LastSegment(x') && GoodName(LastSegment(x))
    requires Lower(SplitPath(x).0) == Lower(d) <==> Lower(SplitPath(x').0) == Lower(d')
    ensures MvCleared(base, x, d, n) == MvCleared(base, x', d', n)
  {
    SameRename(base, x, x', n);
    SameMove(base, x, x', d, d');
    MoveWF(base, x, d);
    if MovePath(base, x, d).ok { SameRenaming(MovePath(base, x, d).tree, x, x', d, d', n); }
  }

  /** With operands that the names they lead through put in one folder, but whose strings do not show it, mv moves the
      source within its folder: it ends up under its fallback name, whatever name is wanted. */
  lemma MvSpelledApart<L>(t: Tree<L>, x: string, y: string)
    requires WF(t) && t.Folder? && GoodName(LastSegment(x)) && Names(t, y) && !LooksInPlace(t, x, y)
    requires Operands(t, Parts(x), Parts(y)) && OneTarget(t, Parts(x), Parts(y)) && SpareSource(t, Parts(x), Parts(y))
    requires TargetFolder(t, Parts(x), Parts(y)) == Init(Source(t, Parts(x)))
    requires AloneAt(t, Source(t, Parts(x)))
    ensures var sp, dp := Parts(x), Parts(y);
      var base, s, d := Cleared(t, sp, dp), Source(t, sp), TargetFolder(t, sp, dp);
      && HasFolder(base, d) && Has(base, s)
      && var landed := LandedKey(t, sp, dp, base);
      && |landed| > |Last(s)| && Mv(t, x, y) == Transfer(base, s, d, landed)
  {
    var (dx, n) := Destination(t, x, y);
    SpelledOperands(t, x, y);
    SpelledInBase(t, x, y, dx);
    MvUnfolded(t, x, y);
    MovedBeside(Cleared(t, Parts(x), Parts(y)), x, dx, n, Source(t, Parts(x)));
  }

  /** What the operands mean in the tree. */
  lemma SpelledOperands<L>(t: Tree<L>, x: string, y: string)
    requires WF(t) && t.Folder? && GoodName(LastSegment(x)) && Names(t, y) && Operands(t, Parts(x), Parts(y))
    ensures var (dx, n) := Destination(t, x, y);
      && n == WantedName(t, Parts(x), Parts(y)) && Parts(dx) == FolderParts(t, Parts(y))
      && Resolve(t, x) == Some(Source(t, Parts(x))) && Resolve(t, dx).Some?
      && ClearTarget(t, ChildPath(dx, n)) == Cleared(t, Parts(x), Parts(y))
  {
    var sp, dp := Parts(x), Parts(y);
    var fp := FolderParts(t, dp);
    var (dx, n) := Destination(t, x, y);
    SameDestination(t, x, y);
    OperandStrings(t, sp, dp);
    PartsOfAbsPath(sp);
    PartsOfAbsPath(fp);
    SameResolution(t, x, AbsPath(sp));
    SameResolution(t, dx, AbsPath(fp));
    SameClearing(t, dx, AbsPath(fp), n);
  }

  /** And in the tree without the old target. */
  lemma SpelledInBase<L>(t: Tree<L>, x: string, y: string, dx: string)
    requires WF(t) && t.Folder? && GoodName(LastSegment(x)) && Operands(t, Parts(x), Parts(y))
    requires OneTarget(t, Parts(x), Parts(y)) && SpareSource(t, Parts(x), Parts(y))
    requires TargetFolder(t, Parts(x), Parts(y)) == Init(Source(t, Parts(x))) && AloneAt(t, Source(t, Parts(x)))
    requires Parts(dx) == FolderParts(t, Parts(y))
    ensures var base, s, d := Cleared(t, Parts(x), Parts(y)), Source(t, Parts(x)), Init(Source(t, Parts(x)));
      && WF(base) && Has(base, s) && HasFolder(base, d) && AloneAt(base, s)
      && Resolve(base, x) == Some(s) && ResolveFolder(base, dx) == Some(d)
      && Lower(LastSegment(x)) == Lower(Last(s)) && (Get(base, s).File? <==> Get(t, s).File?)
  {
    var sp, dp := Parts(x), Parts(y);
    SourceBeside(t, sp, dp);
    StaysAlone(t, sp, dp);
    LastPiece(x);
  }

  lemma StaysAlone<L>(t: Tree<L>, sp: seq<string>, dp: seq<string>)
    requires Operands(t, sp, dp) && OneTarget(t, sp, dp) && SpareSource(t, sp, dp) && AloneAt(t, Source(t, sp))
    requires WF(Cleared(t, sp, dp)) && Has(Cleared(t, sp, dp), Source(t, sp))
    ensures AloneAt(Cleared(t, sp, dp), Source(t, sp))
    ensures Get(Cleared(t, sp, dp), Source(t, sp)).File? <==> Get(t, Source(t, sp)).File?
  {
    ClearedSource(t, sp, dp);
    if OldTarget(t, sp, dp).Some? { StillAlone(t, OldTarget(t, sp, dp).value, Source(t, sp)); }
  }

  /** Moving an entry within its folder: its own name is taken, by itself. */
  lemma MovedBeside<L>(base: Tree<L>, x: string, dx: string, n: string, s: Path)
    requires WF(base) && Has(base, s) && s != [] && AloneAt(base, s) && HasFolder(base, Init(s))
    requires Resolve(base, x) == Some(s) && ResolveFolder(base, dx) == Some(Init(s))
    requires Lower(SplitPath(x).0) != Lower(dx)
    requires GoodName(LastSegment(x)) && Lower(LastSegment(x)) == Lower(Last(s))
    ensures var landed := MovedName(base, s, Init(s));
      |landed| > |Last(s)| && MvCleared(base, x, dx, n) == Transfer(base, s, Init(s), landed)
  {
    var d, own := Init(s), LastSegment(x);
    var landed := MovedName(base, s, d);
    InitHasFolder(base, s);
    GetWF(base, d);
    FreshNameIsFree(SetOf(Keys(base, d)), Last(s), Get(base, s).File?);
    FreshNameDiffers(SetOf(Keys(base, d)), Last(s), Get(base, s).File?);
    MoveIsTransfer(base, x, dx);
    NotUnderOwnName(base, dx, s, landed, own);
    PrefixCase(dx, own, n);
  }

  lemma NotUnderOwnName<L>(base: Tree<L>, dx: string, s: Path, landed: string, own: string)
    requires WF(base) && Has(base, s) && s != [] && AloneAt(base, s) && HasFolder(base, Init(s))
    requires ResolveFolder(base, dx) == Some(Init(s)) && GoodName(own) && Lower(own) == Lower(Last(s))
    requires landed !in Keys(base, Init(s)) && Lower(landed) != Lower(own)
    ensures WF(Transfer(base, s, Init(s), landed))
    ensures Resolve(Transfer(base, s, Init(s), landed), ChildPath(dx, own)) == None
  {
    var d := Init(s);
    LiftedFacts(base, s, d, landed);
    var t1 := Lifted(base, s);
    RemoveKeepsFolder(base, s, d);
    FindMember(Keys(base, d), Last(s), own);
    FindWithout(Keys(base, d), Last(s), own);
    FindAppended(Keys(t1, d), landed, own);
    StillLocated(base, s, Parts(dx), d);
    InsertedFolder(t1, d, landed, Get(base, s), Parts(dx));
    PartsOfChildPath(dx, own);
    TargetEntry(Transfer(base, s, d, landed), Parts(dx), own, d);
  }
  /* ---------- when the strings tell the truth ---------- */

  lemma DotsUpToCase(a: string, b: string)
    requires Lower(a) == Lower(b)
    ensures (a == "" <==> b == "") && (a == "." <==> b == ".") && (a == ".." <==> b == "..")
  {
    assert |a| == |Lower(a)| == |b|;
    forall i | 0 <= i < |a| ensures a[i] == '.' <==> b[i] == '.' {
      assert Lower(a)[i] == LowerChar(a[i]) && Lower(b)[i] == LowerChar(b[i]);
      FoldedDots(a[i]);
      FoldedDots(b[i]);
    }
  }

  lemma {:induction false} DropVoidUpToCase(a: seq<string>, b: seq<string>)
    requires SameUpToCase(a, b)
    ensures SameUpToCase(DropVoid(a), DropVoid(b))
  {
    if a != [] {
      DotsUpToCase(a[0], b[0]);
      DropVoidUpToCase(a[1..], b[1..]);
    }
  }

  lemma {:induction false} NormalizeUpToCase(s: seq<string>, r: seq<string>, a: seq<string>, b: seq<string>)
    requires SameUpToCase(s, r) && SameUpToCase(a, b)
    ensures SameUpToCase(Normalize(s, a), Normalize(r, b))
    decreases |a|
  {
    if a != [] {
      DotsUpToCase(a[0], b[0]);
      NormalizeUpToCase(Push(s, a[0]), Push(r, b[0]), a[1..], b[1..]);
    }
  }

  /** Path strings that are equal up to case lead through names that are. */
  lemma PartsUpToCase(a: string, b: string)
    requires Lower(a) == Lower(b)
    ensures SameUpToCase(Parts(a), Parts(b))
  {
    LowerSplit(a);
    LowerSplit(b);
    LowerAllAt(Split(a, '/'));
    LowerAllAt(Split(b, '/'));
    assert SameUpToCase(Split(a, '/'), Split(b, '/')) by {
      forall i | 0 <= i < |Split(a, '/')| ensures Lower(Split(a, '/')[i]) == Lower(Split(b, '/')[i]) {
        assert LowerAll(Split(a, '/'))[i] == LowerAll(Split(b, '/'))[i];
      }
    }
    DropVoidUpToCase(Split(a, '/'), Split(b, '/'));
    NormalizeUpToCase([], [], Segments(a), Segments(b));
  }

  /** If the strings are equal up to case, the source is in the target folder. */
  lemma LooksTell<L>(t: Tree<L>, x: string, y: string)
    requires WF(t) && t.Folder? && GoodName(LastSegment(x)) && Names(t, y) && Operands(t, Parts(x), Parts(y))
    ensures LooksInPlace(t, x, y) ==> TargetFolder(t, Parts(x), Parts(y)) == Init(Source(t, Parts(x)))
  {
    if LooksInPlace(t, x, y) {
      var sp, dx := Parts(x), Destination(t, x, y).0;
      SpelledOperands(t, x, y);
      LastPiece(x);
      PartsUpToCase(SplitPath(x).0, dx);
      LocatePrefix(t, sp, |sp| - 1);
      LocateIsPath(t, Init(sp));
      LocateIsPath(t, Parts(dx));
      LocateUpToCase(t, Init(sp), Parts(dx));
    }
  }

  lemma TransferTells<L>(t: Tree<L>, s: Path, fp: seq<string>, j: string, k: string)
    requires WF(t) && Has(t, s) && s != [] && HasFolder(t, Init(s)) && Locate(t, fp) == Some(Init(s)) && j != k
    requires j !in Keys(t, Init(s)) && k !in Keys(t, Init(s))
    ensures Transfer(t, s, Init(s), j) != Transfer(t, s, Init(s), k)
  {
    var d := Init(s);
    LiftedFacts(t, s, d, j);
    LiftedFacts(t, s, d, k);
    StillLocated(t, s, fp, d);
    InsertedFolder(Lifted(t, s), d, j, Get(t, s), fp);
    InsertedFolder(Lifted(t, s), d, k, Get(t, s), fp);
    var keys := Keys(Lifted(t, s), d);
    assert (keys + [j])[|keys|] == j && (keys + [k])[|keys|] == k;
  }

  /** mv does with operands spelled in any way what it does with the names they lead through exactly if the source comes
      from another folder, or the strings show that it does not, or the name it falls back to is the wanted one. */
  lemma MvSpelledLaw<L>(t: Tree<L>, x: string, y: string)
    requires WF(t) && t.Folder? && GoodName(LastSegment(x)) && Names(t, y)
    requires Operands(t, Parts(x), Parts(y)) && OneTarget(t, Parts(x), Parts(y)) && SpareSource(t, Parts(x), Parts(y))
    requires AloneAt(t, Source(t, Parts(x)))
    ensures var sp, dp := Parts(x), Parts(y);
      var base, s, d := Cleared(t, sp, dp), Source(t, sp), TargetFolder(t, sp, dp);
      && HasFolder(base, d)
      && (Mv(t, x, y) == Mv(t, AbsPath(sp), AbsPath(dp)) <==>
            d != Init(s) || LooksInPlace(t, x, y) || LandedKey(t, sp, dp, base) == WantedName(t, sp, dp))
  {
    var sp, dp := Parts(x), Parts(y);
    SameFolder(t, sp, dp);
    OperandStrings(t, sp, dp);
    LooksTell(t, x, y);
    ClearedFolder(t, sp, dp);
    if TargetFolder(t, sp, dp) == Init(Source(t, sp)) && !LooksInPlace(t, x, y) {
      MvSpelledApart(t, x, y);
      MvWithinFolder(t, sp, dp);
      ApartTells(t, sp, dp);
    } else {
      MvSpelled(t, x, y);
    }
  }

  lemma ApartTells<L>(t: Tree<L>, sp: seq<string>, dp: seq<string>)
    requires Operands(t, sp, dp) && OneTarget(t, sp, dp) && SpareSource(t, sp, dp)
    requires TargetFolder(t, sp, dp) == Init(Source(t, sp))
    ensures var base, s, d := Cleared(t, sp, dp), Source(t, sp), Init(Source(t, sp));
      && HasFolder(base, d) && Has(base, s)
      && var landed, n := LandedKey(t, sp, dp, base), WantedName(t, sp, dp);
      && (Transfer(base, s, d, landed) == Transfer(base, s, d, n) <==> landed == n)
  {
    var base, s, n := Cleared(t, sp, dp), Source(t, sp), WantedName(t, sp, dp);
    SourceBeside(t, sp, dp);
    ClearedFolder(t, sp, dp);
    NamesTell(base, s, FolderParts(t, dp), Get(t, s).File?, n);
  }

  lemma NamesTell<L>(base: Tree<L>, s: Path, fp: seq<string>, isFile: bool, n: string)
    requires WF(base) && Has(base, s) && s != [] && HasFolder(base, Init(s)) && Locate(base, fp) == Some(Init(s))
    requires Find(Keys(base, Init(s)), n) == None
    ensures var landed := FreshName(SetOf(Keys(base, Init(s))), Last(s), isFile);
      Transfer(base, s, Init(s), landed) == Transfer(base, s, Init(s), n) <==> landed == n
  {
    var keys := Keys(base, Init(s));
    FreshNameIsFree(SetOf(keys), Last(s), isFile);
    FindIsKey(keys, n);
    if FreshName(SetOf(keys), Last(s), isFile) != n {
      TransferTells(base, s, fp, FreshName(SetOf(keys), Last(s), isFile), n);
    }
  }
}
