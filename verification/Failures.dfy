/** Small trees in which a file operation or a shell command falls short of its purpose: the operation succeeds, and the
    condition of its law fails. They are built from four names; "a", "A", "b" and "d" are such names. */
module Failures {
  import opened Text
  import opened Paths
  import opened Options
  import opened Trees
  import opened CopyNames
  import opened VfsSpec
  import opened VfsLaws
  import opened OperationLaws
  import opened ShellSpec
  import opened ShellLaws
  import opened SpelledPaths

  /** A name and a twin that equals it up to case, and two other names. */
  ghost predicate Sample(a: string, twin: string, b: string, d: string)
  {
    && GoodName(a) && GoodName(twin) && GoodName(b) && GoodName(d)
    && a != twin && Lower(a) == Lower(twin) && |a| == |b|
    && Lower(b) != Lower(a) && Lower(d) != Lower(a) && Lower(d) != Lower(b)
  }

  lemma LettersAreSample()
    ensures Sample("a", "A", "b", "d")
  {
  }

  function Leaf(id: int, content: string): Tree<int>
  {
    File(id, "", content)
  }

  /** A folder with one entry. */
  function Lone(id: int, k: string, u: Tree<int>): Tree<int>
  {
    Folder(id, "", [k], map[k := u])
  }

  /** The root with two entries. */
  function Pair(j: string, u: Tree<int>, k: string, v: Tree<int>): Tree<int>
  {
    Folder(0, "", [j, k], map[j := u, k := v])
  }

  /** A folder a that holds a file b. */
  function Nested(a: string, b: string): Tree<int>
  {
    Lone(0, a, Lone(1, b, Leaf(2, "x")))
  }

  /** A file a beside a folder d that holds a file of the twin's name. */
  function Crossed(a: string, twin: string, d: string): Tree<int>
  {
    Pair(a, Leaf(1, "x"), d, Lone(2, twin, Leaf(3, "y")))
  }

  lemma LoneFacts(id: int, k: string, u: Tree<int>, n: string)
    requires WF(u)
    ensures WF(Lone(id, k, u)) && At(Lone(id, k, u), [k]) == Some(u)
    ensures Find(Lone(id, k, u).keys, n) == if Lower(k) == Lower(n) then Some(k) else None
    ensures CaseUnique(u) ==> CaseUnique(Lone(id, k, u))
  {
    assert [k][1..] == [];
  }

  lemma PairFacts(j: string, u: Tree<int>, k: string, v: Tree<int>, n: string)
    requires WF(u) && WF(v) && j != k
    ensures WF(Pair(j, u, k, v)) && At(Pair(j, u, k, v), [j]) == Some(u) && At(Pair(j, u, k, v), [k]) == Some(v)
    ensures Find(Pair(j, u, k, v).keys, n) ==
      if Lower(j) == Lower(n) then Some(j) else if Lower(k) == Lower(n) then Some(k) else None
  {
    var t := Pair(j, u, k, v);
    assert t.keys == [j, k] && t.kids.Keys == {j, k};
    assert [j][1..] == [] && [k][1..] == [];
    PairFind(j, k, n);
  }

  lemma PairFind(j: string, k: string, n: string)
    ensures Find([j, k], n) == if Lower(j) == Lower(n) then Some(j) else if Lower(k) == Lower(n) then Some(k) else None
  {
    FindAppended([], j, n);
    FindAppended([j], k, n);
    assert [] + [j] == [j] && [j] + [k] == [j, k];
  }

  /** What a name leads to from the root. */
  lemma Lead<L>(t: Tree<L>, n: string)
    requires WF(t) && t.Folder? && GoodName(n)
    ensures AbsPath([n]) == ChildPath("/", n) && Parts(AbsPath([n])) == [n] && ResolveFolder(t, AbsPath([])) == Some([])
    ensures Resolve(t, AbsPath([n])) == Locate(t, [n])
    ensures Locate(t, [n]) == match Find(t.keys, n) case None => None case Some(k) => Some([k])
  {
    PartsOfAbsPath([]);
    PartsOfAbsPath([n]);
    TargetEntry(t, [], n, []);
    assert [] + [n] == [n];
    match Find(t.keys, n) case None => case Some(k) => assert [] + [k] == [k];
  }

  /* ---------- the file system ---------- */

  lemma NestedFacts(a: string, b: string)
    ensures WF(Nested(a, b)) && Unshared(Nested(a, b)) && Has(Nested(a, b), [a])
    ensures WF(Get(Nested(a, b), [a])) && Get(Nested(a, b), [a]).Folder?
    ensures Contents(Get(Nested(a, b), [a])) != multiset{}
  {
    var inner := Lone(1, b, Leaf(2, "x"));
    LoneFacts(1, b, Leaf(2, "x"), b);
    LoneFacts(0, a, inner, a);
    assert 0 !in Objects(inner);
    assert ContentsOf(inner, [b]) == multiset{"x"} + ContentsOf(inner, []) by { assert [b][1..] == []; }
    assert "x" in Contents(inner);
  }

  /** Moving a folder into itself loses its content. */
  lemma MovedIntoItself(a: string, b: string)
    requires GoodName(a)
    ensures var t, path := Nested(a, b), AbsPath([a]);
      && WF(t) && MovePath(t, path, path).ok && WF(MovePath(t, path, path).tree)
      && Contents(MovePath(t, path, path).tree) != Contents(t)
  {
    NestedFacts(a, b);
    LoneFacts(0, a, Get(Nested(a, b), [a]), a);
    Lead(Nested(a, b), a);
    MoveConserves(Nested(a, b), AbsPath([a]), AbsPath([a]));
  }

  lemma CrossedFacts(a: string, twin: string, b: string, d: string)
    requires Sample(a, twin, b, d)
    ensures var t := Crossed(a, twin, d);
      && WF(t) && Locate(t, [a]) == Some([a]) && Resolve(t, AbsPath([a])) == Some([a])
      && Has(t, [a]) && Get(t, [a]).File? && HasFolder(t, [d]) && Keys(t, [d]) == [twin]
      && Locate(t, [d]) == Some([d]) && ResolveFolder(t, AbsPath([d])) == Some([d])
    ensures Find([twin], a) == Some(twin) && Find([twin], b) == None
  {
    LoneFacts(2, twin, Leaf(3, "y"), a);
    LoneFacts(2, twin, Leaf(3, "y"), b);
    PairFacts(a, Leaf(1, "x"), d, Lone(2, twin, Leaf(3, "y")), a);
    PairFacts(a, Leaf(1, "x"), d, Lone(2, twin, Leaf(3, "y")), d);
    Lead(Crossed(a, twin, d), a);
    Lead(Crossed(a, twin, d), d);
  }

  /** The name is free beside its twin. */
  lemma KeptName(a: string, twin: string)
    requires a != twin
    ensures FreshName(SetOf([twin]), a, true) == a
  {
    FreshNameIsFree(SetOf([twin]), a, true);
  }

  /** Moved beside a key that equals its name up to case, an entry is not found under its name. */
  lemma MovedButHidden(a: string, twin: string, b: string, d: string)
    requires Sample(a, twin, b, d)
    ensures var t, moved := Crossed(a, twin, d), MovePath(Crossed(a, twin, d), AbsPath([a]), AbsPath([d]));
      && WF(t) && moved.ok && WF(moved.tree)
      && Resolve(moved.tree, ChildPath(AbsPath([d]), a)) != Some([d] + [a])
  {
    CrossedFacts(a, twin, b, d);
    KeptName(a, twin);
    RemoveKeepsFolder(Crossed(a, twin, d), [a], [d]);
    MoveReaches(Crossed(a, twin, d), AbsPath([a]), AbsPath([d]));
  }

  /** Nor is a copy. */
  lemma CopiedButHidden(a: string, twin: string, b: string, d: string, c: Tree<int>)
    requires Sample(a, twin, b, d) && WF(c)
    ensures var t, copied := Crossed(a, twin, d), CopyPath(Crossed(a, twin, d), AbsPath([a]), AbsPath([d]), c);
      && WF(t) && copied.ok && WF(copied.tree)
      && Resolve(copied.tree, ChildPath(AbsPath([d]), a)) != Some([d] + [a])
  {
    CrossedFacts(a, twin, b, d);
    KeptName(a, twin);
    CopyReaches(Crossed(a, twin, d), AbsPath([a]), AbsPath([d]), c, []);
  }

  /** With the twin beside it, a deleted path still leads somewhere. */
  lemma DeletedButFound(a: string, twin: string)
    requires GoodName(a) && a != twin && Lower(a) == Lower(twin)
    ensures var t := Pair(a, Leaf(1, "x"), twin, Leaf(2, "y"));
      && WF(t) && DeletePath(t, AbsPath([a])).ok && WF(DeletePath(t, AbsPath([a])).tree)
      && Resolve(DeletePath(t, AbsPath([a])).tree, AbsPath([a])) != None
  {
    var t := Pair(a, Leaf(1, "x"), twin, Leaf(2, "y"));
    PairFacts(a, Leaf(1, "x"), twin, Leaf(2, "y"), a);
    Lead(t, a);
    assert a in t.keys && twin in t.keys;
    DeleteLaw(t, AbsPath([a]), []);
  }

  /** Content written over a folder by another spelling of its name is not read back. */
  lemma WrittenButNotRead(a: string, twin: string, b: string, content: string)
    requires GoodName(a) && GoodName(twin) && a != twin && Lower(a) == Lower(twin)
    ensures var t, written := Nested(a, b), WriteFile(Nested(a, b), AbsPath([twin]), content, 9);
      && WF(t) && written.ok && WF(written.tree) && ReadFile(written.tree, AbsPath([twin])) != Some(content)
  {
    NestedFacts(a, b);
    LoneFacts(0, a, Get(Nested(a, b), [a]), twin);
    Lead(Nested(a, b), twin);
    ResolveEntry(Nested(a, b), AbsPath([twin]));
    WriteOverFolder(Nested(a, b), AbsPath([twin]), content, 9);
  }

  /* ---------- cp and mv ---------- */

  /** A second operand that leads to no folder but whose parent does. */
  lemma IntoParent<L>(t: Tree<L>, sp: seq<string>, dp: seq<string>, d: Path)
    requires WF(t) && t.Folder? && GoodNames(sp) && GoodNames(dp) && sp != [] && dp != [] && Locate(t, sp).Some?
    requires ResolveFolder(t, AbsPath(dp)) == None && ResolveFolder(t, AbsPath(Init(dp))) == Some(d)
    ensures Operands(t, sp, dp) && Source(t, sp) == Locate(t, sp).value && TargetFolder(t, sp, dp) == d
    ensures WantedName(t, sp, dp) == Last(dp) && FolderParts(t, dp) == Init(dp)
    ensures OldTarget(t, sp, dp) == Locate(t, dp)
    ensures OneTarget(t, sp, dp) <==> Single(Keys(t, d), Last(dp))
  {
    InitAndLast(dp);
  }

  lemma OneFileOperands(a: string, n: string)
    requires GoodName(a) && GoodName(n)
    ensures var t := Lone(0, a, Leaf(1, "x"));
      && WF(t) && Operands(t, [a], [n]) && OneTarget(t, [a], [n]) && Source(t, [a]) == [a]
      && TargetFolder(t, [a], [n]) == [] && WantedName(t, [a], [n]) == n && FolderParts(t, [n]) == []
      && OldTarget(t, [a], [n]) == (if Lower(a) == Lower(n) then Some([a]) else None)
      && Has(t, [a]) && AloneAt(t, [a])
  {
    var t := Lone(0, a, Leaf(1, "x"));
    LoneFacts(0, a, Leaf(1, "x"), a);
    LoneFacts(0, a, Leaf(1, "x"), n);
    Lead(t, a);
    Lead(t, n);
    assert Init([n]) == [];
    IntoParent(t, [a], [n], []);
    AloneIfUnique(t, [a]);
  }

  /** `cp /a /b` with a file a: the original is at b, and a leads nowhere. */
  lemma CopiedButGone(a: string, twin: string, b: string, d: string, c: Tree<int>)
    requires Sample(a, twin, b, d) && WF(c) && c.File?
    ensures var t, after := Lone(0, a, Leaf(1, "x")), Cp(Lone(0, a, Leaf(1, "x")), AbsPath([a]), AbsPath([b]), c);
      && WF(t) && Locate(after, [a]) == None && StatOf(after, [b]) == Some(Stat([b], 1, Some("x")))
  {
    var t := Lone(0, a, Leaf(1, "x"));
    OneFileOperands(a, b);
    LoneFacts(0, a, Leaf(1, "x"), a);
    FreshNameDiffers(SetOf([a]), a, true);
    CpWithinFolderMoves(t, [a], [b], c, []);
    assert [] + [b] + [] == [b] && [b] + [] == [b];
  }

  /** `cp /a /A` and `mv /a /A` with a file a: the file is gone. */
  lemma OverwrittenAndLost(a: string, twin: string, c: Tree<int>)
    requires GoodName(a) && GoodName(twin) && Lower(a) == Lower(twin) && WF(c)
    ensures var t := Lone(0, a, Leaf(1, "x"));
      && WF(t) && !Has(Cp(t, AbsPath([a]), AbsPath([twin]), c), [a]) && !Has(Mv(t, AbsPath([a]), AbsPath([twin])), [a])
  {
    var t := Lone(0, a, Leaf(1, "x"));
    OneFileOperands(a, twin);
    OverwritingTheSource(t, [a], [twin], c);
    RemovedIsGone(t, [a]);
  }

  lemma RemovedIsGone<L>(t: Tree<L>, p: Path)
    requires WF(t) && Has(t, p) && p != []
    ensures !Has(Lifted(t, p), p)
  {
    InitHasFolder(t, p);
    InitAndLast(p);
    GraftGraft(t, Init(p), Drop(Get(t, Init(p)), Last(p)), Get(t, Init(p)));
    AtChild(Lifted(t, p), Init(p), Last(p));
  }

  lemma CrossedOperands(a: string, twin: string, b: string, d: string)
    requires Sample(a, twin, b, d)
    ensures var t := Crossed(a, twin, d);
      && WF(t) && Operands(t, [a], [d, b]) && OneTarget(t, [a], [d, b]) && SpareSource(t, [a], [d, b])
      && Source(t, [a]) == [a] && TargetFolder(t, [a], [d, b]) == [d] && WantedName(t, [a], [d, b]) == b
      && Cleared(t, [a], [d, b]) == t
  {
    var t := Crossed(a, twin, d);
    CrossedFacts(a, twin, b, d);
    assert [d] + [b] == [d, b] && Init([d, b]) == [d];
    TargetEntry(t, [d], b, [d]);
    PartsOfAbsPath([d, b]);
    IntoParent(t, [a], [d, b], [d]);
  }

  /** `mv /a /d/b` with a file A in d: what arrives does not become b. */
  lemma MovedToWrongName(a: string, twin: string, b: string, d: string)
    requires Sample(a, twin, b, d)
    ensures var t := Crossed(a, twin, d);
      && WF(t) && Has(t, [a]) && HasFolder(t, [d])
      && Mv(t, AbsPath([a]), AbsPath([d, b])) != Transfer(t, [a], [d], b)
  {
    CrossedFacts(a, twin, b, d);
    CrossedOperands(a, twin, b, d);
    KeptName(a, twin);
    MvBetweenFolders(Crossed(a, twin, d), [a], [d, b]);
  }
  lemma DotRoot()
    ensures Split("/.", '/') == [""] + ["."] && Parts("/.") == []
  {
    assert "" + "/" + "." == "/.";
    PartsOfRoot();
    PartsStep("", ".");
    SplitConcat("", ".", '/');
    SplitSegment(".", '/');
    SplitSegment("", '/');
  }

  lemma DottedPath(root: string, a: string)
    requires GoodName(a) && Split(root, '/') == [""] + ["."] && Parts(root) == []
    ensures var x := root + "/" + a;
      Parts(x) == [a] && LastSegment(x) == a && SplitPath(x).0 == "/."
  {
    PartsStep(root, a);
    assert [] + [a] == [a];
    SplitConcat(root, a, '/');
    SplitSegment(a, '/');
    PiecesOf(a);
  }

  lemma PiecesOf(a: string)
    requires GoodName(a)
    ensures NonEmpty([""] + ["."] + [a]) == ["."] + [a] && Init(["."] + [a]) == ["."] && AbsPath(["."]) == "/."
  {
    assert ([""] + ["."] + [a])[1..] == ["."] + [a];
    assert (["."] + [a])[1..] == [a] && [a][1..] == [];
    assert NonEmpty([a]) == [a];
  }

  /** `mv /./a /b` with a file a: nothing is at b afterwards, nor at a; the file has a longer name. */
  lemma MovedToFallback(a: string, twin: string, b: string, d: string)
    requires Sample(a, twin, b, d)
    ensures var t, after := Lone(0, a, Leaf(1, "x")), Mv(Lone(0, a, Leaf(1, "x")), "/." + "/" + a, AbsPath([b]));
      exists landed: string :: |landed| > |a| && after == Transfer(t, [a], [], landed)
  {
    var t, x, y := Lone(0, a, Leaf(1, "x")), "/." + "/" + a, AbsPath([b]);
    OneFileOperands(a, b);
    DotRoot();
    DottedPath("/.", a);
    PartsOfAbsPath([b]);
    SplitPathOfAbsPath([b]);
    assert Init([b]) == [] && AbsPath([]) == "/";
    ToTheRoot(t, x, y, b);
    MvSpelledApart(t, x, y);
  }

  lemma ToTheRoot(t: Tree<int>, x: string, y: string, b: string)
    requires WF(t) && GoodName(b) && ResolveFolder(t, y) == None && SplitPath(y) == ("/", b) && LastSegment(y) == b
    requires SplitPath(x).0 == "/."
    ensures Names(t, y) && !LooksInPlace(t, x, y)
  {
    assert |Lower("/.")| == 2 && |Lower("/")| == 1;
  }
}
