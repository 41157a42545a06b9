/** When the operations of the virtual file system succeed, and what creating and copying leave behind. */
module OutcomeLaws {
  import opened Text
  import opened Paths
  import opened Options
  import opened Trees
  import opened VfsSpec
  import opened VfsLaws
  import opened OperationLaws

  /* ---------- success ---------- */

  /** No entry of the folder bears the name up to case. */
  ghost predicate NameIsFree<L>(t: Tree<L>, d: Path, name: string)
    requires HasFolder(t, d)
  {
    forall k :: k in Keys(t, d) ==> Lower(k) != Lower(name)
  }

  /** Creating succeeds exactly when the parent path leads to a folder in which no entry bears the name up to case. */
  lemma CreationSucceeds<L>(t: Tree<L>, parentPath: string, name: string, content: string, id: L)
    requires WF(t)
    ensures var d := ResolveFolder(t, parentPath);
      && (Mkdir(t, parentPath, name, id).ok <==> d.Some? && NameIsFree(t, d.value, name))
      && (CreateFile(t, parentPath, name, content, id).ok <==> d.Some? && NameIsFree(t, d.value, name))
    ensures !Mkdir(t, parentPath, name, id).ok ==> Mkdir(t, parentPath, name, id).tree == t
    ensures !CreateFile(t, parentPath, name, content, id).ok ==> CreateFile(t, parentPath, name, content, id).tree == t
  {
    match ResolveFolder(t, parentPath) case None => case Some(d) => FindIsKey(Keys(t, d), name);
  }

  /** Deleting succeeds exactly when the path leads to an entry other than the root. */
  lemma DeletionSucceeds<L>(t: Tree<L>, path: string)
    requires WF(t)
    ensures DeletePath(t, path).ok <==> Resolve(t, path).Some? && Resolve(t, path) != Some([])
    ensures !DeletePath(t, path).ok ==> DeletePath(t, path).tree == t
  {
  }

  /** Renaming succeeds exactly when, besides, no entry of the folder, the renamed one included, bears the new name up
      to case. */
  lemma RenamingSucceeds<L>(t: Tree<L>, path: string, newName: string)
    requires WF(t)
    ensures RenamePath(t, path, newName).ok <==>
      match Resolve(t, path)
      case None => false
      case Some(p) => p != [] && HasFolder(t, Init(p)) && NameIsFree(t, Init(p), newName)
    ensures !RenamePath(t, path, newName).ok ==> RenamePath(t, path, newName).tree == t
  {
    match Resolve(t, path)
    case None =>
    case Some(p) =>
      if p != [] {
        InitHasFolder(t, p);
        FindIsKey(Keys(t, Init(p)), newName);
      }
  }

  /** Copying succeeds exactly when the source path leads somewhere and the other to a folder; moving, when besides the
      source is not the root. No name stands in their way. */
  lemma TransportSucceeds<L>(t: Tree<L>, src: string, dst: string, c: Tree<L>)
    requires WF(t)
    ensures CopyPath(t, src, dst, c).ok <==> Resolve(t, src).Some? && ResolveFolder(t, dst).Some?
    ensures MovePath(t, src, dst).ok <==>
      Resolve(t, src).Some? && ResolveFolder(t, dst).Some? && Resolve(t, src) != Some([])
    ensures !CopyPath(t, src, dst, c).ok ==> CopyPath(t, src, dst, c).tree == t
    ensures !MovePath(t, src, dst).ok ==> MovePath(t, src, dst).tree == t
  {
    if Resolve(t, src).Some? && Resolve(t, src).value != [] { InitHasFolder(t, Resolve(t, src).value); }
  }

  /** Writing succeeds exactly when the path leads to a file, or is not the root and its parent is a folder. */
  lemma WritingSucceeds<L>(t: Tree<L>, path: string, content: string, id: L)
    requires WF(t)
    ensures WriteFile(t, path, content, id).ok <==>
      || ReadFile(t, path).Some?
      || (Parts(path) != [] && ResolveFolder(t, path + "/..").Some?)
    ensures !WriteFile(t, path, content, id).ok ==> WriteFile(t, path, content, id).tree == t
  {
    UpLeadsToParent(t, path);
  }

  /* ---------- what is there afterwards ---------- */

  /** A new folder is empty and a new file holds its content, if a path can spell the name. */
  lemma CreatedHolds<L>(t: Tree<L>, parentPath: string, name: string, content: string, id: L)
    requires WF(t) && GoodName(name)
    ensures var made := Mkdir(t, parentPath, name, id);
      made.ok ==> WF(made.tree) && ListDirectory(made.tree, ChildPath(parentPath, name)) == Some([])
    ensures var made := CreateFile(t, parentPath, name, content, id);
      made.ok ==> WF(made.tree) && ReadFile(made.tree, ChildPath(parentPath, name)) == Some(content)
  {
    if Mkdir(t, parentPath, name, id).ok { CreatedIs(t, parentPath, name, Folder(id, "", [], map[])); }
    if CreateFile(t, parentPath, name, content, id).ok { CreatedIs(t, parentPath, name, File(id, "", content)); }
  }

  lemma CreatedIs<L>(t: Tree<L>, parentPath: string, name: string, node: Tree<L>)
    requires WF(t) && WF(node) && GoodName(name) && Create(t, parentPath, name, node).ok
    ensures var t', p := Create(t, parentPath, name, node).tree, ResolveFolder(t, parentPath).value + [name];
      WF(t') && Resolve(t', ChildPath(parentPath, name)) == Some(p) && At(t', p) == Some(node)
  {
    var d := ResolveFolder(t, parentPath).value;
    CreatedIsReachable(t, parentPath, name, node);
    GraftGraft(t, d, Put(Get(t, d), name, node), Get(t, d));
    AtChild(Insert(t, d, name, node), d, name);
  }

  /** No node of a copy remembers a folder it was trashed from. */
  lemma {:induction false} CopyForgets<L>(c: Tree<L>, s: Tree<L>, p: Path)
    requires IsCopy(c, s) && Has(c, p)
    ensures Get(c, p).orig == ""
    decreases |p|
  {
    if p != [] {
      var k := p[0];
      assert Erase(c).kids[k] == Erase(c.kids[k]) && Blank(s).kids[k] == Blank(s.kids[k]);
      CopyForgets(c.kids[k], s.kids[k], p[1..]);
    }
  }
}
