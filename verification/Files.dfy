/** The file manager's trash actions and recursive listing on the node objects
    (desktop-shell/js/modules/files.js). */
module Files {
  import opened Text
  import opened Paths
  import opened Options
  import opened Trees
  import opened VfsSpec
  import opened VfsLaws
  import opened OperationLaws
  import opened Vfs
  import opened ShellLaws
  import opened FilesSpec
  import opened FilesLaws

  class FileManager {
    const fs: FileSystem

    constructor (fs: FileSystem)
      ensures this.fs == fs
    {
      this.fs := fs;
    }

    /** The child object of that exact name, or null. */
    method ChildNamed(folderPath: string, name: string) returns (n: Node?)
      requires fs.Valid()
      ensures n == match ResolveFolder(fs.tree, folderPath)
        case None => null
        case Some(d) => if name in Keys(fs.tree, d) then Get(fs.tree, d).kids[name].id else null
    {
      var contents := fs.ListDirectory(folderPath);
      if contents.None? { return null; }
      n := FindByName(contents.value, name, ResolveFolder(fs.tree, folderPath).value);
    }

    method FindByName(nodes: seq<Node>, name: string, ghost d: Path) returns (n: Node?)
      requires fs.Valid() && HasFolder(fs.tree, d) && WF(Get(fs.tree, d)) && nodes == Values(Get(fs.tree, d))
      ensures n == if name in Keys(fs.tree, d) then Get(fs.tree, d).kids[name].id else null
    {
      ghost var keys := Keys(fs.tree, d);
      for i := 0 to |nodes|
        invariant name !in keys[..i]
      {
        ChildAt(fs, d, nodes, i);
        if nodes[i].name == name { return nodes[i]; }
        NextName(keys, i);
      }
      assert keys[..|nodes|] == keys;
      return null;
    }

    method MoveToTrash(parentPath: string, name: string) returns (success: bool, ghost made: Node)
      requires fs.Valid()
      modifies fs`tree, fs`image, fs.image.Keys
      ensures fs.Valid() && fresh(fs.image.Keys - old(fs.image.Keys))
      ensures Outcome(success, fs.tree) == FilesSpec.MoveToTrash(old(fs.tree), parentPath, name, made)
    {
      made := EnsureTrash();
      success := MarkAndMove(parentPath, name);
    }

    method EnsureTrash() returns (ghost made: Node)
      requires fs.Valid()
      modifies fs`tree, fs`image, fs.image.Keys
      ensures fs.Valid() && fresh(fs.image.Keys - old(fs.image.Keys))
      ensures fs.tree == FilesSpec.EnsureTrash(old(fs.tree), made)
    {
      made := fs.root;
      var trash := fs.Exists(TRASH);
      if !trash {
        var _, m := fs.Mkdir("/", "Trash");
        made := m;
      }
    }

    method MarkAndMove(parentPath: string, name: string) returns (success: bool)
      requires fs.Valid()
      modifies fs`tree, fs`image, fs.image.Keys
      ensures fs.Valid() && fs.image.Keys == old(fs.image.Keys)
      ensures Outcome(success, fs.tree) ==
        MovePath(FilesSpec.MarkOrigin(old(fs.tree), parentPath, name), ChildPath(parentPath, name), TRASH)
    {
      MarkOrigin(parentPath, name);
      success := fs.MovePath(ChildPath(parentPath, name), TRASH);
    }

    method MarkOrigin(parentPath: string, name: string)
      requires fs.Valid()
      modifies fs`tree, fs`image, fs.image.Keys
      ensures fs.Valid() && fs.image.Keys == old(fs.image.Keys)
      ensures fs.tree == FilesSpec.MarkOrigin(old(fs.tree), parentPath, name)
    {
      var node := ChildNamed(parentPath, name);
      if node != null {
        ghost var d := ResolveFolder(fs.tree, parentPath).value;
        AtChild(fs.tree, d, name);
        fs.FieldsAt(d + [name]);
        fs.SetOrig(node, parentPath, d + [name]);
      }
    }

    method PutBackFromTrash(name: string) returns (success: bool)
      requires fs.Valid()
      modifies fs`tree, fs`image, fs.image.Keys
      ensures fs.Valid() && fs.image.Keys == old(fs.image.Keys)
      ensures Outcome(success, fs.tree) == PutBack(old(fs.tree), name)
    {
      var node := ChildNamed(TRASH, name);
      var targetParent := FALLBACK;
      if node != null {
        ChildFields(fs, ResolveFolder(fs.tree, TRASH).value, name);
        if node.orig != "" { targetParent := node.orig; }
      }
      success := fs.MovePath(TRASH + "/" + name, targetParent);
    }

    method EmptyTrash()
      requires fs.Valid()
      modifies fs`tree, fs`image, fs.image.Keys
      ensures fs.Valid() && fs.image.Keys == old(fs.image.Keys)
      ensures fs.tree == FilesSpec.EmptyTrash(old(fs.tree))
    {
      var contents := fs.ListDirectory(TRASH);
      if contents.None? { return; }
      ghost var names := Keys(fs.tree, ResolveFolder(fs.tree, TRASH).value);
      var trashNames := NamesOf(contents.value, TRASH);
      for i := 0 to |trashNames|
        invariant fs.Valid() && fs.image.Keys == old(fs.image.Keys)
        invariant DeleteAll(fs.tree, names[i..]) == FilesSpec.EmptyTrash(old(fs.tree))
      {
        assert names[i..][1..] == names[i + 1..];
        var _ := fs.DeletePath(TRASH + "/" + trashNames[i]);
      }
    }

    /** The names of listed nodes: their keys. */
    method NamesOf(nodes: seq<Node>, path: string) returns (names: seq<string>)
      requires fs.Valid() && ResolveFolder(fs.tree, path).Some?
      requires nodes == Values(Get(fs.tree, ResolveFolder(fs.tree, path).value))
      ensures names == Keys(fs.tree, ResolveFolder(fs.tree, path).value)
    {
      ghost var d := ResolveFolder(fs.tree, path).value;
      ghost var keys := Keys(fs.tree, d);
      names := [];
      for i := 0 to |nodes|
        invariant names == keys[..i]
      {
        ChildAt(fs, d, nodes, i);
        names := names + [nodes[i].name];
        NextName(keys, i);
      }
    }

    /** The recursive collector. The ghost argument is what the path leads to, if anything. */
    method GetRecursiveNodes(folderPath: string, ghost f: Tree<Node>) returns (results: seq<Item<Node>>)
      requires fs.Valid() && GoodTree(f)
      requires Resolve(fs.tree, folderPath).Some? ==> f == Get(fs.tree, Resolve(fs.tree, folderPath).value)
      ensures results == Listing(fs.tree, folderPath)
      decreases f
    {
      results := [];
      var contents := fs.ListDirectory(folderPath);
      if contents.None? { return; }
      var nodes := contents.value;
      ghost var d := ResolveFolder(fs.tree, folderPath).value;
      for i := 0 to |nodes|
        invariant results + WalkKeys(f, f.keys[i..], folderPath) == Walk(f, folderPath)
      {
        var node := nodes[i];
        ghost var k := f.keys[i];
        assert f.keys[i..][0] == k && f.keys[i..][1..] == f.keys[i + 1..] && k in f.keys;
        ChildFields(fs, d, k);
        var line := Item(node, node.name, folderPath);
        var below: seq<Item<Node>> := [];
        if !node.isFile {
          ChildFolder(fs.tree, folderPath, d, k);
          below := GetRecursiveNodes(ChildPath(folderPath, node.name), f.kids[Find(f.keys, k).value]);
        }
        AppendStep(results, [line], below, WalkKeys(f, f.keys[i + 1..], folderPath));
        results := results + [line] + below;
      }
    }
  }

  lemma AppendStep<T>(a: seq<T>, b: seq<T>, c: seq<T>, d: seq<T>)
    ensures a + (b + c + d) == a + b + c + d
  {
  }

  lemma NextName(keys: seq<string>, i: nat)
    requires i < |keys|
    ensures keys[..i + 1] == keys[..i] + [keys[i]]
  {
  }

  /** What the i-th listed object records. */
  lemma ChildAt(fs: FileSystem, d: Path, nodes: seq<Node>, i: nat)
    requires fs.Valid() && HasFolder(fs.tree, d) && WF(Get(fs.tree, d)) && nodes == Values(Get(fs.tree, d))
      && i < |nodes|
    ensures |nodes| == |Keys(fs.tree, d)| && Keys(fs.tree, d)[i] in Get(fs.tree, d).kids
    ensures nodes[i] == Get(fs.tree, d).kids[Keys(fs.tree, d)[i]].id && nodes[i].name == Keys(fs.tree, d)[i]
  {
    assert Keys(fs.tree, d)[i] in Keys(fs.tree, d);
    ChildFields(fs, d, Keys(fs.tree, d)[i]);
  }

  /** What the object of a child records. */
  lemma ChildFields(fs: FileSystem, d: Path, k: string)
    requires fs.Valid() && HasFolder(fs.tree, d) && k in Get(fs.tree, d).kids
    ensures var c := Get(fs.tree, d).kids[k];
      c.id.name == k && (c.id.isFile <==> c.File?) && c.id.orig == c.orig
  {
    AtChild(fs.tree, d, k);
    fs.FieldsAt(d + [k]);
  }

  /** What a listed child's path leads to: the first entry equal to its name up to case. */
  lemma ChildFolder<L>(t: Tree<L>, folderPath: string, d: Path, k: string)
    requires WF(t) && ResolveFolder(t, folderPath) == Some(d) && k in Get(t, d).kids && GoodName(k)
    ensures Find(Keys(t, d), k).Some? && Find(Keys(t, d), k).value in Get(t, d).kids
    ensures var j := Find(Keys(t, d), k).value;
      Resolve(t, ChildPath(folderPath, k)) == Some(d + [j]) && At(t, d + [j]) == Some(Get(t, d).kids[j])
  {
    GetWF(t, d);
    assert k in Keys(t, d);
    FindIsKey(Keys(t, d), k);
    ChildOfFolder(t, folderPath, k);
    AtChild(t, d, Find(Keys(t, d), k).value);
  }
}
