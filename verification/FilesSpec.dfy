/** The file manager's trash and its recursive listing, as functions on file trees
    (desktop-shell/js/modules/files.js). */
module FilesSpec {
  import opened Text
  import opened Paths
  import opened Options
  import opened Trees
  import opened VfsSpec
  import opened ShellSpec

  const TRASH := "/Trash"
  const FALLBACK := "/workspace"

  /* ---------- trash ---------- */

  ghost function EnsureTrash<L>(t: Tree<L>, id: L): (t1: Tree<L>)
    requires WF(t)
    ensures WF(t1)
  {
    if Resolve(t, TRASH).Some? then t
    else
      MkdirWF(t, "/", "Trash", id);
      Mkdir(t, "/", "Trash", id).tree
  }

  lemma MkdirWF<L>(t: Tree<L>, parentPath: string, name: string, id: L)
    requires WF(t)
    ensures WF(Mkdir(t, parentPath, name, id).tree)
  {
    if Mkdir(t, parentPath, name, id).ok {
      InsertWF(t, ResolveFolder(t, parentPath).value, name, Folder(id, "", [], map[]));
    }
  }

  /** The child of that exact name remembers the folder it was in. */
  ghost function MarkOrigin<L>(t: Tree<L>, parentPath: string, name: string): (t1: Tree<L>)
    requires WF(t)
    ensures WF(t1)
  {
    match ResolveFolder(t, parentPath)
    case None => t
    case Some(d) =>
      if name !in Keys(t, d) then t
      else
        AtChild(t, d, name);
        var u := Get(t, d + [name]).(orig := parentPath);
        GetWF(t, d + [name]);
        GraftWF(t, d + [name], u);
        Graft(t, d + [name], u)
  }

  ghost function MoveToTrash<L>(t: Tree<L>, parentPath: string, name: string, id: L): Outcome<L>
    requires WF(t)
  {
    MovePath(MarkOrigin(EnsureTrash(t, id), parentPath, name), ChildPath(parentPath, name), TRASH)
  }

  /** Where an item of the trash goes back to. */
  ghost function Origin<L>(t: Tree<L>, name: string): string
    requires WF(t)
  {
    match ResolveFolder(t, TRASH)
    case None => FALLBACK
    case Some(d) =>
      if name in Get(t, d).kids && Get(t, d).kids[name].orig != "" then Get(t, d).kids[name].orig else FALLBACK
  }

  ghost function PutBack<L>(t: Tree<L>, name: string): Outcome<L>
    requires WF(t)
  {
    MovePath(t, TRASH + "/" + name, Origin(t, name))
  }

  /** One deletion per listed name, in listing order. */
  ghost function DeleteAll<L>(t: Tree<L>, names: seq<string>): (t1: Tree<L>)
    requires WF(t)
    ensures WF(t1)
    decreases |names|
  {
    if names == [] then t
    else
      DeleteWF(t, TRASH + "/" + names[0]);
      DeleteAll(DeletePath(t, TRASH + "/" + names[0]).tree, names[1..])
  }

  ghost function EmptyTrash<L>(t: Tree<L>): Tree<L>
    requires WF(t)
  {
    match ListDirectory(t, TRASH) case None => t case Some(names) => DeleteAll(t, names)
  }

  /* ---------- recursive listing ---------- */

  /** One line of the listing: a node and the path string of the folder it was found in. */
  datatype Item<L> = Item(id: L, name: string, parentPath: string)

  /** All descendants of a folder, every folder before its own content; the content of a folder is looked up by name,
      so it is that of the first entry equal to the name up to case. */
  ghost function Walk<L>(f: Tree<L>, path: string): seq<Item<L>>
    requires WF(f)
    decreases f, 1, 0
  {
    if f.File? then [] else WalkKeys(f, f.keys, path)
  }

  ghost function WalkKeys<L>(f: Tree<L>, keys: seq<string>, path: string): seq<Item<L>>
    requires f.Folder? && WF(f) && forall k :: k in keys ==> k in f.kids
    decreases f, 0, |keys|
  {
    if keys == [] then []
    else
      var k := keys[0];
      FindIsKey(f.keys, k);
      [Item(f.kids[k].id, k, path)]
      + (if f.kids[k].Folder? then Walk(f.kids[Find(f.keys, k).value], ChildPath(path, k)) else [])
      + WalkKeys(f, keys[1..], path)
  }

  /** What the collector returns for a path. */
  ghost function Listing<L>(t: Tree<L>, path: string): seq<Item<L>>
    requires WF(t)
  {
    match Resolve(t, path)
    case None => []
    case Some(d) =>
      GetWF(t, d);
      Walk(Get(t, d), path)
  }

  /** The exact paths of the same nodes, in the same order. */
  ghost function Descendants<L>(f: Tree<L>): seq<Path>
    requires WF(f)
    decreases f, 1, 0
  {
    if f.File? then [] else DescendantsOf(f, f.keys)
  }

  ghost function DescendantsOf<L>(f: Tree<L>, keys: seq<string>): seq<Path>
    requires f.Folder? && WF(f) && forall k :: k in keys ==> k in f.kids
    decreases f, 0, |keys|
  {
    if keys == [] then []
    else [[keys[0]]] + AllUnder(keys[0], Descendants(f.kids[keys[0]])) + DescendantsOf(f, keys[1..])
  }

  function AllUnder(k: string, paths: seq<Path>): (r: seq<Path>)
    ensures |r| == |paths|
  {
    seq(|paths|, i requires 0 <= i < |paths| => [k] + paths[i])
  }
}
