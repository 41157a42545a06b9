/** What each operation of the virtual file system does, as a function on file trees
    (desktop-shell/js/modules/vfs.js). `id` and `c` stand for the objects an operation allocates. */
module VfsSpec {
  import opened Text
  import opened Paths
  import opened Options
  import opened Trees
  import opened CopyNames

  datatype Outcome<L> = Outcome(ok: bool, tree: Tree<L>)

  /** Where a path string leads. */
  ghost function Resolve<L>(t: Tree<L>, path: string): Option<Path>
    requires WF(t)
    ensures Resolve(t, path).Some? ==> Has(t, Resolve(t, path).value) && WF(Get(t, Resolve(t, path).value))
  {
    LocateIsPath(t, Parts(path));
    if Locate(t, Parts(path)).Some? then GetWF(t, Locate(t, Parts(path)).value); Locate(t, Parts(path))
    else None
  }

  /** The same, for paths that lead to folders only. */
  ghost function ResolveFolder<L>(t: Tree<L>, path: string): Option<Path>
    requires WF(t)
    ensures ResolveFolder(t, path).Some? ==>
      HasFolder(t, ResolveFolder(t, path).value) && WF(Get(t, ResolveFolder(t, path).value))
  {
    var r := Resolve(t, path);
    if r.Some? && Get(t, r.value).Folder? then r else None
  }

  function Init(p: seq<string>): seq<string>
    requires p != []
  {
    p[..|p| - 1]
  }

  function Last(p: seq<string>): string
    requires p != []
  {
    p[|p| - 1]
  }

  /** Every non-root node sits under its last key in a folder. */
  lemma InitHasFolder<L>(t: Tree<L>, p: Path)
    requires Has(t, p) && p != []
    ensures HasFolder(t, Init(p)) && Last(p) in Get(t, Init(p)).kids
    ensures Get(t, Init(p)).kids[Last(p)] == Get(t, p)
  {
    assert Init(p) + [Last(p)] == p;
    AtChild(t, Init(p), Last(p));
  }

  lemma ChildOf(d: Path, k: string)
    ensures Init(d + [k]) == d && Last(d + [k]) == k
  {
  }

  lemma InitAndLast(p: Path)
    requires p != []
    ensures p == Init(p) + [Last(p)]
  {
  }

  ghost function Keys<L>(t: Tree<L>, d: Path): seq<string>
    requires HasFolder(t, d)
  {
    Get(t, d).keys
  }

  /* ---------- operations ---------- */

  ghost function Mkdir<L>(t: Tree<L>, parentPath: string, name: string, id: L): Outcome<L>
    requires WF(t)
  {
    Create(t, parentPath, name, Folder(id, "", [], map[]))
  }

  ghost function CreateFile<L>(t: Tree<L>, parentPath: string, name: string, content: string, id: L): Outcome<L>
    requires WF(t)
  {
    Create(t, parentPath, name, File(id, "", content))
  }

  /** Both creating operations refuse a name that a sibling bears up to case. */
  ghost function Create<L>(t: Tree<L>, parentPath: string, name: string, node: Tree<L>): Outcome<L>
    requires WF(t)
  {
    match ResolveFolder(t, parentPath)
    case None => Outcome(false, t)
    case Some(d) =>
      if Find(Keys(t, d), name).Some? then Outcome(false, t)
      else Outcome(true, Insert(t, d, name, node))
  }

  ghost function DeletePath<L>(t: Tree<L>, path: string): Outcome<L>
    requires WF(t)
  {
    match Resolve(t, path)
    case None => Outcome(false, t)
    case Some(p) =>
      if p == [] then Outcome(false, t)
      else InitHasFolder(t, p); Outcome(true, Remove(t, Init(p), Last(p)))
  }

  /** Moving one entry to another key, of the same or another folder. */
  ghost function Transfer<L>(t: Tree<L>, p: Path, d: Path, name: string): Tree<L>
    requires Has(t, p) && p != [] && HasFolder(t, d) && !(p <= d)
  {
    InitHasFolder(t, p);
    RemoveKeepsFolder(t, p, d);
    Insert(Remove(t, Init(p), Last(p)), d, name, Get(t, p))
  }

  lemma RemoveKeepsFolder<L>(t: Tree<L>, p: Path, d: Path)
    requires Has(t, p) && p != [] && HasFolder(t, d) && !(p <= d)
    ensures HasFolder(t, Init(p)) && HasFolder(Remove(t, Init(p), Last(p)), d)
    ensures Keys(Remove(t, Init(p), Last(p)), d) == if d == Init(p) then Without(Keys(t, d), Last(p)) else Keys(t, d)
    ensures d == Init(p) ==> Get(Remove(t, Init(p), Last(p)), d) == Drop(Get(t, d), Last(p))
    ensures !(d <= Init(p)) ==> Get(Remove(t, Init(p), Last(p)), d) == Get(t, d)
  {
    InitHasFolder(t, p);
    var q := Init(p);
    var f := Drop(Get(t, q), Last(p));
    GraftAt(t, q, f, d);
    if d == q {
      assert d[|q|..] == [];
    } else if q <= d {
      var r := d[|q|..];
      assert d == q + r;
      AtConcat(t, q, r);
      assert r[0] == Last(p) ==> p <= d;
      assert f.kids == Get(t, q).kids - {Last(p)};
    }
  }

  ghost function RenamePath<L>(t: Tree<L>, path: string, newName: string): Outcome<L>
    requires WF(t)
  {
    match Resolve(t, path)
    case None => Outcome(false, t)
    case Some(p) =>
      if p == [] then Outcome(false, t)
      else
        InitHasFolder(t, p);
        if Find(Keys(t, Init(p)), newName).Some? then Outcome(false, t)
        else Outcome(true, Transfer(t, p, Init(p), newName))
  }

  /** A node's own name: its key, or "/" for the root. */
  function NameAt(p: Path): string
  {
    if p == [] then "/" else Last(p)
  }

  /** The copy differs from its source in identities, and it drops the trash mark. */
  ghost predicate IsCopy<L>(c: Tree<L>, s: Tree<L>)
  {
    Erase(c) == Blank(s)
  }

  ghost function Blank<L>(t: Tree<L>): Tree<()>
  {
    match t
    case File(_, _, content) => File((), "", content)
    case Folder(_, _, keys, kids) => Folder((), "", keys, map k | k in kids :: Blank(kids[k]))
  }

  ghost function CopyPath<L>(t: Tree<L>, srcPath: string, destParentPath: string, c: Tree<L>): Outcome<L>
    requires WF(t)
  {
    match Resolve(t, srcPath)
    case None => Outcome(false, t)
    case Some(p) =>
      match ResolveFolder(t, destParentPath)
      case None => Outcome(false, t)
      case Some(d) => Outcome(true, Insert(t, d, FreshName(SetOf(Keys(t, d)), NameAt(p), Get(t, p).File?), c))
  }

  /** A folder moved into its own subtree is cut off from the root with all it holds. */
  ghost function MovePath<L>(t: Tree<L>, srcPath: string, destParentPath: string): Outcome<L>
    requires WF(t)
  {
    match Resolve(t, srcPath)
    case None => Outcome(false, t)
    case Some(p) =>
      match ResolveFolder(t, destParentPath)
      case None => Outcome(false, t)
      case Some(d) =>
        if p == [] then Outcome(false, t)
        else if p <= d then InitHasFolder(t, p); Outcome(true, Remove(t, Init(p), Last(p)))
        else Outcome(true, Transfer(t, p, d, FreshName(SetOf(Keys(t, d)), Last(p), Get(t, p).File?)))
  }

  ghost function ListDirectory<L>(t: Tree<L>, path: string): Option<seq<string>>
    requires WF(t)
  {
    match ResolveFolder(t, path) case None => None case Some(d) => Some(Keys(t, d))
  }

  ghost function ReadFile<L>(t: Tree<L>, path: string): Option<string>
    requires WF(t)
  {
    match Resolve(t, path)
    case None => None
    case Some(p) => if Get(t, p).File? then Some(Get(t, p).content) else None
  }

  /** Where writeFile looks for the parent of a path that leads to no file. */
  ghost function ParentOf<L>(t: Tree<L>, path: string): Option<Path>
    requires WF(t)
    ensures ParentOf(t, path).Some? ==>
      Has(t, ParentOf(t, path).value) && WF(Get(t, ParentOf(t, path).value)) && Parts(path) != []
  {
    if Parts(path) == [] then None
    else
      var r := Locate(t, Init(Parts(path)));
      LocateIsPath(t, Init(Parts(path)));
      if r.Some? then GetWF(t, r.value); r else None
  }

  ghost function WriteFile<L>(t: Tree<L>, path: string, content: string, id: L): Outcome<L>
    requires WF(t)
  {
    var r := Resolve(t, path);
    if r.Some? && Get(t, r.value).File? then
      Outcome(true, Graft(t, r.value, Get(t, r.value).(content := content)))
    else
      match ParentOf(t, path)
      case None => Outcome(false, t)
      case Some(d) =>
        if Get(t, d).Folder? then Outcome(true, Insert(t, d, Last(Parts(path)), File(id, "", content)))
        else Outcome(false, t)
  }

  /** Looking a path up agrees with looking up its parent and then the last name among the children. */
  lemma ResolveEntry<L>(t: Tree<L>, path: string)
    requires WF(t)
    ensures Parts(path) == [] ==> Resolve(t, path) == Some([]) && ParentOf(t, path) == None
    ensures Parts(path) != [] ==>
      Resolve(t, path) ==
        match ParentOf(t, path)
        case None => None
        case Some(d) =>
          if Get(t, d).File? then None
          else match Find(Keys(t, d), Last(Parts(path))) case None => None case Some(k) => Some(d + [k])
  {
    var parts := Parts(path);
    if parts != [] {
      assert Init(parts) + [Last(parts)] == parts;
      LocateConcat(t, Init(parts), [Last(parts)]);
      LocateIsPath(t, Init(parts));
      match ParentOf(t, path) {
        case None =>
        case Some(d) =>
          if Get(t, d).Folder? && Find(Keys(t, d), Last(parts)).Some? {
            var k := Find(Keys(t, d), Last(parts)).value;
            FindIsKey(Keys(t, d), Last(parts));
            assert [Last(parts)][1..] == [] && [k] + [] == [k];
          }
      }
    }
  }
}
