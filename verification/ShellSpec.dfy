/** The shell commands cp and mv, as compositions of file system operations
    (desktop-shell/js/modules/terminal.js). */
module ShellSpec {
  import opened Text
  import opened Paths
  import opened Options
  import opened Trees
  import opened VfsSpec
  import CopyNames

  function ResolveRelativePath(cwd: string, path: string): string
  {
    if path == "" then cwd
    else if path[0] == '/' then path
    else if cwd == "/" then "/" + path
    else cwd + "/" + path
  }

  function NonEmpty(parts: seq<string>): seq<string>
  {
    if parts == [] then []
    else (if parts[0] == "" then [] else [parts[0]]) + NonEmpty(parts[1..])
  }

  /** Parent path and last segment of a path string, without normalising it. */
  function SplitPath(path: string): (string, string)
  {
    var parts := NonEmpty(Split(path, '/'));
    if parts == [] then ("/", "") else (AbsPath(Init(parts)), Last(parts))
  }

  /** What follows the last slash. */
  function LastSegment(path: string): string
  {
    Last(Split(path, '/'))
  }

  /** Where the second operand puts the source: into it, if it is a folder, else at it. */
  ghost function Destination<L>(t: Tree<L>, srcFull: string, destFull: string): (string, string)
    requires WF(t)
  {
    if ResolveFolder(t, destFull).Some? then (destFull, LastSegment(srcFull)) else SplitPath(destFull)
  }

  /** Both commands first delete what the target path leads to. */
  ghost function ClearTarget<L>(t: Tree<L>, targetPath: string): (t1: Tree<L>)
    requires WF(t)
    ensures WF(t1)
  {
    DeleteWF(t, targetPath);
    if Resolve(t, targetPath).Some? then DeletePath(t, targetPath).tree else t
  }

  /** Both commands then rename the entry that bears the source's name, if another name is wanted. */
  ghost function RenameLanded<L>(t: Tree<L>, srcFull: string, destParent: string, destName: string): (t1: Tree<L>)
    requires WF(t)
    ensures WF(t1)
  {
    var createdPath := ChildPath(destParent, LastSegment(srcFull));
    RenameWF(t, createdPath, destName);
    if Lower(createdPath) == Lower(ChildPath(destParent, destName)) then t
    else RenamePath(t, createdPath, destName).tree
  }

  ghost function Cp<L>(t: Tree<L>, srcFull: string, destFull: string, c: Tree<L>): (t1: Tree<L>)
    requires WF(t) && WF(c)
    ensures WF(t1)
  {
    if Resolve(t, srcFull).None? then t
    else
      var (destParent, destName) := Destination(t, srcFull, destFull);
      if Resolve(t, destParent).None? then t
      else CpCleared(ClearTarget(t, ChildPath(destParent, destName)), srcFull, destParent, destName, c)
  }

  ghost function CpCleared<L>(t: Tree<L>, srcFull: string, destParent: string, destName: string,
                              c: Tree<L>): (t1: Tree<L>)
    requires WF(t) && WF(c)
    ensures WF(t1)
  {
    var copied := CopyPath(t, srcFull, destParent, c);
    CopyWF(t, srcFull, destParent, c);
    if !copied.ok then t else RenameLanded(copied.tree, srcFull, destParent, destName)
  }

  /** The tree that cp copies in. */
  ghost function CpBase<L>(t: Tree<L>, srcFull: string, destFull: string): (t1: Tree<L>)
    requires WF(t)
    ensures WF(t1)
  {
    var (destParent, destName) := Destination(t, srcFull, destFull);
    ClearTarget(t, ChildPath(destParent, destName))
  }

  /** cp gets as far as copying. */
  ghost predicate CpReaches<L>(t: Tree<L>, srcFull: string, destFull: string, c: Tree<L>)
    requires WF(t)
  {
    var destParent := Destination(t, srcFull, destFull).0;
    Resolve(t, srcFull).Some? && Resolve(t, destParent).Some?
      && CopyPath(CpBase(t, srcFull, destFull), srcFull, destParent, c).ok
  }

  /** If cp gets as far as copying, this is the copy: of the source as it is once the target is deleted. */
  ghost predicate CpCopies<L>(t: Tree<L>, srcFull: string, destFull: string, c: Tree<L>)
    requires WF(t)
  {
    var base := CpBase(t, srcFull, destFull);
    CpReaches(t, srcFull, destFull, c) ==> IsCopy(c, Get(base, Resolve(base, srcFull).value))
  }

  ghost function Mv<L>(t: Tree<L>, srcFull: string, destFull: string): (t1: Tree<L>)
    requires WF(t)
    ensures WF(t1)
  {
    if Resolve(t, srcFull).None? then t
    else
      var (destParent, destName) := Destination(t, srcFull, destFull);
      if Resolve(t, destParent).None? then t
      else MvCleared(ClearTarget(t, ChildPath(destParent, destName)), srcFull, destParent, destName)
  }

  /** Within one folder mv renames; between folders it moves, then renames what has landed. */
  ghost function MvCleared<L>(t: Tree<L>, srcFull: string, destParent: string, destName: string): (t1: Tree<L>)
    requires WF(t)
    ensures WF(t1)
  {
    RenameWF(t, srcFull, destName);
    if Lower(SplitPath(srcFull).0) == Lower(destParent) then RenamePath(t, srcFull, destName).tree
    else
      var moved := MovePath(t, srcFull, destParent);
      MoveWF(t, srcFull, destParent);
      if !moved.ok then t else RenameLanded(moved.tree, srcFull, destParent, destName)
  }

  lemma DeleteWF<L>(t: Tree<L>, path: string)
    requires WF(t)
    ensures WF(DeletePath(t, path).tree)
  {
    if DeletePath(t, path).ok {
      var p := Resolve(t, path).value;
      InitHasFolder(t, p);
      RemoveWF(t, Init(p), Last(p));
    }
  }

  lemma TransferWF<L>(t: Tree<L>, p: Path, d: Path, name: string)
    requires WF(t) && Has(t, p) && p != [] && HasFolder(t, d) && !(p <= d)
    ensures WF(Transfer(t, p, d, name))
  {
    InitHasFolder(t, p);
    RemoveWF(t, Init(p), Last(p));
    RemoveKeepsFolder(t, p, d);
    GetWF(t, p);
    InsertWF(Remove(t, Init(p), Last(p)), d, name, Get(t, p));
  }

  lemma RenameWF<L>(t: Tree<L>, path: string, newName: string)
    requires WF(t)
    ensures WF(RenamePath(t, path, newName).tree)
  {
    if RenamePath(t, path, newName).ok {
      var p := Resolve(t, path).value;
      InitHasFolder(t, p);
      TransferWF(t, p, Init(p), newName);
    }
  }

  lemma CopyWF<L>(t: Tree<L>, src: string, dst: string, c: Tree<L>)
    requires WF(t) && WF(c)
    ensures WF(CopyPath(t, src, dst, c).tree)
  {
    if CopyPath(t, src, dst, c).ok {
      var p, d := Resolve(t, src).value, ResolveFolder(t, dst).value;
      InsertWF(t, d, CopyNames.FreshName(SetOf(Keys(t, d)), NameAt(p), Get(t, p).File?), c);
    }
  }

  lemma MoveWF<L>(t: Tree<L>, src: string, dst: string)
    requires WF(t)
    ensures WF(MovePath(t, src, dst).tree)
  {
    if MovePath(t, src, dst).ok {
      var p, d := Resolve(t, src).value, ResolveFolder(t, dst).value;
      if p <= d {
        InitHasFolder(t, p);
        RemoveWF(t, Init(p), Last(p));
      } else {
        TransferWF(t, p, d, CopyNames.FreshName(SetOf(Keys(t, d)), Last(p), Get(t, p).File?));
      }
    }
  }
}
