/** The interactive terminal: its current folder and the commands that change the file tree
    (desktop-shell/js/modules/terminal.js). */
module Terminal {
  import opened Text
  import opened Paths
  import opened Options
  import opened Trees
  import opened VfsSpec
  import opened Vfs
  import opened ShellSpec

  class Shell {
    const fs: FileSystem
    var currentPath: string

    constructor (fs: FileSystem)
      ensures this.fs == fs && currentPath == "/workspace"
    {
      this.fs := fs;
      currentPath := "/workspace";
    }

    /** The current folder becomes the canonical path of the target, if that is a folder. */
    method Cd(target: string)
      requires fs.Valid()
      modifies this
      ensures currentPath ==
        var folder := if target == "" then "/workspace" else target;
        match ResolveFolder(fs.tree, ResolveRelativePath(old(currentPath), folder))
        case None => old(currentPath)
        case Some(p) => AbsPath(p)
    {
      var targetPath := ResolveRelativePath(currentPath, if target == "" then "/workspace" else target);
      var found := fs.Exists(targetPath);
      if !found { return; }
      var isFolder := fs.IsFolder(targetPath);
      if !isFolder { return; }
      var res := fs.ResolvePath(targetPath);
      currentPath := res.value.1;
    }

    method DestinationOf(srcFull: string, destFull: string) returns (destParent: string, destName: string)
      requires fs.Valid()
      ensures (destParent, destName) == Destination(fs.tree, srcFull, destFull)
    {
      var found := fs.Exists(destFull);
      var isFolder := fs.IsFolder(destFull);
      if found && isFolder { return destFull, LastSegment(srcFull); }
      var parts := SplitPath(destFull);
      return parts.0, parts.1;
    }

    /** The checks that cp and mv share: the source and the destination folder must exist. */
    method Operands(srcFull: string, destFull: string) returns (ready: bool, destParent: string, destName: string)
      requires fs.Valid()
      ensures ready <==>
        Resolve(fs.tree, srcFull).Some? && Resolve(fs.tree, Destination(fs.tree, srcFull, destFull).0).Some?
      ensures ready ==> (destParent, destName) == Destination(fs.tree, srcFull, destFull)
    {
      var srcFound := fs.Exists(srcFull);
      if !srcFound { return false, "", ""; }
      destParent, destName := DestinationOf(srcFull, destFull);
      ready := fs.Exists(destParent);
    }

    method DeleteIfExists(targetPath: string)
      requires fs.Valid()
      modifies fs`tree, fs`image, fs.image.Keys
      ensures fs.Valid() && fs.tree == ClearTarget(old(fs.tree), targetPath)
      ensures fs.image.Keys == old(fs.image.Keys)
    {
      var found := fs.Exists(targetPath);
      if found {
        var _ := fs.DeletePath(targetPath);
      }
    }

    method RenameIfOther(srcFull: string, destParent: string, destName: string)
      requires fs.Valid()
      modifies fs`tree, fs`image, fs.image.Keys
      ensures fs.Valid() && fs.tree == RenameLanded(old(fs.tree), srcFull, destParent, destName)
      ensures fs.image.Keys == old(fs.image.Keys)
    {
      var targetPath := ChildPath(destParent, destName);
      var createdPath := ChildPath(destParent, LastSegment(srcFull));
      if Lower(createdPath) != Lower(targetPath) {
        var _ := fs.RenamePath(createdPath, destName);
      }
    }

    method HandleCp(args: seq<string>) returns (ghost c: Tree<Node>)
      requires fs.Valid()
      modifies fs`tree, fs`image, fs.image.Keys
      ensures fs.Valid() && fresh(fs.image.Keys - old(fs.image.Keys))
      ensures |args| < 2 ==> fs.tree == old(fs.tree)
      ensures |args| >= 2 ==>
        && WF(c)
        && fs.tree == Cp(old(fs.tree), ResolveRelativePath(currentPath, args[0]),
                         ResolveRelativePath(currentPath, args[1]), c)
        && CpCopies(old(fs.tree), ResolveRelativePath(currentPath, args[0]),
                    ResolveRelativePath(currentPath, args[1]), c)
        && (CpReaches(old(fs.tree), ResolveRelativePath(currentPath, args[0]),
                      ResolveRelativePath(currentPath, args[1]), c) ==>
            Unshared(c) && fresh(Objects(c)))
    {
      c := fs.tree;
      if |args| < 2 { return; }
      c := CopyPaths(ResolveRelativePath(currentPath, args[0]), ResolveRelativePath(currentPath, args[1]));
    }

    method CopyPaths(srcFull: string, destFull: string) returns (ghost c: Tree<Node>)
      requires fs.Valid()
      modifies fs`tree, fs`image, fs.image.Keys
      ensures fs.Valid() && fresh(fs.image.Keys - old(fs.image.Keys))
      ensures WF(c) && fs.tree == Cp(old(fs.tree), srcFull, destFull, c) && CpCopies(old(fs.tree), srcFull, destFull, c)
      ensures CpReaches(old(fs.tree), srcFull, destFull, c) ==> Unshared(c) && fresh(Objects(c))
    {
      c := fs.tree;
      var ready, destParent, destName := Operands(srcFull, destFull);
      if !ready { return; }
      c := CopyOnto(srcFull, destParent, destName);
    }

    method CopyOnto(srcFull: string, destParent: string, destName: string) returns (ghost c: Tree<Node>)
      requires fs.Valid()
      modifies fs`tree, fs`image, fs.image.Keys
      ensures fs.Valid() && fresh(fs.image.Keys - old(fs.image.Keys))
      ensures var base := ClearTarget(old(fs.tree), ChildPath(destParent, destName));
        && WF(c) && fs.tree == CpCleared(base, srcFull, destParent, destName, c)
        && (CopyPath(base, srcFull, destParent, c).ok ==>
            IsCopy(c, Get(base, Resolve(base, srcFull).value)) && Unshared(c) && fresh(Objects(c)))
    {
      DeleteIfExists(ChildPath(destParent, destName));
      c := CopyCleared(srcFull, destParent, destName);
    }

    method CopyCleared(srcFull: string, destParent: string, destName: string) returns (ghost c: Tree<Node>)
      requires fs.Valid()
      modifies fs`tree, fs`image, fs.image.Keys
      ensures fs.Valid() && fresh(fs.image.Keys - old(fs.image.Keys))
      ensures WF(c) && fs.tree == CpCleared(old(fs.tree), srcFull, destParent, destName, c)
      ensures CopyPath(old(fs.tree), srcFull, destParent, c).ok ==>
        IsCopy(c, Get(old(fs.tree), Resolve(old(fs.tree), srcFull).value)) && Unshared(c) && fresh(Objects(c))
    {
      var success;
      success, c := fs.CopyPath(srcFull, destParent);
      if !success { return; }
      RenameIfOther(srcFull, destParent, destName);
    }

    method HandleMv(args: seq<string>)
      requires fs.Valid()
      modifies fs`tree, fs`image, fs.image.Keys
      ensures fs.Valid() && fs.image.Keys == old(fs.image.Keys)
      ensures |args| < 2 ==> fs.tree == old(fs.tree)
      ensures |args| >= 2 ==>
        fs.tree == Mv(old(fs.tree), ResolveRelativePath(currentPath, args[0]),
                      ResolveRelativePath(currentPath, args[1]))
    {
      if |args| < 2 { return; }
      MovePaths(ResolveRelativePath(currentPath, args[0]), ResolveRelativePath(currentPath, args[1]));
    }

    method MovePaths(srcFull: string, destFull: string)
      requires fs.Valid()
      modifies fs`tree, fs`image, fs.image.Keys
      ensures fs.Valid() && fs.image.Keys == old(fs.image.Keys)
      ensures fs.tree == Mv(old(fs.tree), srcFull, destFull)
    {
      var ready, destParent, destName := Operands(srcFull, destFull);
      if !ready { return; }
      MoveOnto(srcFull, destParent, destName);
    }

    method MoveOnto(srcFull: string, destParent: string, destName: string)
      requires fs.Valid()
      modifies fs`tree, fs`image, fs.image.Keys
      ensures fs.Valid() && fs.image.Keys == old(fs.image.Keys)
      ensures fs.tree == MvCleared(ClearTarget(old(fs.tree), ChildPath(destParent, destName)), srcFull, destParent,
                                   destName)
    {
      DeleteIfExists(ChildPath(destParent, destName));
      MoveCleared(srcFull, destParent, destName);
    }

    method MoveCleared(srcFull: string, destParent: string, destName: string)
      requires fs.Valid()
      modifies fs`tree, fs`image, fs.image.Keys
      ensures fs.Valid() && fs.image.Keys == old(fs.image.Keys)
      ensures fs.tree == MvCleared(old(fs.tree), srcFull, destParent, destName)
    {
      var srcParent := SplitPath(srcFull).0;
      if Lower(srcParent) == Lower(destParent) {
        var _ := fs.RenamePath(srcFull, destName);
      } else {
        var success := fs.MovePath(srcFull, destParent);
        if !success { return; }
        RenameIfOther(srcFull, destParent, destName);
      }
    }
  }
}
