/** What the operands that a user types mean to cd, cp and mv: paths relative to the current folder. */
module TypedPaths {
  import opened Text
  import opened Paths
  import opened Options
  import opened Trees
  import opened VfsSpec
  import opened VfsLaws
  import opened OperationLaws
  import opened ShellSpec
  import opened ShellLaws

  /** An absolute operand means itself, an empty one the current folder, and any other one goes on where the path of the
      current folder ends. */
  lemma OperandMeans(cwd: string, path: string)
    ensures path != "" && path[0] == '/' ==> ResolveRelativePath(cwd, path) == path
    ensures path == "" ==> ResolveRelativePath(cwd, path) == cwd
    ensures path != "" && path[0] != '/' ==> Parts(ResolveRelativePath(cwd, path)) == Parts(cwd + "/" + path)
  {
    if path != "" && path[0] != '/' && cwd == "/" { SameStart("/", "", path); }
  }

  /** What follows a slash means the same after paths that mean the same. */
  lemma SameStart(a: string, b: string, path: string)
    requires Parts(a) == Parts(b) || (a == "/" && b == "")
    ensures Parts(a + "/" + path) == Parts(b + "/" + path)
  {
    PartsOfRoot();
    PartsConcat(a, path);
    PartsConcat(b, path);
  }

  /* ---------- descending ---------- */

  lemma {:induction false} JoinConcat(a: seq<string>, b: seq<string>, sep: char)
    requires a != [] && b != []
    ensures Join(a + b, sep) == Join(a, sep) + [sep] + Join(b, sep)
  {
    assert (a + b)[1..] == a[1..] + b;
    if |a| > 1 { JoinConcat(a[1..], b, sep); } else { assert a[1..] + b == b; }
  }

  lemma JoinStarts(names: seq<string>)
    requires GoodNames(names) && names != []
    ensures Join(names, '/') != "" && Join(names, '/')[0] != '/'
  {
    assert names[0] in names && names[0][0] in names[0];
  }

  /** Names typed one below the other lead down from the current folder. */
  lemma TypedNames(c: seq<string>, names: seq<string>)
    requires GoodNames(c) && GoodNames(names) && names != []
    ensures ResolveRelativePath(AbsPath(c), Join(names, '/')) == AbsPath(c + names)
    ensures GoodNames(c + names) && Parts(ResolveRelativePath(AbsPath(c), Join(names, '/'))) == c + names
  {
    JoinStarts(names);
    PartsOfAbsPath(c + names);
    if c == [] {
      assert c + names == names;
    } else {
      JoinStarts(c);
      JoinConcat(c, names, '/');
      assert "/" + Join(c, '/') + "/" + Join(names, '/') == "/" + (Join(c, '/') + "/" + Join(names, '/'));
    }
  }

  /* ---------- ascending ---------- */

  /** "../" so many times. */
  function Ups(n: nat): string
  {
    if n == 0 then "" else ".." + "/" + Ups(n - 1)
  }

  function Up(names: seq<string>, n: nat): seq<string>
  {
    if n <= |names| then names[..|names| - n] else []
  }

  lemma Regroup(path: string, slash: string, dots: string, ups: string, rest: string)
    ensures path + slash + (dots + slash + ups) + rest == path + slash + dots + slash + ups + rest
  {
  }

  lemma OneUp(path: string, ups: string, rest: string)
    ensures path + "/" + (".." + "/" + ups) + rest == path + "/.." + "/" + ups + rest
  {
    Regroup(path, "/", "..", ups, rest);
    DotsApart(path);
  }

  lemma {:induction false} Climb(path: string, n: nat, rest: string)
    ensures Parts(path + "/" + Ups(n) + rest) == Normalize(Up(Parts(path), n), Segments(rest))
    decreases n
  {
    if n == 0 {
      assert path + "/" + Ups(n) + rest == path + "/" + rest;
      PartsConcat(path, rest);
      assert Up(Parts(path), 0) == Parts(path);
    } else {
      OneUp(path, Ups(n - 1), rest);
      UpOne(path);
      UpMore(Parts(path), n);
      Climb(path + "/..", n - 1, rest);
    }
  }

  lemma UpMore(names: seq<string>, n: nat)
    requires n > 0
    ensures Up(if names == [] then [] else names[..|names| - 1], n - 1) == Up(names, n)
  {
  }

  /** ".." typed so many times, then names: up so many levels, no further than the root, and down from there. */
  lemma TypedUpAndDown(cwd: string, n: nat, names: seq<string>)
    requires GoodNames(names) && names != []
    ensures Parts(ResolveRelativePath(cwd, Ups(n) + Join(names, '/'))) == Up(Parts(cwd), n) + names
  {
    var path := Ups(n) + Join(names, '/');
    JoinStarts(names);
    assert path != "" && path[0] != '/' by { if n == 0 { assert path == Join(names, '/'); } }
    OperandMeans(cwd, path);
    assert cwd + "/" + path == cwd + "/" + Ups(n) + Join(names, '/');
    Climb(cwd, n, Join(names, '/'));
    SplitJoin(names, '/');
    DropVoidGood(names);
    NormalizeGood(Up(Parts(cwd), n), names);
  }

  /* ---------- the commands ---------- */

  lemma DotsTyped(cwd: string)
    ensures Parts(ResolveRelativePath(cwd, "..")) == Parts(cwd + "/..")
  {
    OperandMeans(cwd, "..");
    DotsApart(cwd);
  }

  /** `cd ..` leads from a folder to the one it is in, and stays at the root. */
  lemma CdUp<L>(t: Tree<L>, cwd: string)
    requires WF(t) && Resolve(t, cwd).Some?
    ensures Resolve(t, ResolveRelativePath(cwd, "..")) ==
      Some(if Resolve(t, cwd).value == [] then [] else Init(Resolve(t, cwd).value))
  {
    UpLeadsToParent(t, cwd);
    DotsTyped(cwd);
  }

  /** cp with operands typed relative to the current folder: under the condition of CpLaw the target, looked up from the
      current folder, shows at every path below it what the source there showed and still shows. */
  lemma CpTyped<L>(t: Tree<L>, cwd: seq<string>, a: seq<string>, b: seq<string>, c: Tree<L>, rest: seq<string>)
    requires GoodNames(cwd) && GoodNames(a) && GoodNames(b) && a != [] && b != []
    requires Operands(t, cwd + a, cwd + b) && OneTarget(t, cwd + a, cwd + b) && ApartFromSource(t, cwd + a, cwd + b)
    requires WF(c) && CpCopies(t, AbsPath(cwd + a), AbsPath(cwd + b), c)
    requires var base, d := Cleared(t, cwd + a, cwd + b), TargetFolder(t, cwd + a, cwd + b);
      HasFolder(base, d) &&
      Fits(Keys(base, d), Last(Source(t, cwd + a)), LandedKey(t, cwd + a, cwd + b, base),
           WantedName(t, cwd + a, cwd + b))
    ensures var after :=
        Cp(t, ResolveRelativePath(AbsPath(cwd), Join(a, '/')), ResolveRelativePath(AbsPath(cwd), Join(b, '/')), c);
      var place := if ResolveFolder(t, AbsPath(cwd + b)).Some? then cwd + b + [Last(a)] else cwd + b;
      var source, target := StatOf(t, cwd + a + rest), StatOf(after, place + rest);
      && (source.Some? <==> target.Some?)
      && (source.Some? ==> source.value.content == target.value.content && StatOf(after, cwd + a + rest) == source)
  {
    TypedNames(cwd, a);
    TypedNames(cwd, b);
    LastTyped(cwd, a);
    PlaceOf(t, cwd + a, cwd + b);
    CpShowsSource(t, cwd + a, cwd + b, c, rest);
  }

  /** Where the target stands, as names from the root. */
  lemma PlaceOf<L>(t: Tree<L>, sp: seq<string>, dp: seq<string>)
    requires Operands(t, sp, dp) && dp != []
    ensures FolderParts(t, dp) + [WantedName(t, sp, dp)] ==
      if ResolveFolder(t, AbsPath(dp)).Some? then dp + [Last(sp)] else dp
  {
    if !ResolveFolder(t, AbsPath(dp)).Some? { InitAndLast(dp); }
  }

  lemma LastTyped(cwd: seq<string>, a: seq<string>)
    requires a != []
    ensures Last(cwd + a) == Last(a)
  {
  }

  /** mv with operands typed relative to the current folder: where it does its work, the target shows the moved subtree,
      object for object, and no content is lost. */
  lemma MvTyped<L>(t: Tree<L>, cwd: seq<string>, a: seq<string>, b: seq<string>, rest: seq<string>)
    requires GoodNames(cwd) && GoodNames(a) && GoodNames(b) && a != [] && b != []
    requires Operands(t, cwd + a, cwd + b) && OneTarget(t, cwd + a, cwd + b) && SpareSource(t, cwd + a, cwd + b)
    requires !(Source(t, cwd + a) <= TargetFolder(t, cwd + a, cwd + b))
    requires var base, d := Cleared(t, cwd + a, cwd + b), TargetFolder(t, cwd + a, cwd + b);
      HasFolder(base, d) &&
      (d == Init(Source(t, cwd + a)) ||
       Fits(Keys(base, d), Last(Source(t, cwd + a)), LandedKey(t, cwd + a, cwd + b, base),
            WantedName(t, cwd + a, cwd + b)))
    ensures var base, s := Cleared(t, cwd + a, cwd + b), Source(t, cwd + a);
      var after :=
        Mv(t, ResolveRelativePath(AbsPath(cwd), Join(a, '/')), ResolveRelativePath(AbsPath(cwd), Join(b, '/')));
      var place := if ResolveFolder(t, AbsPath(cwd + b)).Some? then cwd + b + [Last(a)] else cwd + b;
      && WF(base) && Has(base, s) && WF(Get(base, s))
      && (StatOf(after, place + rest).Some? <==> StatOf(Get(base, s), rest).Some?)
      && (StatOf(after, place + rest).Some? ==>
            var moved, was := StatOf(after, place + rest).value, StatOf(Get(base, s), rest).value;
            moved.id == was.id && moved.content == was.content)
      && (Locate(after, cwd + a) == None <==> AloneAt(base, s))
      && Contents(after) == Contents(base)
  {
    TypedNames(cwd, a);
    TypedNames(cwd, b);
    LastTyped(cwd, a);
    PlaceOf(t, cwd + a, cwd + b);
    MvDelivers(t, cwd + a, cwd + b, rest, []);
  }
}
