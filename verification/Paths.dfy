/** Path strings of the virtual file system and the segments they normalise to
    (desktop-shell/js/modules/vfs.js, desktop-shell/js/modules/terminal.js). */
module Paths {
  import opened Text

  /** A name that one path segment can spell. */
  predicate GoodName(s: string)
  {
    s != "" && s != "." && s != ".." && '/' !in s
  }

  predicate GoodNames(names: seq<string>)
  {
    forall n :: n in names ==> GoodName(n)
  }

  /** The non-empty, non-"." segments of a path string. */
  function Segments(path: string): seq<string>
  {
    DropVoid(Split(path, '/'))
  }

  function DropVoid(parts: seq<string>): seq<string>
  {
    if parts == [] then []
    else (if parts[0] == "" || parts[0] == "." then [] else [parts[0]]) + DropVoid(parts[1..])
  }

  /** ".." pops, everything else pushes; popping an empty stack does nothing. */
  function Normalize(stack: seq<string>, segments: seq<string>): seq<string>
    decreases |segments|
  {
    if segments == [] then stack
    else Normalize(Push(stack, segments[0]), segments[1..])
  }

  function Push(stack: seq<string>, segment: string): seq<string>
  {
    if segment != ".." then stack + [segment]
    else if stack == [] then [] else stack[..|stack| - 1]
  }

  /** What a path string means: the names to descend through from the root. */
  function Parts(path: string): seq<string>
  {
    Normalize([], Segments(path))
  }

  function AbsPath(names: seq<string>): string
  {
    "/" + Join(names, '/')
  }

  function ChildPath(parent: string, name: string): string
  {
    if parent == "/" then "/" + name else parent + "/" + name
  }

  /** The normalisation loop shared by resolvePath and getParentAndName. */
  method NormalizeParts(path: string) returns (resolved: seq<string>)
    ensures resolved == Parts(path)
  {
    var parts := Segments(path);
    resolved := [];
    var i := 0;
    while i < |parts|
      invariant 0 <= i <= |parts|
      invariant Normalize(resolved, parts[i..]) == Parts(path)
    {
      assert parts[i..][1..] == parts[i + 1..];
      if parts[i] == ".." {
        if |resolved| > 0 { resolved := resolved[..|resolved| - 1]; }
      } else {
        resolved := resolved + [parts[i]];
      }
      i := i + 1;
    }
  }

  /* ---------- laws ---------- */

  lemma {:induction false} DropVoidConcat(a: seq<string>, b: seq<string>)
    ensures DropVoid(a + b) == DropVoid(a) + DropVoid(b)
  {
    if a == [] {
      assert a + b == b;
    } else {
      assert (a + b)[1..] == a[1..] + b;
      DropVoidConcat(a[1..], b);
    }
  }

  lemma {:induction false} DropVoidSegments(parts: seq<string>)
    requires forall p :: p in parts ==> '/' !in p
    ensures forall p :: p in DropVoid(parts) ==> p != "" && p != "." && '/' !in p
  {
    if parts != [] { DropVoidSegments(parts[1..]); }
  }

  lemma {:induction false} DropVoidGood(names: seq<string>)
    requires GoodNames(names)
    ensures DropVoid(names) == names
  {
    if names != [] {
      assert names[0] in names;
      DropVoidGood(names[1..]);
      assert names == [names[0]] + names[1..];
    }
  }

  lemma {:induction false} NormalizeConcat(stack: seq<string>, a: seq<string>, b: seq<string>)
    ensures Normalize(stack, a + b) == Normalize(Normalize(stack, a), b)
    decreases |a|
  {
    if a == [] {
      assert a + b == b;
    } else {
      assert (a + b)[1..] == a[1..] + b;
      NormalizeConcat(Push(stack, a[0]), a[1..], b);
    }
  }

  lemma {:induction false} NormalizeGood(stack: seq<string>, names: seq<string>)
    requires GoodNames(names)
    ensures Normalize(stack, names) == stack + names
    decreases |names|
  {
    if names != [] {
      assert names[0] in names;
      NormalizeGood(stack + [names[0]], names[1..]);
      assert stack + [names[0]] + names[1..] == stack + names;
    }
  }

  lemma {:induction false} NormalizeKeepsGood(stack: seq<string>, segments: seq<string>)
    requires GoodNames(stack)
    requires forall p :: p in segments ==> p != "" && p != "." && '/' !in p
    ensures GoodNames(Normalize(stack, segments))
    decreases |segments|
  {
    if segments != [] {
      var s := segments[0];
      assert s in segments;
      assert s != ".." ==> GoodName(s);
      forall n | n in Push(stack, s) ensures GoodName(n) {}
      forall p | p in segments[1..] ensures p in segments {}
      NormalizeKeepsGood(Push(stack, s), segments[1..]);
    }
  }

  /** Normalised parts never contain an empty segment, ".", ".." or a slash. */
  lemma PartsAreGood(path: string)
    ensures GoodNames(Parts(path))
  {
    SplitPartsLackSeparator(path, '/');
    DropVoidSegments(Split(path, '/'));
    NormalizeKeepsGood([], Segments(path));
  }

  /** Appending a segment to a path string: the second path continues where the first one ends. */
  lemma PartsConcat(a: string, b: string)
    ensures Parts(a + "/" + b) == Normalize(Parts(a), Segments(b))
  {
    SplitConcat(a, b, '/');
    DropVoidConcat(Split(a, '/'), Split(b, '/'));
    NormalizeConcat([], Segments(a), Segments(b));
  }

  lemma PartsOfRoot()
    ensures Segments("/") == [] && Parts("/") == [] && Parts("") == []
  {
    SplitConcat("", "", '/');
    assert "" + "/" + "" == "/";
    assert Split("", '/') + Split("", '/') == ["", ""];
    assert DropVoid([""]) == [] && DropVoid(["", ""]) == DropVoid(["", ""][1..]);
  }

  /** A canonical path string spells exactly the names it was built from. */
  lemma PartsOfAbsPath(names: seq<string>)
    requires GoodNames(names)
    ensures Parts(AbsPath(names)) == names
  {
    if names == [] {
      PartsOfRoot();
      assert AbsPath(names) == "/";
    } else {
      SplitJoin(names, '/');
      PartsOfRoot();
      PartsConcat("", Join(names, '/'));
      assert "" + "/" + Join(names, '/') == AbsPath(names);
      DropVoidGood(names);
      NormalizeGood([], names);
      assert [] + names == names;
    }
  }

  /** A good name is one segment, and it is pushed. */
  lemma GoodSegment(stack: seq<string>, name: string)
    requires GoodName(name)
    ensures Normalize(stack, Segments(name)) == stack + [name]
  {
    SplitSegment(name, '/');
    DropVoidGood([name]);
    NormalizeGood(stack, [name]);
  }

  /** Joining one good name to any path string descends one level from where that string leads. */
  lemma PartsOfChildPath(parent: string, name: string)
    requires GoodName(name)
    ensures Parts(ChildPath(parent, name)) == Parts(parent) + [name]
  {
    GoodSegment(Parts(parent), name);
    if parent == "/" {
      PartsOfRoot();
      GoodSegment(Parts(""), name);
      PartsConcat("", name);
      assert "" + "/" + name == "/" + name;
    } else {
      PartsConcat(parent, name);
    }
  }

  /* ---------- what a path string means, slash by slash ---------- */

  /** One name further: nothing and "." stay, ".." goes up and stays at the root, any other name goes down. */
  function Stepped(names: seq<string>, segment: string): seq<string>
  {
    if segment == "" || segment == "." then names
    else if segment == ".." then (if names == [] then [] else names[..|names| - 1])
    else names + [segment]
  }

  /** These meanings of path strings follow their text: a string without a slash is one name from the root, and what
      stands after the last slash is one name further. */
  ghost predicate ReadsPaths(meaning: string -> seq<string>)
  {
    && (forall s: string :: '/' !in s ==> meaning(s) == Stepped([], s))
    && (forall a: string, s: string :: '/' !in s ==> meaning(a + "/" + s) == Stepped(meaning(a), s))
  }

  lemma OneSegment(stack: seq<string>, s: string)
    requires '/' !in s
    ensures Normalize(stack, Segments(s)) == Stepped(stack, s)
  {
    SplitSegment(s, '/');
    assert Segments(s) == DropVoid([s]) && [s][1..] == [];
    if s != "" && s != "." {
      assert Segments(s) == [s];
      assert Normalize(Push(stack, s), [s][1..]) == Push(stack, s);
    }
  }

  /** After any path string, the root included: a slash or "/." changes nothing, "/.." goes up one level and stays at
      the root, and any other name goes down one level. */
  lemma PartsStep(path: string, segment: string)
    requires '/' !in segment
    ensures Parts(segment) == Stepped([], segment)
    ensures Parts(path + "/" + segment) == Stepped(Parts(path), segment)
  {
    OneSegment([], segment);
    OneSegment(Parts(path), segment);
    PartsConcat(path, segment);
  }

  lemma DotsApart(path: string)
    ensures path + "/" + ".." == path + "/.."
  {
    assert "/" + ".." == "/..";
  }

  /** "/.." after any path string goes up one level, and stays at the root. */
  lemma UpOne(path: string)
    ensures Parts(path + "/..") == if Parts(path) == [] then [] else Parts(path)[..|Parts(path)| - 1]
  {
    PartsStep(path, "..");
    DotsApart(path);
  }

  /** "/." and a slash at the end change nothing. */
  lemma StayPut(path: string)
    ensures Parts(path + "/.") == Parts(path) && Parts(path + "/") == Parts(path)
  {
    PartsStep(path, ".");
    PartsStep(path, "");
    assert path + "/" + "." == path + "/.";
    assert path + "/" + "" == path + "/";
  }

  lemma LastSlash(s: string) returns (a: string, b: string)
    requires '/' in s
    ensures s == a + "/" + b && '/' !in b
  {
    var n := |s| - 1;
    if s[n] == '/' {
      a, b := s[..n], "";
    } else {
      var init := s[..n];
      assert s == init + [s[n]];
      var rest;
      a, rest := LastSlash(init);
      b := rest + [s[n]];
      assert a + "/" + b == a + "/" + rest + [s[n]];
    }
  }

  /** And there is only one such meaning: the names that a path string normalises to. */
  lemma {:induction false} PartsAreTheMeaning(meaning: string -> seq<string>, path: string)
    requires ReadsPaths(meaning)
    ensures ReadsPaths(Parts) && meaning(path) == Parts(path)
    decreases |path|
  {
    forall s: string | '/' !in s ensures Parts(s) == Stepped([], s) { PartsStep("", s); }
    forall a: string, s: string | '/' !in s ensures Parts(a + "/" + s) == Stepped(Parts(a), s) { PartsStep(a, s); }
    if '/' in path {
      var a, s := LastSlash(path);
      PartsAreTheMeaning(meaning, a);
    }
  }

  lemma FoldedDots(c: char)
    ensures LowerChar(c) == '.' <==> c == '.'
    ensures LowerChar(c) == '/' <==> c == '/'
  {
  }

  /** Folding case neither makes nor breaks a good name. */
  lemma GoodUpToCase(a: string, b: string)
    requires Lower(a) == Lower(b) && GoodName(a)
    ensures GoodName(b)
  {
    assert |a| == |Lower(a)| == |b|;
    forall i | 0 <= i < |a|
      ensures (a[i] == '.' <==> b[i] == '.') && (a[i] == '/' <==> b[i] == '/')
    {
      assert Lower(a)[i] == LowerChar(a[i]) && Lower(b)[i] == LowerChar(b[i]);
      FoldedDots(a[i]);
      FoldedDots(b[i]);
    }
  }
}
