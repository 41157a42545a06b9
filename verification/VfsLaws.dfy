/** What the operations of the virtual file system promise, for all trees and all path strings. */
module VfsLaws {
  import opened Text
  import opened Paths
  import opened Options
  import opened Trees
  import opened CopyNames
  import opened VfsSpec

  /** What a list of names shows: where it leads, which object is there, and its content if a file. */
  datatype Stat<L> = Stat(path: Path, id: L, content: Option<string>)

  ghost function StatAt<L>(t: Tree<L>, p: Path): Stat<L>
    requires Has(t, p)
  {
    var n := Get(t, p);
    Stat(p, n.id, if n.File? then Some(n.content) else None)
  }

  ghost function StatOf<L>(t: Tree<L>, parts: seq<string>): Option<Stat<L>>
    requires WF(t)
    decreases |parts|
  {
    if parts == [] then Some(StatAt(t, []))
    else if t.File? then None
    else
      match Find(t.keys, parts[0])
      case None => None
      case Some(k) =>
        FindIsKey(t.keys, parts[0]);
        Below([k], StatOf(t.kids[k], parts[1..]))
  }

  ghost function Below<L>(p: Path, s: Option<Stat<L>>): Option<Stat<L>>
  {
    match s case None => None case Some(st) => Some(st.(path := p + st.path))
  }

  /** These names lead to p or pass through it. */
  ghost predicate Through<L>(t: Tree<L>, p: Path, parts: seq<string>)
    requires WF(t)
  {
    |parts| >= |p| && Locate(t, parts[..|p|]) == Some(p)
  }

  /* ---------- resolution ---------- */

  /** What names show is the node that they locate. */
  lemma {:induction false} StatLocates<L>(t: Tree<L>, parts: seq<string>)
    requires WF(t)
    ensures Locate(t, parts).Some? ==> Has(t, Locate(t, parts).value)
    ensures StatOf(t, parts) == match Locate(t, parts) case None => None case Some(p) => Some(StatAt(t, p))
    decreases |parts|
  {
    LocateIsPath(t, parts);
    if parts != [] && t.Folder? {
      FindIsKey(t.keys, parts[0]);
      match Find(t.keys, parts[0])
      case None =>
      case Some(k) =>
        StatLocates(t.kids[k], parts[1..]);
        match Locate(t.kids[k], parts[1..]) case None => case Some(r) => assert ([k] + r)[1..] == r;
    }
  }

  /** Resolution is canonical: the path it returns resolves to itself, in every tree, even among keys
      that are equal up to case. */
  lemma ResolutionIsCanonical<L>(t: Tree<L>, path: string)
    requires WF(t)
    ensures Resolve(t, path).Some? ==> Resolve(t, AbsPath(Resolve(t, path).value)) == Resolve(t, path)
  {
    if Resolve(t, path).Some? {
      var p := Resolve(t, path).value;
      var parts := Parts(path);
      PartsAreGood(path);
      LocateIsPath(t, parts);
      forall n | n in p ensures GoodName(n) {
        var i :| 0 <= i < |p| && p[i] == n;
        assert parts[i] in parts;
        GoodUpToCase(parts[i], n);
      }
      PartsOfAbsPath(p);
      LocateUpToCase(t, parts, p);
    }
  }

  /** "/.." leads to the parent that getParentAndName finds, from the root to the root; so from where a path leads, to
      the folder it is in. (The names are dropped before anything is looked up: the last of them need lead nowhere.)
      "/." and a slash at the end change nothing. */
  lemma UpLeadsToParent<L>(t: Tree<L>, path: string)
    requires WF(t)
    ensures Resolve(t, path + "/..") == if Parts(path) == [] then Some([]) else ParentOf(t, path)
    ensures Resolve(t, path).Some? ==>
      Resolve(t, path + "/..") == Some(if Resolve(t, path).value == [] then [] else Init(Resolve(t, path).value))
    ensures Resolve(t, path + "/.") == Resolve(t, path) && Resolve(t, path + "/") == Resolve(t, path)
  {
    UpOne(path);
    StayPut(path);
    if Resolve(t, path).Some? {
      LocateIsPath(t, Parts(path));
      if Parts(path) != [] { LocatePrefix(t, Parts(path), |Parts(path)| - 1); }
    }
  }

  lemma LocatePrefix<L>(t: Tree<L>, parts: seq<string>, n: nat)
    requires WF(t) && n <= |parts| && Locate(t, parts).Some?
    ensures |Locate(t, parts).value| == |parts|
    ensures Locate(t, parts[..n]) == Some(Locate(t, parts).value[..n])
  {
    LocateIsPath(t, parts);
    assert parts[..n] + parts[n..] == parts;
    LocateConcat(t, parts[..n], parts[n..]);
    LocateIsPath(t, parts[..n]);
  }

  /** Looking below a located node. */
  lemma StatBelow<L>(t: Tree<L>, a: seq<string>, b: seq<string>)
    requires WF(t) && Locate(t, a).Some?
    ensures Has(t, Locate(t, a).value) && WF(Get(t, Locate(t, a).value))
    ensures StatOf(t, a + b) == Below(Locate(t, a).value, StatOf(Get(t, Locate(t, a).value), b))
  {
    var p := Locate(t, a).value;
    LocateIsPath(t, a);
    GetWF(t, p);
    LocateConcat(t, a, b);
    StatLocates(t, a + b);
    StatLocates(Get(t, p), b);
    if Locate(Get(t, p), b).Some? { AtConcat(t, p, Locate(Get(t, p), b).value); }
  }

  /* ---------- edits, seen through names ---------- */

  /** A graft that keeps the node's own object shows below p what the new subtree shows, and elsewhere
      what was there. */
  lemma StatGraft<L>(t: Tree<L>, p: Path, u: Tree<L>, parts: seq<string>)
    requires WF(t) && Has(t, p) && WF(u)
    ensures WF(Graft(t, p, u))
    ensures StatOf(Graft(t, p, u), parts) ==
      if Through(t, p, parts) then Below(p, StatOf(u, parts[|p|..])) else StatOf(t, parts)
  {
    var g := Graft(t, p, u);
    GraftWF(t, p, u);
    if Through(t, p, parts) {
      var a, b := parts[..|p|], parts[|p|..];
      assert a + b == parts;
      LocateGraftThrough(t, p, u, a);
      GraftGraft(t, p, u, u);
      StatBelow(g, a, b);
    } else {
      LocateGraftPast(t, p, u, parts);
      LocateIsPath(t, parts);
      StatLocates(t, parts);
      StatLocates(g, parts);
      if Locate(t, parts).Some? {
        var q := Locate(t, parts).value;
        assert p <= q ==> |p| <= |q| && q[..|p|] == p;
        if p <= q { LocatePrefix(t, parts, |p|); }
        StatAtGraft(t, p, u, q);
      }
    }
  }

  /** A node that is not at or below p keeps its object, and a file its content. */
  lemma StatAtGraft<L>(t: Tree<L>, p: Path, u: Tree<L>, q: Path)
    requires Has(t, p) && Has(t, q) && !(p <= q)
    ensures Has(Graft(t, p, u), q) && StatAt(Graft(t, p, u), q) == StatAt(t, q)
  {
    GraftAt(t, p, u, q);
    if q <= p { assert p[|q|..] != []; }
  }

  lemma StatPut<L>(f: Tree<L>, k: string, u: Tree<L>, parts: seq<string>)
    requires WF(f) && f.Folder? && k !in f.kids && WF(u)
    ensures WF(Put(f, k, u))
    ensures StatOf(Put(f, k, u), parts) ==
      if StatOf(f, parts).Some? then StatOf(f, parts)
      else if parts != [] && Lower(parts[0]) == Lower(k) && Find(f.keys, k) == None
        then Below([k], StatOf(u, parts[1..]))
      else None
  {
    PutWF(f, k, u);
    var g := Put(f, k, u);
    if parts != [] {
      FindAppended(f.keys, k, parts[0]);
      FindIsKey(f.keys, parts[0]);
      FindIsKey(g.keys, parts[0]);
      if Lower(parts[0]) == Lower(k) { FindUpToCase(f.keys, parts[0], k); }
    }
  }

  lemma StatDrop<L>(f: Tree<L>, k: string, parts: seq<string>)
    requires WF(f) && f.Folder? && k in f.kids
    ensures WF(Drop(f, k))
    ensures StatOf(f, parts).Some? && !([k] <= StatOf(f, parts).value.path) ==>
      StatOf(Drop(f, k), parts) == StatOf(f, parts)
    ensures Single(f.keys, k) ==>
      StatOf(Drop(f, k), parts) ==
        if StatOf(f, parts).Some? && [k] <= StatOf(f, parts).value.path then None else StatOf(f, parts)
  {
    DropWF(f, k);
    var g := Drop(f, k);
    if parts != [] {
      FindIsKey(f.keys, parts[0]);
      FindWithout(f.keys, k, parts[0]);
      if StatOf(f, parts).Some? {
        var j := Find(f.keys, parts[0]).value;
        assert StatOf(f, parts).value.path[0] == j;
        assert [k] <= StatOf(f, parts).value.path <==> j == k;
      }
    }
  }

  /** Inserting under a new key changes no name that led somewhere; the names that come to lead
      somewhere are those of the new entry, provided no key already there equals it up to case. */
  lemma StatInsert<L>(t: Tree<L>, d: Path, k: string, u: Tree<L>, parts: seq<string>)
    requires WF(t) && HasFolder(t, d) && k !in Get(t, d).kids && WF(u)
    ensures WF(Insert(t, d, k, u))
    ensures StatOf(Insert(t, d, k, u), parts) ==
      if StatOf(t, parts).Some? then StatOf(t, parts)
      else if Through(t, d, parts) && |parts| > |d| && Lower(parts[|d|]) == Lower(k) && Find(Keys(t, d), k) == None
      then Below(d + [k], StatOf(u, parts[|d| + 1..]))
      else None
  {
    var f := Get(t, d);
    GetWF(t, d);
    PutWF(f, k, u);
    StatGraft(t, d, Put(f, k, u), parts);
    if Through(t, d, parts) {
      var rest := parts[|d|..];
      RestOf(parts, |d|);
      StatBelow(t, parts[..|d|], rest);
      StatPut(f, k, u, rest);
      if rest != [] { BelowBelow(d, [k], StatOf(u, rest[1..])); }
    }
  }

  lemma RestOf(parts: seq<string>, n: nat)
    requires n <= |parts|
    ensures parts[..n] + parts[n..] == parts
    ensures n < |parts| ==> parts[n..][0] == parts[n] && parts[n..][1..] == parts[n + 1..]
  {
  }

  lemma BelowBelow<L>(p: Path, q: Path, s: Option<Stat<L>>)
    ensures Below(p, Below(q, s)) == Below(p + q, s)
  {
    match s case None => case Some(st) => assert p + (q + st.path) == p + q + st.path;
  }

  lemma PrefixShift(d: Path, a: Path, b: Path)
    ensures d + a <= d + b <==> a <= b
  {
    assert (d + b)[|d|..] == b && (d + a)[|d|..] == a;
  }

  /** Names that lead below a folder lead through it. */
  lemma LeadsThrough<L>(t: Tree<L>, d: Path, k: string, parts: seq<string>)
    requires WF(t) && StatOf(t, parts).Some? && d + [k] <= StatOf(t, parts).value.path
    ensures Through(t, d, parts)
  {
    StatLocates(t, parts);
    LocateIsPath(t, parts);
    var q := Locate(t, parts).value;
    assert q[..|d|] == (d + [k])[..|d|] == d;
    LocatePrefix(t, parts, |d|);
  }

  /** Removing an entry leaves every name that led elsewhere; if no sibling equals it up to case, the names
      that led into the entry lead nowhere afterwards. */
  lemma StatRemove<L>(t: Tree<L>, d: Path, k: string, parts: seq<string>)
    requires WF(t) && HasFolder(t, d) && k in Get(t, d).kids
    ensures WF(Remove(t, d, k))
    ensures StatOf(t, parts).Some? && !(d + [k] <= StatOf(t, parts).value.path) ==>
      StatOf(Remove(t, d, k), parts) == StatOf(t, parts)
    ensures Single(Keys(t, d), k) ==>
      StatOf(Remove(t, d, k), parts) ==
        if StatOf(t, parts).Some? && d + [k] <= StatOf(t, parts).value.path then None else StatOf(t, parts)
  {
    var f := Get(t, d);
    GetWF(t, d);
    DropWF(f, k);
    StatGraft(t, d, Drop(f, k), parts);
    if Through(t, d, parts) {
      var rest := parts[|d|..];
      RestOf(parts, |d|);
      StatBelow(t, parts[..|d|], rest);
      StatDrop(f, k, rest);
      if StatOf(f, rest).Some? {
        var r := StatOf(f, rest).value.path;
        PrefixShift(d, [k], r);
      }
    } else if StatOf(t, parts).Some? && d + [k] <= StatOf(t, parts).value.path {
      LeadsThrough(t, d, k, parts);
    }
  }
}
