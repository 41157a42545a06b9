/** The virtual file system as the source keeps it: node objects updated in place
    (desktop-shell/js/modules/vfs.js). The ghost field `tree` says which tree the objects form, and
    every method is proved to turn it into the tree that VfsSpec prescribes. */
module Vfs {
  import opened Text
  import opened Paths
  import opened Options
  import opened Trees
  import opened CopyNames
  import opened VfsSpec

  /** The fields of one node object. */
  datatype Record = Record(isFile: bool, name: string, orig: string, content: string,
                           keys: seq<string>, children: map<string, Node>)

  class Node {
    const isFile: bool
    var name: string
    var orig: string
    var content: string
    var keys: seq<string>
    var children: map<string, Node>

    ghost function Fields(): Record
      reads this
    {
      Record(isFile, name, orig, content, keys, children)
    }

    constructor File(name: string, content: string)
      ensures Fields() == Record(true, name, "", content, [], map[])
    {
      this.isFile := true;
      this.name, this.orig, this.content := name, "", content;
      this.keys, this.children := [], map[];
    }

    constructor Folder(name: string, keys: seq<string>, children: map<string, Node>)
      ensures Fields() == Record(false, name, "", "", keys, children)
    {
      this.isFile := false;
      this.name, this.orig, this.content := name, "", "";
      this.keys, this.children := keys, children;
    }

    /** Assignment of a property: a new key goes last, an old one keeps its place. */
    method SetChild(key: string, child: Node)
      modifies this
      ensures Fields() == old(Fields()).(
        keys := if key in old(children) then old(keys) else old(keys) + [key],
        children := old(children)[key := child])
    {
      if key !in children { keys := keys + [key]; }
      children := children[key := child];
    }

    method DeleteChild(key: string)
      modifies this
      ensures Fields() == old(Fields()).(keys := Without(old(keys), key), children := old(children) - {key})
    {
      keys := Without(keys, key);
      children := children - {key};
    }
  }

  /* ---------- which tree a set of objects holds ---------- */

  /** A picture of the heap: what the fields of some objects are. */
  type Image = map<Node, Record>

  ghost predicate Mirrors(m: Image)
    reads m.Keys
  {
    forall n | n in m :: n.Fields() == m[n]
  }

  lemma MirrorsSum(m: Image, n: Image)
    requires Mirrors(m) && Mirrors(n)
    ensures Mirrors(m + n)
  {
  }

  /** What the object of a node must record, under the name it goes by. */
  ghost function Fields(t: Tree<Node>, name: string): Record
  {
    match t
    case File(_, orig, content) => Record(true, name, orig, content, [], map[])
    case Folder(_, orig, keys, kids) => Record(false, name, orig, "", keys, map k | k in kids :: kids[k].id)
  }

  /** In this picture the objects hold the tree; every node but the topmost is named by its key. */
  ghost predicate Stored(m: Image, t: Tree<Node>, name: string)
  {
    && t.id in m
    && m[t.id] == Fields(t, name)
    && (t.Folder? ==> forall k | k in t.kids :: Stored(m, t.kids[k], k))
  }

  lemma {:induction false} StoredObjects(m: Image, t: Tree<Node>, name: string)
    requires Stored(m, t, name)
    ensures Objects(t) <= m.Keys
    decreases t
  {
    if t.Folder? {
      forall o | o in Objects(t) ensures o in m {
        if o != t.id {
          var k :| k in t.kids && o in Objects(t.kids[k]);
          StoredObjects(m, t.kids[k], k);
        }
      }
    }
  }

  lemma {:induction false} StoredFrame(m: Image, m': Image, t: Tree<Node>, name: string)
    requires Stored(m, t, name)
    requires forall o | o in Objects(t) :: o in m' && o in m && m'[o] == m[o]
    ensures Stored(m', t, name)
    decreases t
  {
    if t.Folder? {
      forall k | k in t.kids ensures Stored(m', t.kids[k], k) {
        ObjectsOfKid(t, k);
        StoredFrame(m, m', t.kids[k], k);
      }
    }
  }

  function NameOf(p: Path, name: string): string
  {
    if p == [] then name else Last(p)
  }

  lemma {:induction false} StoredAt(m: Image, t: Tree<Node>, name: string, p: Path)
    requires Stored(m, t, name) && Has(t, p)
    ensures Stored(m, Get(t, p), NameOf(p, name))
    decreases |p|
  {
    if p != [] {
      StoredAt(m, t.kids[p[0]], p[0], p[1..]);
      assert p[1..] != [] ==> Last(p[1..]) == Last(p);
    }
  }

  lemma FieldsSetKid(t: Tree<Node>, name: string, k: string, v: Tree<Node>)
    requires t.Folder? && k in t.kids && v.id == t.kids[k].id
    ensures Fields(t.(kids := t.kids[k := v]), name) == Fields(t, name)
  {
    var kids := t.kids[k := v];
    assert (map j | j in kids :: kids[j].id) == (map j | j in t.kids :: t.kids[j].id);
  }

  lemma StoredSetKid(m: Image, m': Image, t: Tree<Node>, name: string, k: string, v: Tree<Node>)
    requires Stored(m, t, name) && Unshared(t) && t.Folder? && k in t.kids
    requires v.id == t.kids[k].id && Stored(m', v, k)
    requires forall o | o in Objects(t) - Objects(t.kids[k]) :: o in m && o in m' && m'[o] == m[o]
    ensures Stored(m', t.(kids := t.kids[k := v]), name)
  {
    forall j | j in t.kids && j != k ensures Stored(m', t.kids[j], j) {
      ObjectsOfKid(t, j);
      StoredFrame(m, m', t.kids[j], j);
    }
    FieldsSetKid(t, name, k, v);
  }

  /** If outside the subtree at p nothing changed, and there the objects now hold u, then together
      they hold the graft of u at p. */
  lemma NameBelow(p: Path, name: string)
    requires p != []
    ensures NameOf(p[1..], p[0]) == NameOf(p, name)
  {
  }

  lemma {:induction false} StoredGraft(m: Image, m': Image, t: Tree<Node>, name: string, p: Path, u: Tree<Node>)
    requires Stored(m, t, name) && Has(t, p) && Unshared(t)
    requires u.id == Get(t, p).id && Stored(m', u, NameOf(p, name))
    requires forall o | o in Objects(t) - Objects(Get(t, p)) :: o in m && o in m' && m'[o] == m[o]
    ensures Stored(m', Graft(t, p, u), name) && Graft(t, p, u).id == t.id
    decreases |p|
  {
    if p != [] {
      var k := p[0];
      var s := t.kids[k];
      var g := Graft(t, p, u);
      ObjectsAt(s, p[1..]);
      ObjectsOfKid(t, k);
      NameBelow(p, name);
      StoredGraft(m, m', s, k, p[1..], u);
      StoredSetKid(m, m', t, name, k, g.kids[k]);
    }
  }

  /* ---------- cloneNode ---------- */

  /** u is a proper copy of s, held by the pictured objects under the given name. */
  ghost predicate CloneOf(m: Image, u: Tree<Node>, s: Tree<Node>, name: string)
  {
    Stored(m, u, name) && WF(u) && Unshared(u) && IsCopy(u, s) && Objects(u) <= m.Keys
  }

  /** These children are copies of those of s. */
  ghost predicate KidsCloned(m: Image, s: Tree<Node>, newChildren: map<string, Node>, kids: map<string, Tree<Node>>)
  {
    && s.Folder? && newChildren.Keys == kids.Keys && kids.Keys <= s.kids.Keys
    && (forall k | k in kids :: newChildren[k] == kids[k].id)
    && forall k | k in kids :: CloneOf(m, kids[k], s.kids[k], k)
  }

  /** No two of these trees share an object. */
  ghost predicate KidsApart(kids: map<string, Tree<Node>>)
  {
    forall j, k | j in kids && k in kids && j != k :: Objects(kids[j]) !! Objects(kids[k])
  }

  /** The children of s named so far are copied, in objects of their own. */
  ghost predicate ClonedChildren(m: Image, s: Tree<Node>, done: seq<string>, newChildren: map<string, Node>,
                                 kids: map<string, Tree<Node>>)
  {
    kids.Keys == SetOf(done) && KidsCloned(m, s, newChildren, kids) && KidsApart(kids)
  }

  lemma ClonedOneMore(m: Image, s: Tree<Node>, done: seq<string>, newChildren: map<string, Node>,
                      kids: map<string, Tree<Node>>, key: string, v: Tree<Node>, mv: Image)
    requires ClonedChildren(m, s, done, newChildren, kids)
    requires key in s.kids && key !in done && CloneOf(mv, v, s.kids[key], key) && m.Keys !! mv.Keys
    ensures ClonedChildren(m + mv, s, done + [key], newChildren[key := v.id], kids[key := v])
  {
    OneMoreKey(done, key);
    KidsFrame(m, mv, s, newChildren, kids);
    CloneFrame(mv, m + mv, v, s.kids[key], key);
    OneMoreCloned(m + mv, s, newChildren, kids, key, v);
    OneMoreApart(m.Keys, kids, key, v);
  }

  lemma OneMoreKey(done: seq<string>, key: string)
    ensures SetOf(done + [key]) == SetOf(done) + {key}
  {
  }

  lemma KidsFrame(m: Image, mv: Image, s: Tree<Node>, newChildren: map<string, Node>, kids: map<string, Tree<Node>>)
    requires KidsCloned(m, s, newChildren, kids) && m.Keys !! mv.Keys
    ensures KidsCloned(m + mv, s, newChildren, kids) && forall k | k in kids :: Objects(kids[k]) <= m.Keys
  {
    forall k | k in kids ensures CloneOf(m + mv, kids[k], s.kids[k], k) && Objects(kids[k]) <= m.Keys {
      CloneFrame(m, m + mv, kids[k], s.kids[k], k);
    }
  }

  lemma OneMoreCloned(m: Image, s: Tree<Node>, newChildren: map<string, Node>, kids: map<string, Tree<Node>>,
                      key: string, v: Tree<Node>)
    requires KidsCloned(m, s, newChildren, kids) && key in s.kids && CloneOf(m, v, s.kids[key], key)
    ensures KidsCloned(m, s, newChildren[key := v.id], kids[key := v])
  {
  }

  lemma OneMoreApart(made: set<Node>, kids: map<string, Tree<Node>>, key: string, v: Tree<Node>)
    requires (forall k | k in kids :: Objects(kids[k]) <= made) && Objects(v) !! made && KidsApart(kids)
    ensures KidsApart(kids[key := v])
  {
  }

  lemma CloneFrame(m: Image, m': Image, u: Tree<Node>, s: Tree<Node>, name: string)
    requires CloneOf(m, u, s, name) && forall o | o in m :: o in m' && m'[o] == m[o]
    ensures CloneOf(m', u, s, name)
  {
    StoredFrame(m, m', u, name);
  }

  lemma RenamedClone(m: Image, c: Tree<Node>, s: Tree<Node>, name: string, newName: string)
    requires CloneOf(m, c, s, name)
    ensures c.id in m && CloneOf(m[c.id := m[c.id].(name := newName)], c, s, newName)
  {
    RenameStored(m, c, name, newName);
  }

  /** Copies of all children, under a new folder object, make a copy of the folder. */
  lemma CopyAssembles(m: Image, c: Node, s: Tree<Node>, name: string, newChildren: map<string, Node>,
                      kids: map<string, Tree<Node>>)
    requires s.Folder? && WF(s) && ClonedChildren(m, s, s.keys, newChildren, kids) && c !in m
    ensures CloneOf(m[c := Record(false, name, "", "", s.keys, newChildren)], Tree.Folder(c, "", s.keys, kids), s, name)
  {
    var m' := m[c := Record(false, name, "", "", s.keys, newChildren)];
    var u := Tree.Folder(c, "", s.keys, kids);
    forall k | k in kids ensures Stored(m, kids[k], k) && IsCopy(kids[k], s.kids[k]) {
      assert CloneOf(m, kids[k], s.kids[k], k);
    }
    KidsStored(m, m', c, s.keys, name, newChildren, kids);
    StoredObjects(m', u, name);
    KidsMakeTree(m, c, s, newChildren, kids);
    CopiesOfKids(u, s);
  }

  lemma KidsMakeTree(m: Image, c: Node, s: Tree<Node>, newChildren: map<string, Node>, kids: map<string, Tree<Node>>)
    requires s.Folder? && WF(s) && ClonedChildren(m, s, s.keys, newChildren, kids) && c !in m
    ensures WF(Tree.Folder(c, "", s.keys, kids)) && Unshared(Tree.Folder(c, "", s.keys, kids))
  {
    forall k | k in kids ensures WF(kids[k]) && Unshared(kids[k]) && Objects(kids[k]) <= m.Keys {
      assert CloneOf(m, kids[k], s.kids[k], k);
    }
  }

  lemma KidsStored(m: Image, m': Image, c: Node, keys: seq<string>, name: string, newChildren: map<string, Node>,
                   kids: map<string, Tree<Node>>)
    requires c !in m && m' == m[c := Record(false, name, "", "", keys, newChildren)]
    requires newChildren.Keys == kids.Keys
    requires forall k | k in kids :: newChildren[k] == kids[k].id && Stored(m, kids[k], k)
    ensures Stored(m', Tree.Folder(c, "", keys, kids), name)
  {
    forall k | k in kids ensures Stored(m', kids[k], k) {
      StoredObjects(m, kids[k], k);
      StoredFrame(m, m', kids[k], k);
    }
    assert (map k | k in kids :: kids[k].id) == newChildren;
  }

  lemma CopiesOfKids(u: Tree<Node>, s: Tree<Node>)
    requires u.Folder? && s.Folder? && u.orig == "" && u.keys == s.keys && u.kids.Keys == s.kids.Keys
    requires forall k | k in u.kids :: IsCopy(u.kids[k], s.kids[k])
    ensures IsCopy(u, s)
  {
    assert (map k | k in u.kids :: Erase(u.kids[k])) == (map k | k in s.kids :: Blank(s.kids[k]));
  }

  /** cloneNode: a copy in new objects, keys in the same order. */
  method Clone(n: Node, ghost m: Image, ghost s: Tree<Node>, ghost name: string)
    returns (c: Node, ghost u: Tree<Node>, ghost made: Image)
    requires Mirrors(m) && Stored(m, s, name) && WF(s) && n == s.id
    ensures Mirrors(made) && fresh(made.Keys)
    ensures u.id == c && CloneOf(made, u, s, name)
    decreases s, 2
  {
    if n.isFile {
      c := new Node.File(n.name, n.content);
      u := Tree.File(c, "", n.content);
      made := map[c := c.Fields()];
    } else {
      var newChildren, kids, below := CloneChildren(n, m, s, name);
      c := new Node.Folder(n.name, n.keys, newChildren);
      u := Tree.Folder(c, "", s.keys, kids);
      made := below[c := c.Fields()];
      CopyAssembles(below, c, s, name, newChildren, kids);
    }
  }

  /** The loop of cloneNode over the children of a folder. */
  method CloneChildren(n: Node, ghost m: Image, ghost s: Tree<Node>, ghost name: string)
    returns (newChildren: map<string, Node>, ghost kids: map<string, Tree<Node>>, ghost made: Image)
    requires Mirrors(m) && Stored(m, s, name) && WF(s) && n == s.id && s.Folder?
    ensures Mirrors(made) && fresh(made.Keys)
    ensures ClonedChildren(made, s, s.keys, newChildren, kids)
    decreases s, 1
  {
    newChildren, kids, made := map[], map[], map[];
    NothingCloned(s);
    var keys := n.keys;
    for i := 0 to |keys|
      invariant Mirrors(m) && n.Fields() == m[n]
      invariant Mirrors(made) && fresh(made.Keys) && ClonedChildren(made, s, keys[..i], newChildren, kids)
    {
      NextKey(keys, i);
      newChildren, kids, made := CloneOneMore(n.children[keys[i]], m, s, keys[..i], keys[i], newChildren, kids, made);
    }
    assert keys[..|keys|] == keys;
  }

  lemma NothingCloned(s: Tree<Node>)
    requires s.Folder?
    ensures ClonedChildren(map[], s, [], map[], map[])
  {
  }

  lemma NextKey(keys: seq<string>, i: nat)
    requires i < |keys|
    ensures keys[..i + 1] == keys[..i] + [keys[i]] && (Distinct(keys) ==> keys[i] !in keys[..i])
  {
  }

  /** One turn of the loop. */
  method CloneOneMore(n: Node, ghost m: Image, ghost s: Tree<Node>, ghost done: seq<string>, key: string,
                      children: map<string, Node>, ghost kids: map<string, Tree<Node>>, ghost made: Image)
    returns (newChildren: map<string, Node>, ghost newKids: map<string, Tree<Node>>, ghost after: Image)
    requires Mirrors(m) && s.Folder? && key in s.kids && Stored(m, s.kids[key], key) && WF(s.kids[key])
      && n == s.kids[key].id
    requires Mirrors(made) && key !in done && ClonedChildren(made, s, done, children, kids)
    ensures Mirrors(after) && fresh(after.Keys - made.Keys)
    ensures ClonedChildren(after, s, done + [key], newChildren, newKids)
    decreases s, 0
  {
    var child, v, mv := Clone(n, m, s.kids[key], key);
    assert made.Keys !! mv.Keys;
    ClonedOneMore(made, s, done, children, kids, key, v, mv);
    MirrorsSum(made, mv);
    newChildren, newKids, after := children[key := child], kids[key := v], made + mv;
  }

  /* ---------- child assignment and deletion ---------- */

  /** The picture after child `u.id` is assigned under the key. */
  ghost function WithChild(r: Record, key: string, child: Node): Record
  {
    r.(keys := if key in r.children then r.keys else r.keys + [key], children := r.children[key := child])
  }

  ghost function WithoutChild(r: Record, key: string): Record
  {
    r.(keys := Without(r.keys, key), children := r.children - {key})
  }

  lemma FieldsPut(f: Tree<Node>, name: string, key: string, u: Tree<Node>)
    requires f.Folder?
    ensures Fields(Put(f, key, u), name) == WithChild(Fields(f, name), key, u.id)
  {
    var kids := f.kids[key := u];
    assert (map k | k in kids :: kids[k].id) == (map k | k in f.kids :: f.kids[k].id)[key := u.id];
  }

  lemma FieldsDrop(f: Tree<Node>, name: string, key: string)
    requires f.Folder?
    ensures Fields(Drop(f, key), name) == WithoutChild(Fields(f, name), key)
  {
    var kids := f.kids - {key};
    assert (map k | k in kids :: kids[k].id) == (map k | k in f.kids :: f.kids[k].id) - {key};
  }

  lemma PutStored(m: Image, f: Tree<Node>, name: string, key: string, u: Tree<Node>)
    requires f.Folder? && Unshared(f) && Stored(m, f, name) && Stored(m, u, key) && f.id !in Objects(u)
    ensures Stored(m[f.id := WithChild(m[f.id], key, u.id)], Put(f, key, u), name)
  {
    var m' := m[f.id := WithChild(m[f.id], key, u.id)];
    StoredObjects(m, u, key);
    StoredFrame(m, m', u, key);
    forall k | k in f.kids ensures Stored(m', f.kids[k], k) {
      StoredObjects(m, f.kids[k], k);
      StoredFrame(m, m', f.kids[k], k);
    }
    FieldsPut(f, name, key, u);
  }

  lemma DropStored(m: Image, f: Tree<Node>, name: string, key: string)
    requires f.Folder? && Unshared(f) && Stored(m, f, name)
    ensures Stored(m[f.id := WithoutChild(m[f.id], key)], Drop(f, key), name)
  {
    var m' := m[f.id := WithoutChild(m[f.id], key)];
    forall k | k in f.kids ensures Stored(m', f.kids[k], k) {
      StoredObjects(m, f.kids[k], k);
      StoredFrame(m, m', f.kids[k], k);
    }
    FieldsDrop(f, name, key);
  }

  lemma GraftStored(m: Image, t: Tree<Node>, d: Path, g: Tree<Node>, r: Record)
    requires Stored(m, t, "/") && WF(t) && Unshared(t) && Has(t, d) && g.id == Get(t, d).id
    requires Stored(m[g.id := r], g, NameOf(d, "/"))
    ensures Stored(m[g.id := r], Graft(t, d, g), "/") && Graft(t, d, g).id == t.id
  {
    StoredObjects(m, t, "/");
    ObjectsAt(t, d);
    StoredGraft(m, m[g.id := r], t, "/", d, g);
  }

  /** The pictured objects below the root form this tree, every object used once. */
  ghost predicate Sound(m: Image, t: Tree<Node>, root: Node)
  {
    t.id == root && t.Folder? && WF(t) && Unshared(t) && Stored(m, t, "/")
  }

  lemma InsertSound(m: Image, t: Tree<Node>, root: Node, d: Path, key: string, u: Tree<Node>)
    requires Sound(m, t, root) && HasFolder(t, d)
    requires Stored(m, u, key) && WF(u) && Unshared(u) && Objects(t) !! Objects(u)
    ensures var n := Get(t, d).id;
      n in m && Sound(m[n := WithChild(m[n], key, u.id)], Insert(t, d, key, u), root)
  {
    var f := Get(t, d);
    StoredAt(m, t, "/", d);
    ObjectsAt(t, d);
    PutStored(m, f, NameOf(d, "/"), key, u);
    GraftStored(m, t, d, Put(f, key, u), WithChild(m[f.id], key, u.id));
    InsertWF(t, d, key, u);
    ObjectsInsert(t, d, key, u);
  }

  lemma RemoveSound(m: Image, t: Tree<Node>, root: Node, d: Path, key: string)
    requires Sound(m, t, root) && HasFolder(t, d) && key in Get(t, d).kids
    ensures var n := Get(t, d).id;
      n in m && Sound(m[n := WithoutChild(m[n], key)], Remove(t, d, key), root)
  {
    var f := Get(t, d);
    StoredAt(m, t, "/", d);
    ObjectsAt(t, d);
    DropStored(m, f, NameOf(d, "/"), key);
    GraftStored(m, t, d, Drop(f, key), WithoutChild(m[f.id], key));
    RemoveWF(t, d, key);
    ObjectsRemove(t, d, key);
  }

  /** A larger picture, or one changed elsewhere, shows the same tree. */
  lemma SoundFrame(m: Image, m': Image, t: Tree<Node>, root: Node)
    requires Sound(m, t, root)
    requires forall o | o in Objects(t) :: o in m && o in m' && m'[o] == m[o]
    ensures Sound(m', t, root)
  {
    StoredFrame(m, m', t, "/");
  }

  lemma RenameStored(m: Image, t: Tree<Node>, name: string, newName: string)
    requires Stored(m, t, name) && Unshared(t)
    ensures Stored(m[t.id := m[t.id].(name := newName)], t, newName)
  {
    var m' := m[t.id := m[t.id].(name := newName)];
    if t.Folder? {
      forall k | k in t.kids ensures Stored(m', t.kids[k], k) {
        StoredObjects(m, t.kids[k], k);
        StoredFrame(m, m', t.kids[k], k);
      }
    }
  }

  /** The key search loop that every operation repeats. */
  method FindKey(keys: seq<string>, name: string) returns (found: Option<string>)
    ensures found == Find(keys, name)
  {
    for i := 0 to |keys|
      invariant Find(keys, name) == Find(keys[i..], name)
    {
      assert keys[i..][1..] == keys[i + 1..];
      if Lower(keys[i]) == Lower(name) { return Some(keys[i]); }
    }
    found := None;
  }

  /** One step of the descent in resolvePath: either the next name is found, or the path leads nowhere. */
  lemma LocateStep<L>(t: Tree<L>, parts: seq<string>, i: nat, p: Path)
    requires WF(t) && i < |parts| && Locate(t, parts[..i]) == Some(p)
    ensures Has(t, p)
    ensures HasFolder(t, p) && Find(Get(t, p).keys, parts[i]).Some? ==>
      var k := Find(Get(t, p).keys, parts[i]).value;
      && k in Get(t, p).kids
      && Locate(t, parts[..i + 1]) == Some(p + [k])
      && At(t, p + [k]) == Some(Get(t, p).kids[k])
    ensures !(HasFolder(t, p) && Find(Get(t, p).keys, parts[i]).Some?) ==> Locate(t, parts) == None
  {
    LocateIsPath(t, parts[..i]);
    GetWF(t, p);
    assert parts[..i + 1] == parts[..i] + [parts[i]];
    LocateConcat(t, parts[..i], [parts[i]]);
    assert parts == parts[..i] + parts[i..];
    LocateConcat(t, parts[..i], parts[i..]);
    if HasFolder(t, p) && Find(Get(t, p).keys, parts[i]).Some? {
      var k := Find(Get(t, p).keys, parts[i]).value;
      FindIsKey(Get(t, p).keys, parts[i]);
      AtChild(t, p, k);
      assert [k] + [] == [k];
    }
  }

  class FileSystem {
    const root: Node
    ghost var tree: Tree<Node>
    ghost var image: Image

    ghost predicate Valid()
      reads this, image.Keys
    {
      Mirrors(image) && Sound(image, tree, root)
    }

    constructor ()
      ensures Valid() && fresh(image.Keys)
      ensures tree == Tree.Folder(root, "", [], map[])
    {
      var r := new Node.Folder("/", [], map[]);
      root := r;
      tree := Tree.Folder(r, "", [], map[]);
      image := map[r := r.Fields()];
    }

    /** What the object of the node at p records. */
    lemma FieldsAt(p: Path)
      requires Valid() && Has(tree, p)
      ensures Get(tree, p).id in image && Get(tree, p).id.Fields() == Fields(Get(tree, p), NameOf(p, "/"))
    {
      StoredAt(image, tree, "/", p);
    }

    /** The node and the canonical path that a path string resolves to. */
    method ResolvePath(path: string) returns (r: Option<(Node, string)>)
      requires Valid()
      ensures r == match Resolve(tree, path) case None => None case Some(p) => Some((Get(tree, p).id, AbsPath(p)))
    {
      var parts := NormalizeParts(path);
      var current := root;
      var pathSegments: seq<string> := [];
      for i := 0 to |parts|
        invariant Valid() && Locate(tree, parts[..i]) == Some(pathSegments)
        invariant Has(tree, pathSegments) && Get(tree, pathSegments).id == current
      {
        FieldsAt(pathSegments);
        LocateStep(tree, parts, i, pathSegments);
        if current.isFile { return None; }
        var foundKey := FindKey(current.keys, parts[i]);
        if foundKey.None? { return None; }
        current := current.children[foundKey.value];
        pathSegments := pathSegments + [foundKey.value];
      }
      assert parts[..|parts|] == parts;
      r := Some((current, AbsPath(pathSegments)));
    }

    method GetParentAndName(fullPath: string) returns (parent: Node?, parentPath: string, name: string)
      requires Valid()
      ensures name == if Parts(fullPath) == [] then "" else Last(Parts(fullPath))
      ensures match ParentOf(tree, fullPath)
        case None => parent == null
        case Some(d) => parent == Get(tree, d).id && parentPath == AbsPath(d)
    {
      var resolvedParts := NormalizeParts(fullPath);
      if |resolvedParts| == 0 { return null, "", ""; }
      name := Last(resolvedParts);
      resolvedParts := Init(resolvedParts);
      PartsAreGood(fullPath);
      PartsOfAbsPath(resolvedParts);
      var parentRes := ResolvePath("/" + Join(resolvedParts, '/'));
      if parentRes.None? { return null, "", name; }
      return parentRes.value.0, parentRes.value.1, name;
    }

    /** n.children[key] = child, for an object in view. */
    method Assign(n: Node, key: string, child: Node)
      requires Mirrors(image) && n in image
      modifies n, this`image
      ensures Mirrors(image) && image == old(image)[n := WithChild(old(image)[n], key, child)]
    {
      n.SetChild(key, child);
      image := image[n := WithChild(image[n], key, child)];
    }

    /** delete n.children[key], for an object in view. */
    method Unassign(n: Node, key: string)
      requires Mirrors(image) && n in image
      modifies n, this`image
      ensures Mirrors(image) && image == old(image)[n := WithoutChild(old(image)[n], key)]
    {
      n.DeleteChild(key);
      image := image[n := WithoutChild(image[n], key)];
    }

    /** children[key] = child, on the folder at d. */
    method Attach(parent: Node, key: string, child: Node, ghost d: Path, ghost u: Tree<Node>)
      requires Valid() && HasFolder(tree, d) && Get(tree, d).id == parent
      requires u.id == child && Stored(image, u, key) && WF(u) && Unshared(u) && Objects(tree) !! Objects(u)
      modifies this`tree, this`image, parent
      ensures Valid() && tree == Insert(old(tree), d, key, u) && image.Keys == old(image.Keys)
    {
      InsertSound(image, tree, root, d, key, u);
      AssignInto(parent, key, child, Insert(tree, d, key, u));
    }

    /** n.children[key] = child, where the picture after it is known to show a tree. */
    method AssignInto(n: Node, key: string, child: Node, ghost t: Tree<Node>)
      requires Mirrors(image) && n in image && Sound(image[n := WithChild(image[n], key, child)], t, root)
      modifies this`tree, this`image, n
      ensures Valid() && tree == t && image.Keys == old(image.Keys)
    {
      Assign(n, key, child);
      tree := t;
    }

    /** delete children[key], on the folder at d. */
    method Detach(parent: Node, key: string, ghost d: Path)
      requires Valid() && HasFolder(tree, d) && Get(tree, d).id == parent && key in Get(tree, d).kids
      modifies this`tree, this`image, parent
      ensures Valid() && tree == Remove(old(tree), d, key) && image.Keys == old(image.Keys)
      ensures forall o | o in old(image) && o != parent :: image[o] == old(image[o])
    {
      RemoveSound(image, tree, root, d, key);
      UnassignFrom(parent, key, Remove(tree, d, key));
    }

    /** delete n.children[key], where the picture after it is known to show a tree. */
    method UnassignFrom(n: Node, key: string, ghost t: Tree<Node>)
      requires Mirrors(image) && n in image && Sound(image[n := WithoutChild(image[n], key)], t, root)
      modifies this`tree, this`image, n
      ensures Valid() && tree == t && image == old(image)[n := WithoutChild(old(image)[n], key)]
    {
      Unassign(n, key);
      tree := t;
    }

    /** Taking newly allocated objects into view. */
    ghost method Learn(more: Image)
      requires Valid() && Mirrors(more) && more.Keys !! image.Keys
      modifies this`image
      ensures Valid() && image == old(image) + more && Objects(tree) !! more.Keys
    {
      StoredObjects(image, tree, "/");
      SoundFrame(image, image + more, tree, root);
      MirrorsSum(image, more);
      image := image + more;
    }

    /** node.name = newName, on a subtree that is detached from the root. */
    method SetName(node: Node, newName: string, ghost sub: Tree<Node>, ghost name: string)
      requires Valid() && Stored(image, sub, name) && sub.id == node && Unshared(sub)
      requires Objects(sub) !! Objects(tree)
      modifies this`image, node
      ensures Valid() && image.Keys == old(image.Keys) && Stored(image, sub, newName)
    {
      StoredObjects(image, tree, "/");
      RenameStored(image, sub, name, newName);
      SoundFrame(image, image[node := image[node].(name := newName)], tree, root);
      StoreName(node, newName);
    }

    /** Attaching a subtree made of objects that are not yet in view. */
    method AttachNew(parent: Node, key: string, child: Node, ghost d: Path, ghost u: Tree<Node>, ghost made: Image)
      requires Valid() && HasFolder(tree, d) && Get(tree, d).id == parent
      requires Mirrors(made) && made.Keys !! image.Keys && Objects(u) <= made.Keys
      requires u.id == child && Stored(made, u, key) && WF(u) && Unshared(u)
      modifies this`tree, this`image, parent
      ensures Valid() && tree == Insert(old(tree), d, key, u) && image.Keys == old(image.Keys) + made.Keys
    {
      StoredObjects(image, tree, "/");
      ObjectsAt(tree, d);
      Learn(made);
      StoredFrame(made, image, u, key);
      Attach(parent, key, child, d, u);
    }

    /** The checks that mkdir and createFile share: the parent folder, or null to refuse. */
    method ParentForNew(parentPath: string, name: string) returns (parent: Node?)
      requires Valid()
      ensures match ResolveFolder(tree, parentPath)
        case None => parent == null
        case Some(d) => parent == if Find(Keys(tree, d), name).Some? then null else Get(tree, d).id
      ensures parent != null ==> parent in image
    {
      var parentRes := ResolvePath(parentPath);
      if parentRes.None? { return null; }
      parent := parentRes.value.0;
      FieldsAt(Resolve(tree, parentPath).value);
      if parent.isFile { return null; }
      var duplicate := FindKey(parent.keys, name);
      if duplicate.Some? { return null; }
    }

    method NewFolder(name: string) returns (child: Node, ghost own: Image)
      ensures fresh(child) && Mirrors(own) && own.Keys == {child}
      ensures var u := Tree.Folder(child, "", [], map[]);
        Stored(own, u, name) && WF(u) && Unshared(u) && Objects(u) == {child}
    {
      child := new Node.Folder(name, [], map[]);
      own := map[child := child.Fields()];
    }

    method NewFile(name: string, content: string) returns (child: Node, ghost own: Image)
      ensures fresh(child) && Mirrors(own) && own.Keys == {child}
      ensures var u := Tree.File(child, "", content);
        Stored(own, u, name) && WF(u) && Unshared(u) && Objects(u) == {child}
    {
      child := new Node.File(name, content);
      own := map[child := child.Fields()];
    }

    /** A new empty folder under this key of the folder at d. */
    method AddFolder(parent: Node, name: string, ghost d: Path) returns (child: Node)
      requires Valid() && HasFolder(tree, d) && Get(tree, d).id == parent
      modifies this`tree, this`image, parent
      ensures Valid() && fresh(child) && image.Keys == old(image.Keys) + {child}
      ensures tree == Insert(old(tree), d, name, Tree.Folder(child, "", [], map[]))
    {
      ghost var own;
      child, own := NewFolder(name);
      AttachNew(parent, name, child, d, Tree.Folder(child, "", [], map[]), own);
    }

    /** A new file under this key of the folder at d. */
    method AddFile(parent: Node, name: string, content: string, ghost d: Path) returns (child: Node)
      requires Valid() && HasFolder(tree, d) && Get(tree, d).id == parent
      modifies this`tree, this`image, parent
      ensures Valid() && fresh(child) && image.Keys == old(image.Keys) + {child}
      ensures tree == Insert(old(tree), d, name, Tree.File(child, "", content))
    {
      ghost var own;
      child, own := NewFile(name, content);
      AttachNew(parent, name, child, d, Tree.File(child, "", content), own);
    }

    method Mkdir(parentPath: string, folderName: string) returns (ok: bool, ghost made: Node)
      requires Valid()
      modifies this`tree, this`image, image.Keys
      ensures Valid() && fresh(image.Keys - old(image.Keys))
      ensures Outcome(ok, tree) == VfsSpec.Mkdir(old(tree), parentPath, folderName, made)
      ensures ok ==> fresh(made)
    {
      var parent := ParentForNew(parentPath, folderName);
      if parent == null { return false, root; }
      made := AddFolder(parent, folderName, ResolveFolder(tree, parentPath).value);
      return true, made;
    }

    method CreateFile(parentPath: string, fileName: string, content: string) returns (ok: bool, ghost made: Node)
      requires Valid()
      modifies this`tree, this`image, image.Keys
      ensures Valid() && fresh(image.Keys - old(image.Keys))
      ensures Outcome(ok, tree) == VfsSpec.CreateFile(old(tree), parentPath, fileName, content, made)
      ensures ok ==> fresh(made)
    {
      var parent := ParentForNew(parentPath, fileName);
      if parent == null { return false, root; }
      made := AddFile(parent, fileName, content, ResolveFolder(tree, parentPath).value);
      return true, made;
    }

    /** The entry that a path names: the parent folder and the exact key, or null. */
    method FindEntry(fullPath: string) returns (parent: Node?, exactName: string)
      requires Valid()
      ensures match Resolve(tree, fullPath)
        case None => parent == null
        case Some(p) =>
          if p == [] then parent == null
          else
            && HasFolder(tree, Init(p)) && parent == Get(tree, Init(p)).id
            && exactName == Last(p) && exactName in Get(tree, Init(p)).kids
            && Get(tree, Init(p)).kids[exactName] == Get(tree, p)
    {
      ResolveEntry(tree, fullPath);
      PartsAreGood(fullPath);
      assert Parts(fullPath) != [] ==> Last(Parts(fullPath)) in Parts(fullPath);
      var pInfo, _, name := GetParentAndName(fullPath);
      if pInfo == null || name == "" { return null, ""; }
      FieldsAt(ParentOf(tree, fullPath).value);
      var found := FindKey(pInfo.keys, name);
      if found.None? { return null, ""; }
      InitHasFolder(tree, Resolve(tree, fullPath).value);
      return pInfo, found.value;
    }

    method DeletePath(fullPath: string) returns (ok: bool)
      requires Valid()
      modifies this`tree, this`image, image.Keys
      ensures Valid() && image.Keys == old(image.Keys)
      ensures Outcome(ok, tree) == VfsSpec.DeletePath(old(tree), fullPath)
    {
      var parent, exactName := FindEntry(fullPath);
      if parent == null { return false; }
      ghost var p := Resolve(tree, fullPath).value;
      FieldsAt(Init(p));
      Detach(parent, exactName, Init(p));
      return true;
    }

    /** Taking the entry at p off its folder; its subtree stays intact, off the tree. */
    method TakeOff(parent: Node, key: string, ghost p: Path)
      requires Valid() && Has(tree, p) && p != [] && HasFolder(tree, Init(p))
      requires parent == Get(tree, Init(p)).id && key == Last(p) && key in Get(tree, Init(p)).kids
      modifies this`tree, this`image, parent
      ensures Valid() && tree == Remove(old(tree), Init(p), key) && image.Keys == old(image.Keys)
      ensures var sub := old(Get(tree, p));
        Stored(image, sub, key) && WF(sub) && Unshared(sub) && Objects(sub) !! Objects(tree)
        && Objects(sub) <= Objects(old(tree)) && parent !in Objects(sub)
    {
      ghost var t, m := tree, image;
      ghost var sub := Get(t, p);
      InitHasFolder(t, p);
      ObjectsAt(t, p);
      GetWF(t, p);
      StoredAt(m, t, "/", p);
      ObjectsAt(t, Init(p));
      ObjectsRemove(t, Init(p), key);
      FieldsAt(Init(p));
      StoredObjects(m, sub, key);
      Detach(parent, key, Init(p));
      StoredFrame(m, image, sub, key);
    }

    /** Taking an entry off and giving its node another name. */
    method Unhook(parent: Node, key: string, node: Node, newName: string, ghost p: Path)
      requires Valid() && Has(tree, p) && p != [] && HasFolder(tree, Init(p))
      requires parent == Get(tree, Init(p)).id && key == Last(p) && key in Get(tree, Init(p)).kids
      requires node == Get(tree, p).id
      modifies this`tree, this`image, parent, node
      ensures Valid() && tree == Remove(old(tree), Init(p), key) && image.Keys == old(image.Keys)
      ensures var sub := old(Get(tree, p));
        Stored(image, sub, newName) && WF(sub) && Unshared(sub) && Objects(sub) !! Objects(tree)
    {
      ghost var sub := Get(tree, p);
      TakeOff(parent, key, p);
      SetName(node, newName, sub, key);
    }

    method RenamePath(fullPath: string, newName: string) returns (ok: bool)
      requires Valid()
      modifies this`tree, this`image, image.Keys
      ensures Valid() && image.Keys == old(image.Keys)
      ensures Outcome(ok, tree) == VfsSpec.RenamePath(old(tree), fullPath, newName)
    {
      var parent, exactOldName := FindEntry(fullPath);
      if parent == null { return false; }
      ghost var t := tree;
      ghost var p := Resolve(t, fullPath).value;
      FieldsAt(Init(p));
      var sibling := FindKey(parent.keys, newName);
      if sibling.Some? { return false; }
      var node := parent.children[exactOldName];
      MoveEntry(parent, exactOldName, node, parent, newName, p, Init(p));
      return true;
    }

    /** Cloning a node and naming the clone so that it collides with no key of the destination. */
    method CloneFor(src: Node, dest: Node, ghost s: Tree<Node>, ghost name: string)
      returns (cloned: Node, finalName: string, ghost c: Tree<Node>, ghost made: Image)
      requires Valid() && Stored(image, s, name) && WF(s) && s.id == src && dest in image
      ensures Valid() && dest.Fields() == image[dest]
      ensures finalName == FreshName(SetOf(dest.keys), name, s.File?)
      ensures Mirrors(made) && fresh(made.Keys)
      ensures c.id == cloned && CloneOf(made, c, s, finalName)
    {
      cloned, c, made := Clone(src, image, s, name);
      finalName, made := NameClone(cloned, dest.keys, c, s, name, made);
    }

    /** Naming a clone, an object that is not in view, so that it collides with none of the keys. */
    method NameClone(cloned: Node, keys: seq<string>, ghost c: Tree<Node>, ghost s: Tree<Node>, ghost name: string,
                     ghost made: Image)
      returns (finalName: string, ghost after: Image)
      requires Mirrors(made) && c.id == cloned && CloneOf(made, c, s, name)
      modifies cloned
      ensures Mirrors(after) && after.Keys == made.Keys && CloneOf(after, c, s, finalName)
      ensures finalName == FreshName(SetOf(keys), name, s.File?)
    {
      assert cloned.Fields() == Fields(c, name) && c.File? == s.File?;
      finalName := PickName(keys, cloned.name, cloned.isFile);
      RenamedClone(made, c, s, name, finalName);
      cloned.name := finalName;
      after := made[cloned := made[cloned].(name := finalName)];
    }

    /** The checks that copyPath and movePath share: source and destination folder, or null to refuse. */
    method Operands(srcPath: string, destParentPath: string) returns (src: Node?, dest: Node?)
      requires Valid()
      ensures src == null <==> Resolve(tree, srcPath).None? || ResolveFolder(tree, destParentPath).None?
      ensures src == null <==> dest == null
      ensures src != null ==>
        && src == Get(tree, Resolve(tree, srcPath).value).id
        && dest == Get(tree, ResolveFolder(tree, destParentPath).value).id
    {
      var srcRes := ResolvePath(srcPath);
      if srcRes.None? { return null, null; }
      var destRes := ResolvePath(destParentPath);
      if destRes.None? { return null, null; }
      FieldsAt(Resolve(tree, destParentPath).value);
      if destRes.value.0.isFile { return null, null; }
      return srcRes.value.0, destRes.value.0;
    }

    /** The copy is described by the tree `c` of its new objects. */
    method CopyPath(srcPath: string, destParentPath: string) returns (ok: bool, ghost c: Tree<Node>)
      requires Valid()
      modifies this`tree, this`image, image.Keys
      ensures Valid() && fresh(image.Keys - old(image.Keys))
      ensures Outcome(ok, tree) == VfsSpec.CopyPath(old(tree), srcPath, destParentPath, c)
      ensures ok ==> IsCopy(c, Get(old(tree), Resolve(old(tree), srcPath).value))
      ensures WF(c) && (ok ==> Unshared(c) && fresh(Objects(c)))
    {
      var src, dest := Operands(srcPath, destParentPath);
      if src == null { return false, tree; }
      ghost var t := tree;
      ghost var p, d := Resolve(t, srcPath).value, ResolveFolder(t, destParentPath).value;
      StoredAt(image, t, "/", p);
      FieldsAt(d);
      var cloned, finalName, u, made := CloneFor(src, dest, Get(t, p), NameAt(p));
      AttachNew(dest, finalName, cloned, d, u, made);
      return true, u;
    }

    method MovePath(srcPath: string, destParentPath: string) returns (ok: bool)
      requires Valid()
      modifies this`tree, this`image, image.Keys
      ensures Valid() && image.Keys == old(image.Keys)
      ensures Outcome(ok, tree) == VfsSpec.MovePath(old(tree), srcPath, destParentPath)
    {
      var src, dest := Operands(srcPath, destParentPath);
      if src == null { return false; }
      var parent, exactOldName := FindEntry(srcPath);
      if parent == null { return false; }
      ghost var p, d := Resolve(tree, srcPath).value, ResolveFolder(tree, destParentPath).value;
      FieldsAt(Init(p));
      FieldsAt(p);
      FieldsAt(d);
      var node := parent.children[exactOldName];
      var finalName := PickName(dest.keys, node.name, node.isFile);
      MoveEntry(parent, exactOldName, node, dest, finalName, p, d);
      return true;
    }

    /** The updates of movePath. When the destination lies in the moved subtree, the last assignment
        closes a cycle that the root does not reach. */
    method MoveEntry(parent: Node, exactOldName: string, node: Node, dest: Node, finalName: string, ghost p: Path,
                     ghost d: Path)
      requires Valid() && Has(tree, p) && p != [] && HasFolder(tree, Init(p)) && HasFolder(tree, d)
      requires parent == Get(tree, Init(p)).id && exactOldName == Last(p) && exactOldName in Get(tree, Init(p)).kids
      requires node == Get(tree, p).id && dest == Get(tree, d).id
      modifies this`tree, this`image, image.Keys
      ensures Valid() && image.Keys == old(image.Keys)
      ensures tree == if p <= d then Remove(old(tree), Init(p), exactOldName) else Transfer(old(tree), p, d, finalName)
    {
      ghost var sub := Get(tree, p);
      MoveSite(image, tree, p, d);
      Unhook(parent, exactOldName, node, finalName, p);
      Reattach(dest, finalName, node, d, sub, p <= d);
    }

    /** children[finalName] = node, on the destination of a move, wherever that is by now. */
    method Reattach(dest: Node, finalName: string, node: Node, ghost d: Path, ghost sub: Tree<Node>, ghost inside: bool)
      requires Valid() && Stored(image, sub, finalName) && sub.id == node && WF(sub) && Unshared(sub)
      requires Objects(sub) !! Objects(tree)
      requires if inside then dest in Objects(sub) else HasFolder(tree, d) && Get(tree, d).id == dest
      modifies this`tree, this`image, dest
      ensures Valid() && image.Keys == old(image.Keys)
      ensures tree == if inside then old(tree) else Insert(old(tree), d, finalName, sub)
    {
      ReattachSound(image, tree, root, d, finalName, sub, dest, inside);
      AssignInto(dest, finalName, node, if inside then tree else Insert(tree, d, finalName, sub));
    }

    method ListDirectory(path: string) returns (r: Option<seq<Node>>)
      requires Valid()
      ensures r == match ResolveFolder(tree, path)
        case None => None
        case Some(d) => Some(Values(Get(tree, d)))
    {
      var res := ResolvePath(path);
      if res.None? { return None; }
      ghost var p := Resolve(tree, path).value;
      FieldsAt(p);
      var n := res.value.0;
      if n.isFile { return None; }
      var keys, children := n.keys, n.children;
      assert forall i :: 0 <= i < |keys| ==> keys[i] in children;
      r := Some(seq(|keys|, i requires 0 <= i < |keys| && keys[i] in children => children[keys[i]]));
      assert r.value == Values(Get(tree, p));
    }

    method ReadFile(path: string) returns (r: Option<string>)
      requires Valid()
      ensures r == VfsSpec.ReadFile(tree, path)
    {
      var res := ResolvePath(path);
      if res.None? { return None; }
      FieldsAt(Resolve(tree, path).value);
      if !res.value.0.isFile { return None; }
      return Some(res.value.0.content);
    }

    /** node.content = content, on the file at p. */
    method SetContent(node: Node, content: string, ghost p: Path)
      requires Valid() && Has(tree, p) && Get(tree, p).File? && node == Get(tree, p).id
      modifies this`tree, this`image, node
      ensures Valid() && image.Keys == old(image.Keys)
      ensures tree == Graft(old(tree), p, Get(old(tree), p).(content := content))
    {
      FieldsAt(p);
      TouchSound(image, tree, root, p, Get(tree, p).(content := content));
      StoreContent(node, content, Graft(tree, p, Get(tree, p).(content := content)));
    }

    /** n.content = content, where the picture after it is known to show a tree. */
    method StoreContent(n: Node, content: string, ghost t: Tree<Node>)
      requires Mirrors(image) && n in image && Sound(image[n := image[n].(content := content)], t, root)
      modifies n, this`image, this`tree
      ensures Valid() && tree == t && image.Keys == old(image.Keys)
    {
      n.content := content;
      image := image[n := image[n].(content := content)];
      tree := t;
    }

    /** n.originalPath = orig, where the picture after it is known to show a tree. */
    method StoreOrig(n: Node, orig: string, ghost t: Tree<Node>)
      requires Mirrors(image) && n in image && Sound(image[n := image[n].(orig := orig)], t, root)
      modifies n, this`image, this`tree
      ensures Valid() && tree == t && image.Keys == old(image.Keys)
    {
      n.orig := orig;
      image := image[n := image[n].(orig := orig)];
      tree := t;
    }

    method StoreName(n: Node, name: string)
      requires Mirrors(image) && n in image
      modifies n, this`image
      ensures Mirrors(image) && image == old(image)[n := old(image)[n].(name := name)]
    {
      n.name := name;
      image := image[n := image[n].(name := name)];
    }

    /** node.originalPath = orig, on the node at p. */
    method SetOrig(node: Node, orig: string, ghost p: Path)
      requires Valid() && Has(tree, p) && p != [] && node == Get(tree, p).id
      modifies this`tree, this`image, node
      ensures Valid() && image.Keys == old(image.Keys)
      ensures tree == Graft(old(tree), p, Get(old(tree), p).(orig := orig))
    {
      FieldsAt(p);
      TouchSound(image, tree, root, p, Get(tree, p).(orig := orig));
      StoreOrig(node, orig, Graft(tree, p, Get(tree, p).(orig := orig)));
    }

    method WriteFile(path: string, content: string) returns (ok: bool, ghost made: Node)
      requires Valid()
      modifies this`tree, this`image, image.Keys
      ensures Valid() && fresh(image.Keys - old(image.Keys))
      ensures Outcome(ok, tree) == VfsSpec.WriteFile(old(tree), path, content, made)
      ensures made != root ==> fresh(made)
    {
      var res := ResolvePath(path);
      if res.Some? {
        FieldsAt(Resolve(tree, path).value);
        if res.value.0.isFile {
          SetContent(res.value.0, content, Resolve(tree, path).value);
          return true, root;
        }
      }
      ok, made := WriteNew(path, content);
    }

    /** The second half of writeFile, for a path that leads to no file. */
    method WriteNew(path: string, content: string) returns (ok: bool, ghost made: Node)
      requires Valid()
      modifies this`tree, this`image, image.Keys
      ensures Valid() && fresh(image.Keys - old(image.Keys))
      ensures match ParentOf(old(tree), path)
        case None => !ok && tree == old(tree)
        case Some(d) =>
          if Get(old(tree), d).File? then !ok && tree == old(tree)
          else ok && tree == Insert(old(tree), d, Last(Parts(path)), Tree.File(made, "", content))
      ensures ok ==> fresh(made)
      ensures !ok ==> made == root
    {
      var parent, _, name := GetParentAndName(path);
      if parent == null { return false, root; }
      ghost var d := ParentOf(tree, path).value;
      FieldsAt(d);
      if parent.isFile { return false, root; }
      made := AddFile(parent, name, content, d);
      return true, made;
    }

    method Exists(path: string) returns (b: bool)
      requires Valid()
      ensures b == Resolve(tree, path).Some?
    {
      var res := ResolvePath(path);
      return res.Some?;
    }

    method IsFolder(path: string) returns (b: bool)
      requires Valid()
      ensures b == ResolveFolder(tree, path).Some?
    {
      var res := ResolvePath(path);
      if res.None? { return false; }
      FieldsAt(Resolve(tree, path).value);
      return !res.value.0.isFile;
    }
  }

  /** The child objects of a folder, in key order. */
  ghost function Values(f: Tree<Node>): seq<Node>
    requires f.Folder? && WF(f)
  {
    seq(|f.keys|, i requires 0 <= i < |f.keys| => f.kids[f.keys[i]].id)
  }

  /** Changing the content of a file or the mark of any node changes one object. */
  lemma TouchSound(m: Image, t: Tree<Node>, root: Node, p: Path, u: Tree<Node>)
    requires Sound(m, t, root) && Has(t, p)
    requires var s := Get(t, p);
      && u.id == s.id
      && (s.Folder? ==> u.Folder? && u.keys == s.keys && u.kids == s.kids)
      && (s.File? ==> u.File?)
    ensures Sound(m[u.id := Fields(u, NameOf(p, "/"))], Graft(t, p, u), root)
  {
    var s := Get(t, p);
    var m' := m[u.id := Fields(u, NameOf(p, "/"))];
    StoredAt(m, t, "/", p);
    ObjectsAt(t, p);
    GetWF(t, p);
    TouchedStored(m, s, u, NameOf(p, "/"));
    GraftStored(m, t, p, u, Fields(u, NameOf(p, "/")));
    GraftWF(t, p, u);
    ObjectsGraft(t, p, u);
  }

  lemma TouchedStored(m: Image, s: Tree<Node>, u: Tree<Node>, name: string)
    requires Stored(m, s, name) && WF(s) && Unshared(s) && u.id == s.id
    requires s.Folder? ==> u.Folder? && u.keys == s.keys && u.kids == s.kids
    requires s.File? ==> u.File?
    ensures Stored(m[u.id := Fields(u, name)], u, name) && WF(u) && Unshared(u) && Objects(u) == Objects(s)
  {
    if s.Folder? {
      forall k | k in s.kids ensures Stored(m[u.id := Fields(u, name)], s.kids[k], k) {
        StoredObjects(m, s.kids[k], k);
        StoredFrame(m, m[u.id := Fields(u, name)], s.kids[k], k);
      }
    }
  }

  lemma ReattachSound(m: Image, t: Tree<Node>, root: Node, d: Path, key: string, sub: Tree<Node>, dest: Node,
                      inside: bool)
    requires Sound(m, t, root) && Stored(m, sub, key) && WF(sub) && Unshared(sub) && Objects(sub) !! Objects(t)
    requires if inside then dest in Objects(sub) else HasFolder(t, d) && Get(t, d).id == dest
    ensures dest in m
    ensures Sound(m[dest := WithChild(m[dest], key, sub.id)], if inside then t else Insert(t, d, key, sub), root)
  {
    StoredObjects(m, t, "/");
    StoredObjects(m, sub, key);
    if inside {
      SoundFrame(m, m[dest := WithChild(m[dest], key, sub.id)], t, root);
    } else {
      InsertSound(m, t, root, d, key, sub);
    }
  }

  /** What stays in place when the entry at p is taken off: a destination outside it, in its own object. */
  lemma MoveSite(m: Image, t: Tree<Node>, p: Path, d: Path)
    requires Stored(m, t, "/") && Has(t, p) && p != [] && HasFolder(t, d)
    ensures HasFolder(t, Init(p)) && Get(t, Init(p)).id in m && Get(t, p).id in m && Get(t, d).id in m
    ensures p <= d ==> Get(t, d).id in Objects(Get(t, p))
    ensures !(p <= d) ==>
      var t1 := Remove(t, Init(p), Last(p));
      HasFolder(t1, d) && Get(t1, d).id == Get(t, d).id
  {
    InitHasFolder(t, p);
    StoredAt(m, t, "/", p);
    StoredAt(m, t, "/", Init(p));
    StoredAt(m, t, "/", d);
    if p <= d { CycleSite(t, p, d); } else { RemoveKeepsFolder(t, p, d); RemoveKeepsObject(t, p, d); }
  }

  /** A destination below p is stored in the subtree at p. */
  lemma CycleSite(t: Tree<Node>, p: Path, d: Path)
    requires Has(t, p) && HasFolder(t, d) && p <= d
    ensures Get(t, d).id in Objects(Get(t, p))
  {
    var r := d[|p|..];
    assert d == p + r;
    AtConcat(t, p, r);
    ObjectsAt(Get(t, p), r);
  }

  lemma RemoveKeepsObject(t: Tree<Node>, p: Path, d: Path)
    requires Has(t, p) && p != [] && HasFolder(t, d) && !(p <= d)
    ensures HasFolder(t, Init(p)) && Has(Remove(t, Init(p), Last(p)), d)
    ensures Get(Remove(t, Init(p), Last(p)), d).id == Get(t, d).id
  {
    RemoveKeepsFolder(t, p, d);
    GraftAt(t, Init(p), Drop(Get(t, Init(p)), Last(p)), d);
  }
}
