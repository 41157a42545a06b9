/** Rebuilding the file index (aisd/src/fs/indexer.rs): a recursive walk of a directory tree that fills a table keyed
    by path. Reading a directory or one of its entries may fail at any place. */
module Indexer {
  import opened Text
  import opened Paths

  datatype Meta = Meta(size: nat, mtime: int)

  /** What reading a directory yields: nothing, or entries in the order they come, some of which cannot be read. */
  datatype Listing = Unreadable | Listing(items: seq<Item>)

  datatype Item =
    | BadItem
    | FileItem(name: string, meta: Meta)
    | DirItem(name: string, meta: Meta, inside: Listing)

  datatype Row = Row(name: string, isDir: bool, size: nat, mtime: int)

  function RowOf(item: Item): Row
    requires !item.BadItem?
  {
    Row(item.name, item.DirItem?, item.meta.size, item.meta.mtime)
  }

  const PRUNED := {".git", "target", "node_modules", ".cache", ".local/share/Trash"}

  predicate ShouldDescend(name: string)
  {
    name !in PRUNED
  }

  function Slashes(s: string): (r: string)
    ensures |r| == |s| && forall i :: 0 <= i < |s| ==> r[i] == if s[i] == '\\' then '/' else s[i]
  {
    if s == "" then "" else [if s[0] == '\\' then '/' else s[0]] + Slashes(s[1..])
  }

  /** The key of the entry that these names lead to from the root. */
  function KeyOf(path: seq<string>): string
  {
    Slashes(Join(path, '/'))
  }

  datatype Table = Table(rows: map<string, Row>, count: nat)

  function Insert(t: Table, path: seq<string>, row: Row): Table
  {
    Table(t.rows[KeyOf(path) := row], t.count + 1)
  }

  /** The table after some entries of a directory, and whether they could all be read. */
  function IndexItems(t: Table, prefix: seq<string>, items: seq<Item>): (Table, bool)
    decreases items
  {
    if items == [] then (t, true)
    else if items[0].BadItem? then (t, false)
    else IndexItems(IndexOne(t, prefix, items[0]), prefix, items[1..])
  }

  /** One entry, and what is below it; failures below are forgotten. */
  function IndexOne(t: Table, prefix: seq<string>, item: Item): Table
    requires !item.BadItem?
    decreases item
  {
    var path := prefix + [item.name];
    var u := Insert(t, path, RowOf(item));
    if item.DirItem? && ShouldDescend(item.name) then IndexDir(u, path, item.inside).0 else u
  }

  function IndexDir(t: Table, prefix: seq<string>, dir: Listing): (Table, bool)
    decreases dir
  {
    if dir.Unreadable? then (t, false) else IndexItems(t, prefix, dir.items)
  }

  function Rebuild(root: Listing): (Table, bool)
  {
    IndexDir(Table(map[], 0), [], root)
  }

  /* ---------- the walk ---------- */

  datatype Visit = Visit(path: seq<string>, row: Row)

  /** The entries met, in order. */
  function Walk(prefix: seq<string>, items: seq<Item>): seq<Visit>
    decreases items
  {
    if items == [] || items[0].BadItem? then []
    else WalkOne(prefix, items[0]) + Walk(prefix, items[1..])
  }

  function WalkOne(prefix: seq<string>, item: Item): seq<Visit>
    requires !item.BadItem?
    decreases item
  {
    var path := prefix + [item.name];
    [Visit(path, RowOf(item))] +
      if item.DirItem? && ShouldDescend(item.name) && item.inside.Listing? then Walk(path, item.inside.items) else []
  }

  function WalkDir(dir: Listing): seq<Visit>
  {
    if dir.Unreadable? then [] else Walk([], dir.items)
  }

  /** Inserting a run of visits. */
  function Overlay(t: Table, visits: seq<Visit>): (r: Table)
    ensures r.count == t.count + |visits|
    decreases |visits|
  {
    if visits == [] then t else Overlay(Insert(t, visits[0].path, visits[0].row), visits[1..])
  }

  lemma {:induction false} OverlayConcat(t: Table, a: seq<Visit>, b: seq<Visit>)
    ensures Overlay(t, a + b) == Overlay(Overlay(t, a), b)
    decreases |a|
  {
    if a == [] {
      assert a + b == b;
    } else {
      assert (a + b)[1..] == a[1..] + b;
      OverlayConcat(Insert(t, a[0].path, a[0].row), a[1..], b);
    }
  }

  predicate AllRead(items: seq<Item>)
  {
    forall item <- items :: !item.BadItem?
  }

  /** Indexing inserts the walk, and fails exactly on an entry of the directory itself. */
  lemma {:induction false} IndexItemsLaw(t: Table, prefix: seq<string>, items: seq<Item>)
    ensures IndexItems(t, prefix, items) == (Overlay(t, Walk(prefix, items)), AllRead(items))
    decreases items
  {
    if items != [] && !items[0].BadItem? {
      var u := IndexOne(t, prefix, items[0]);
      IndexOneLaw(t, prefix, items[0]);
      IndexItemsLaw(u, prefix, items[1..]);
      OverlayConcat(t, WalkOne(prefix, items[0]), Walk(prefix, items[1..]));
      assert AllRead(items) <==> AllRead(items[1..]) by { assert items == [items[0]] + items[1..]; }
    } else if items != [] {
      assert items[0] in items;
    }
  }

  lemma {:induction false} IndexOneLaw(t: Table, prefix: seq<string>, item: Item)
    requires !item.BadItem?
    ensures IndexOne(t, prefix, item) == Overlay(t, WalkOne(prefix, item))
    decreases item
  {
    var path := prefix + [item.name];
    var first := Visit(path, RowOf(item));
    var u := Insert(t, path, RowOf(item));
    assert Overlay(t, [first]) == u;
    if item.DirItem? && ShouldDescend(item.name) && item.inside.Listing? {
      IndexItemsLaw(u, path, item.inside.items);
      OverlayConcat(t, [first], Walk(path, item.inside.items));
    }
  }

  /* ---------- what the walk meets ---------- */

  /** The i-th entry is read: none before it fails. */
  ghost predicate Read(items: seq<Item>, i: int)
  {
    0 <= i < |items| && forall j :: 0 <= j <= i ==> !items[j].BadItem?
  }

  /** Directories that the index does not look into. The last of these is no name of a directory. */
  predicate IsLeftOut(name: string)
  {
    || name == ".git" || name == "target" || name == "node_modules" || name == ".cache"
    || name == ".local/share/Trash"
  }

  lemma LeftOutIsPruned(name: string)
    ensures IsLeftOut(name) <==> !ShouldDescend(name)
  {
  }

  /** These names lead to an entry with this row, through directories that are not pruned and were read that far. */
  ghost predicate Reaches(items: seq<Item>, path: seq<string>, row: Row)
    decreases items
  {
    path != [] && exists i :: ReachesVia(items, path, row, i)
  }

  ghost predicate ReachesVia(items: seq<Item>, path: seq<string>, row: Row, i: int)
    requires path != []
    decreases items, 0
  {
    && Read(items, i) && items[i].name == path[0]
    && if |path| == 1 then row == Row(path[0], items[i].DirItem?, items[i].meta.size, items[i].meta.mtime)
       else items[i].DirItem? && !IsLeftOut(path[0]) && items[i].inside.Listing?
            && Reaches(items[i].inside.items, path[1..], row)
  }

  lemma {:induction false} WalkExtends(prefix: seq<string>, items: seq<Item>)
    ensures forall v <- Walk(prefix, items) :: Extends(prefix, v.path)
    decreases items
  {
    if items != [] && !items[0].BadItem? {
      WalkOneExtends(prefix, items[0]);
      WalkExtends(prefix, items[1..]);
    }
  }

  ghost predicate Extends(prefix: seq<string>, path: seq<string>)
  {
    |prefix| < |path| && path[..|prefix|] == prefix
  }

  lemma {:induction false} WalkOneExtends(prefix: seq<string>, item: Item)
    requires !item.BadItem?
    ensures forall v <- WalkOne(prefix, item) :: Extends(prefix, v.path) && v.path[|prefix|] == item.name
    decreases item
  {
    var path := prefix + [item.name];
    if item.DirItem? && item.inside.Listing? {
      WalkExtends(path, item.inside.items);
      forall v <- Walk(path, item.inside.items) ensures Extends(prefix, v.path) && v.path[|prefix|] == item.name {
        assert v.path[..|path|][..|prefix|] == prefix;
        assert v.path[..|path|][|prefix|] == item.name;
      }
    }
  }

  lemma ReachesSplit(items: seq<Item>, path: seq<string>, row: Row)
    requires path != []
    ensures Reaches(items, path, row) <==>
      items != [] && !items[0].BadItem? && (ReachesVia(items, path, row, 0) || Reaches(items[1..], path, row))
  {
    var rest := if items == [] then [] else items[1..];
    forall i | ReachesVia(items, path, row, i) && i > 0 ensures Reaches(items[1..], path, row) {
      assert ReachesVia(rest, path, row, i - 1);
    }
    if items != [] && !items[0].BadItem? {
      forall i | ReachesVia(rest, path, row, i) ensures Reaches(items, path, row) {
        assert ReachesVia(items, path, row, i + 1);
      }
    }
  }

  /** The walk meets exactly the entries that can be reached. */
  lemma {:induction false} WalkMeets(prefix: seq<string>, items: seq<Item>, path: seq<string>, row: Row)
    requires path != []
    ensures Visit(prefix + path, row) in Walk(prefix, items) <==> Reaches(items, path, row)
    decreases items
  {
    ReachesSplit(items, path, row);
    if items != [] && !items[0].BadItem? {
      WalkOneMeets(prefix, items, path, row);
      WalkMeets(prefix, items[1..], path, row);
    }
  }

  lemma {:induction false} WalkOneMeets(prefix: seq<string>, items: seq<Item>, path: seq<string>, row: Row)
    requires path != [] && items != [] && !items[0].BadItem?
    ensures Visit(prefix + path, row) in WalkOne(prefix, items[0]) <==> ReachesVia(items, path, row, 0)
    decreases items, 0
  {
    var item := items[0];
    var below := prefix + [item.name];
    var v := Visit(prefix + path, row);
    WalkOneExtends(prefix, item);
    LeftOutIsPruned(item.name);
    assert v.path[|prefix|] == path[0];
    if path[0] == item.name {
      assert v.path == below + path[1..];
      if |path| == 1 {
        assert v.path == below;
        if item.DirItem? && item.inside.Listing? { WalkExtends(below, item.inside.items); }
        assert v in WalkOne(prefix, item) <==> row == RowOf(item);
      } else if item.DirItem? && item.inside.Listing? {
        assert v != Visit(below, RowOf(item));
        WalkMeets(below, item.inside.items, path[1..], row);
      }
    }
  }

  /** As file systems have it: names are path segments, no two in a directory are the same. */
  ghost predicate WF(items: seq<Item>)
    decreases items
  {
    && (forall i :: 0 <= i < |items| && !items[i].BadItem? ==> GoodName(items[i].name))
    && (forall i, j :: 0 <= i < j < |items| && !items[i].BadItem? && !items[j].BadItem? ==>
          items[i].name != items[j].name)
    && (forall i :: 0 <= i < |items| && items[i].DirItem? && items[i].inside.Listing? ==> WF(items[i].inside.items))
  }

  function PathsOf(visits: seq<Visit>): (paths: seq<seq<string>>)
    ensures |paths| == |visits| && forall i :: 0 <= i < |visits| ==> paths[i] == visits[i].path
  {
    seq(|visits|, i requires 0 <= i < |visits| => visits[i].path)
  }

  /** No path is met twice. */
  lemma {:induction false} WalkDistinct(prefix: seq<string>, items: seq<Item>)
    requires WF(items)
    ensures Distinct(PathsOf(Walk(prefix, items)))
    decreases items
  {
    if items != [] && !items[0].BadItem? {
      var item, rest := items[0], items[1..];
      WalkDistinct(prefix, rest);
      WalkOneDistinct(prefix, item);
      WalkOneExtends(prefix, item);
      forall v <- Walk(prefix, rest) ensures Extends(prefix, v.path) && v.path[|prefix|] != item.name {
        WalkNames(prefix, rest, v);
        var i :| 0 <= i < |rest| && !rest[i].BadItem? && v.path[|prefix|] == rest[i].name;
        assert items[i + 1] == rest[i];
      }
      DistinctConcat(WalkOne(prefix, item), Walk(prefix, rest), prefix, item.name);
    }
  }

  /** The first name below the prefix is that of an entry. */
  lemma {:induction false} WalkNames(prefix: seq<string>, items: seq<Item>, v: Visit)
    requires v in Walk(prefix, items)
    ensures Extends(prefix, v.path)
    ensures exists i :: 0 <= i < |items| && !items[i].BadItem? && v.path[|prefix|] == items[i].name
    decreases items
  {
    WalkOneExtends(prefix, items[0]);
    if v !in WalkOne(prefix, items[0]) {
      WalkNames(prefix, items[1..], v);
      var i :| 0 <= i < |items[1..]| && !items[1..][i].BadItem? && v.path[|prefix|] == items[1..][i].name;
      assert items[i + 1] == items[1..][i];
    }
  }

  lemma DistinctConcat(a: seq<Visit>, b: seq<Visit>, prefix: seq<string>, name: string)
    requires Distinct(PathsOf(a)) && Distinct(PathsOf(b))
    requires forall v <- a :: Extends(prefix, v.path) && v.path[|prefix|] == name
    requires forall v <- b :: Extends(prefix, v.path) && v.path[|prefix|] != name
    ensures Distinct(PathsOf(a + b))
  {
    var p := PathsOf(a + b);
    forall i, j | 0 <= i < j < |p| ensures p[i] != p[j] {
      if j < |a| {
        assert p[i] == PathsOf(a)[i] && p[j] == PathsOf(a)[j];
      } else if i >= |a| {
        assert p[i] == PathsOf(b)[i - |a|] && p[j] == PathsOf(b)[j - |a|];
      } else {
        assert a[i] in a && b[j - |a|] in b;
      }
    }
  }

  lemma {:induction false} WalkOneDistinct(prefix: seq<string>, item: Item)
    requires !item.BadItem? && (item.DirItem? && item.inside.Listing? ==> WF(item.inside.items))
    ensures Distinct(PathsOf(WalkOne(prefix, item)))
    decreases item
  {
    var path := prefix + [item.name];
    if item.DirItem? && item.inside.Listing? {
      WalkDistinct(path, item.inside.items);
      WalkExtends(path, item.inside.items);
      var visits := Walk(path, item.inside.items);
      forall i | 0 <= i < |visits| ensures PathsOf(visits)[i] != path { assert visits[i] in visits; }
    }
  }

  /* ---------- keys ---------- */

  lemma {:induction false} SlashesAreIdle(s: string)
    requires '\\' !in s
    ensures Slashes(s) == s
  {
    if s != "" {
      SlashesAreIdle(s[1..]);
      assert s == [s[0]] + s[1..];
    }
  }

  ghost predicate Plain(path: seq<string>)
  {
    path != [] && forall n <- path :: '/' !in n && '\\' !in n
  }

  /** Without backslashes the key tells the path. */
  lemma KeyTellsPath(path: seq<string>)
    requires Plain(path)
    ensures Split(KeyOf(path), '/') == path
  {
    JoinLacks(path, '/', '\\');
    SlashesAreIdle(Join(path, '/'));
    SplitJoin(path, '/');
  }

  /** No name that is met holds a backslash. */
  ghost predicate NoBackslash(visits: seq<Visit>)
  {
    forall v <- visits :: Plain(v.path)
  }

  function Keys(visits: seq<Visit>): (keys: seq<string>)
    ensures |keys| == |visits| && forall i :: 0 <= i < |visits| ==> keys[i] == KeyOf(visits[i].path)
  {
    seq(|visits|, i requires 0 <= i < |visits| => KeyOf(visits[i].path))
  }

  lemma PlainKeysDistinct(visits: seq<Visit>)
    requires NoBackslash(visits) && Distinct(PathsOf(visits))
    ensures Distinct(Keys(visits))
  {
    var keys := Keys(visits);
    forall i, j | 0 <= i < j < |keys| ensures keys[i] != keys[j] {
      assert visits[i] in visits && visits[j] in visits;
      KeyTellsPath(visits[i].path);
      KeyTellsPath(visits[j].path);
      assert PathsOf(visits)[i] != PathsOf(visits)[j];
    }
  }

  /* ---------- the table ---------- */

  /** The rows are those of the last visit to each key. */
  lemma {:induction false} OverlayRows(visits: seq<Visit>)
    ensures var t := Overlay(Table(map[], 0), visits);
      && t.rows.Keys == SetOf(Keys(visits))
      && (Distinct(Keys(visits)) ==> forall v <- visits :: t.rows[KeyOf(v.path)] == v.row)
  {
    if visits != [] {
      var init, last := visits[..|visits| - 1], visits[|visits| - 1];
      OverlayRows(init);
      assert visits == init + [last];
      OverlayConcat(Table(map[], 0), init, [last]);
      var t, u := Overlay(Table(map[], 0), visits), Overlay(Table(map[], 0), init);
      assert t == Insert(u, last.path, last.row) by {
        assert Overlay(u, [last]) == Overlay(Insert(u, last.path, last.row), [last][1..]);
      }
      assert Keys(visits) == Keys(init) + [KeyOf(last.path)];
      SetOfSnoc(Keys(init), KeyOf(last.path));
      if Distinct(Keys(visits)) {
        KeptRows(visits, u.rows, t.rows);
      }
    }
  }

  lemma KeptRows(visits: seq<Visit>, before: map<string, Row>, after: map<string, Row>)
    requires visits != [] && Distinct(Keys(visits))
    requires before.Keys == SetOf(Keys(visits[..|visits| - 1]))
    requires Distinct(Keys(visits[..|visits| - 1])) ==>
      forall v <- visits[..|visits| - 1] :: before[KeyOf(v.path)] == v.row
    requires after == before[KeyOf(visits[|visits| - 1].path) := visits[|visits| - 1].row]
    ensures forall v <- visits :: KeyOf(v.path) in after && after[KeyOf(v.path)] == v.row
  {
    var init := visits[..|visits| - 1];
    var keys := Keys(visits);
    assert Keys(init) == keys[..|visits| - 1];
    forall i | 0 <= i < |visits|
      ensures KeyOf(visits[i].path) in after && after[KeyOf(visits[i].path)] == visits[i].row
    {
      if i < |visits| - 1 {
        assert init[i] in init;
        assert Keys(init)[i] in SetOf(Keys(init));
        assert keys[i] != keys[|visits| - 1];
      }
    }
  }

  lemma SetOfSnoc(s: seq<string>, x: string)
    ensures SetOf(s + [x]) == SetOf(s) + {x}
  {
  }

  /** A sequence has as many different elements as positions exactly when it has no duplicates. */
  lemma {:induction false} DistinctCounts(s: seq<string>)
    ensures |SetOf(s)| <= |s|
    ensures |SetOf(s)| == |s| <==> Distinct(s)
  {
    if s == [] {
      assert SetOf(s) == {};
    } else {
      var init, last := s[..|s| - 1], s[|s| - 1];
      assert s == init + [last];
      DistinctCounts(init);
      SetOfSnoc(init, last);
      if last in init {
        var i :| 0 <= i < |init| && init[i] == last;
        assert s[i] == s[|s| - 1];
        assert SetOf(s) == SetOf(init);
      } else {
        assert Distinct(s) <==> Distinct(init);
      }
    }
  }

  /** After any rebuild, failed or not: the count is the number of entries met, and it is the number of rows exactly
      when no two of them have the same key. */
  lemma RebuildCounts(root: Listing)
    ensures var t := Rebuild(root).0;
      t.count == |WalkDir(root)| && |t.rows| <= t.count && (|t.rows| == t.count <==> Distinct(Keys(WalkDir(root))))
    ensures Rebuild(root).1 <==> root.Listing? && AllRead(root.items)
  {
    if root.Listing? { IndexItemsLaw(Table(map[], 0), [], root.items); }
    var visits := WalkDir(root);
    OverlayRows(visits);
    DistinctCounts(Keys(visits));
    assert |Rebuild(root).0.rows| == |Rebuild(root).0.rows.Keys|;
  }

  /** The table after a rebuild has a row for a key exactly when an entry with that path and row can be reached, and
      counts its rows; the names may hold anything but backslashes. */
  lemma RebuildLaw(root: Listing)
    requires root.Listing? && WF(root.items) && NoBackslash(WalkDir(root))
    ensures var t := Rebuild(root).0;
      && t.count == |t.rows|
      && (forall path, row :: path != [] && Reaches(root.items, path, row) ==>
            KeyOf(path) in t.rows && t.rows[KeyOf(path)] == row)
      && (forall key <- t.rows :: Reaches(root.items, Split(key, '/'), t.rows[key]) && KeyOf(Split(key, '/')) == key)
  {
    var visits := Walk([], root.items);
    RebuildCounts(root);
    WalkDistinct([], root.items);
    PlainKeysDistinct(visits);
    IndexItemsLaw(Table(map[], 0), [], root.items);
    OverlayRows(visits);
    forall path, row | path != [] && Reaches(root.items, path, row)
      ensures KeyOf(path) in Rebuild(root).0.rows && Rebuild(root).0.rows[KeyOf(path)] == row
    {
      ReachedIsVisited(root.items, path, row);
    }
    forall key <- Rebuild(root).0.rows
      ensures Reaches(root.items, Split(key, '/'), Rebuild(root).0.rows[key]) && KeyOf(Split(key, '/')) == key
    {
      var v := VisitOf(root.items, key);
    }
  }

  lemma ReachedIsVisited(items: seq<Item>, path: seq<string>, row: Row)
    requires path != [] && Reaches(items, path, row)
    ensures Visit(path, row) in Walk([], items) && KeyOf(path) in SetOf(Keys(Walk([], items)))
  {
    WalkMeets([], items, path, row);
    assert [] + path == path;
    var visits := Walk([], items);
    var i :| 0 <= i < |visits| && visits[i] == Visit(path, row);
    assert Keys(visits)[i] == KeyOf(path);
  }

  lemma VisitOf(items: seq<Item>, key: string) returns (v: Visit)
    requires NoBackslash(Walk([], items)) && key in SetOf(Keys(Walk([], items)))
    ensures v in Walk([], items) && v.path == Split(key, '/') && KeyOf(v.path) == key
    ensures Reaches(items, v.path, v.row)
  {
    var visits := Walk([], items);
    var i :| 0 <= i < |visits| && Keys(visits)[i] == key;
    v := visits[i];
    assert v in visits;
    KeyTellsPath(v.path);
    WalkMeets([], items, v.path, v.row);
    assert [] + v.path == v.path;
  }

  lemma CollidingKeys()
    ensures KeyOf(["a"]) == "a" && KeyOf(["a", "b"]) == "a/b" && KeyOf(["a\\b"]) == "a/b"
  {
    assert Join(["a", "b"], '/') == "a/b";
    assert Slashes("b") == "b" && Slashes("/b") == "/b" && Slashes("a/b") == "a/b";
    assert Slashes("\\b") == "/b" && Slashes("a\\b") == "a/b";
  }

  /** A file b in a directory a, and a file a\\b beside that directory. */
  function Colliding(m: Meta): (items: seq<Item>)
  {
    [DirItem("a", m, Listing([FileItem("b", m)])), FileItem("a\\b", m)]
  }

  lemma CollidingDirectory(m: Meta)
    ensures WalkOne([], Colliding(m)[0]) ==
      [Visit(["a"], Row("a", true, m.size, m.mtime)), Visit(["a", "b"], Row("b", false, m.size, m.mtime))]
  {
    var inside := [FileItem("b", m)];
    assert inside[1..] == [] && [] + ["a"] == ["a"] && ["a"] + ["b"] == ["a", "b"];
    assert ShouldDescend("a") by { assert |"a"| == 1; }
    assert Walk(["a"], inside) == [Visit(["a", "b"], RowOf(inside[0]))];
  }

  lemma CollidingKeyList(m: Meta)
    ensures Keys(Walk([], Colliding(m))) == ["a", "a/b", "a/b"]
  {
    var items := Colliding(m);
    var last := [FileItem("a\\b", m)];
    CollidingDirectory(m);
    CollidingKeys();
    assert items[1..] == last && last[1..] == [] && [] + ["a\\b"] == ["a\\b"];
    assert Walk([], last) == [Visit(["a\\b"], RowOf(last[0]))];
    assert Walk([], items) == WalkOne([], items[0]) + Walk([], last);
  }

  /** A backslash in a name can make two entries share a key: here three entries leave fewer rows. */
  lemma BackslashCollision(m: Meta)
    ensures Rebuild(Listing(Colliding(m))).1
    ensures var t := Rebuild(Listing(Colliding(m))).0; t.count == 3 && |t.rows| < 3
  {
    CollidingKeyList(m);
    RebuildCounts(Listing(Colliding(m)));
    var keys := Keys(Walk([], Colliding(m)));
    assert keys[1] == keys[2];
  }

  /* ---------- the procedure ---------- */

  class Index {
    var rows: map<string, Row>
    var count: nat

    ghost function Current(): Table
      reads this
    {
      Table(rows, count)
    }

    method IndexDirectory(prefix: seq<string>, dir: Listing) returns (ok: bool)
      modifies this
      ensures (Current(), ok) == IndexDir(old(Current()), prefix, dir)
      decreases dir
    {
      if dir.Unreadable? { return false; }
      var items := dir.items;
      for i := 0 to |items|
        invariant IndexItems(Current(), prefix, items[i..]) == IndexItems(old(Current()), prefix, items)
      {
        assert items[i..][1..] == items[i + 1..];
        var entry := items[i];
        if entry.BadItem? { return false; }
        var path := prefix + [entry.name];
        rows := rows[KeyOf(path) := Row(entry.name, entry.DirItem?, entry.meta.size, entry.meta.mtime)];
        count := count + 1;
        if entry.DirItem? && ShouldDescend(entry.name) {
          var ignored := IndexDirectory(path, entry.inside);
        }
      }
      ok := true;
    }

    /** Replaces whatever the table held. */
    method RebuildIndex(root: Listing) returns (ok: bool)
      modifies this
      ensures (Current(), ok) == Rebuild(root)
    {
      rows := map[];
      count := 0;
      ok := IndexDirectory([], root);
    }
  }
}
