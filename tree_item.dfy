/** The items of the editor's tree widget. Every item has three text columns
    (element tag, value of the `name` attribute, element text) and an ordered list of
    child items. The widget's invisible root item is an `Item` too: its children are the
    top-level items. An item inside a tree is addressed by its `Path`, the child indices
    leading to it from the root; the empty path is the root itself. */
module TreeItem {

  /** A column index of the widget: 0 element, 1 attribute, 2 value. */
  type Column = c: nat | c < 3

  datatype Item = Item(c0: string, c1: string, c2: string, children: seq<Item>)
  {
    /** `item.text(column)`: the columns in their display order. */
    function Text(column: Column): (r: string)
      ensures r == [c0, c1, c2][column]
    {
      if column == 0 then c0 else if column == 1 then c1 else c2
    }

    /** `item.setText(column, s)`: only that column changes. */
    function WithText(column: Column, s: string): (r: Item)
      ensures r.Text(column) == s
      ensures forall k: Column | k != column :: r.Text(k) == Text(k)
      ensures r.children == children
    {
      if column == 0 then this.(c0 := s)
      else if column == 1 then this.(c1 := s)
      else this.(c2 := s)
    }
  }

  /** An item created with `QTreeWidgetItem(parent)`: no texts, no children. */
  const Blank := Item("", "", "", [])

  type Path = seq<nat>

  predicate ValidPath(t: Item, p: Path)
    decreases |p|
  {
    p == [] || (p[0] < |t.children| && ValidPath(t.children[p[0]], p[1..]))
  }

  /** The item at path `p`. */
  function At(t: Item, p: Path): Item
    requires ValidPath(t, p)
    decreases |p|
  {
    if p == [] then t else At(t.children[p[0]], p[1..])
  }

  /** The tree `t` with the subtree at path `p` replaced by `x`. */
  function Put(t: Item, p: Path, x: Item): Item
    requires ValidPath(t, p)
    decreases |p|
  {
    if p == [] then x
    else t.(children := t.children[p[0] := Put(t.children[p[0]], p[1..], x)])
  }

  /** The tree `t` with the child list of the item at `p` replaced by `cs`. */
  function WithChildren(t: Item, p: Path, cs: seq<Item>): Item
    requires ValidPath(t, p)
  {
    Put(t, p, At(t, p).(children := cs))
  }

  function Parent(p: Path): Path
    requires p != []
  {
    p[..|p| - 1]
  }

  function Index(p: Path): nat
    requires p != []
  {
    p[|p| - 1]
  }

  predicate IsPrefix(p: Path, q: Path)
  {
    |p| <= |q| && q[..|p|] == p
  }

  /** Neither path lies on the way to the other. */
  predicate Disjoint(p: Path, q: Path)
  {
    !IsPrefix(p, q) && !IsPrefix(q, p)
  }

  /** `s` without its element at index `i`; the others keep their order. */
  function Without(s: seq<Item>, i: nat): (r: seq<Item>)
    requires i < |s|
    ensures |r| == |s| - 1
    ensures forall j | 0 <= j < i :: r[j] == s[j]
    ensures forall j | i <= j < |r| :: r[j] == s[j + 1]
  {
    s[..i] + s[i + 1..]
  }

  /** Number of items in the tree rooted at `t`, `t` included. */
  function Size(t: Item): nat
    decreases t
  {
    1 + SizeAll(t.children)
  }

  function SizeAll(ts: seq<Item>): nat
    decreases ts
  {
    if ts == [] then 0 else Size(ts[0]) + SizeAll(ts[1..])
  }

  // ---------------------------------------------------------------------------
  // Paths

  /** Walking `p` and then `q` is walking `p + q`. */
  lemma {:induction false} AtAppend(t: Item, p: Path, q: Path)
    ensures ValidPath(t, p + q) <==> ValidPath(t, p) && ValidPath(At(t, p), q)
    ensures ValidPath(t, p + q) ==> At(t, p + q) == At(At(t, p), q)
    decreases |p|
  {
    if p != [] {
      assert (p + q)[0] == p[0] && (p + q)[1..] == p[1..] + q;
      if p[0] < |t.children| {
        AtAppend(t.children[p[0]], p[1..], q);
      }
    } else {
      assert p + q == q;
    }
  }

  /** The child at index `n` of the item at `p` is at `p + [n]`. */
  lemma ChildPath(t: Item, p: Path, n: nat)
    requires ValidPath(t, p)
    ensures ValidPath(t, p + [n]) <==> n < |At(t, p).children|
    ensures n < |At(t, p).children| ==> At(t, p + [n]) == At(t, p).children[n]
  {
    AtAppend(t, p, [n]);
  }

  /** The parent of a non-root item is a valid path, and the item sits at its index. */
  lemma ParentPath(t: Item, p: Path)
    requires ValidPath(t, p) && p != []
    ensures ValidPath(t, Parent(p))
    ensures Index(p) < |At(t, Parent(p)).children|
    ensures At(t, p) == At(t, Parent(p)).children[Index(p)]
  {
    assert Parent(p) + [Index(p)] == p;
    AtAppend(t, Parent(p), [Index(p)]);
  }

  /** Replacing a subtree and reading it back gives the replacement. */
  lemma {:induction false} PutAt(t: Item, p: Path, x: Item)
    requires ValidPath(t, p)
    ensures ValidPath(Put(t, p, x), p) && At(Put(t, p, x), p) == x
    decreases |p|
  {
    if p != [] {
      PutAt(t.children[p[0]], p[1..], x);
    }
  }

  /** A second replacement at the same path overrides the first. */
  lemma {:induction false} PutPut(t: Item, p: Path, x: Item, y: Item)
    requires ValidPath(t, p)
    ensures ValidPath(Put(t, p, x), p) && Put(Put(t, p, x), p, y) == Put(t, p, y)
    decreases |p|
  {
    PutAt(t, p, x);
    if p != [] {
      PutPut(t.children[p[0]], p[1..], x, y);
    }
  }

  /** A replacement at a path below `p` is a replacement of the subtree at `p`. */
  lemma {:induction false} PutAppend(t: Item, p: Path, q: Path, y: Item)
    requires ValidPath(t, p + q)
    ensures ValidPath(t, p) && ValidPath(At(t, p), q)
    ensures Put(t, p + q, y) == Put(t, p, Put(At(t, p), q, y))
    decreases |p|
  {
    AtAppend(t, p, q);
    if p != [] {
      assert (p + q)[0] == p[0] && (p + q)[1..] == p[1..] + q;
      PutAppend(t.children[p[0]], p[1..], q, y);
    } else {
      assert p + q == q;
    }
  }

  /** Replacing a subtree leaves every item on a disjoint path as it was. */
  lemma {:induction false} PutFrame(t: Item, p: Path, x: Item, q: Path)
    requires ValidPath(t, p) && ValidPath(t, q) && Disjoint(p, q)
    ensures ValidPath(Put(t, p, x), q) && At(Put(t, p, x), q) == At(t, q)
    decreases |p|
  {
    // Both paths are non-empty: the empty path is a prefix of every path.
    assert p != [] && q != [];
    if p[0] != q[0] {
    } else {
      if |p| <= |q| {
        assert q[..|p|] == [q[0]] + q[1..][..|p| - 1];
      }
      if |q| <= |p| {
        assert p[..|q|] == [p[0]] + p[1..][..|q| - 1];
      }
      PutFrame(t.children[p[0]], p[1..], x, q[1..]);
    }
  }

  /** Replacing a subtree keeps the three columns and the number of children of every
      strict ancestor of the replaced item. */
  lemma {:induction false} PutAncestor(t: Item, p: Path, x: Item, q: Path)
    requires ValidPath(t, p) && IsPrefix(q, p) && |q| < |p|
    ensures ValidPath(t, q) && ValidPath(Put(t, p, x), q)
    ensures At(Put(t, p, x), q).(children := []) == At(t, q).(children := [])
    ensures |At(Put(t, p, x), q).children| == |At(t, q).children|
    decreases |p|
  {
    if q != [] {
      assert q[0] == p[0];
      assert q[1..] == p[1..][..|q| - 1];
      PutAncestor(t.children[p[0]], p[1..], x, q[1..]);
    }
  }

  /** Two different children of one item lie on disjoint paths, and so do paths
      that extend two disjoint paths. */
  lemma SiblingsDisjoint(p: Path, i: nat, j: nat)
    requires i != j
    ensures Disjoint(p + [i], p + [j])
  {
    assert (p + [i])[|p|] == i && (p + [j])[|p|] == j;
    assert (p + [j])[..|p| + 1] == p + [j];
    assert (p + [i])[..|p| + 1] == p + [i];
  }

  lemma ExtendDisjoint(p: Path, q: Path, i: nat, j: nat)
    requires Disjoint(p, q)
    ensures Disjoint(p + [i], q + [j])
  {
    if |p| <= |q| {
      assert (q + [j])[..|p|] == q[..|p|];
    }
    if |q| <= |p| {
      assert (p + [i])[..|q|] == p[..|q|];
    }
  }

  // ---------------------------------------------------------------------------
  // Child lists

  /** Reading back the replaced child list; the item's own columns stay. */
  lemma WithChildrenAt(t: Item, p: Path, cs: seq<Item>)
    requires ValidPath(t, p)
    ensures ValidPath(WithChildren(t, p, cs), p)
    ensures At(WithChildren(t, p, cs), p) == At(t, p).(children := cs)
  {
    PutAt(t, p, At(t, p).(children := cs));
  }

  /** Replacing a child of the item at `p` in a tree whose child list at `p` was just
      replaced is one replacement of that child list. */
  lemma PutChildOfWithChildren(t: Item, p: Path, cs: seq<Item>, n: nat, y: Item)
    requires ValidPath(t, p) && n < |cs|
    ensures ValidPath(WithChildren(t, p, cs), p + [n])
    ensures At(WithChildren(t, p, cs), p + [n]) == cs[n]
    ensures Put(WithChildren(t, p, cs), p + [n], y) == WithChildren(t, p, cs[n := y])
  {
    var x := At(t, p).(children := cs);
    var u := WithChildren(t, p, cs);
    WithChildrenAt(t, p, cs);
    ChildPath(u, p, n);
    PutAppend(u, p, [n], y);
    PutPut(t, p, x, Put(x, [n], y));
  }

  // ---------------------------------------------------------------------------
  // Sizes

  lemma {:induction false} SizeAllConcat(a: seq<Item>, b: seq<Item>)
    ensures SizeAll(a + b) == SizeAll(a) + SizeAll(b)
    decreases |a|
  {
    if a == [] {
      assert a + b == b;
    } else {
      assert (a + b)[0] == a[0] && (a + b)[1..] == a[1..] + b;
      SizeAllConcat(a[1..], b);
    }
  }

  lemma SizeAllSingle(x: Item)
    ensures SizeAll([x]) == Size(x)
  {
    assert [x][1..] == [];
  }

  lemma SizeAllUpdate(ts: seq<Item>, i: nat, x: Item)
    requires i < |ts|
    ensures SizeAll(ts[i := x]) == SizeAll(ts) - Size(ts[i]) + Size(x)
  {
    var front, back := ts[..i], ts[i + 1..];
    assert ts == front + [ts[i]] + back;
    assert ts[i := x] == front + [x] + back;
    SizeAllConcat(front + [ts[i]], back);
    SizeAllConcat(front, [ts[i]]);
    SizeAllConcat(front + [x], back);
    SizeAllConcat(front, [x]);
    SizeAllSingle(ts[i]);
    SizeAllSingle(x);
  }

  lemma SizeAllWithout(ts: seq<Item>, i: nat)
    requires i < |ts|
    ensures SizeAll(ts[..i] + ts[i + 1..]) == SizeAll(ts) - Size(ts[i])
  {
    var front, back := ts[..i], ts[i + 1..];
    assert ts == (front + [ts[i]]) + back;
    SizeAllConcat(front + [ts[i]], back);
    SizeAllConcat(front, [ts[i]]);
    SizeAllConcat(front, back);
    SizeAllSingle(ts[i]);
  }

  /** Replacing a subtree changes the item count by the difference of the two sizes. */
  lemma {:induction false} SizePut(t: Item, p: Path, x: Item)
    requires ValidPath(t, p)
    ensures Size(Put(t, p, x)) == Size(t) - Size(At(t, p)) + Size(x)
    decreases |p|
  {
    if p != [] {
      SizePut(t.children[p[0]], p[1..], x);
      SizeAllUpdate(t.children, p[0], Put(t.children[p[0]], p[1..], x));
    }
  }

  // ---------------------------------------------------------------------------
  // The editor's structural edits, as functions of the tree before the edit

  /** Duplicate: a copy of the item at `p` is appended to its parent's children. */
  function Duplicated(t: Item, p: Path): (r: Item)
    requires ValidPath(t, p) && p != []
    ensures ValidPath(t, Parent(p)) && ValidPath(r, Parent(p))
    ensures At(r, Parent(p)).children == At(t, Parent(p)).children + [At(t, p)]
    ensures At(r, Parent(p)).(children := []) == At(t, Parent(p)).(children := [])
    ensures Size(r) == Size(t) + Size(At(t, p))
  {
    ParentPath(t, p);
    var q := Parent(p);
    var cs := At(t, q).children + [At(t, p)];
    WithChildrenAt(t, q, cs);
    SizePut(t, q, At(t, q).(children := cs));
    SizeAllConcat(At(t, q).children, [At(t, p)]);
    WithChildren(t, q, cs)
  }

  /** Delete: the item at `p` is removed from its parent's children. */
  function Deleted(t: Item, p: Path): (r: Item)
    requires ValidPath(t, p) && p != []
    ensures ValidPath(t, Parent(p)) && ValidPath(r, Parent(p))
    ensures Index(p) < |At(t, Parent(p)).children|
    ensures At(r, Parent(p)).children == Without(At(t, Parent(p)).children, Index(p))
    ensures At(r, Parent(p)).(children := []) == At(t, Parent(p)).(children := [])
    ensures Size(r) == Size(t) - Size(At(t, p))
  {
    ParentPath(t, p);
    var q := Parent(p);
    var cs := Without(At(t, q).children, Index(p));
    WithChildrenAt(t, q, cs);
    SizePut(t, q, At(t, q).(children := cs));
    SizeAllWithout(At(t, q).children, Index(p));
    WithChildren(t, q, cs)
  }

  /** Edit: one column of the item at `p` gets the text `s`. */
  function Edited(t: Item, p: Path, column: Column, s: string): (r: Item)
    requires ValidPath(t, p)
    ensures ValidPath(r, p) && At(r, p) == At(t, p).WithText(column, s)
    ensures Size(r) == Size(t)
  {
    PutAt(t, p, At(t, p).WithText(column, s));
    SizePut(t, p, At(t, p).WithText(column, s));
    Put(t, p, At(t, p).WithText(column, s))
  }

  /** Duplicating leaves every item that is not the parent or one of its ancestors as
      it was, at the same path: the selected item and its siblings included. The
      ancestors of the parent keep their columns and their number of children. */
  lemma DuplicatedFrame(t: Item, p: Path, q: Path)
    requires ValidPath(t, p) && p != []
    requires ValidPath(t, q) && q != Parent(p)
    ensures ValidPath(Duplicated(t, p), q)
    ensures !IsPrefix(q, Parent(p)) ==> At(Duplicated(t, p), q) == At(t, q)
    ensures IsPrefix(q, Parent(p)) ==>
              && At(Duplicated(t, p), q).(children := []) == At(t, q).(children := [])
              && |At(Duplicated(t, p), q).children| == |At(t, q).children|
  {
    ParentPath(t, p);
    var a := Parent(p);
    var cs := At(t, a).children + [At(t, p)];
    if IsPrefix(q, a) {
      PutAncestor(t, a, At(t, a).(children := cs), q);
    } else if IsPrefix(a, q) {
      // q lies below the parent: q == a + [k] + rest with k an old child index.
      var rest := q[|a|..];
      assert q == a + rest;
      AtAppend(t, a, rest);
      var u := Duplicated(t, p);
      WithChildrenAt(t, a, cs);
      AtAppend(u, a, rest);
      assert |rest| > 0;
      var k := rest[0];
      var rest' := rest[1..];
      assert rest == [k] + rest';
      AtAppend(At(t, a), [k], rest');
      AtAppend(At(u, a), [k], rest');
      ChildPath(At(t, a), [], k);
      ChildPath(At(u, a), [], k);
    } else {
      PutFrame(t, a, At(t, a).(children := cs), q);
    }
  }

  /** Deleting leaves every item off the parent's line, and outside the parent's
      subtree, as it was; the ancestors of the parent keep their columns and their
      number of children. */
  lemma DeletedFrame(t: Item, p: Path, q: Path)
    requires ValidPath(t, p) && p != []
    requires ValidPath(t, q) && !IsPrefix(Parent(p), q)
    ensures ValidPath(Deleted(t, p), q)
    ensures !IsPrefix(q, Parent(p)) ==> At(Deleted(t, p), q) == At(t, q)
    ensures IsPrefix(q, Parent(p)) ==>
              && At(Deleted(t, p), q).(children := []) == At(t, q).(children := [])
              && |At(Deleted(t, p), q).children| == |At(t, q).children|
  {
    ParentPath(t, p);
    var a := Parent(p);
    var x := At(t, a).(children := Without(At(t, a).children, Index(p)));
    if IsPrefix(q, a) {
      PutAncestor(t, a, x, q);
    } else {
      PutFrame(t, a, x, q);
    }
  }

  /** Editing leaves every item that is not the edited one or one of its ancestors as
      it was: the edited item's descendants included. The ancestors keep their columns
      and their number of children. */
  lemma EditedFrame(t: Item, p: Path, column: Column, s: string, q: Path)
    requires ValidPath(t, p) && ValidPath(t, q) && q != p
    ensures ValidPath(Edited(t, p, column, s), q)
    ensures !IsPrefix(q, p) ==> At(Edited(t, p, column, s), q) == At(t, q)
    ensures IsPrefix(q, p) ==>
              && At(Edited(t, p, column, s), q).(children := []) == At(t, q).(children := [])
              && |At(Edited(t, p, column, s), q).children| == |At(t, q).children|
  {
    var x := At(t, p).WithText(column, s);
    if IsPrefix(q, p) {
      PutAncestor(t, p, x, q);
    } else if IsPrefix(p, q) {
      var rest := q[|p|..];
      assert q == p + rest;
      AtAppend(t, p, rest);
      PutAt(t, p, x);
      AtAppend(Put(t, p, x), p, rest);
      assert |rest| > 0;
      var k := rest[0];
      AtAppend(At(t, p), [k], rest[1..]);
      AtAppend(x, [k], rest[1..]);
      assert rest == [k] + rest[1..];
    } else {
      PutFrame(t, p, x, q);
    }
  }
}
