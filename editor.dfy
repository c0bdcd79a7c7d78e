/** The editor window's tree widget and the actions that change it: loading a file
    (clear, then populate), duplicating, deleting and editing an item, and saving (file
    name rule, then serialization of the first top-level item). The widget holds its
    invisible root item, whose children are the top-level items; the selected item, the
    parse result and the dialogs' answers are parameters. */
module Editor {
  import opened Wrappers
  import opened Element
  import opened TreeItem
  import opened Codec
  import opened SaveName

  /** What the open-file flow hands to the loader. */
  datatype LoadOutcome =
    | NoFileChosen          // the file dialog returned an empty name
    | ParseFailed           // the XML library raised; the error is printed
    | Parsed(root: Elem)    // the root element of the parsed document

  /** What the save flow does. */
  datatype SaveOutcome =
    | NothingSaved                           // the file dialog returned an empty name
    | SaveFailed(fileName: string)           // there was no top-level item to serialize
    | Written(fileName: string, root: Elem)  // `root` is written to `fileName`

  /** The tree after `populate_tree_widget(e, parent)`: one new item, the last child
      of `parent`, holding the whole mapped element tree. */
  function Populated(t: Item, parent: Path, e: Elem): (r: Item)
    requires ValidPath(t, parent) && HasTexts(e)
    ensures ValidPath(r, parent)
    ensures At(r, parent).children == At(t, parent).children + [ItemOf(e)]
    ensures At(r, parent).(children := []) == At(t, parent).(children := [])
    ensures Size(r) == Size(t) + ElemSize(e)
  {
    var cs := At(t, parent).children + [ItemOf(e)];
    WithChildrenAt(t, parent, cs);
    SizePut(t, parent, At(t, parent).(children := cs));
    SizeAllConcat(At(t, parent).children, [ItemOf(e)]);
    ItemOfSize(e);
    WithChildren(t, parent, cs)
  }

  /** Populating leaves every item that is not `parent` or one of its ancestors as it
      was, at the same path; the ancestors keep their columns and their number of
      children. */
  lemma PopulatedFrame(t: Item, parent: Path, e: Elem, q: Path)
    requires ValidPath(t, parent) && HasTexts(e)
    requires ValidPath(t, q) && q != parent
    ensures ValidPath(Populated(t, parent, e), q)
    ensures !IsPrefix(q, parent) ==> At(Populated(t, parent, e), q) == At(t, q)
    ensures IsPrefix(q, parent) ==>
              && At(Populated(t, parent, e), q).(children := []) == At(t, q).(children := [])
              && |At(Populated(t, parent, e), q).children| == |At(t, q).children|
  {
    var cs := At(t, parent).children + [ItemOf(e)];
    var u := Populated(t, parent, e);
    if IsPrefix(q, parent) {
      PutAncestor(t, parent, At(t, parent).(children := cs), q);
    } else if IsPrefix(parent, q) {
      var rest := q[|parent|..];
      assert q == parent + rest;
      assert |rest| > 0;
      var k := rest[0];
      assert rest == [k] + rest[1..];
      AtAppend(t, parent, rest);
      AtAppend(u, parent, rest);
      AtAppend(At(t, parent), [k], rest[1..]);
      AtAppend(At(u, parent), [k], rest[1..]);
    } else {
      PutFrame(t, parent, At(t, parent).(children := cs), q);
    }
  }

  class TreeWidget {
    /** The invisible root item; its children are the top-level items. */
    var root: Item

    constructor ()
      ensures root == Item("", "", "", [])
    {
      root := Item("", "", "", []);
    }

    /** `topLevelItem(i)`, which is None past the last top-level item. */
    function TopLevelItem(i: nat): (r: Option<Item>)
      reads this
      ensures i < |root.children| <==> r.Some?
      ensures r.Some? ==> r.value == root.children[i]
    {
      if i < |root.children| then Some(root.children[i]) else None
    }

    /** `clear()`: every item is removed. */
    method Clear()
      modifies this
      ensures root == old(root).(children := [])
    {
      root := root.(children := []);
    }

    /** `QTreeWidgetItem(parent, [c0, c1, c2])`: a new childless item appended to the
        children of the item at `parent`; `n` is its index there. */
    method AddChild(parent: Path, c0: string, c1: string, c2: string) returns (n: nat)
      requires ValidPath(root, parent)
      modifies this
      ensures n == |At(old(root), parent).children|
      ensures root == WithChildren(old(root), parent, At(old(root), parent).children + [Item(c0, c1, c2, [])])
    {
      n := |At(root, parent).children|;
      root := WithChildren(root, parent, At(root, parent).children + [Item(c0, c1, c2, [])]);
    }

    /** `item.setText(column, s)` on the item at `p`. */
    method SetText(p: Path, column: Column, s: string)
      requires ValidPath(root, p)
      modifies this
      ensures root == Edited(old(root), p, column, s)
    {
      root := Put(root, p, At(root, p).WithText(column, s));
    }

    /** `populate_tree_widget(element, parent_item)`: a new item for `e` under the item
        at `parent`, then, child by child, the same for each child element under it. */
    method Populate(e: Elem, parent: Path)
      requires HasTexts(e) && ValidPath(root, parent)
      modifies this
      decreases e
      ensures root == Populated(old(root), parent, e)
    {
      var n := AddChild(parent, e.tag, GetAttr(e, "name", ""), e.text.value);
      ghost var start := At(old(root), parent).children;
      ghost var built := ItemOf(e);
      var item := parent + [n];
      var i := 0;
      while i < |e.children|
        invariant 0 <= i <= |e.children|
        invariant root == WithChildren(old(root), parent,
                            start + [built.(children := built.children[..i])])
      {
        ghost var cs := start + [built.(children := built.children[..i])];
        PutChildOfWithChildren(old(root), parent, cs, n, cs[n]);
        Populate(e.children[i], item);
        // The new child went to the end of the item's children.
        PutChildOfWithChildren(old(root), parent, cs, n,
                               cs[n].(children := cs[n].children + [ItemOf(e.children[i])]));
        assert built.children[..i] + [ItemOf(e.children[i])] == built.children[..i + 1];
        assert cs[n := cs[n].(children := cs[n].children + [ItemOf(e.children[i])])]
            == start + [built.(children := built.children[..i + 1])];
        i := i + 1;
      }
      assert built.children[..i] == built.children;
    }

    /** `copy_item(source, target)`: the target takes the source's three columns, then
        for each source child a new item is appended under the target and the child is
        copied into it. The target is a new childless item off the source's line. */
    method CopyItem(src: Path, dst: Path)
      requires ValidPath(root, src) && ValidPath(root, dst) && Disjoint(src, dst)
      requires At(root, dst).children == []
      modifies this
      decreases At(root, src)
      ensures root == Put(old(root), dst, At(old(root), src))
    {
      var s := At(root, src);
      ghost var t0 := root;
      SetText(dst, 0, s.c0);
      ghost var t1 := root;
      PutAt(t0, dst, At(t0, dst).WithText(0, s.c0));
      SetText(dst, 1, s.c1);
      PutPut(t0, dst, At(t0, dst).WithText(0, s.c0), At(t1, dst).WithText(1, s.c1));
      ghost var t2 := root;
      PutAt(t0, dst, At(t1, dst).WithText(1, s.c1));
      SetText(dst, 2, s.c2);
      PutPut(t0, dst, At(t1, dst).WithText(1, s.c1), At(t2, dst).WithText(2, s.c2));
      assert At(t2, dst).WithText(2, s.c2) == s.(children := []);
      PutFrame(t0, dst, s.(children := []), src);
      var i := 0;
      while i < |At(root, src).children|
        invariant 0 <= i <= |s.children|
        invariant root == Put(t0, dst, s.(children := s.children[..i]))
        invariant ValidPath(root, src) && At(root, src) == s
        invariant ValidPath(root, dst)
      {
        ghost var partial := s.(children := s.children[..i]);
        PutAt(t0, dst, partial);
        var n := AddChild(dst, "", "", "");
        // The new item is the last child of the target.
        PutPut(t0, dst, partial, partial.(children := partial.children + [Blank]));
        ghost var grown := partial.(children := partial.children + [Blank]);
        PutAt(t0, dst, grown);
        ChildPath(root, dst, n);
        PutFrame(t0, dst, grown, src);
        ChildPath(root, src, i);
        ExtendDisjoint(src, dst, i, n);
        CopyItem(src + [i], dst + [n]);
        // The child copy sits at index n of the target.
        PutAppend(Put(t0, dst, grown), dst, [n], s.children[i]);
        PutPut(t0, dst, grown, Put(grown, [n], s.children[i]));
        assert Put(grown, [n], s.children[i]) == s.(children := s.children[..i + 1]);
        PutFrame(t0, dst, s.(children := s.children[..i + 1]), src);
        PutAt(t0, dst, s.(children := s.children[..i + 1]));
        i := i + 1;
      }
      assert s.children[..i] == s.children;
    }

    /** `duplicate_item()` with `selected` as the current item: a copy of the selected
        subtree is appended to the children of its parent (the invisible root for a
        top-level item). With no current item nothing changes. */
    method DuplicateItem(selected: Option<Path>)
      requires selected.Some? ==> ValidPath(root, selected.value) && selected.value != []
      modifies this
      ensures selected.None? ==> root == old(root)
      ensures selected.Some? ==> root == Duplicated(old(root), selected.value)
    {
      if selected.Some? {
        var p := selected.value;
        var parent := Parent(p);
        ParentPath(root, p);
        ghost var t0 := root;
        ghost var kids := At(t0, parent).children;
        var n := AddChild(parent, "", "", "");
        assert p == parent + [Index(p)];
        PutChildOfWithChildren(t0, parent, kids + [Blank], Index(p), At(t0, p));
        PutChildOfWithChildren(t0, parent, kids + [Blank], n, Blank);
        SiblingsDisjoint(parent, Index(p), n);
        CopyItem(p, parent + [n]);
        PutChildOfWithChildren(t0, parent, kids + [Blank], n, At(t0, p));
        assert (kids + [Blank])[n := At(t0, p)] == kids + [At(t0, p)];
      }
    }

    /** `delete_item()` with `selected` as the current item: it is removed from its
        parent's children (the invisible root for a top-level item). */
    method DeleteItem(selected: Option<Path>)
      requires selected.Some? ==> ValidPath(root, selected.value) && selected.value != []
      modifies this
      ensures selected.None? ==> root == old(root)
      ensures selected.Some? ==> root == Deleted(old(root), selected.value)
    {
      if selected.Some? {
        var p := selected.value;
        ParentPath(root, p);
        var parent := Parent(p);
        root := WithChildren(root, parent, Without(At(root, parent).children, Index(p)));
      }
    }

    /** `open_text_editor(item, column)` for the item at `p`: when the dialog is
        accepted the column takes the edited text; when it is rejected nothing changes. */
    method OpenTextEditor(p: Path, column: Column, accepted: bool, edited: string)
      requires ValidPath(root, p)
      modifies this
      ensures accepted ==> root == Edited(old(root), p, column, edited)
      ensures !accepted ==> root == old(root)
    {
      if accepted {
        SetText(p, column, edited);
      }
    }

    /** `load_xml()`: with a chosen file the tree is cleared before parsing; after a
        successful parse it holds exactly one top-level item, the populated root
        element; after a failed parse it is left empty. */
    method LoadXml(outcome: LoadOutcome)
      requires outcome.Parsed? ==> HasTexts(outcome.root)
      modifies this
      ensures outcome.NoFileChosen? ==> root == old(root)
      ensures outcome.ParseFailed? ==> root == old(root).(children := [])
      ensures outcome.Parsed? ==> root == old(root).(children := [ItemOf(outcome.root)])
    {
      if !outcome.NoFileChosen? {
        Clear();
        if outcome.Parsed? {
          Populate(outcome.root, []);
          assert [] + [ItemOf(outcome.root)] == [ItemOf(outcome.root)];
        }
      }
    }

    /** `save_xml()` with `chosen` as the name from the file dialog: the name gets the
        `.xml` rule, and only the first top-level item is serialized, at depth 0. */
    method SaveXml(chosen: string) returns (r: SaveOutcome)
      ensures chosen == "" ==> r == NothingSaved
      ensures chosen != "" && root.children == [] ==> r == SaveFailed(WithXmlExtension(chosen))
      ensures chosen != "" && root.children != [] ==>
                r == Written(WithXmlExtension(chosen), Serialize(root.children[0], 0))
    {
      if chosen == "" {
        return NothingSaved;
      }
      var fileName := chosen;
      if !HasXmlExtension(fileName) {
        fileName := fileName + ".xml";
      }
      var first := TopLevelItem(0);
      if first.None? {
        return SaveFailed(fileName);
      }
      r := Written(fileName, Serialize(first.value, 0));
    }
  }
}
