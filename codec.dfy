/** The two conversions between the element tree and the widget's items: the
    element-to-item mapping used when a file is loaded (`populate_tree_widget`) and the
    item-to-element serializer used when a file is saved (`serialize_tree_item`), with
    its tab indentation carried in the elements' `text` and `tail` fields. */
module Codec {
  import opened Wrappers
  import opened Element
  import opened TreeItem

  /** `"\t" * n` */
  function Tabs(n: nat): (r: string)
    ensures |r| == n
    ensures forall i | 0 <= i < n :: r[i] == '\t'
  {
    seq(n, _ => '\t')
  }

  /** A newline followed by `n` tabs: the whitespace before a line at depth `n`. */
  function Indent(n: nat): string
  {
    "\n" + Tabs(n)
  }

  lemma IndentDeeper(n: nat)
    ensures "\n" + Tabs(n) + "\t" == Indent(n + 1)
  {
    assert "\n" + Tabs(n) + "\t" == "\n" + (Tabs(n) + "\t");
    assert Tabs(n) + "\t" == Tabs(n + 1);
  }

  // ---------------------------------------------------------------------------
  // Element -> item

  /** The item that `populate_tree_widget` creates for `e`: the tag, the value of the
      attribute named `name` (or the empty string), the text verbatim, and one child
      item per child element in document order. Every other attribute, and the tails,
      are not read. */
  function ItemOf(e: Elem): (it: Item)
    requires HasTexts(e)
    decreases e
    ensures it.c0 == e.tag
    ensures "name" in e.attrs ==> it.c1 == e.attrs["name"]
    ensures "name" !in e.attrs ==> it.c1 == ""
    ensures it.c2 == e.text.value
    ensures |it.children| == |e.children|
    ensures forall i | 0 <= i < |e.children| ::
              HasTexts(e.children[i]) && it.children[i] == ItemOf(e.children[i])
  {
    Item(e.tag, GetAttr(e, "name", ""), e.text.value,
         seq(|e.children|, i requires 0 <= i < |e.children| => ItemOf(e.children[i])))
  }

  /** The item tree has exactly as many items as the element tree has elements. */
  lemma {:induction false} ItemOfSize(e: Elem)
    requires HasTexts(e)
    ensures Size(ItemOf(e)) == ElemSize(e)
    decreases e, 1
  {
    ItemsOfSize(e.children, ItemOf(e).children);
  }

  lemma {:induction false} ItemsOfSize(es: seq<Elem>, its: seq<Item>)
    requires |es| == |its|
    requires forall i | 0 <= i < |es| :: HasTexts(es[i]) && its[i] == ItemOf(es[i])
    ensures SizeAll(its) == ElemSizeAll(es)
    decreases es, 0
  {
    if es != [] {
      ItemOfSize(es[0]);
      ItemsOfSize(es[1..], its[1..]);
    }
  }

  /** `e` with every attribute other than `name` removed and every tail cleared, at
      every depth: the part of an element tree that the mapping reads. */
  function Significant(e: Elem): (r: Elem)
    decreases e
    ensures r.tag == e.tag && r.text == e.text && r.tail == None
    ensures r.attrs.Keys <= {"name"}
    ensures ("name" in r.attrs) == ("name" in e.attrs)
    ensures "name" in e.attrs ==> r.attrs["name"] == e.attrs["name"]
    ensures |r.children| == |e.children|
  {
    Elem(e.tag,
         if "name" in e.attrs then map["name" := e.attrs["name"]] else map[],
         e.text, None,
         seq(|e.children|, i requires 0 <= i < |e.children| => Significant(e.children[i])))
  }

  /** Only the tag, the `name` attribute, the text and the child elements decide the
      item: other attributes and tails are ignored. */
  lemma {:induction false} ItemOfSignificant(e: Elem)
    requires HasTexts(e)
    ensures HasTexts(Significant(e)) && ItemOf(Significant(e)) == ItemOf(e)
    decreases e
  {
    var s := Significant(e);
    forall i | 0 <= i < |e.children|
      ensures HasTexts(s.children[i]) && ItemOf(s.children[i]) == ItemOf(e.children[i])
    {
      ItemOfSignificant(e.children[i]);
    }
    assert HasTexts(s);
    assert ItemOf(s).children == ItemOf(e).children;
  }

  /** Two element trees that differ only in attributes other than `name` and in their
      tails populate the same items. */
  lemma OnlyNameAttributeRead(e1: Elem, e2: Elem)
    requires HasTexts(e1) && HasTexts(e2)
    requires Significant(e1) == Significant(e2)
    ensures ItemOf(e1) == ItemOf(e2)
  {
    ItemOfSignificant(e1);
    ItemOfSignificant(e2);
  }

  // ---------------------------------------------------------------------------
  // Item -> element

  /** `serialize_tree_item(item, level)`: a fresh element whose tag is column 0, with
      a `name` attribute exactly when column 1 is non-empty, whose text is column 2 for
      a leaf and a newline plus `level + 1` tabs otherwise, and whose children are the
      serialized children, the last of which gets the tail newline plus `level` tabs. */
  function Serialize(item: Item, level: nat): (e: Elem)
    decreases item
    ensures e.tag == item.c0
    ensures "name" in e.attrs <==> item.c1 != ""
    ensures "name" in e.attrs ==> e.attrs["name"] == item.c1
    ensures e.attrs.Keys <= {"name"}
    ensures item.children == [] ==> e.text == Some(item.c2)
    ensures item.children != [] ==> e.text == Some(Indent(level + 1))
    ensures |e.children| == |item.children|
    ensures e.tail == None
    ensures HasTexts(e)
  {
    var indentation := Tabs(level);
    var kids := seq(|item.children|, i requires 0 <= i < |item.children| =>
                      Serialize(item.children[i], level + 1));
    var n := |kids|;
    IndentDeeper(level);
    var r := Elem(item.c0,
                  if item.c1 != "" then map["name" := item.c1] else map[],
                  if n > 0 then Some("\n" + indentation + "\t") else Some(item.c2),
                  None,
                  if n > 0 then kids[n - 1 := kids[n - 1].(tail := Some("\n" + indentation))]
                  else kids);
    assert forall i | 0 <= i < n :: HasTexts(r.children[i]) by {
      forall i | 0 <= i < n ensures HasTexts(r.children[i]) {
        assert HasTexts(kids[i]);
      }
    }
    r
  }

  /** Child `i` of the serialized element is child `i` of the item serialized one level
      deeper; only the last child carries a tail, the parent's indentation. */
  lemma SerializeChild(item: Item, level: nat, i: nat)
    requires i < |item.children|
    ensures Serialize(item, level).children[i]
         == Serialize(item.children[i], level + 1).(tail :=
              if i == |item.children| - 1 then Some(Indent(level)) else None)
  {
  }

  /** The item tree that serializing and populating again gives back: column 2 of
      every item with children becomes its indentation; everything else stays. */
  function Reformat(item: Item, level: nat): (r: Item)
    decreases item
    ensures r.c0 == item.c0 && r.c1 == item.c1
    ensures |r.children| == |item.children|
  {
    Item(item.c0, item.c1,
         if item.children != [] then Indent(level + 1) else item.c2,
         seq(|item.children|, i requires 0 <= i < |item.children| =>
               Reformat(item.children[i], level + 1)))
  }

  /** Every item with children holds, in column 2, the indentation of its depth. */
  predicate Indented(item: Item, level: nat)
    decreases item
  {
    && (item.children != [] ==> item.c2 == Indent(level + 1))
    && forall i | 0 <= i < |item.children| :: Indented(item.children[i], level + 1)
  }

  /** Populating the serialized element gives back the item tree, up to the column 2
      of items with children, which the serializer overwrites. */
  lemma {:induction false} PopulateSerialize(item: Item, level: nat)
    ensures ItemOf(Serialize(item, level)) == Reformat(item, level)
    decreases item, 1
  {
    var e := Serialize(item, level);
    var got := ItemOf(e);
    var want := Reformat(item, level);
    forall i | 0 <= i < |item.children|
      ensures got.children[i] == want.children[i]
    {
      PopulateSerializeChild(item, level, i);
    }
    assert got.children == want.children;
    assert got.c2 == want.c2;
  }

  lemma {:induction false} PopulateSerializeChild(item: Item, level: nat, i: nat)
    requires i < |item.children|
    ensures ItemOf(Serialize(item, level)).children[i] == Reformat(item, level).children[i]
    decreases item, 0
  {
    var child := item.children[i];
    var e := Serialize(item, level);
    SerializeChild(item, level, i);
    PopulateSerialize(child, level + 1);
    assert ItemOf(e).children[i] == ItemOf(e.children[i]);
    assert ItemOf(e.children[i]) == ItemOf(Serialize(child, level + 1));
  }

  lemma {:induction false} ReformatIdentity(item: Item, level: nat)
    ensures Reformat(item, level) == item <==> Indented(item, level)
    decreases item
  {
    var r := Reformat(item, level);
    forall i | 0 <= i < |item.children|
      ensures Reformat(item.children[i], level + 1) == item.children[i]
          <==> Indented(item.children[i], level + 1)
    {
      ReformatIdentity(item.children[i], level + 1);
    }
    if Indented(item, level) {
      assert r.children == item.children;
    }
    if r == item {
      assert forall i | 0 <= i < |item.children| ::
        Reformat(item.children[i], level + 1) == item.children[i] by {
        forall i | 0 <= i < |item.children|
          ensures Reformat(item.children[i], level + 1) == item.children[i]
        {
          assert r.children[i] == Reformat(item.children[i], level + 1);
        }
      }
    }
  }

  /** Saving and loading again gives back exactly the item tree if and only if every
      item with children already holds its indentation in column 2. */
  lemma RoundTripItems(item: Item, level: nat)
    ensures ItemOf(Serialize(item, level)) == item <==> Indented(item, level)
  {
    PopulateSerialize(item, level);
    ReformatIdentity(item, level);
  }

  /** The shape of a serialized element: only `name` attributes and never an empty one,
      a text everywhere, indentation as the text of every element with children, and as
      tail of exactly the last child of each element. */
  predicate Canonical(e: Elem, level: nat, tail: Option<string>)
    decreases e
  {
    && e.tail == tail
    && e.text.Some?
    && e.attrs.Keys <= {"name"}
    && ("name" in e.attrs ==> e.attrs["name"] != "")
    && (e.children != [] ==> e.text == Some(Indent(level + 1)))
    && forall i | 0 <= i < |e.children| ::
         Canonical(e.children[i], level + 1,
                   if i == |e.children| - 1 then Some(Indent(level)) else None)
  }

  lemma {:induction false} CanonicalHasTexts(e: Elem, level: nat, tail: Option<string>)
    requires Canonical(e, level, tail)
    ensures HasTexts(e)
    decreases e
  {
    forall i | 0 <= i < |e.children| ensures HasTexts(e.children[i]) {
      CanonicalHasTexts(e.children[i], level + 1,
                        if i == |e.children| - 1 then Some(Indent(level)) else None);
    }
  }

  /** Every serialized tree has the canonical shape. */
  lemma {:induction false} SerializeCanonical(item: Item, level: nat)
    ensures Canonical(Serialize(item, level), level, None)
    decreases item
  {
    var e := Serialize(item, level);
    var n := |item.children|;
    forall i | 0 <= i < n
      ensures Canonical(e.children[i], level + 1, if i == n - 1 then Some(Indent(level)) else None)
    {
      SerializeCanonical(item.children[i], level + 1);
      SerializeChild(item, level, i);
      CanonicalWithTail(Serialize(item.children[i], level + 1), level + 1, None,
                      if i == n - 1 then Some(Indent(level)) else None);
    }
  }

  lemma CanonicalWithTail(e: Elem, level: nat, tail: Option<string>, tail': Option<string>)
    requires Canonical(e, level, tail)
    ensures Canonical(e.(tail := tail'), level, tail')
  {
  }

  /** Loading a canonical element tree and saving it again gives back the same tree. */
  lemma {:induction false} SerializePopulate(e: Elem, level: nat, tail: Option<string>)
    requires Canonical(e, level, tail)
    ensures HasTexts(e)
    ensures Serialize(ItemOf(e), level) == e.(tail := None)
    decreases e
  {
    CanonicalHasTexts(e, level, tail);
    var it := ItemOf(e);
    var r := Serialize(it, level);
    var n := |e.children|;
    forall i | 0 <= i < n ensures r.children[i] == e.children[i] {
      var t := if i == n - 1 then Some(Indent(level)) else None;
      SerializePopulate(e.children[i], level + 1, t);
      SerializeChild(it, level, i);
    }
    assert r.children == e.children;
    if "name" in e.attrs {
      assert e.attrs == map["name" := e.attrs["name"]];
    } else {
      assert e.attrs == map[];
    }
  }

  /** Saving, loading and saving again writes what the first save wrote: the
      indentation does not accumulate. */
  lemma SerializeIdempotent(item: Item, level: nat)
    ensures Serialize(ItemOf(Serialize(item, level)), level) == Serialize(item, level)
  {
    SerializeCanonical(item, level);
    SerializePopulate(Serialize(item, level), level, None);
  }

  /** A leaf element survives a load and a save with its tag and text; its `name`
      attribute survives when it is non-empty, and every other attribute is dropped. */
  lemma LeafRoundTrip(e: Elem)
    requires e.children == [] && e.text.Some?
    ensures HasTexts(e)
    ensures Serialize(ItemOf(e), 0).tag == e.tag
    ensures Serialize(ItemOf(e), 0).text == e.text
    ensures Serialize(ItemOf(e), 0).attrs
         == if "name" in e.attrs && e.attrs["name"] != "" then map["name" := e.attrs["name"]]
            else map[]
  {
    var r := Serialize(ItemOf(e), 0);
    if "name" in e.attrs && e.attrs["name"] != "" {
      assert r.attrs == map["name" := e.attrs["name"]];
    } else {
      assert r.attrs == map[];
    }
  }
}
