# zen-xml: the editable tree document, in Dafny

zen-xml is a desktop XML editor (`main.py`) with a read-only viewer variant
(`viewer.py`). A document is shown as a tree widget. Each item has three text columns:
the element tag, the value of the element's `name` attribute, and the element's text.
This project models the logic behind that widget and proves properties of it:

- the element-to-item mapping run when a file is loaded (`populate_tree_widget`);
- the item-to-element serializer run when a file is saved (`serialize_tree_item`),
  with its tab indentation stored in the elements' `text` and `tail` fields;
- the structural edits on the item tree: deep copy (`copy_item`), duplicate, delete,
  and the single-column edit of the text-editor dialog;
- the save-file-name rule (`.xml` is appended unless present, in any case) and the
  choice of the first top-level item as the document to save;
- the load flow: the tree is cleared before parsing, then populated.

Files and modules:

- `wrappers.dfy` (`Wrappers`): the `Option` datatype.
- `element.dfy` (`Element`): the element tree of the XML library (`Elem`: tag, the
  attribute dictionary, text, tail, children).
- `tree_item.dfy` (`TreeItem`): widget items (`Item`), paths into the tree, and the
  structural edits as functions (`Duplicated`, `Deleted`, `Edited`), with frame lemmas
  (every item off the changed item's line is unchanged, and its ancestors keep their
  columns and their number of children) and item-count lemmas.
- `codec.dfy` (`Codec`): `ItemOf` (element to item) and `Serialize` (item to element),
  with the round-trip and idempotence lemmas.
- `save_name.dfy` (`SaveName`): the `.xml` rule.
- `editor.dfy` (`Editor`): the class `TreeWidget`. Its field `root` is the widget's
  invisible root item, whose children are the top-level items. Its methods change the
  tree in place the way the source does: `Populate` and `CopyItem` are recursive methods
  whose loops append one child at a time. Each method's postcondition equals the new
  tree to a function of the old one, and the lemmas about those functions state what
  the source promises.

An item is addressed by its path: the child indices from the invisible root (the empty
path is the invisible root itself). The selected item, the parse result and the
dialogs' answers are parameters of the methods.

The model follows the code:

- delete has no "not found" case: the deleted item is always the selected one, which
  is a child of its parent (main.py:180-184);
- edit accepts any text in any column, an empty tag included (main.py:195-206);
- the indentation is tab characters (main.py:215-219), although the comment at
  main.py:214 says 4 spaces.

## Model

| member | source | states |
|---|---|---|
| `Element.GetAttr` | viewer.py:55 | `element.get("name", "")`: the attribute's value when present, the default otherwise |
| `TreeItem.Item.Text` | main.py:187-189 | `item.text(column)`: column 0, 1 and 2 are the tag, the `name` value and the text, in display order |
| `TreeItem.Item.WithText` | main.py:187-189 | setting one column gives that column the new text; the other two columns and the children are unchanged |
| `TreeItem.Without` | main.py:184 | removing a child shrinks the list by one; the children before it keep their index, the ones after it move up by one, in the same order |
| `TreeItem.Duplicated` | main.py:172-178 | the parent's child list (the invisible root for a top-level item) becomes the old list plus a copy of the selected subtree at the end; the parent's own columns stay; the item count grows by the size of the selected subtree |
| `TreeItem.PutAncestor` | main.py:172-193 | replacing a subtree keeps the three columns and the child count of every strict ancestor of the replaced item |
| `TreeItem.DuplicatedFrame` | main.py:172-178 | after a duplicate, every item that is neither the parent nor one of its ancestors is unchanged at its old path, the selected item and all existing siblings included; every ancestor of the parent keeps its columns and its child count |
| `TreeItem.Deleted` | main.py:180-184 | the parent's child list loses exactly the selected item, the other children keep their relative order, the parent's own columns stay, and the item count drops by the size of the deleted subtree |
| `TreeItem.DeletedFrame` | main.py:180-184 | after a delete, every item on a path disjoint from the parent's is unchanged, and every ancestor of the parent keeps its columns and its child count; the parent's remaining children are stated by `Deleted` |
| `TreeItem.Edited` | main.py:203-206 | after an edit the item has the new text in the edited column, the other columns and children as before; the item count is unchanged |
| `TreeItem.EditedFrame` | main.py:203-206 | after an edit, every item that is not the edited one or one of its ancestors is unchanged, its descendants included; every ancestor keeps its columns and its child count |
| `TreeItem.SizePut` | main.py:172-193 | replacing a subtree changes the total item count by the difference of the two subtree sizes |
| `Codec.Tabs` | main.py:215 | `"\t" * level`: exactly `level` characters, all tabs |
| `Codec.IndentDeeper` | main.py:219 | the text of an element with children, newline + `level` tabs + one tab, is a newline followed by `level + 1` tabs |
| `Codec.ItemOf` | viewer.py:55 | column 0 is the tag, column 1 the value of the attribute named `name` or `""` when absent, column 2 the text verbatim, and child item `i` is the mapping of child element `i`, for every child in document order |
| `Codec.ItemOfSize` | viewer.py:54-59 | the populated item tree has exactly as many items as the element tree has elements |
| `Codec.ItemOfSignificant` | viewer.py:55 | the mapping reads only the tag, the `name` attribute, the text and the children: removing every other attribute and every tail, at every depth, gives the same items |
| `Codec.OnlyNameAttributeRead` | main.py:148 | two element trees that differ only in non-`name` attributes and tails populate identical item trees |
| `Codec.Serialize` | main.py:208-229 | the element's tag is column 0; it has a `name` attribute if and only if column 1 is non-empty, and then it equals column 1, and no other attribute; a leaf's text is column 2; an item with children gets text newline + `level + 1` tabs whatever column 2 holds; same number of children; the element itself gets no tail |
| `Codec.SerializeChild` | main.py:221-227 | child `i` of the element is child `i` of the item serialized at `level + 1`, in the same order; only the last child gets a tail, newline + `level` tabs |
| `Codec.PopulateSerialize` | main.py:208-229 | populating the serialized element tree gives back the item tree, except that column 2 of every item with children becomes its indentation |
| `Codec.ReformatIdentity` | main.py:212-219 | that rewriting leaves an item tree unchanged if and only if every item with children already holds its indentation in column 2 |
| `Codec.RoundTripItems` | main.py:212-219 | serializing and then populating the element tree returns exactly the item tree if and only if every item with children holds its indentation in column 2 |
| `Codec.SerializeCanonical` | main.py:218-227 | every saved tree has the canonical shape: only non-empty `name` attributes, a text everywhere, indentation text on elements with children, a tail on exactly the last child of each element |
| `Codec.SerializePopulate` | main.py:208-229 | populating a canonical element tree and serializing it again gives back the same element tree |
| `Codec.SerializeIdempotent` | main.py:208-229 | serializing, populating and serializing again gives the element tree the first serialization gave: indentation does not accumulate |
| `Codec.LeafRoundTrip` | main.py:209-212 | a leaf element keeps its tag and text through load and save; its `name` survives when non-empty; `name=""` and every other attribute are dropped |
| `SaveName.Lower` | main.py:240 | `str.lower()` character by character: same length, ASCII capitals become lower case |
| `SaveName.EndsWith` | main.py:240 | `str.endswith(suffix)`: the name is at least as long as the suffix and its last characters are the suffix's, one by one |
| `SaveName.HasXmlExtension` | main.py:240 | `file_name.lower().endswith('.xml')`: the name has at least four characters and its last four lower-case to `.xml` |
| `SaveName.WithXmlExtension` | main.py:240-241 | the result ends with `.xml` ignoring case; a name already ending so is unchanged; otherwise exactly `.xml` is appended |
| `SaveName.LowerAppend` | main.py:240-241 | lower-casing a name with `.xml` appended is the lower-cased name with `.xml` appended |
| `SaveName.WithXmlExtensionIdempotent` | main.py:240-241 | applying the rule twice equals applying it once |
| `SaveName.WithXmlExtensionExtends` | main.py:240-241 | the rule only ever appends, at most four characters |
| `Editor.Populated` | main.py:147-152 | populating under a parent appends exactly one new item as its last child, the mapped element tree; the parent's own columns stay; the item count grows by the element count |
| `Editor.PopulatedFrame` | viewer.py:54-59 | populating leaves every item that is not the parent or one of its ancestors unchanged, the parent's earlier children included; every ancestor of the parent keeps its columns and its child count |
| `Editor.TreeWidget.constructor` | main.py:89-90 | a new widget has no top-level item and an invisible root with empty columns |
| `Editor.TreeWidget.TopLevelItem` | main.py:243 | `topLevelItem(i)` is the `i`-th top-level item, or None past the last one |
| `Editor.TreeWidget.Clear` | viewer.py:47 | clearing leaves no top-level item |
| `Editor.TreeWidget.AddChild` | main.py:176 | a new childless item with the given columns is appended to the parent's children; its index is the old child count |
| `Editor.TreeWidget.SetText` | main.py:205 | the new tree is the edit of the old one at that item and column |
| `Editor.TreeWidget.Populate` | viewer.py:54-59 | the recursive, loop-by-child population of one element under a parent produces exactly the tree `Populated` describes |
| `Editor.TreeWidget.CopyItem` | main.py:186-193 | copying into a fresh childless target replaces the target subtree by the source subtree (same three columns and child order at every depth) and changes nothing else; the source is unchanged since the paths are disjoint |
| `Editor.TreeWidget.DuplicateItem` | main.py:172-178 | with a selection the new tree is `Duplicated` of the old; with none nothing changes |
| `Editor.TreeWidget.DeleteItem` | main.py:180-184 | with a selection the new tree is `Deleted` of the old; with none nothing changes |
| `Editor.TreeWidget.OpenTextEditor` | main.py:195-206 | an accepted dialog sets only that column of that item; a rejected one changes nothing |
| `Editor.TreeWidget.LoadXml` | viewer.py:40-52 | with a file chosen the tree is cleared before parsing; after a successful parse there is exactly one top-level item, the populated root; after a parse failure the tree is empty; with no file chosen nothing changes |
| `Editor.TreeWidget.SaveXml` | main.py:231-249 | with no name nothing is saved; otherwise the name gets the `.xml` rule, and the first top-level item alone is serialized at depth 0, or the save fails when there is no top-level item |

## Left out

- XML text: parsing (`ET.parse`) and emission (`ET.tostring`), with escaping and UTF-8,
  happen in a library that is not part of this model; the model starts and ends at the
  `Elem` datatype, with `text` and `tail` as fields.
- Qt presentation: window, menus, context-menu popup, dialog titles, column widths,
  expand and collapse state, window centering, and the template-size dialog.
- File system work: file dialogs (their answers are parameters), reading and writing
  files, and `load_template_xml`, which runs the same clear-then-populate flow on a
  template path built from a global folder name.
- Error handling: the print-and-continue paths of loading and saving are modelled only
  as outcome values (`ParseFailed`, `SaveFailed`).
- `create_new_element` is an empty stub in the source; it changes nothing and has no
  member of its own.
- Object identity: Qt items are objects; here they are values addressed by paths, so
  aliasing between items is not modelled, and which item is current after a delete is
  not modelled either.
- Editor.TreeWidget.Populate: requires every element to carry a text, because what the
  Qt binding does with an element whose text is None is not part of this model;
  `Codec.ItemOf` and `Editor.TreeWidget.LoadXml` carry the same requirement.
- SaveName.Lower: lowers ASCII capitals only; Python's `str.lower()` also lowers other
  letters, which can matter only for non-ASCII names.
- Codec.PopulateSerialize, Codec.RoundTripItems, Codec.SerializeIdempotent: these hold
  on the element tree, not through XML text. A leaf whose column 2 is empty is emitted
  by `ET.tostring` as a self-closing tag and parses back with no text, which the mapping
  requires; so for such a tree, writing the file and loading it again is not covered.
- Editor.TreeWidget.SaveXml: a failure raised by `ET.tostring` or by the file write is
  not modelled; only the missing top-level item is.
