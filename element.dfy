/** The element tree that the XML library builds when it parses a file and that the
    editor builds before it writes one: a tag, the attribute dictionary, the text before
    the first child, the tail after the closing tag, and the child elements in document
    order. */
module Element {
  import opened Wrappers

  datatype Elem = Elem(
    tag: string,
    attrs: map<string, string>,
    text: Option<string>,
    tail: Option<string>,
    children: seq<Elem>)

  /** `element.get(key, default)`: the attribute's value, or the default when absent. */
  function GetAttr(e: Elem, key: string, default: string): (v: string)
    ensures key in e.attrs ==> v == e.attrs[key]
    ensures key !in e.attrs ==> v == default
  {
    if key in e.attrs then e.attrs[key] else default
  }

  /** Every element of the tree carries a text. */
  predicate HasTexts(e: Elem)
    decreases e
  {
    && e.text.Some?
    && forall i | 0 <= i < |e.children| :: HasTexts(e.children[i])
  }

  /** Number of elements in the tree rooted at `e`. */
  function ElemSize(e: Elem): nat
    decreases e
  {
    1 + ElemSizeAll(e.children)
  }

  function ElemSizeAll(es: seq<Elem>): nat
    decreases es
  {
    if es == [] then 0 else ElemSize(es[0]) + ElemSizeAll(es[1..])
  }
}
