/**
 * The parsed XML tree that the transcription format is read into, and the
 * `iter(tag)` query of the tree library: a pre-order (document-order)
 * traversal that yields every element, the start element included, whose tag
 * is `tag`.
 */
module Tree {
  import opened Wrappers

  /** One XML element: its tag, attribute dict, text before its first child, and children. */
  datatype Element = Element(tag: string, attrib: map<string, string>, text: Option<string>, children: seq<Element>)

  /** Every element of the subtree rooted at `e`, in document order (the start element first). */
  function PreOrder(e: Element): seq<Element>
    decreases e, 1
  {
    [e] + PreOrderAll(e.children)
  }

  function PreOrderAll(es: seq<Element>): seq<Element>
    decreases es, 0
  {
    if es == [] then [] else PreOrder(es[0]) + PreOrderAll(es[1..])
  }

  /** The elements of `s` whose tag is `tag`, in their order. */
  function FilterTag(s: seq<Element>, tag: string): (r: seq<Element>)
    ensures |r| <= |s|
    ensures forall x :: x in r <==> x in s && x.tag == tag
  {
    if s == [] then []
    else (if s[0].tag == tag then [s[0]] else []) + FilterTag(s[1..], tag)
  }

  /** `e.iter(tag)`. */
  function Iter(e: Element, tag: string): (r: seq<Element>)
    ensures forall x <- r :: x.tag == tag
    decreases e, 1
  {
    (if e.tag == tag then [e] else []) + IterAll(e.children, tag)
  }

  function IterAll(es: seq<Element>, tag: string): (r: seq<Element>)
    ensures forall x <- r :: x.tag == tag
    decreases es, 0
  {
    if es == [] then [] else Iter(es[0], tag) + IterAll(es[1..], tag)
  }

  lemma {:induction false} FilterTagAppend(a: seq<Element>, b: seq<Element>, tag: string)
    ensures FilterTag(a + b, tag) == FilterTag(a, tag) + FilterTag(b, tag)
    decreases |a|
  {
    if a == [] {
      assert a + b == b;
    } else {
      assert (a + b)[1..] == a[1..] + b;
      FilterTagAppend(a[1..], b, tag);
    }
  }

  /** `iter(tag)` is the document-order traversal keeping the elements tagged `tag`. */
  lemma {:induction false} IterIsFilteredPreOrder(e: Element, tag: string)
    ensures Iter(e, tag) == FilterTag(PreOrder(e), tag)
    decreases e, 1
  {
    IterAllIsFilteredPreOrder(e.children, tag);
    FilterTagAppend([e], PreOrderAll(e.children), tag);
    assert [e][1..] == [];
  }

  lemma {:induction false} IterAllIsFilteredPreOrder(es: seq<Element>, tag: string)
    ensures IterAll(es, tag) == FilterTag(PreOrderAll(es), tag)
    decreases es, 0
  {
    if es != [] {
      IterIsFilteredPreOrder(es[0], tag);
      IterAllIsFilteredPreOrder(es[1..], tag);
      FilterTagAppend(PreOrder(es[0]), PreOrderAll(es[1..]), tag);
    }
  }

  /** An element is found by `iter(tag)` exactly when it lies in the subtree and is tagged `tag`. */
  lemma IterMembers(e: Element, tag: string)
    ensures forall x :: x in Iter(e, tag) <==> x in PreOrder(e) && x.tag == tag
  {
    IterIsFilteredPreOrder(e, tag);
  }
}
