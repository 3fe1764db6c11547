/**
 * The parsed XML document as ElementTree presents it: each element has a
 * tag, attributes, optional text and an ordered list of children.
 */
module ElementTree {
  import opened Wrappers

  datatype Element = Element(
    tag: string,
    attrib: map<string, string>,
    text: Option<string>,
    children: seq<Element>)

  /** `e.attrib.get(key)`: the attribute value, or None when it is absent. */
  function Attr(e: Element, key: string): Option<string> {
    if key in e.attrib then Some(e.attrib[key]) else None
  }

  /**
   * `e.iter(tag)`: every element of the subtree rooted at `e`, `e` itself
   * included, whose tag is `tag`, in document (pre-order) order.
   */
  function Iter(e: Element, tag: string): (r: seq<Element>)
    ensures forall x :: x in r ==> x.tag == tag
    ensures e.tag == tag ==> |r| > 0 && r[0] == e
    decreases e
  {
    (if e.tag == tag then [e] else []) + IterAll(e.children, tag)
  }

  /** The concatenation of `Iter(c, tag)` over the children `cs`, in order. */
  function IterAll(cs: seq<Element>, tag: string): (r: seq<Element>)
    ensures forall x :: x in r ==> x.tag == tag
    decreases cs
  {
    if cs == [] then [] else Iter(cs[0], tag) + IterAll(cs[1..], tag)
  }

  /**
   * Iteration is transitive: whatever `x.iter(t2)` yields for an element
   * `x` that `e.iter(t1)` yields, `e.iter(t2)` yields as well.
   */
  lemma {:induction false} IterTransitive(e: Element, t1: string, t2: string, x: Element)
    requires x in Iter(e, t1)
    ensures forall y :: y in Iter(x, t2) ==> y in Iter(e, t2)
    decreases e
  {
    if x != e {
      assert x in IterAll(e.children, t1);
      IterAllTransitive(e.children, t1, t2, x);
    }
  }

  lemma {:induction false} IterAllTransitive(cs: seq<Element>, t1: string, t2: string, x: Element)
    requires x in IterAll(cs, t1)
    ensures forall y :: y in Iter(x, t2) ==> y in IterAll(cs, t2)
    decreases cs
  {
    if x in Iter(cs[0], t1) {
      IterTransitive(cs[0], t1, t2, x);
    } else {
      IterAllTransitive(cs[1..], t1, t2, x);
    }
  }
}
