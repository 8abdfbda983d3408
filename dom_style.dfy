/** The slice of the DOM that the colour override touches: elements with a
    resolved (computed) style, an inline style and child elements, and the
    `CSSStyleDeclaration` operations `getPropertyValue`, `setProperty` and
    `removeProperty` on an inline style. */
module DomStyle {
  /** A declared inline value. The DOM never stores an empty value: setting a
      property to "" removes it. */
  type CssValue = s: string | s != [] witness "0"

  /** An inline style: the declared properties and their values. */
  type Style = map<string, CssValue>

  /** `style.getPropertyValue(p)`: the declared value, or "" when there is none. */
  function GetPropertyValue(style: Style, property: string): (v: string)
    ensures v == "" <==> property !in style
    ensures property in style ==> v == style[property]
  {
    if property in style then style[property] else ""
  }

  /** `style.setProperty(p, v)`: declares `v`, or removes the property when
      `v` is empty. */
  function SetProperty(style: Style, property: string, value: string): (r: Style)
    ensures GetPropertyValue(r, property) == value
    ensures forall q | q != property :: GetPropertyValue(r, q) == GetPropertyValue(style, q)
  {
    if value == "" then style - {property} else style[property := value]
  }

  /** `style.removeProperty(p)`. */
  function RemoveProperty(style: Style, property: string): (r: Style)
    ensures property !in r
    ensures forall q | q != property :: GetPropertyValue(r, q) == GetPropertyValue(style, q)
  {
    style - {property}
  }

  /** An element of the document. Whether it is an `HTMLElement`, the names
      its computed style enumerates with their resolved values, and its
      children are fixed; its inline style is what the override changes. */
  class Element {
    const isHtml: bool
    const computedNames: seq<string>
    const computedValues: map<string, string>
    const children: seq<Element>
    /** Length of the longest path down to a leaf; it bounds the recursion. */
    ghost const height: nat
    var style: Style

    /** The element tree below this element is finite: every child is lower. */
    ghost predicate Wf()
      decreases height
    {
      forall c | c in children :: c.height < height && c.Wf()
    }

    constructor (isHtml: bool, computedNames: seq<string>, computedValues: map<string, string>,
                 children: seq<Element>, style: Style)
      requires forall c | c in children :: c.Wf()
      ensures Wf()
      ensures this.isHtml == isHtml && this.computedNames == computedNames
      ensures this.computedValues == computedValues && this.children == children
      ensures this.style == style
    {
      this.isHtml := isHtml;
      this.computedNames := computedNames;
      this.computedValues := computedValues;
      this.children := children;
      this.height := 1 + MaxHeight(children);
      this.style := style;
    }

    /** `getComputedStyle(node).getPropertyValue(p)`. */
    function Computed(property: string): (v: string)
      ensures property in computedValues ==> v == computedValues[property]
      ensures property !in computedValues ==> v == ""
    {
      if property in computedValues then computedValues[property] else ""
    }
  }

  /** The largest height among some elements (0 for none). */
  ghost function MaxHeight(elements: seq<Element>): (h: nat)
    ensures forall e | e in elements :: e.height <= h
  {
    if elements == [] then 0
    else
      var rest := MaxHeight(elements[1..]);
      assert forall e | e in elements :: e == elements[0] || e in elements[1..];
      if elements[0].height > rest then elements[0].height else rest
  }

  /** The element and everything below it. */
  ghost function Subtree(n: Element): (s: set<Element>)
    requires n.Wf()
    ensures n in s
    decreases n.height, 1, 0
  {
    {n} + Forest(n, |n.children|)
  }

  /** Everything at or below the first `k` children of `n`. */
  ghost function Forest(n: Element, k: nat): (s: set<Element>)
    requires n.Wf() && k <= |n.children|
    ensures forall i | 0 <= i < k :: n.children[i] in s
    decreases n.height, 0, k
  {
    if k == 0 then {}
    else
      assert n.children[k - 1] in n.children;
      Forest(n, k - 1) + Subtree(n.children[k - 1])
  }

  /** The inline styles of some elements, as one value. */
  ghost function Styles(nodes: set<Element>): map<Element, Style>
    reads nodes
  {
    map e | e in nodes :: e.style
  }
}
