/**
 * The owned DOM-tree editing API of `modder.rs`: a `DomElement` holds a tag,
 * an attribute map and a list of child elements that it owns.  The element
 * the API is called on is a class whose fields the methods update in place;
 * the children it owns are values (`Element`), since the source never shares
 * them.
 */
module Modder {
  import opened Wrappers
  import Maps

  /** An owned element subtree, as it sits in a parent's child list. */
  datatype Element = Element(tag: string, attributes: map<string, string>, children: seq<Element>)

  // ---------------------------------------------------------------------------
  // Specification functions
  // ---------------------------------------------------------------------------

  /** Index of the first child carrying `tag`, if any. */
  function FirstIndex(children: seq<Element>, tag: string): (r: Option<nat>)
    ensures r.Some? ==> r.value < |children| && children[r.value].tag == tag
    ensures r.Some? ==> forall j :: 0 <= j < r.value ==> children[j].tag != tag
    ensures r.None? <==> forall j :: 0 <= j < |children| ==> children[j].tag != tag
  {
    if |children| == 0 then None
    else if children[0].tag == tag then Some(0)
    else match FirstIndex(children[1..], tag) {
      case None => None
      case Some(i) => Some(i + 1)
    }
  }

  /** The children not carrying `tag`, in their original order. */
  function Without(children: seq<Element>, tag: string): (r: seq<Element>)
    ensures forall c :: c in r ==> c in children && c.tag != tag
    ensures forall c :: c in children && c.tag != tag ==> c in r
    ensures |r| <= |children|
  {
    if |children| == 0 then []
    else if children[0].tag == tag then Without(children[1..], tag)
    else [children[0]] + Without(children[1..], tag)
  }

  /** Number of elements tagged `tag` strictly below `e`. */
  function CountBelow(e: Element, tag: string): nat
    decreases e
  {
    CountIn(e.children, tag)
  }

  /** Number of elements tagged `tag` among `children` and their descendants. */
  function CountIn(children: seq<Element>, tag: string): nat
    decreases children
  {
    if |children| == 0 then 0
    else
      var last := children[|children| - 1];
      CountIn(children[..|children| - 1], tag) + (if last.tag == tag then 1 else 0) + CountBelow(last, tag)
  }

  /** Number of elements in the subtree rooted at `e`, `e` included. */
  function Size(e: Element): nat
    decreases e
  {
    1 + SizeIn(e.children)
  }

  function SizeIn(children: seq<Element>): nat
    decreases children
  {
    if |children| == 0 then 0
    else SizeIn(children[..|children| - 1]) + Size(children[|children| - 1])
  }

  /** The element after `update_text_content`: a `"text"` element gets a single,
      empty `"text"` child; any other element passes the update to each child. */
  function TextUpdated(e: Element): (r: Element)
    ensures r.tag == e.tag && r.attributes == e.attributes
    ensures e.tag == "text" ==> r.children == [Element("text", map[], [])]
    ensures e.tag != "text" ==> |r.children| == |e.children|
    decreases e
  {
    if e.tag == "text" then Element("text", e.attributes, [Element("text", map[], [])])
    else Element(e.tag, e.attributes, TextUpdatedAll(e.children))
  }

  function TextUpdatedAll(children: seq<Element>): (r: seq<Element>)
    ensures |r| == |children|
    ensures forall i :: 0 <= i < |children| ==> r[i] == TextUpdated(children[i])
    decreases children
  {
    if |children| == 0 then []
    else TextUpdatedAll(children[..|children| - 1]) + [TextUpdated(children[|children| - 1])]
  }

  /** One attribute as `render` writes it: ` key="value"`. */
  function AttributeText(key: string, value: string): string
  {
    " " + key + "=\"" + value + "\""
  }

  /** `part` occurs in `s` as a contiguous piece. */
  predicate Occurs(part: string, s: string)
  {
    exists i :: 0 <= i <= |s| && part <= s[i..]
  }

  // ---------------------------------------------------------------------------
  // Rendering
  // ---------------------------------------------------------------------------

  /** The order in which a rendering visited the attribute keys of each element
      of a subtree; hash-map iteration fixes it in the source. */
  datatype AttributeOrder = AttributeOrder(keys: seq<string>, children: seq<AttributeOrder>)

  /** `o` lists every attribute key of every element of `e`'s subtree once. */
  ghost predicate OrderFits(e: Element, o: AttributeOrder)
    decreases e
  {
    && Maps.Enumerates(e.attributes, o.keys)
    && |o.children| == |e.children|
    && forall i :: 0 <= i < |e.children| ==> OrderFits(e.children[i], o.children[i])
  }

  /** The attributes written in the order `keys`. */
  function AttributesText(attributes: map<string, string>, keys: seq<string>): string
  {
    if |keys| == 0 then ""
    else
      var k := keys[|keys| - 1];
      AttributesText(attributes, keys[..|keys| - 1]) +
      (if k in attributes then AttributeText(k, attributes[k]) else "")
  }

  /** The HTML of `e` with its attributes written in the order `o`: the opening
      tag and its attributes, `>`, every child's HTML in order, the closing tag. */
  function Rendered(e: Element, o: AttributeOrder): string
    decreases e
  {
    "<" + e.tag + AttributesText(e.attributes, o.keys) + ">" +
    RenderedAll(e.children, o.children) + "</" + e.tag + ">"
  }

  /** The children's HTML, one after the other. */
  function RenderedAll(children: seq<Element>, orders: seq<AttributeOrder>): string
    decreases children
  {
    if |children| == 0 || |orders| < |children| then ""
    else
      var n := |children| - 1;
      RenderedAll(children[..n], orders[..n]) + Rendered(children[n], orders[n])
  }

  /** Renders `e` and its subtree as HTML.  Attributes are written in whatever
      order the map yields them; `order` records that order. */
  method RenderElement(e: Element) returns (html: string, ghost order: AttributeOrder)
    ensures OrderFits(e, order)
    ensures html == Rendered(e, order)
    decreases e, 1
  {
    var attrs, keys := RenderAttributes(e.attributes);
    var inner, orders := RenderChildren(e.children);
    html := "<" + e.tag + attrs + ">" + inner + "</" + e.tag + ">";
    order := AttributeOrder(keys, orders);
  }

  /** The attribute loop of `render`: every key once, in the map's order. */
  method RenderAttributes(attributes: map<string, string>) returns (text: string, ghost keys: seq<string>)
    ensures Maps.Enumerates(attributes, keys)
    ensures text == AttributesText(attributes, keys)
  {
    text := "";
    keys := [];
    var pending := attributes.Keys;
    while pending != {}
      invariant pending <= attributes.Keys
      invariant forall i, j :: 0 <= i < j < |keys| ==> keys[i] != keys[j]
      invariant forall k :: k in keys <==> k in attributes && k !in pending
      invariant text == AttributesText(attributes, keys)
      decreases pending
    {
      var k :| k in pending;
      assert (keys + [k])[..|keys|] == keys;
      text := text + AttributeText(k, attributes[k]);
      keys := keys + [k];
      pending := pending - {k};
    }
  }

  /** The child loop of `render`: each child's HTML, in order. */
  method RenderChildren(children: seq<Element>) returns (text: string, ghost orders: seq<AttributeOrder>)
    ensures |orders| == |children|
    ensures forall i :: 0 <= i < |children| ==> OrderFits(children[i], orders[i])
    ensures text == RenderedAll(children, orders)
    decreases children, 0
  {
    text := "";
    orders := [];
    for i := 0 to |children|
      invariant |orders| == i
      invariant forall j :: 0 <= j < i ==> OrderFits(children[j], orders[j])
      invariant text == RenderedAll(children[..i], orders)
    {
      var inner, o := RenderElement(children[i]);
      assert children[..i + 1][..i] == children[..i];
      assert (orders + [o])[..i] == orders;
      text := text + inner;
      orders := orders + [o];
    }
    assert children[..|children|] == children;
  }

  /** A rendering opens with `<tag`. */
  lemma RenderedOpens(e: Element, o: AttributeOrder)
    ensures "<" + e.tag <= Rendered(e, o)
  {
    var open := "<" + e.tag;
    var html := open + (AttributesText(e.attributes, o.keys) + ">" + RenderedAll(e.children, o.children) + "</" + e.tag + ">");
    assert Rendered(e, o) == html;
    assert html[..|open|] == open;
  }

  /** A rendering ends with `</tag>`. */
  lemma RenderedCloses(e: Element, o: AttributeOrder)
    ensures var html := Rendered(e, o);
            |html| >= |e.tag| + 3 && html[|html| - |e.tag| - 3..] == "</" + e.tag + ">"
  {
    var close := "</" + e.tag + ">";
    var html := ("<" + e.tag + AttributesText(e.attributes, o.keys) + ">" + RenderedAll(e.children, o.children)) + close;
    assert Rendered(e, o) == html;
    assert html[|html| - |close|..] == close;
  }

  /** A rendering holds every attribute as ` key="value"`, whatever order the
      map yields. */
  lemma RenderedHoldsAttributes(e: Element, o: AttributeOrder, k: string)
    requires OrderFits(e, o) && k in e.attributes
    ensures Occurs(AttributeText(k, e.attributes[k]), Rendered(e, o))
  {
    var open := "<" + e.tag;
    var attrs := AttributesText(e.attributes, o.keys);
    var rest := ">" + RenderedAll(e.children, o.children) + "</" + e.tag + ">";
    assert Rendered(e, o) == open + attrs + rest;
    assert k in o.keys;
    AttributesTextOccurs(e.attributes, o.keys, k);
    OccursInside(AttributeText(k, e.attributes[k]), open, attrs, rest);
  }

  /** A piece of the middle part occurs in the whole. */
  lemma OccursInside(part: string, a: string, b: string, c: string)
    requires Occurs(part, b)
    ensures Occurs(part, a + b + c)
  {
    var i :| 0 <= i <= |b| && part <= b[i..];
    assert b[i..] <= (a + b + c)[|a| + i..];
  }

  /** Every listed key present in the map is written out. */
  lemma {:induction false} AttributesTextOccurs(attributes: map<string, string>, keys: seq<string>, k: string)
    requires k in keys && k in attributes
    ensures Occurs(AttributeText(k, attributes[k]), AttributesText(attributes, keys))
  {
    var n := |keys| - 1;
    var front := AttributesText(attributes, keys[..n]);
    var text := AttributesText(attributes, keys);
    var part := AttributeText(k, attributes[k]);
    if keys[n] == k {
      assert text == front + part;
      assert part <= text[|front|..];
    } else {
      assert k in keys[..n];
      AttributesTextOccurs(attributes, keys[..n], k);
      var i :| 0 <= i <= |front| && part <= front[i..];
      assert front[i..] <= text[i..];
    }
  }

  /** A leaf without attributes renders as an empty pair of tags. */
  lemma LeafRendering(tag: string)
    ensures Rendered(Element(tag, map[], []), AttributeOrder([], [])) == "<" + tag + "></" + tag + ">"
  {
  }

  // ---------------------------------------------------------------------------
  // The element the API is called on
  // ---------------------------------------------------------------------------

  class DomElement {
    var tag: string
    var attributes: map<string, string>
    var children: seq<Element>

    /** The element with its subtree, as an owned value. */
    function Value(): Element
      reads this
    {
      Element(tag, attributes, children)
    }

    /** A fresh element: the given tag, no attributes, no children. */
    constructor (tagName: string)
      ensures tag == tagName && attributes == map[] && children == []
    {
      tag := tagName;
      attributes := map[];
      children := [];
    }

    /** Inserts or overwrites one attribute. */
    method SetAttribute(key: string, value: string)
      modifies this
      ensures attributes == old(attributes)[key := value]
      ensures tag == old(tag) && children == old(children)
    {
      attributes := attributes[key := value];
    }

    /** Deletes one attribute, if present. */
    method RemoveAttribute(key: string)
      modifies this
      ensures attributes == old(attributes) - {key}
      ensures tag == old(tag) && children == old(children)
    {
      attributes := attributes - {key};
    }

    /** Appends a child at the end of the child list. */
    method AddChild(child: Element)
      modifies this
      ensures children == old(children) + [child]
      ensures tag == old(tag) && attributes == old(attributes)
    {
      children := children + [child];
    }

    /** Drops every direct child carrying `tagName`, keeping the rest in order. */
    method RemoveChildByTag(tagName: string)
      modifies this
      ensures children == Without(old(children), tagName)
      ensures tag == old(tag) && attributes == old(attributes)
    {
      children := Without(children, tagName);
    }

    /** Renders the element and its subtree as HTML. */
    method Render() returns (html: string, ghost order: AttributeOrder)
      ensures OrderFits(Value(), order)
      ensures html == Rendered(Value(), order)
    {
      html, order := RenderElement(Value());
    }

    /** The first direct child carrying `tagName`; descendants are not searched. */
    method FindChildByTag(tagName: string) returns (r: Option<Element>)
      ensures r.None? <==> FirstIndex(children, tagName).None?
      ensures r.Some? ==> r.value == children[FirstIndex(children, tagName).value]
    {
      for i := 0 to |children|
        invariant forall j :: 0 <= j < i ==> children[j].tag != tagName
      {
        if children[i].tag == tagName {
          return Some(children[i]);
        }
      }
      return None;
    }

    /** Replaces the first direct child carrying `tagName`; no-op when none does. */
    method ReplaceChildByTag(tagName: string, newChild: Element)
      modifies this
      ensures FirstIndex(old(children), tagName).None? ==> children == old(children)
      ensures FirstIndex(old(children), tagName).Some? ==>
                children == old(children)[FirstIndex(old(children), tagName).value := newChild]
      ensures |children| == |old(children)|
      ensures tag == old(tag) && attributes == old(attributes)
    {
      for i := 0 to |children|
        invariant children == old(children)
        invariant forall j :: 0 <= j < i ==> children[j].tag != tagName
      {
        if children[i].tag == tagName {
          children := children[i := newChild];
          return;
        }
      }
    }

    /** Counts the elements tagged `tagName` strictly below this one. */
    method CountElementsByTag(tagName: string) returns (count: nat)
      ensures count == CountBelow(Value(), tagName)
    {
      count := 0;
      for i := 0 to |children|
        invariant count == CountIn(children[..i], tagName)
      {
        var child := children[i];
        if child.tag == tagName {
          count := count + 1;
        }
        assert children[..i + 1][..i] == children[..i];
        count := count + CountBelow(child, tagName);
      }
      assert children[..|children|] == children;
    }

    /** Rewrites every `"text"` element of the subtree; `newText` is not stored. */
    method UpdateTextContent(newText: string)
      modifies this
      ensures Value() == TextUpdated(old(Value()))
    {
      if tag == "text" {
        children := [Element("text", map[], [])];
      } else {
        for i := 0 to |children|
          invariant |children| == |old(children)|
          invariant forall j :: 0 <= j < i ==> children[j] == TextUpdated(old(children)[j])
          invariant forall j :: i <= j < |children| ==> children[j] == old(children)[j]
          invariant tag == old(tag) && attributes == old(attributes)
        {
          children := children[i := TextUpdated(children[i])];
        }
      }
    }

    /** Sets the `style` attribute. */
    method SetStyle(style: string)
      modifies this
      ensures attributes == old(attributes)["style" := style]
      ensures tag == old(tag) && children == old(children)
    {
      SetAttribute("style", style);
    }

    /** An independent copy of the element and its subtree. */
    method CloneElement() returns (copy: Element)
      ensures copy == Value()
    {
      copy := Element(tag, attributes, children);
    }

    /** Registers a handler as the attribute `"on" + event`. */
    method AddEventListener(event: string, handler: string)
      modifies this
      ensures attributes == old(attributes)["on" + event := handler]
      ensures tag == old(tag) && children == old(children)
    {
      SetAttribute("on" + event, handler);
    }
  }

  // ---------------------------------------------------------------------------
  // Properties
  // ---------------------------------------------------------------------------

  /** Removing by tag keeps order: it distributes over concatenation. */
  lemma {:induction false} WithoutAppend(a: seq<Element>, b: seq<Element>, tag: string)
    ensures Without(a + b, tag) == Without(a, tag) + Without(b, tag)
    decreases |a|
  {
    if |a| == 0 {
      assert a + b == b;
    } else {
      assert (a + b)[1..] == a[1..] + b;
      WithoutAppend(a[1..], b, tag);
    }
  }

  /** Removing by tag twice is the same as removing once. */
  lemma {:induction false} WithoutIdempotent(children: seq<Element>, tag: string)
    ensures Without(Without(children, tag), tag) == Without(children, tag)
    decreases |children|
  {
    if |children| > 0 {
      WithoutIdempotent(children[1..], tag);
      if children[0].tag != tag {
        assert ([children[0]] + Without(children[1..], tag))[1..] == Without(children[1..], tag);
      }
    }
  }

  /** With no child carrying the tag, removal changes nothing. */
  lemma {:induction false} WithoutNoMatch(children: seq<Element>, tag: string)
    requires forall j :: 0 <= j < |children| ==> children[j].tag != tag
    ensures Without(children, tag) == children
    decreases |children|
  {
    if |children| > 0 {
      WithoutNoMatch(children[1..], tag);
      assert [children[0]] + children[1..] == children;
    }
  }

  /** The count over a concatenation is the sum of the counts. */
  lemma {:induction false} CountInAppend(a: seq<Element>, b: seq<Element>, tag: string)
    ensures CountIn(a + b, tag) == CountIn(a, tag) + CountIn(b, tag)
    decreases |b|
  {
    if |b| == 0 {
      assert a + b == a;
    } else {
      var last := b[|b| - 1];
      assert (a + b)[..|a + b| - 1] == a + b[..|b| - 1];
      CountInAppend(a, b[..|b| - 1], tag);
    }
  }

  /** Appending a child adds one if the child carries the tag, plus the
      matches inside the child. */
  lemma CountAfterAddChild(e: Element, child: Element, tag: string)
    ensures CountBelow(Element(e.tag, e.attributes, e.children + [child]), tag) ==
            CountBelow(e, tag) + (if child.tag == tag then 1 else 0) + CountBelow(child, tag)
  {
    assert (e.children + [child])[..|e.children|] == e.children;
  }

  /** The receiver itself is never counted: the count is below the number of
      elements in the subtree, and the tag of the receiver does not matter. */
  lemma {:induction false} CountBelowSize(e: Element, tag: string)
    ensures CountBelow(e, tag) < Size(e)
    decreases e
  {
    CountInSize(e.children, tag);
  }

  lemma {:induction false} CountInSize(children: seq<Element>, tag: string)
    ensures CountIn(children, tag) <= SizeIn(children)
    decreases children
  {
    if |children| > 0 {
      CountInSize(children[..|children| - 1], tag);
      CountBelowSize(children[|children| - 1], tag);
    }
  }

  /** A childless element counts nothing, whatever its own tag. */
  lemma LeafCountsNothing(tag: string, attributes: map<string, string>)
    ensures CountBelow(Element(tag, attributes, []), tag) == 0
  {
  }

  /** Updating text content twice is the same as once. */
  lemma {:induction false} TextUpdatedIdempotent(e: Element)
    ensures TextUpdated(TextUpdated(e)) == TextUpdated(e)
    decreases e
  {
    if e.tag != "text" {
      TextUpdatedAllIdempotent(e.children);
    }
  }

  lemma {:induction false} TextUpdatedAllIdempotent(children: seq<Element>)
    ensures TextUpdatedAll(TextUpdatedAll(children)) == TextUpdatedAll(children)
    decreases children
  {
    var once := TextUpdatedAll(children);
    var twice := TextUpdatedAll(once);
    forall i | 0 <= i < |children|
      ensures twice[i] == once[i]
    {
      TextUpdatedIdempotent(children[i]);
    }
  }

  /** A `"text"` element ends up with exactly two nodes: itself and its one
      empty `"text"` child. */
  lemma TextElementSize(e: Element)
    requires e.tag == "text"
    ensures Size(TextUpdated(e)) == 2
  {
    var child := Element("text", map[], []);
    assert [child][..0] == [];
  }
}
