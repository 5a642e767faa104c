/**
 * The virtual-DOM reconciler: a node model, a positional tree diff that turns
 * two trees into a list of patches, and the applier that plays a patch list
 * against the child list of a container node.
 *
 * Nodes are values here. A reference-counted, interior-mutable node handle of
 * the original becomes the node value itself; a boxed event-handler closure
 * becomes a `Handler` identity compared by equality; the type-erased component
 * state becomes an `AnyValue`.
 */
module VDom {
  import opened Wrappers

  /** Identity of an event-handler closure. `NoopHandler` is the empty closure
      the diff puts in place of a handler that the new tree no longer has. */
  datatype Handler = Handler(id: nat) | NoopHandler

  /** A type-erased value: a `String`, the string-keyed map that the diff boxes
      into a state patch, or any other value (identified only by an id). */
  datatype AnyValue =
    | AnyString(s: string)
    | AnyStringMap(entries: map<string, string>)
    | AnyOpaque(id: nat)

  /** A virtual-DOM node. `component` identifies the boxed render object of a
      component; the reconciler never calls it. */
  datatype VNode =
    | Element(tag: string, children: seq<VNode>, attributes: map<string, string>,
              eventHandlers: map<string, Handler>)
    | Text(text: string)
    | Fragment(children: seq<VNode>)
    | Component(name: string, props: map<string, string>, state: AnyValue, component: nat)

  datatype Patch =
    | Replace(node: VNode)
    | Add(node: VNode)
    | Remove
    | UpdateAttributes(attributeUpdates: map<string, Option<string>>)
    | UpdateEventHandlers(handlerUpdates: map<string, Handler>)
    | UpdateState(key: string, payload: AnyValue)

  predicate SameVariant(a: VNode, b: VNode) {
    (a.Element? && b.Element?) || (a.Text? && b.Text?) ||
    (a.Fragment? && b.Fragment?) || (a.Component? && b.Component?)
  }

  function Min(a: nat, b: nat): nat { if a < b then a else b }

  // ---------------------------------------------------------------------------
  // Diff
  // ---------------------------------------------------------------------------

  /** The batched attribute changes from `oldAttrs` to `newAttrs`. */
  function AttributesDiff(oldAttrs: map<string, string>, newAttrs: map<string, string>)
    : (d: map<string, Option<string>>)
    ensures forall k :: k in d && d[k].Some? <==>
      k in newAttrs && (k !in oldAttrs || oldAttrs[k] != newAttrs[k])
    ensures forall k :: k in d && d[k].None? <==> k in oldAttrs && k !in newAttrs
    ensures forall k :: k in d && d[k].Some? ==> d[k].value == newAttrs[k]
  {
    map k | k in newAttrs.Keys + oldAttrs.Keys &&
            (k !in newAttrs || k !in oldAttrs || oldAttrs[k] != newAttrs[k])
      :: if k in newAttrs then Some(newAttrs[k]) else None
  }

  /** The batched handler changes: new or re-bound handlers, and `NoopHandler`
      for every event the new node no longer handles. */
  function HandlersDiff(oldHandlers: map<string, Handler>, newHandlers: map<string, Handler>)
    : (d: map<string, Handler>)
    ensures forall e :: e in newHandlers ==>
      (e in d <==> e !in oldHandlers || oldHandlers[e] != newHandlers[e])
    ensures forall e :: e in d && e in newHandlers ==> d[e] == newHandlers[e]
    ensures forall e :: e !in newHandlers ==> (e in d <==> e in oldHandlers)
    ensures forall e :: e in d && e !in newHandlers ==> d[e] == NoopHandler
  {
    map e | e in newHandlers.Keys + oldHandlers.Keys &&
            (e !in newHandlers || e !in oldHandlers || oldHandlers[e] != newHandlers[e])
      :: if e in newHandlers then newHandlers[e] else NoopHandler
  }

  /** The element's own patches: at most one attribute batch, then at most one
      handler batch, each only when it is non-empty. */
  function OwnPatches(oldAttrs: map<string, string>, newAttrs: map<string, string>,
                      oldHandlers: map<string, Handler>, newHandlers: map<string, Handler>)
    : seq<Patch>
  {
    var attrs := AttributesDiff(oldAttrs, newAttrs);
    var handlers := HandlersDiff(oldHandlers, newHandlers);
    (if attrs != map[] then [UpdateAttributes(attrs)] else []) +
    (if handlers != map[] then [UpdateEventHandlers(handlers)] else [])
  }

  /** The state patch of two same-named components: emitted only when the new
      state is a string and the old one is not that same string; its payload
      is the map `{"state": new}`, boxed. */
  function StatePatches(oldState: AnyValue, newState: AnyValue): seq<Patch> {
    match newState
    case AnyString(s) =>
      if oldState == AnyString(s) then []
      else [UpdateState("state", AnyStringMap(map["state" := s]))]
    case _ => []
  }

  function Removes(n: nat): seq<Patch> {
    seq(n, _ => Remove)
  }

  function Adds(nodes: seq<VNode>): seq<Patch> {
    seq(|nodes|, i requires 0 <= i < |nodes| => Add(nodes[i]))
  }

  /** Diff of two nodes at the same position of the tree. */
  function Diff(oldNode: VNode, newNode: VNode): seq<Patch>
    decreases oldNode
  {
    match (oldNode, newNode)
    case (Element(oldTag, oldChildren, oldAttrs, oldHandlers),
          Element(newTag, newChildren, newAttrs, newHandlers)) =>
      if oldTag != newTag then [Replace(newNode)]
      else OwnPatches(oldAttrs, newAttrs, oldHandlers, newHandlers) +
           ChildrenDiff(oldChildren, newChildren)
    case (Text(oldText), Text(newText)) =>
      if oldText != newText then [Replace(newNode)] else []
    case (Fragment(oldChildren), Fragment(newChildren)) =>
      ChildrenDiff(oldChildren, newChildren)
    case (Component(oldName, _, oldState, _), Component(newName, _, newState, _)) =>
      if oldName != newName then [Replace(newNode)] else StatePatches(oldState, newState)
    case _ => [Replace(newNode)]
  }

  /** Positional child reconciliation: the diffs of the common prefix in index
      order, then trailing removals or additions. */
  function ChildrenDiff(oldChildren: seq<VNode>, newChildren: seq<VNode>): seq<Patch>
    decreases oldChildren, |oldChildren| + 1
  {
    PairwiseDiff(oldChildren, newChildren, Min(|oldChildren|, |newChildren|)) +
    if |oldChildren| > |newChildren| then Removes(|oldChildren| - |newChildren|)
    else if |newChildren| > |oldChildren| then Adds(newChildren[|oldChildren|..])
    else []
  }

  /** The diffs of the first `k` child pairs, concatenated in index order. */
  function PairwiseDiff(oldChildren: seq<VNode>, newChildren: seq<VNode>, k: nat): seq<Patch>
    requires k <= |oldChildren| && k <= |newChildren|
    decreases oldChildren, k
  {
    if k == 0 then []
    else PairwiseDiff(oldChildren, newChildren, k - 1) + PairDiff(oldChildren, newChildren, k - 1)
  }

  /** The diff of the child pair at index `i`. */
  function PairDiff(oldChildren: seq<VNode>, newChildren: seq<VNode>, i: nat): seq<Patch>
    requires i < |oldChildren| && i < |newChildren|
    decreases oldChildren, i
  {
    Diff(oldChildren[i], newChildren[i])
  }

  // ---------------------------------------------------------------------------
  // Properties of Diff
  // ---------------------------------------------------------------------------

  /** Two text nodes diff to nothing when equal and to exactly one replacement otherwise. */
  lemma DiffTexts(a: string, b: string)
    ensures Diff(Text(a), Text(b)) == [] <==> a == b
    ensures a != b ==> Diff(Text(a), Text(b)) == [Replace(Text(b))]
  {
  }

  /** Different variants, element tags or component names give exactly one
      replacement and no patch for anything below. */
  lemma DiffReplaces(oldNode: VNode, newNode: VNode)
    requires !SameVariant(oldNode, newNode)
          || (oldNode.Element? && newNode.Element? && oldNode.tag != newNode.tag)
          || (oldNode.Component? && newNode.Component? && oldNode.name != newNode.name)
    ensures Diff(oldNode, newNode) == [Replace(newNode)]
  {
  }

  /** Two elements with one tag: the element's own patches (at most one
      attribute batch, present exactly when some attribute changed, then at
      most one handler batch) precede all child patches. */
  lemma DiffElements(oldNode: VNode, newNode: VNode)
    requires oldNode.Element? && newNode.Element? && oldNode.tag == newNode.tag
    ensures var ps := Diff(oldNode, newNode);
            var attrs := AttributesDiff(oldNode.attributes, newNode.attributes);
            var handlers := HandlersDiff(oldNode.eventHandlers, newNode.eventHandlers);
            var own := (if attrs != map[] then 1 else 0) + (if handlers != map[] then 1 else 0);
            && own <= |ps|
            && ps[own..] == ChildrenDiff(oldNode.children, newNode.children)
            && (attrs != map[] ==> ps[0] == UpdateAttributes(attrs))
            && (handlers != map[] ==> ps[own - 1] == UpdateEventHandlers(handlers))
  {
  }

  /** Child reconciliation: the pairwise diffs of the common prefix, then
      exactly |old| - |new| removals, or one addition per extra new child in
      increasing index order. */
  lemma ChildrenDiffTail(oldChildren: seq<VNode>, newChildren: seq<VNode>)
    ensures var m := Min(|oldChildren|, |newChildren|);
            var common := PairwiseDiff(oldChildren, newChildren, m);
            var ps := ChildrenDiff(oldChildren, newChildren);
            && common <= ps
            && (|oldChildren| >= |newChildren| ==>
                  |ps| - |common| == |oldChildren| - |newChildren| &&
                  forall i :: |common| <= i < |ps| ==> ps[i] == Remove)
            && (|newChildren| >= |oldChildren| ==>
                  |ps| - |common| == |newChildren| - |oldChildren| &&
                  forall i :: |common| <= i < |ps| ==>
                    ps[i] == Add(newChildren[|oldChildren| + i - |common|]))
  {
  }

  /** The patches of the first `j` child pairs are a prefix of those of the
      first `k`, for `j <= k`. */
  lemma {:induction false} PairwiseDiffMonotone(oldChildren: seq<VNode>, newChildren: seq<VNode>,
                                                j: nat, k: nat)
    requires j <= k <= |oldChildren| && k <= |newChildren|
    ensures PairwiseDiff(oldChildren, newChildren, j) <= PairwiseDiff(oldChildren, newChildren, k)
    decreases k
  {
    if j < k {
      PairwiseDiffMonotone(oldChildren, newChildren, j, k - 1);
      PrefixExtends(PairwiseDiff(oldChildren, newChildren, j), PairwiseDiff(oldChildren, newChildren, k - 1),
                    PairDiff(oldChildren, newChildren, k - 1));
    }
  }

  /** The patches for child pair `j` come right after those of the pairs
      before it and before those of every later pair. */
  lemma {:induction false} PairwiseDiffOrdered(oldChildren: seq<VNode>, newChildren: seq<VNode>, j: nat, k: nat)
    requires j < k <= |oldChildren| && k <= |newChildren|
    ensures PairwiseDiff(oldChildren, newChildren, j) + PairDiff(oldChildren, newChildren, j)
            <= PairwiseDiff(oldChildren, newChildren, k)
  {
    PairwiseDiffMonotone(oldChildren, newChildren, j + 1, k);
  }

  lemma PrefixExtends<T>(a: seq<T>, b: seq<T>, c: seq<T>)
    requires a <= b
    ensures a <= b + c
  {
    assert (b + c)[..|a|] == b[..|a|];
  }

  /** A node diffed against itself yields no patch. */
  lemma {:induction false} DiffSelf(t: VNode)
    ensures Diff(t, t) == []
    decreases t
  {
    match t
    case Element(_, children, attrs, handlers) =>
      assert AttributesDiff(attrs, attrs) == map[];
      assert HandlersDiff(handlers, handlers) == map[];
      PairwiseDiffSelf(children, |children|);
    case Fragment(children) =>
      PairwiseDiffSelf(children, |children|);
    case Text(_) =>
    case Component(_, _, _, _) =>
  }

  lemma {:induction false} PairwiseDiffSelf(children: seq<VNode>, k: nat)
    requires k <= |children|
    ensures PairwiseDiff(children, children, k) == []
    decreases children, k
  {
    if k > 0 {
      PairwiseDiffSelf(children, k - 1);
      DiffSelf(children[k - 1]);
    }
  }

  /** Every state patch the diff emits carries the boxed map, never a bare string. */
  lemma {:induction false} DiffStatePayloads(oldNode: VNode, newNode: VNode)
    ensures forall p :: p in Diff(oldNode, newNode) && p.UpdateState? ==> p.payload.AnyStringMap?
    decreases oldNode
  {
    match (oldNode, newNode)
    case (Element(oldTag, oldChildren, _, _), Element(newTag, newChildren, _, _)) =>
      if oldTag == newTag {
        PairwisePayloads(oldChildren, newChildren, Min(|oldChildren|, |newChildren|));
      }
    case (Fragment(oldChildren), Fragment(newChildren)) =>
      PairwisePayloads(oldChildren, newChildren, Min(|oldChildren|, |newChildren|));
    case (_, _) =>
  }

  lemma {:induction false} PairwisePayloads(oldChildren: seq<VNode>, newChildren: seq<VNode>, k: nat)
    requires k <= |oldChildren| && k <= |newChildren|
    ensures forall p :: p in PairwiseDiff(oldChildren, newChildren, k) && p.UpdateState? ==>
      p.payload.AnyStringMap?
    decreases oldChildren, k
  {
    if k > 0 {
      PairwisePayloads(oldChildren, newChildren, k - 1);
      DiffStatePayloads(oldChildren[k - 1], newChildren[k - 1]);
    }
  }

  // ---------------------------------------------------------------------------
  // Applying patches
  // ---------------------------------------------------------------------------

  /** The attribute map after a batch: `Some` keys set, `None` keys removed,
      every other key unchanged. */
  function UpdatedAttributes(attrs: map<string, string>, updates: map<string, Option<string>>)
    : (r: map<string, string>)
    ensures forall k :: k in updates && updates[k].Some? ==> k in r && r[k] == updates[k].value
    ensures forall k :: k in updates && updates[k].None? ==> k !in r
    ensures forall k :: k !in updates ==> (k in r <==> k in attrs)
    ensures forall k :: k !in updates && k in attrs ==> r[k] == attrs[k]
  {
    map k | k in attrs.Keys + updates.Keys && (k in updates ==> updates[k].Some?)
      :: if k in updates then updates[k].value else attrs[k]
  }

  /** The handler map after a batch: every key of the batch is inserted or
      overwritten; no handler is ever removed. */
  function UpdatedHandlers(handlers: map<string, Handler>, updates: map<string, Handler>)
    : (r: map<string, Handler>)
    ensures r.Keys == handlers.Keys + updates.Keys
    ensures forall e :: e in updates ==> r[e] == updates[e]
    ensures forall e :: e in handlers && e !in updates ==> r[e] == handlers[e]
  {
    handlers + updates
  }

  /** The patches that address the last child of the list. */
  predicate TargetsLastChild(p: Patch) {
    p.UpdateAttributes? || p.UpdateEventHandlers? || p.UpdateState?
  }

  /** The last child after a patch that addresses it: changed only when it is
      of the variant the patch expects. */
  function PatchedLast(last: VNode, p: Patch): VNode
    requires TargetsLastChild(p)
  {
    match p
    case UpdateAttributes(updates) =>
      if last.Element? then last.(attributes := UpdatedAttributes(last.attributes, updates)) else last
    case UpdateEventHandlers(updates) =>
      if last.Element? then last.(eventHandlers := UpdatedHandlers(last.eventHandlers, updates)) else last
    case UpdateState(_, payload) =>
      if last.Component? && payload.AnyString? then last.(state := payload) else last
  }

  /** One patch applied to a container's child list. */
  function ApplyPatch(children: seq<VNode>, p: Patch): (r: seq<VNode>)
    requires TargetsLastChild(p) ==> children != []
    ensures p.Replace? ==> r == [p.node]
    ensures p.Add? ==> |r| == |children| + 1 && r[..|children|] == children && r[|children|] == p.node
    ensures p.Remove? ==> |r| == (if children == [] then 0 else |children| - 1) && r <= children
    ensures TargetsLastChild(p) ==>
      |r| == |children| && r[..|r| - 1] == children[..|children| - 1]
    ensures p.UpdateAttributes? && children[|children| - 1].Element? ==>
      var before, after := children[|children| - 1], r[|r| - 1];
      && after.Element? && after.tag == before.tag && after.children == before.children
      && after.eventHandlers == before.eventHandlers
      && (forall k :: k in p.attributeUpdates && p.attributeUpdates[k].Some? ==>
            k in after.attributes && after.attributes[k] == p.attributeUpdates[k].value)
      && (forall k :: k in p.attributeUpdates && p.attributeUpdates[k].None? ==>
            k !in after.attributes)
      && (forall k :: k !in p.attributeUpdates ==>
            (k in after.attributes <==> k in before.attributes) &&
            (k in before.attributes ==> after.attributes[k] == before.attributes[k]))
    ensures p.UpdateEventHandlers? && children[|children| - 1].Element? ==>
      var before, after := children[|children| - 1], r[|r| - 1];
      && after.Element? && after.tag == before.tag && after.children == before.children
      && after.attributes == before.attributes
      && after.eventHandlers.Keys == before.eventHandlers.Keys + p.handlerUpdates.Keys
      && (forall e :: e in p.handlerUpdates ==> after.eventHandlers[e] == p.handlerUpdates[e])
      && (forall e :: e in before.eventHandlers && e !in p.handlerUpdates ==>
            after.eventHandlers[e] == before.eventHandlers[e])
    ensures (p.UpdateAttributes? || p.UpdateEventHandlers?) && !children[|children| - 1].Element? ==>
      r == children
    ensures p.UpdateState? && !p.payload.AnyString? ==> r == children
  {
    match p
    case Replace(node) => [node]
    case Add(node) => children + [node]
    case Remove => if children == [] then [] else children[..|children| - 1]
    case _ => children[..|children| - 1] + [PatchedLast(children[|children| - 1], p)]
  }

  /** No patch that addresses the last child finds the list empty (the
      original unwraps the last child and would panic). */
  predicate CanApply(children: seq<VNode>, patches: seq<Patch>)
    decreases |patches|
  {
    patches == [] ||
    ((TargetsLastChild(patches[0]) ==> children != []) &&
     CanApply(ApplyPatch(children, patches[0]), patches[1..]))
  }

  /** The patches applied to the child list, in order. */
  function ApplyAll(children: seq<VNode>, patches: seq<Patch>): seq<VNode>
    requires CanApply(children, patches)
    decreases |patches|
  {
    if patches == [] then children
    else ApplyAll(ApplyPatch(children, patches[0]), patches[1..])
  }

  /** The patch list applies to `root` without a panic. */
  predicate Applicable(root: VNode, patches: seq<Patch>) {
    (root.Element? || root.Fragment?) ==> CanApply(root.children, patches)
  }

  /** `root` after the patches: only an element's or a fragment's child list
      changes; a text or component root is left as it is. */
  function Applied(root: VNode, patches: seq<Patch>): (r: VNode)
    requires Applicable(root, patches)
    ensures (root.Text? || root.Component?) ==> r == root
    ensures root.Element? ==>
      r.Element? && r.tag == root.tag && r.attributes == root.attributes &&
      r.eventHandlers == root.eventHandlers
    ensures root.Fragment? ==> r.Fragment?
  {
    match root
    case Element(tag, children, attrs, handlers) => Element(tag, ApplyAll(children, patches), attrs, handlers)
    case Fragment(children) => Fragment(ApplyAll(children, patches))
    case _ => root
  }

  /** The attribute batch applied one key at a time. */
  method ApplyAttributeUpdates(attrs: map<string, string>, updates: map<string, Option<string>>)
    returns (r: map<string, string>)
    ensures r == UpdatedAttributes(attrs, updates)
  {
    r := attrs;
    var pending := updates.Keys;
    while pending != {}
      invariant pending <= updates.Keys
      invariant forall k :: k in updates && k !in pending && updates[k].Some? ==>
        k in r && r[k] == updates[k].value
      invariant forall k :: k in updates && k !in pending && updates[k].None? ==> k !in r
      invariant forall k :: k !in updates || k in pending ==>
        (k in r <==> k in attrs) && (k in attrs ==> r[k] == attrs[k])
      decreases pending
    {
      var k :| k in pending;
      match updates[k] {
        case Some(v) => r := r[k := v];
        case None => r := r - {k};
      }
      pending := pending - {k};
    }
    var expected := UpdatedAttributes(attrs, updates);
    assert r.Keys == expected.Keys;
  }

  /** The handler batch inserted one event at a time. */
  method ApplyHandlerUpdates(handlers: map<string, Handler>, updates: map<string, Handler>)
    returns (r: map<string, Handler>)
    ensures r == UpdatedHandlers(handlers, updates)
  {
    r := handlers;
    var pending := updates.Keys;
    while pending != {}
      invariant pending <= updates.Keys
      invariant r.Keys == handlers.Keys + (updates.Keys - pending)
      invariant forall e :: e in updates && e !in pending ==> r[e] == updates[e]
      invariant forall e :: e in handlers && (e !in updates || e in pending) ==> r[e] == handlers[e]
      decreases pending
    {
      var e :| e in pending;
      r := r[e := updates[e]];
      pending := pending - {e};
    }
  }

  /** One patch played against a child list, as the applier's loop body does it. */
  method ApplyOne(children: seq<VNode>, p: Patch) returns (r: seq<VNode>)
    requires TargetsLastChild(p) ==> children != []
    ensures r == ApplyPatch(children, p)
  {
    match p {
      case Replace(node) =>
        r := [node];
      case Add(node) =>
        r := children + [node];
      case Remove =>
        r := children;
        if r != [] {
          r := r[..|r| - 1];
        }
      case UpdateAttributes(updates) =>
        r := children;
        var last := children[|children| - 1];
        if last.Element? {
          var attrs := ApplyAttributeUpdates(last.attributes, updates);
          r := children[..|children| - 1] + [last.(attributes := attrs)];
        }
      case UpdateEventHandlers(updates) =>
        r := children;
        var last := children[|children| - 1];
        if last.Element? {
          var handlers := ApplyHandlerUpdates(last.eventHandlers, updates);
          r := children[..|children| - 1] + [last.(eventHandlers := handlers)];
        }
      case UpdateState(_, payload) =>
        r := children;
        var last := children[|children| - 1];
        if last.Component? && payload.AnyString? {
          r := children[..|children| - 1] + [last.(state := payload)];
        }
    }
  }

  /** Plays `patches` against the child list of `root`, in order. */
  method ApplyPatches(root: VNode, patches: seq<Patch>) returns (result: VNode)
    requires Applicable(root, patches)
    ensures result == Applied(root, patches)
  {
    if !(root.Element? || root.Fragment?) {
      return root;
    }
    var children := root.children;
    var i := 0;
    while i < |patches|
      invariant i <= |patches|
      invariant CanApply(children, patches[i..])
      invariant ApplyAll(children, patches[i..]) == ApplyAll(root.children, patches)
    {
      assert patches[i..][1..] == patches[i + 1..];
      children := ApplyOne(children, patches[i]);
      i := i + 1;
    }
    match root {
      case Element(tag, _, attrs, handlers) => result := Element(tag, children, attrs, handlers);
      case Fragment(_) => result := Fragment(children);
    }
  }

  // ---------------------------------------------------------------------------
  // Properties of applying
  // ---------------------------------------------------------------------------

  /** A state patch produced by the diff never changes a child list: the
      applier only takes a bare string, and the diff always boxes a map. */
  lemma DiffStatePatchInert(oldNode: VNode, newNode: VNode, children: seq<VNode>, p: Patch)
    requires p in Diff(oldNode, newNode) && p.UpdateState? && children != []
    ensures ApplyPatch(children, p) == children
  {
    DiffStatePayloads(oldNode, newNode);
  }

  /** Patches act on the root's own child list, not on the position they were
      diffed at: the two patches for `ul[a, b]` -> `ul[a, c, d]` turn the list
      into `[c, d]`, not into `[a, c, d]`. */
  lemma PatchesActOnRootList()
    ensures var a, b, c, d := Text("a"), Text("b"), Text("c"), Text("d");
            var oldNode := Element("ul", [a, b], map[], map[]);
            var newNode := Element("ul", [a, c, d], map[], map[]);
            && Diff(oldNode, newNode) == [Replace(c), Add(d)]
            && Applied(oldNode, Diff(oldNode, newNode)) == Element("ul", [c, d], map[], map[])
  {
    var a, b, c, d := Text("a"), Text("b"), Text("c"), Text("d");
    var oldNode := Element("ul", [a, b], map[], map[]);
    var newNode := Element("ul", [a, c, d], map[], map[]);
    assert AttributesDiff(map[], map[]) == map[];
    assert HandlersDiff(map[], map[]) == map[];
    DiffSelf(a);
    assert PairwiseDiff([a, b], [a, c, d], 1) == [];
    assert Diff(b, c) == [Replace(c)];
    assert PairwiseDiff([a, b], [a, c, d], 2) == [Replace(c)];
    assert [a, c, d][2..] == [d];
    assert Diff(oldNode, newNode) == [Replace(c), Add(d)];
    var ps := [Replace(c), Add(d)];
    assert ps[1..] == [Add(d)];
    assert ApplyPatch([a, b], Replace(c)) == [c];
    assert ApplyPatch([c], Add(d)) == [c, d];
    assert CanApply([c, d], []);
    assert CanApply([c], [Add(d)]);
    assert CanApply([a, b], ps);
    assert ApplyAll([c], [Add(d)]) == [c, d];
    assert ApplyAll([a, b], ps) == [c, d];
  }
}
