/**
 * The applier: `applyUpdate` and `applyChildrenDiff` replay operations on
 * an abstract live tree, with `renderElement` and `addProps` reduced to the
 * state they leave behind (attributes, registered listeners, children).
 */
module Apply {
  import opened Wrappers
  import opened Values
  import opened Nodes
  import opened Attributes
  import opened Operations

  /** An event listener as registered with `addEventListener(type, handler)`. */
  datatype Listener = Listener(event: string, handler: Value)

  /**
   * A live node: a text node, or an element with its attributes, the set of
   * registered listeners (registering the same pair twice has no effect, as
   * in the DOM) and its children.
   */
  datatype LiveNode =
    | LiveText(text: string)
    | LiveElement(tag: string, attrs: Props, listeners: set<Listener>, children: seq<LiveNode>)

  /** The errors an update can throw: an Update aimed at a text node, or a slot with no child in it. */
  datatype ApplyError = TextNodeUpdate | MissingChild

  /** A live node after an update, with the instances whose `didMount` callback fired, in order. */
  datatype Applied = Applied(node: LiveNode, mounted: seq<InstanceId>)

  datatype AppliedChildren = AppliedChildren(children: seq<LiveNode>, mounted: seq<InstanceId>)

  function LowerChar(c: char): char {
    if 'A' <= c <= 'Z' then (c as int + 32) as char else c
  }

  /** `toLowerCase` on ASCII letters. */
  function Lower(s: string): (r: string)
    ensures |r| == |s|
    ensures forall i :: 0 <= i < |s| ==> r[i] == LowerChar(s[i])
  {
    if |s| == 0 then [] else [LowerChar(s[0])] + Lower(s[1..])
  }

  /** The event type a handler property is registered under: its name without `on`, lower-cased. */
  function EventType(name: string): (r: string)
    requires IsEvent(name)
    ensures |r| == |name| - 2
    ensures forall i :: 0 <= i < |r| ==> r[i] == LowerChar(name[i + 2])
    ensures forall i :: 0 <= i < |r| ==> !('A' <= r[i] <= 'Z')
  {
    Lower(name[2..])
  }

  /** A handler named `on` + rest is registered under the lower-cased rest. */
  lemma {:induction false} EventTypeOfOnName(rest: string)
    ensures IsEvent("on" + rest) && EventType("on" + rest) == Lower(rest)
  {
    OnPrefixIsEvent(rest);
  }

  /**
   * `addProps`: every handler property is registered under its event type;
   * every other property (`class` and `value` included) is written to the
   * element. Nothing else changes.
   */
  function AddProps(e: LiveNode, props: Props): (r: LiveNode)
    requires e.LiveElement?
    ensures r.LiveElement? && r.tag == e.tag && r.children == e.children
    ensures r.attrs.Keys == e.attrs.Keys + (set p | p in props && !IsEvent(p))
    ensures forall p :: p in props && !IsEvent(p) ==> r.attrs[p] == props[p]
    ensures forall p :: p in e.attrs && (p !in props || IsEvent(p)) ==> r.attrs[p] == e.attrs[p]
    ensures forall p :: p in props && IsEvent(p) ==> Listener(EventType(p), props[p]) in r.listeners
    ensures forall l :: l in r.listeners <==>
      l in e.listeners || exists p :: p in props && IsEvent(p) && l == Listener(EventType(p), props[p])
  {
    e.(attrs := e.attrs + (map p | p in props && !IsEvent(p) :: props[p]),
       listeners := e.listeners + (set p | p in props && IsEvent(p) :: Listener(EventType(p), props[p])))
  }

  /**
   * The removal half of `applyUpdate`: a handler property is passed to
   * `removeEventListener` under its raw property name, `class` is cleared
   * to the empty string, and every other property is removed.
   */
  function RemoveProps(e: LiveNode, props: Props): (r: LiveNode)
    requires e.LiveElement?
    ensures r.LiveElement? && r.tag == e.tag && r.children == e.children
    ensures forall p :: p in props && !IsEvent(p) && p != "class" ==> p !in r.attrs
    ensures "class" in props ==> "class" in r.attrs && r.attrs["class"] == Str("")
    ensures forall p :: p in e.attrs && p !in props ==> p in r.attrs && r.attrs[p] == e.attrs[p]
    ensures forall p :: p in r.attrs ==> p in e.attrs || p == "class"
    ensures forall l :: l in r.listeners <==>
      l in e.listeners && !exists p :: p in props && IsEvent(p) && l == Listener(p, props[p])
  {
    var kept := e.attrs - (set p | p in props && !IsEvent(p) && p != "class");
    e.(attrs := if "class" in props then kept["class" := Str("")] else kept,
       listeners := set l | l in e.listeners && !(l.event in props && IsEvent(l.event) && props[l.event] == l.handler))
  }

  /**
   * `renderElement` for text and element nodes; a component's own output is
   * produced by `mount`, which stands for the component collaborator.
   */
  function Render(mount: Node -> LiveNode, n: Node): (r: LiveNode)
    ensures n.Text? ==> r == LiveText(n.value)
    ensures n.Element? ==> r.LiveElement? && r.tag == n.tag && |r.children| == |n.children|
    ensures n.Element? ==> r.attrs == map p | p in n.props && !IsEvent(p) :: n.props[p]
    ensures n.Element? ==> r.listeners == set p | p in n.props && IsEvent(p) :: Listener(EventType(p), n.props[p])
    ensures n.Element? ==> forall i :: 0 <= i < |n.children| ==> r.children[i] == Render(mount, n.children[i])
    decreases Size(n), 0
  {
    match n
    case Text(value, _) => LiveText(value)
    case Component(_, _, _, _) => mount(n)
    case Element(tag, props, children, _, _) =>
      AddProps(LiveElement(tag, map[], {}, []), props).(children := RenderEach(mount, children))
  }

  function RenderEach(mount: Node -> LiveNode, s: seq<Node>): (r: seq<LiveNode>)
    ensures |r| == |s|
    ensures forall i :: 0 <= i < |s| ==> r[i] == Render(mount, s[i])
    decreases SizeSeq(s), 1
  {
    if |s| == 0 then [] else [Render(mount, s[0])] + RenderEach(mount, s[1..])
  }

  function OpSize(op: UpdateOp): nat {
    match op
    case Update(_, children) => 1 + ChildOpsSize(children)
    case _ => 1
  }

  function ChildOpSize(c: ChildOp): (r: nat)
    ensures r >= 1
  {
    match c
    case Nested(op) => 1 + OpSize(op)
    case _ => 1
  }

  function ChildOpsSize(ops: seq<ChildOp>): nat {
    if |ops| == 0 then 0 else ChildOpSize(ops[0]) + ChildOpsSize(ops[1..])
  }

  lemma {:induction false} ChildOpsSizeStep(ops: seq<ChildOp>, k: nat)
    requires k < |ops|
    ensures ChildOpsSize(ops[k..]) == ChildOpSize(ops[k]) + ChildOpsSize(ops[k + 1..])
  {
    assert ops[k..][1..] == ops[k + 1..];
  }

  /**
   * `applyUpdate`: Skip leaves the node as it is; Replace renders the new
   * node in its place and fires its `didMount` callback; Update on a text
   * node throws; otherwise the removals, then the additions, are applied to
   * the element and its children are updated slot by slot.
   */
  function ApplyUpdate(mount: Node -> LiveNode, live: LiveNode, op: UpdateOp): (r: Result<Applied, ApplyError>)
    ensures op.Skip? ==> r == Ok(Applied(live, []))
    ensures op.Replace? ==>
      r == Ok(Applied(Render(mount, op.node), if op.didMount.Some? then [op.didMount.value] else []))
    ensures op.Update? && live.LiveText? ==> r == Err(TextNodeUpdate)
    ensures op.Update? && r.Ok? ==>
      && live.LiveElement? && r.value.node.LiveElement? && r.value.node.tag == live.tag
      && r.value.node.attrs == AddProps(RemoveProps(live, op.delta.remove), op.delta.add).attrs
      && r.value.node.listeners == AddProps(RemoveProps(live, op.delta.remove), op.delta.add).listeners
      && |r.value.node.children| == |live.children| + CountInserts(op.children) - CountRemoves(op.children)
    decreases OpSize(op), 0
  {
    match op
    case Skip => Ok(Applied(live, []))
    case Replace(node, didMount) =>
      Ok(Applied(Render(mount, node), if didMount.Some? then [didMount.value] else []))
    case Update(delta, ops) =>
      if live.LiveText? then
        Err(TextNodeUpdate)
      else
        var patched := AddProps(RemoveProps(live, delta.remove), delta.add);
        assert ops[0..] == ops && ops[..0] == [];
        match ApplyChildren(mount, patched.children, ops, 0, 0)
        case Err(e) => Err(e)
        case Ok(kids) => Ok(Applied(patched.(children := kids.children), kids.mounted))
  }

  /**
   * `applyChildrenDiff`: operation `idx` works on child `idx + offset`,
   * where `offset` is minus the number of Removes before it. Skip leaves the
   * child; Insert renders its node before that child, or appends it when
   * there is none; Remove deletes that child; any other update is applied to
   * it. A Remove or update aimed past the last child throws.
   */
  function ApplyChildren(mount: Node -> LiveNode, kids: seq<LiveNode>, ops: seq<ChildOp>, idx: nat, offset: int)
    : (r: Result<AppliedChildren, ApplyError>)
    requires idx <= |ops| && offset == -(CountRemoves(ops[..idx]) as int)
    ensures r.Ok? ==>
      |r.value.children| == |kids| + CountInserts(ops[idx..]) - CountRemoves(ops[idx..])
    decreases ChildOpsSize(ops[idx..]), 1
  {
    if idx == |ops| then
      Ok(AppliedChildren(kids, []))
    else
      RemovesBeforeBounded(ops, idx);
      RemovesBeforeStep(ops, idx);
      ChildOpsSizeStep(ops, idx);
      assert ops[idx..] == [ops[idx]] + ops[idx + 1..];
      CountsAppend([ops[idx]], ops[idx + 1..]);
      var at: nat := idx + offset;
      match ops[idx]
      case Insert(node) =>
        var grown := if at < |kids| then kids[..at] + [Render(mount, node)] + kids[at..] else kids + [Render(mount, node)];
        ApplyChildren(mount, grown, ops, idx + 1, offset)
      case Remove =>
        if at < |kids| then ApplyChildren(mount, kids[..at] + kids[at + 1..], ops, idx + 1, offset - 1)
        else Err(MissingChild)
      case Nested(op) =>
        if op.Skip? then
          ApplyChildren(mount, kids, ops, idx + 1, offset)
        else if at < |kids| then
          match ApplyUpdate(mount, kids[at], op)
          case Err(e) => Err(e)
          case Ok(child) =>
            match ApplyChildren(mount, kids[at := child.node], ops, idx + 1, offset)
            case Err(e) => Err(e)
            case Ok(rest) => Ok(AppliedChildren(rest.children, child.mounted + rest.mounted))
        else
          Err(MissingChild)
  }

  /**
   * The same slot arithmetic as `ApplyChildren`, tracking only which key
   * each slot holds: an Insert brings its node's key, a Remove drops the
   * key at its slot, and an update keeps it.
   */
  function ReplayKeys(keys: seq<Key>, ops: seq<ChildOp>, idx: nat, offset: int): Result<seq<Key>, ApplyError>
    requires idx <= |ops| && offset == -(CountRemoves(ops[..idx]) as int)
    decreases |ops| - idx
  {
    if idx == |ops| then
      Ok(keys)
    else
      RemovesBeforeBounded(ops, idx);
      RemovesBeforeStep(ops, idx);
      var at: nat := idx + offset;
      match ops[idx]
      case Insert(node) =>
        var grown := if at < |keys| then keys[..at] + [node.key] + keys[at..] else keys + [node.key];
        ReplayKeys(grown, ops, idx + 1, offset)
      case Remove =>
        if at < |keys| then ReplayKeys(keys[..at] + keys[at + 1..], ops, idx + 1, offset - 1)
        else Err(MissingChild)
      case Nested(op) =>
        if op.Skip? || at < |keys| then ReplayKeys(keys, ops, idx + 1, offset)
        else Err(MissingChild)
  }

  /**
   * `ReplayKeys` follows `ApplyChildren` slot for slot: whenever the update
   * of a live child list succeeds, replaying the same operations on a key
   * list of the same length succeeds too and ends with as many keys as the
   * update leaves children.
   */
  lemma {:induction false} ReplayTracksApply(mount: Node -> LiveNode, kids: seq<LiveNode>, keys: seq<Key>,
                                             ops: seq<ChildOp>, idx: nat, offset: int)
    requires idx <= |ops| && offset == -(CountRemoves(ops[..idx]) as int)
    requires |keys| == |kids| && ApplyChildren(mount, kids, ops, idx, offset).Ok?
    ensures ReplayKeys(keys, ops, idx, offset).Ok?
    ensures |ReplayKeys(keys, ops, idx, offset).value| == |ApplyChildren(mount, kids, ops, idx, offset).value.children|
    decreases |ops| - idx
  {
    if idx < |ops| {
      RemovesBeforeBounded(ops, idx);
      RemovesBeforeStep(ops, idx);
      var at: nat := idx + offset;
      match ops[idx]
      case Insert(node) =>
        var grown := if at < |kids| then kids[..at] + [Render(mount, node)] + kids[at..] else kids + [Render(mount, node)];
        var grownKeys := if at < |keys| then keys[..at] + [node.key] + keys[at..] else keys + [node.key];
        ReplayTracksApply(mount, grown, grownKeys, ops, idx + 1, offset);
      case Remove =>
        ReplayTracksApply(mount, kids[..at] + kids[at + 1..], keys[..at] + keys[at + 1..], ops, idx + 1, offset - 1);
      case Nested(op) =>
        if op.Skip? {
          ReplayTracksApply(mount, kids, keys, ops, idx + 1, offset);
        } else {
          var child := ApplyUpdate(mount, kids[at], op).value;
          ReplayTracksApply(mount, kids[at := child.node], keys, ops, idx + 1, offset);
        }
    }
  }

  /**
   * Generalisation of `ReplayRealignsKeys`: once the slots before `idx`
   * have produced `done`, the remaining aligned slots turn
   * `done + Keys(olds)` into `done + Keys(news)`.
   */
  lemma {:induction false} ReplayFrom(ops: seq<ChildOp>, idx: nat, offset: int, done: seq<Key>, olds: seq<Node>, news: seq<Node>)
    requires idx <= |ops| && offset == -(CountRemoves(ops[..idx]) as int)
    requires Aligned(ops[idx..], olds, news) && |done| == idx + offset
    ensures ReplayKeys(done + Keys(olds), ops, idx, offset) == Ok(done + Keys(news))
    decreases |ops| - idx
  {
    if idx == |ops| {
      assert olds == [] && news == [];
    } else {
      RemovesBeforeStep(ops, idx);
      assert ops[idx..][0] == ops[idx] && ops[idx..][1..] == ops[idx + 1..];
      match ops[idx]
      case Insert(node) =>
        KeysInsertAt(done, node.key, olds);
        ReplayFrom(ops, idx + 1, offset, done + [news[0].key], olds, news[1..]);
        KeysCons(done, news);
      case Remove =>
        KeysRemoveAt(done, olds);
        ReplayFrom(ops, idx + 1, offset - 1, done, olds[1..], news);
      case Nested(op) =>
        KeysCons(done, olds);
        ReplayFrom(ops, idx + 1, offset, done + [news[0].key], olds[1..], news[1..]);
        KeysCons(done, news);
    }
  }

  lemma {:induction false} KeysCons(done: seq<Key>, s: seq<Node>)
    requires |s| > 0
    ensures done + Keys(s) == (done + [s[0].key]) + Keys(s[1..])
  {
    assert Keys(s) == [s[0].key] + Keys(s[1..]);
  }

  /** Inserting at slot `|done|` of `done + Keys(olds)`, as `ReplayKeys` does. */
  lemma {:induction false} KeysInsertAt(done: seq<Key>, k: Key, olds: seq<Node>)
    ensures var keys := done + Keys(olds);
      (if |done| < |keys| then keys[..|done|] + [k] + keys[|done|..] else keys + [k]) == (done + [k]) + Keys(olds)
  {
    var keys := done + Keys(olds);
    assert keys[..|done|] == done && keys[|done|..] == Keys(olds);
  }

  /** Removing slot `|done|` of `done + Keys(olds)`, as `ReplayKeys` does. */
  lemma {:induction false} KeysRemoveAt(done: seq<Key>, olds: seq<Node>)
    requires |olds| > 0
    ensures var keys := done + Keys(olds);
      |done| < |keys| && keys[..|done|] + keys[|done| + 1..] == done + Keys(olds[1..])
  {
    var keys := done + Keys(olds);
    assert keys[..|done|] == done && keys[|done| + 1..] == Keys(olds[1..]);
  }

  /** Replaying an aligned operation list on the old keys yields exactly the new keys, in order. */
  lemma {:induction false} ReplayRealignsKeys(ops: seq<ChildOp>, olds: seq<Node>, news: seq<Node>)
    requires Aligned(ops, olds, news)
    ensures ReplayKeys(Keys(olds), ops, 0, 0) == Ok(Keys(news))
  {
    assert ops[..0] == [] && ops[0..] == ops;
    ReplayFrom(ops, 0, 0, [], olds, news);
    assert [] + Keys(olds) == Keys(olds) && [] + Keys(news) == Keys(news);
  }

  /** When an aligned update of a child list succeeds, the live list has as many children as the new list. */
  lemma {:induction false} ApplyChildrenLength(mount: Node -> LiveNode, kids: seq<LiveNode>, ops: seq<ChildOp>, olds: seq<Node>, news: seq<Node>)
    requires Aligned(ops, olds, news) && |kids| == |olds|
    requires ApplyChildren(mount, kids, ops, 0, 0).Ok?
    ensures |ApplyChildren(mount, kids, ops, 0, 0).value.children| == |news|
  {
    assert ops[..0] == [] && ops[0..] == ops;
    AlignedConserves(ops, olds, news);
  }
}
