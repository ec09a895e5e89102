/**
 * Concrete behaviours of the reconciler on small trees, including the
 * quirks of the greedy alignment that the model keeps.
 */
module Scenarios {
  import opened Wrappers
  import opened Values
  import opened Nodes
  import opened Builders
  import opened Attributes
  import opened Operations
  import opened Reconcile
  import opened Apply

  /** A text child keyed by a number. */
  function Item(k: int, text: string): Node {
    Text(text, KN(k))
  }

  const start: World := World(0, [])

  /** Two text children with truthy, distinct keys. */
  predicate DistinctItems(a: Node, x: Node) {
    a.Text? && x.Text? && Truthy(a.key) && Truthy(x.key) && a.key != x.key
  }

  /** Every entry of the queue is a text node. */
  predicate AllText(q: seq<Node>) {
    forall m :: 0 <= m < |q| ==> q[m].Text?
  }

  /** A text node diffed against itself is skipped and the world is left alone. */
  lemma {:induction false} TextSkipped(c: Components, t: Node, w: World)
    requires t.Text?
    ensures Diff(c, t, t, w) == DiffOut(Skip, t, t, w)
  {
  }

  /** `createTextElement(5)` against `createTextElement("5")` is a Skip. */
  lemma {:induction false} NumberAgainstStringSkipped(c: Components, w: World)
    ensures var t := CreateTextElement(Num(5), None);
      Diff(c, t, CreateTextElement(Str("5"), None), w) == DiffOut(Skip, t, t, w)
  {
    NumberTextMatchesString(5, None);
    assert Decimal(5) == "5";
    TextSkipped(c, CreateTextElement(Num(5), None), w);
  }

  /** One old text child and no new children: it is removed. */
  lemma {:induction false} LastRemoved(c: Components, oldQ: seq<Node>, newQ: seq<Node>, w: World)
    requires |oldQ| == 1 && oldQ[0].Text? && |newQ| == 0
    ensures ChildDiff(c, oldQ, newQ, w).ops == [Remove]
  {
    assert FirstShared(oldQ, newQ) == 1;
    ChildDiffDrained(c, oldQ, newQ, w);
    assert Removes(1) == [Remove] && Inserts(newQ) == [];
  }

  /** Removing text entries fires no unmount hook. */
  lemma {:induction false} TextsUnmountNothing(s: seq<Node>)
    requires forall m :: 0 <= m < |s| ==> s[m].Text?
    ensures AllMounted(s) && UnmountHooks(s) == []
    decreases |s|
  {
    if |s| > 0 {
      TextsUnmountNothing(s[1..]);
    }
  }

  /**
   * One iteration over text entries: when the first shared old entry `i` is
   * a text equal to its partner `j`, the operations are `i` Removes, the
   * Inserts of the new entries before `j`, a skipped pair, and the rest.
   */
  lemma {:induction false} TextIteration(c: Components, oldQ: seq<Node>, newQ: seq<Node>, w: World, i: nat, j: nat)
    requires forall m :: 0 <= m < |oldQ| ==> oldQ[m].Text?
    requires i == FirstShared(oldQ, newQ) && i < |oldQ| && Truthy(oldQ[i].key)
    requires FirstWithKey(newQ, j, oldQ[i].key) && newQ[j] == oldQ[i]
    ensures AllMounted(oldQ) && AllMounted(oldQ[i + 1..])
    ensures ChildDiff(c, oldQ, newQ, w).ops
         == Removes(i) + Inserts(newQ[..j]) + [Nested(Skip)] + ChildDiff(c, oldQ[i + 1..], newQ[j + 1..], w).ops
  {
    TextsUnmountNothing(oldQ);
    TextsUnmountNothing(oldQ[..i]);
    TextsUnmountNothing(oldQ[i + 1..]);
    assert World(w.next, w.hooks + UnmountHooks(oldQ[..i])) == w;
    ChildDiffIteration(c, oldQ, newQ, w, i, j);
    TextSkipped(c, oldQ[i], w);
  }

  /** An iteration that consumes the last entry of both queues leaves nothing to drain. */
  lemma {:induction false} FinalIteration(c: Components, oldQ: seq<Node>, newQ: seq<Node>, w: World, i: nat, j: nat)
    requires forall m :: 0 <= m < |oldQ| ==> oldQ[m].Text?
    requires i == FirstShared(oldQ, newQ) && i + 1 == |oldQ| && Truthy(oldQ[i].key)
    requires FirstWithKey(newQ, j, oldQ[i].key) && newQ[j] == oldQ[i] && j + 1 == |newQ|
    ensures AllMounted(oldQ)
    ensures ChildDiff(c, oldQ, newQ, w).ops == Removes(i) + Inserts(newQ[..j]) + [Nested(Skip)]
  {
    TextIteration(c, oldQ, newQ, w, i, j);
    assert oldQ[i + 1..] == [] && newQ[j + 1..] == [];
    var tail := ChildDiff(c, [], [], w);
    assert Aligned(tail.ops, [], []);
    assert tail.ops == [];
  }

  /**
   * Old keys [a, b, x] and new keys [x, a, b]: a is matched first, so x is
   * inserted in front of it, a and b are diffed, and the old x is removed.
   * Key x occurs in both lists and is still not diffed.
   */
  lemma {:induction false} GreedyReorder(c: Components, a: Node, b: Node, x: Node, w: World)
    requires DistinctItems(a, b) && DistinctItems(a, x) && DistinctItems(b, x)
    ensures ChildDiff(c, [a, b, x], [x, a, b], w).ops == [Insert(x), Nested(Skip), Nested(Skip), Remove]
  {
    RotatedQueues(a, b, x);
    RotateIteration(c, [a, b, x], [x, a, b], w);
  }

  /** The queue facts `GreedyReorder` needs: where the first shared key sits in each queue. */
  lemma {:induction false} RotatedQueues(a: Node, b: Node, x: Node)
    requires DistinctItems(a, b) && DistinctItems(a, x) && DistinctItems(b, x)
    ensures FirstShared([a, b, x], [x, a, b]) == 0 && FirstWithKey([x, a, b], 1, a.key)
    ensures AllText([a, b, x]) && AllText([a, b, x][1..])
  {
    assert [a, b, x][1..] == [b, x];
    assert Keys([x, a, b]) == [x.key, a.key, b.key];
  }

  /**
   * Three text entries whose last one moved to the front: the first old
   * entry is matched with the second new one, the first new entry is
   * inserted in front of it, and the rest is handled by `KeepThenRemove`.
   */
  lemma {:induction false} RotateIteration(c: Components, oldQ: seq<Node>, newQ: seq<Node>, w: World)
    requires |oldQ| == 3 && AllText(oldQ) && AllText(oldQ[1..])
    requires FirstShared(oldQ, newQ) == 0 && Truthy(oldQ[0].key) && Truthy(oldQ[1].key)
    requires oldQ[1].key != oldQ[2].key
    requires FirstWithKey(newQ, 1, oldQ[0].key) && |newQ| == 3 && newQ[1] == oldQ[0] && newQ[2] == oldQ[1]
    ensures ChildDiff(c, oldQ, newQ, w).ops == [Insert(newQ[0]), Nested(Skip), Nested(Skip), Remove]
  {
    TextIteration(c, oldQ, newQ, w, 0, 1);
    KeepThenRemove(c, oldQ[1..], newQ[2..], w);
    RotateOps(newQ, ChildDiff(c, oldQ[1..], newQ[2..], w).ops);
  }

  /** The operations of a rotation, assembled from their parts. */
  lemma {:induction false} RotateOps(newQ: seq<Node>, tail: seq<ChildOp>)
    requires |newQ| > 0 && tail == [Nested(Skip), Remove]
    ensures Removes(0) + Inserts(newQ[..1]) + [Nested(Skip)] + tail == [Insert(newQ[0]), Nested(Skip), Nested(Skip), Remove]
  {
    assert newQ[..1] == [newQ[0]];
    assert Removes(0) + Inserts(newQ[..1]) == [Insert(newQ[0])];
  }

  /** Old entries [b, x] against the new entry [b]: b is diffed, then x is removed. */
  lemma {:induction false} KeepThenRemove(c: Components, oldQ: seq<Node>, newQ: seq<Node>, w: World)
    requires |oldQ| == 2 && AllText(oldQ) && Truthy(oldQ[0].key) && oldQ[0].key != oldQ[1].key
    requires |newQ| == 1 && newQ[0] == oldQ[0]
    ensures ChildDiff(c, oldQ, newQ, w).ops == [Nested(Skip), Remove]
  {
    KeepQueues(oldQ, newQ);
    LastRemoved(c, oldQ[1..], newQ[1..], w);
    assert Removes(0) + Inserts(newQ[..0]) == [];
    TextIteration(c, oldQ, newQ, w, 0, 0);
  }

  /** The queue facts `KeepThenRemove` needs: both queues start with the shared entry. */
  lemma {:induction false} KeepQueues(oldQ: seq<Node>, newQ: seq<Node>)
    requires |oldQ| > 0 && |newQ| > 0 && newQ[0] == oldQ[0]
    ensures FirstShared(oldQ, newQ) == 0 && FirstWithKey(newQ, 0, oldQ[0].key)
  {
    assert Keys(newQ)[0] == newQ[0].key;
  }

  /** Old keys [a, x], new keys [x]: a is removed, then x is diffed. */
  lemma {:induction false} RemoveBeforeMatch(c: Components, a: Node, x: Node, w: World)
    requires DistinctItems(a, x)
    ensures ChildDiff(c, [a, x], [x], w).ops == [Remove, Nested(Skip)]
  {
    ShrunkQueues(a, x);
    FinalIteration(c, [a, x], [x], w, 1, 0);
  }

  /** The queue facts `RemoveBeforeMatch` needs: the first shared key is the second old entry. */
  lemma {:induction false} ShrunkQueues(a: Node, x: Node)
    requires DistinctItems(a, x)
    ensures FirstShared([a, x], [x]) == 1 && FirstWithKey([x], 0, x.key)
    ensures [a, x][2..] == [] && [x][1..] == [] && FirstShared([], []) == 0
    ensures Removes(1) + Inserts([x][..0]) == [Remove]
  {
    assert Keys([x]) == [x.key];
    assert [x][..0] == [];
  }

  /**
   * A shared key `0` is falsy, so the loop never starts: the old child is
   * removed and the new one inserted, although they match.
   */
  lemma {:induction false} FalsyKeyDrains(c: Components)
    ensures ChildDiff(c, [Item(0, "a")], [Item(0, "a")], start).ops == [Remove, Insert(Item(0, "a"))]
  {
    var q := [Item(0, "a")];
    assert Keys(q) == [KN(0)];
    assert FirstShared(q, q) == 0;
    ChildDiffDrained(c, q, q, start);
    assert Removes(1) == [Remove];
    assert Inserts(q) == [Insert(Item(0, "a"))];
  }

  /** Old and new properties of the delta example. */
  const exampleOld: Props := map["a" := Num(1), "b" := Num(2), "onClick" := Fn(1)]
  const exampleNew: Props := map["a" := Num(1), "b" := Num(3), "onClick" := Fn(2), "c" := Num(4)]

  /**
   * The attribute delta of `{a: 1, b: 2, onClick: f1}` against
   * `{a: 1, b: 3, onClick: f2, c: 4}`: `a` is in neither half, the changed
   * handler is removed with its old value and added with its new one.
   */
  lemma {:induction false} DeltaExample()
    ensures AttributeDelta(exampleOld, exampleNew)
         == PropsDelta(map["b" := Num(3), "onClick" := Fn(2), "c" := Num(4)], map["onClick" := Fn(1)])
  {
    ExampleAddKeys();
    ExampleRemoveKeys();
  }

  /** The properties added by the delta example: everything new or changed. */
  lemma {:induction false} ExampleAddKeys()
    ensures AttributeDelta(exampleOld, exampleNew).add.Keys == {"b", "onClick", "c"}
  {
  }

  /** The properties removed by the delta example: only the changed handler. */
  lemma {:induction false} ExampleRemoveKeys()
    ensures AttributeDelta(exampleOld, exampleNew).remove.Keys == {"onClick"}
  {
    assert IsEvent("onClick") && !IsEvent("a") && !IsEvent("b");
  }

  /**
   * A component of the same class with new props keeps its instance: the
   * instance moves to the new node, nothing is unmounted, and the update is
   * whatever the instance's `setProps` yields.
   */
  lemma {:induction false} ComponentReuse(c: Components)
    ensures var d := Diff(c, Component(7, map["title" := Str("a")], KS("k"), Some(42)),
                             Component(7, map["title" := Str("b")], KS("k"), None), start);
      && d.newTree.instance == Some(42)
      && d.world == start
      && d.op == c.setProps(42, map["title" := Str("b")])
  {
    assert map["title" := Str("a")] != map["title" := Str("b")] by {
      assert map["title" := Str("a")]["title"] != map["title" := Str("b")]["title"];
    }
  }

  /**
   * A component replaced by a text node is replaced without being
   * unmounted: the text case is tried before the component cases.
   */
  lemma {:induction false} ComponentToTextSkipsUnmount(c: Components)
    ensures Diff(c, Component(7, map[], KS("k"), Some(42)), Text("x", KS("k")), start).world == start
  {
  }

  /**
   * Removing an element child does not unmount the component inside it:
   * only a removed child that is itself a component is unmounted.
   */
  lemma {:induction false} RemovedElementKeepsNestedInstance(c: Components)
    ensures ChildDiff(c, [Element("li", map[], [Component(7, map[], KS("c"), Some(42))], None, KS("e"))], [], start).world
         == start
  {
    var q := [Element("li", map[], [Component(7, map[], KS("c"), Some(42))], None, KS("e"))];
    assert FirstShared(q, []) == 1;
    assert q[..1] == q;
    assert UnmountHooks(q) == [] by {
      assert q[1..] == [];
    }
  }

  /** An element with an `onClick` handler `f`, rendered. */
  function Button(f: nat): Node {
    Element("button", map["onClick" := Fn(f)], [], None, KS("b"))
  }

  /** A button rendered: no attributes, one `click` listener. */
  lemma {:induction false} ButtonRendered(mount: Node -> LiveNode, f: nat)
    ensures Render(mount, Button(f)) == LiveElement("button", map[], {Listener("click", Fn(f))}, [])
  {
    assert IsEvent("onClick");
    assert EventType("onClick") == "click";
    var r := Render(mount, Button(f));
    assert r.attrs == map[];
    assert r.listeners == {Listener("click", Fn(f))};
  }

  /** The delta of a changed handler holds the new handler in `add` and the old one in `remove`. */
  lemma {:induction false} HandlerChangeDelta(f: nat, g: nat)
    requires f != g
    ensures AttributeDelta(map["onClick" := Fn(f)], map["onClick" := Fn(g)])
         == PropsDelta(map["onClick" := Fn(g)], map["onClick" := Fn(f)])
  {
    assert IsEvent("onClick");
    var d := AttributeDelta(map["onClick" := Fn(f)], map["onClick" := Fn(g)]);
    assert d.add.Keys == {"onClick"} && d.remove.Keys == {"onClick"};
  }

  /** Changing the handler of a button: the old handler is removed and the new one added, nothing else. */
  lemma {:induction false} HandlerChangeOp(c: Components, f: nat, g: nat, w: World)
    requires f != g
    ensures Diff(c, Button(f), Button(g), w).op == Update(PropsDelta(map["onClick" := Fn(g)], map["onClick" := Fn(f)]), [])
  {
    var d := Diff(c, Button(f), Button(g), w);
    assert SameTag(Button(f), Button(g));
    assert Aligned(d.op.children, [], []);
    HandlerChangeDelta(f, g);
  }

  /**
   * Replaying a handler change on a rendered button: the removal passes the
   * raw name `onClick`, which matches nothing registered, and the addition
   * registers the new handler under `click`.
   */
  lemma {:induction false} HandlerChangeReplay(mount: Node -> LiveNode, f: nat, g: nat)
    requires f != g
    ensures var r := ApplyUpdate(mount, LiveElement("button", map[], {Listener("click", Fn(f))}, []),
                                 Update(PropsDelta(map["onClick" := Fn(g)], map["onClick" := Fn(f)]), []));
      && r.Ok?
      && r.value.node.listeners == {Listener("click", Fn(f)), Listener("click", Fn(g))}
  {
    assert IsEvent("onClick");
    assert EventType("onClick") == "click";
    var live := LiveElement("button", map[], {Listener("click", Fn(f))}, []);
    var removed := RemoveProps(live, map["onClick" := Fn(f)]);
    assert Listener("onClick", Fn(f)) != Listener("click", Fn(f));
    assert removed.listeners == {Listener("click", Fn(f))};
    var added := AddProps(removed, map["onClick" := Fn(g)]);
    assert added.listeners == {Listener("click", Fn(f)), Listener("click", Fn(g))};
    assert ApplyChildren(mount, [], [], 0, 0).Ok?;
  }

  /**
   * Changing a handler leaves the old one registered: `addProps` registered
   * it under `click`, while the removal passes the raw name `onClick`.
   */
  lemma {:induction false} StaleListenerAfterHandlerChange(c: Components, mount: Node -> LiveNode, f: nat, g: nat, w: World)
    requires f != g
    ensures var r := ApplyUpdate(mount, Render(mount, Button(f)), Diff(c, Button(f), Button(g), w).op);
      && r.Ok?
      && r.value.node.listeners == {Listener("click", Fn(f)), Listener("click", Fn(g))}
  {
    ButtonRendered(mount, f);
    HandlerChangeOp(c, f, g, w);
    HandlerChangeReplay(mount, f, g);
  }

  /** An Update aimed at a text node throws instead of touching it. */
  lemma {:induction false} UpdateOnTextThrows(mount: Node -> LiveNode, text: string, delta: PropsDelta, ops: seq<ChildOp>)
    ensures ApplyUpdate(mount, LiveText(text), Update(delta, ops)) == Err(TextNodeUpdate)
  {
  }
}
