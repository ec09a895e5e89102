/**
 * Whole-list properties of `createChildDiff`'s output, read off the
 * alignment it establishes.
 */
module Properties {
  import opened Wrappers
  import opened Values
  import opened Nodes
  import opened Attributes
  import opened Operations
  import opened Reconcile
  import opened Apply

  /**
   * Every old child is consumed once, as a Remove or the left side of a
   * nested update, and every new child once, as an Insert or the right side.
   */
  lemma {:induction false} ChildDiffConserves(c: Components, oldQ: seq<Node>, newQ: seq<Node>, w: World)
    requires AllMounted(oldQ)
    ensures var ops := ChildDiff(c, oldQ, newQ, w).ops;
      && CountRemoves(ops) + CountNested(ops) == |oldQ|
      && CountInserts(ops) + CountNested(ops) == |newQ|
      && CountRemoves(ops) + CountInserts(ops) + CountNested(ops) == |ops|
  {
    var ops := ChildDiff(c, oldQ, newQ, w).ops;
    AlignedConserves(ops, oldQ, newQ);
    CountsBounded(ops);
  }

  /**
   * Slot `k` works on old child `OldBefore(ops, k)` and new child
   * `NewBefore(ops, k)`: an Insert carries that new child and a nested
   * update pairs two children with equal keys.
   */
  lemma {:induction false} ChildDiffPairs(c: Components, oldQ: seq<Node>, newQ: seq<Node>, w: World)
    requires AllMounted(oldQ)
    ensures var ops := ChildDiff(c, oldQ, newQ, w).ops;
      forall k :: 0 <= k < |ops| ==>
        && (ops[k].Insert? ==> NewBefore(ops, k) < |newQ| && ops[k].node == newQ[NewBefore(ops, k)])
        && (ops[k].Nested? ==>
              OldBefore(ops, k) < |oldQ| && NewBefore(ops, k) < |newQ|
              && oldQ[OldBefore(ops, k)].key == newQ[NewBefore(ops, k)].key)
  {
    var ops := ChildDiff(c, oldQ, newQ, w).ops;
    forall k | 0 <= k < |ops|
      ensures ops[k].Insert? ==> NewBefore(ops, k) < |newQ| && ops[k].node == newQ[NewBefore(ops, k)]
      ensures ops[k].Nested? ==>
              OldBefore(ops, k) < |oldQ| && NewBefore(ops, k) < |newQ|
              && oldQ[OldBefore(ops, k)].key == newQ[NewBefore(ops, k)].key
    {
      AlignedPairs(ops, oldQ, newQ, k);
    }
  }

  /**
   * Replaying the operations on the old keys, with the slot arithmetic of
   * `applyChildrenDiff`, yields exactly the new keys in order.
   */
  lemma {:induction false} ChildDiffReplaysKeys(c: Components, oldQ: seq<Node>, newQ: seq<Node>, w: World)
    requires AllMounted(oldQ)
    ensures ReplayKeys(Keys(oldQ), ChildDiff(c, oldQ, newQ, w).ops, 0, 0) == Ok(Keys(newQ))
  {
    ReplayRealignsKeys(ChildDiff(c, oldQ, newQ, w).ops, oldQ, newQ);
  }

  /**
   * When the update of a live child list built from the old children
   * succeeds, it leaves as many children as there are new children.
   */
  lemma {:induction false} ChildDiffApplyLength(c: Components, mount: Node -> LiveNode, kids: seq<LiveNode>,
                                                oldQ: seq<Node>, newQ: seq<Node>, w: World)
    requires AllMounted(oldQ) && |kids| == |oldQ|
    requires ApplyChildren(mount, kids, ChildDiff(c, oldQ, newQ, w).ops, 0, 0).Ok?
    ensures |ApplyChildren(mount, kids, ChildDiff(c, oldQ, newQ, w).ops, 0, 0).value.children| == |newQ|
  {
    ApplyChildrenLength(mount, kids, ChildDiff(c, oldQ, newQ, w).ops, oldQ, newQ);
  }

  /**
   * Every old Component child the operations remove has had its instance
   * unmounted and its slot emptied.
   */
  lemma {:induction false} RemovedComponentsUnmounted(c: Components, oldQ: seq<Node>, newQ: seq<Node>, w: World)
    requires AllMounted(oldQ)
    ensures var r := ChildDiff(c, oldQ, newQ, w);
      forall i :: 0 <= i < |oldQ| && oldQ[i].Component? && RemovedAt(r.ops, i) ==>
        && r.olds[i] == oldQ[i].(instance := None)
        && Unmounted(oldQ[i].instance.value) in r.world.hooks
  {
    var r := ChildDiff(c, oldQ, newQ, w);
    forall i | 0 <= i < |oldQ| && oldQ[i].Component? && RemovedAt(r.ops, i)
      ensures r.olds[i] == oldQ[i].(instance := None)
      ensures Unmounted(oldQ[i].instance.value) in r.world.hooks
    {
      assert r.olds[i] == Unslot(oldQ[i]);
      assert ClearedAfterUnmount(oldQ[i], r.olds[i], r.world);
    }
  }

  /**
   * Patching a rendered element with the update `createDiff` computes for a
   * node of the same tag brings its attributes to the new props: a plain
   * property other than `class` is present exactly when the new node has it,
   * every plain property of the new node holds its new value, and every new
   * or changed handler is registered.
   */
  lemma {:induction false} UpdateReachesNewProps(c: Components, mount: Node -> LiveNode, o: Node, n: Node, w: World)
    requires Mounted(o) && SameTag(o, n)
    requires ApplyUpdate(mount, Render(mount, o), Diff(c, o, n, w).op).Ok?
    ensures var r := ApplyUpdate(mount, Render(mount, o), Diff(c, o, n, w).op).value.node;
      && r.LiveElement?
      && (forall p :: !IsEvent(p) && p != "class" ==> (p in r.attrs <==> p in n.props))
      && (forall p :: p in n.props && !IsEvent(p) ==> p in r.attrs && r.attrs[p] == n.props[p])
      && (forall p :: p in n.props && IsEvent(p) && (p !in o.props || o.props[p] != n.props[p]) ==>
            Listener(EventType(p), n.props[p]) in r.listeners)
  {
    var live := Render(mount, o);
    var d := Diff(c, o, n, w);
    PatchReachesNewProps(o.props, n.props, live);
  }

  /** The props half of `UpdateReachesNewProps`, on the maps alone. */
  lemma {:induction false} PatchReachesNewProps(oldProps: Props, newProps: Props, live: LiveNode)
    requires live.LiveElement? && live.attrs == map p | p in oldProps && !IsEvent(p) :: oldProps[p]
    ensures var d := AttributeDelta(oldProps, newProps);
      var r := AddProps(RemoveProps(live, d.remove), d.add);
      && (forall p :: !IsEvent(p) && p != "class" ==> (p in r.attrs <==> p in newProps))
      && (forall p :: p in newProps && !IsEvent(p) ==> p in r.attrs && r.attrs[p] == newProps[p])
      && (forall p :: p in newProps && IsEvent(p) && (p !in oldProps || oldProps[p] != newProps[p]) ==>
            Listener(EventType(p), newProps[p]) in r.listeners)
  {
    var d := AttributeDelta(oldProps, newProps);
    var removed := RemoveProps(live, d.remove);
    var r := AddProps(removed, d.add);
    forall p | !IsEvent(p) && p != "class"
      ensures p in r.attrs <==> p in newProps
    {
      if p in newProps && p !in d.add {
        assert p in oldProps && p !in d.remove;
      }
    }
    forall p | p in newProps && !IsEvent(p)
      ensures p in r.attrs && r.attrs[p] == newProps[p]
    {
      if p !in d.add {
        assert p in oldProps && oldProps[p] == newProps[p] && p !in d.remove;
        assert p in live.attrs && live.attrs[p] == newProps[p];
      }
    }
  }
}
