/**
 * The reconciler: `createDiff`, the keyed child alignment
 * `createChildDiff` with its `removeBeforeKey` / `insertBeforeKey` loops,
 * and `unmountChildNodes`.
 *
 * The in-place writes `template.ts` makes to Component instance slots are
 * threaded explicitly: a diff returns the old and new trees as they stand
 * afterwards, and a `World` holding the next fresh instance identity and
 * the ordered log of lifecycle calls made on instances.
 */
module Reconcile {
  import opened Wrappers
  import opened Values
  import opened Nodes
  import opened Attributes
  import opened Operations

  /** A lifecycle call the diff makes on an instance: construction, or `dispatchUnmount`. */
  datatype Hook = Created(instance: InstanceId, cls: ClassId) | Unmounted(instance: InstanceId)

  /** The instance state the diff threads: the next fresh identity and the lifecycle log. */
  datatype World = World(next: InstanceId, hooks: seq<Hook>)

  /**
   * The component collaborators the diff calls: `instance.setProps(props)`,
   * which yields the instance's own update operation, and
   * `instance.dispatchInitProps(props)` on a fresh instance of a class, which
   * yields its first tree.
   */
  datatype Components = Components(
    setProps: (InstanceId, Props) -> UpdateOp,
    initProps: (InstanceId, ClassId, Props) -> Node)

  /** Result of `createDiff`: the operation, and both nodes after the slot writes. */
  datatype DiffOut = DiffOut(op: UpdateOp, oldTree: Node, newTree: Node, world: World)

  /** Result of `createChildDiff`: the slot operations, and both sibling lists after the slot writes. */
  datatype ChildOut = ChildOut(ops: seq<ChildOp>, olds: seq<Node>, news: seq<Node>, world: World)

  /**
   * `w2` continues `w`: identities only advance, the log only grows, and
   * the calls added unmount only instances in `owned` and create only
   * instances with fresh identities.
   */
  predicate Evolves(w: World, w2: World, owned: set<InstanceId>) {
    && w.next <= w2.next
    && |w.hooks| <= |w2.hooks| && w2.hooks[..|w.hooks|] == w.hooks
    && forall e | e in w2.hooks[|w.hooks|..] ::
         (e.Unmounted? ==> e.instance in owned) && (e.Created? ==> w.next <= e.instance < w2.next)
  }

  lemma {:induction false} EvolvesTrans(w1: World, w2: World, w3: World, a: set<InstanceId>, b: set<InstanceId>, owned: set<InstanceId>)
    requires Evolves(w1, w2, a) && Evolves(w2, w3, b) && a + b <= owned
    ensures Evolves(w1, w3, owned)
  {
    assert w3.hooks[..|w1.hooks|] == w3.hooks[..|w2.hooks|][..|w1.hooks|];
    assert w3.hooks[|w1.hooks|..] == w2.hooks[|w1.hooks|..] + w3.hooks[|w2.hooks|..] by {
      assert w3.hooks == w2.hooks + w3.hooks[|w2.hooks|..];
    }
  }

  lemma {:induction false} EvolvesKeeps(w: World, w2: World, owned: set<InstanceId>, e: Hook)
    requires Evolves(w, w2, owned) && e in w.hooks
    ensures e in w2.hooks
  {
    assert w2.hooks == w.hooks + w2.hooks[|w.hooks|..];
  }

  /** The `dispatchUnmount` calls `removeBeforeKey` makes on a run of removed siblings, in order. */
  function UnmountHooks(s: seq<Node>): seq<Hook>
    requires AllMounted(s)
  {
    if |s| == 0 then []
    else (if s[0].Component? then [Unmounted(s[0].instance.value)] else []) + UnmountHooks(s[1..])
  }

  lemma {:induction false} UnmountHooksSound(s: seq<Node>)
    requires AllMounted(s)
    ensures forall e :: e in UnmountHooks(s) ==>
      exists i :: 0 <= i < |s| && s[i].Component? && e == Unmounted(s[i].instance.value)
    ensures forall e :: e in UnmountHooks(s) ==> e.Unmounted? && e.instance in InstancesSeq(s)
    ensures forall i :: 0 <= i < |s| && s[i].Component? ==> Unmounted(s[i].instance.value) in UnmountHooks(s)
    decreases |s|
  {
    if |s| > 0 {
      UnmountHooksSound(s[1..]);
      forall e | e in UnmountHooks(s[1..])
        ensures exists i :: 0 <= i < |s| && s[i].Component? && e == Unmounted(s[i].instance.value)
      {
        var i :| 0 <= i < |s[1..]| && s[1..][i].Component? && e == Unmounted(s[1..][i].instance.value);
        assert s[i + 1] == s[1..][i];
      }
      forall i | 0 < i < |s| && s[i].Component?
        ensures Unmounted(s[i].instance.value) in UnmountHooks(s)
      {
        assert s[1..][i - 1] == s[i];
      }
    }
  }

  lemma {:induction false} UnmountHooksPrefix(s: seq<Node>, n: nat)
    requires AllMounted(s) && 0 < n <= |s|
    ensures UnmountHooks(s[..n]) ==
      (if s[0].Component? then [Unmounted(s[0].instance.value)] else []) + UnmountHooks(s[1..][..n - 1])
  {
    assert s[..n][0] == s[0];
    assert s[..n][1..] == s[1..][..n - 1];
  }

  /** Progress of `removeBeforeKey`: the Removes emitted, the removed nodes after their slot write, the queue left. */
  datatype Removal = Removal(ops: seq<ChildOp>, removed: seq<Node>, rest: seq<Node>, world: World)

  /**
   * `removeBeforeKey`: while the queue is non-empty and its head's key is
   * not `stop` (`None` is `undefined`, which no key equals), emit a Remove,
   * unmount the head if it is a Component and empty its slot, and shift it.
   */
  function RemoveBefore(q: seq<Node>, stop: Option<Key>, w: World): (r: Removal)
    requires AllMounted(q)
    ensures |r.removed| <= |q| && r.rest == q[|r.removed|..]
    ensures r.ops == Removes(|r.removed|)
    ensures forall i :: 0 <= i < |r.removed| ==> Some(q[i].key) != stop && r.removed[i] == Unslot(q[i])
    ensures |r.removed| < |q| ==> Some(q[|r.removed|].key) == stop
    ensures r.world == World(w.next, w.hooks + UnmountHooks(q[..|r.removed|]))
    decreases |q|
  {
    if |q| == 0 || Some(q[0].key) == stop then
      Removal([], [], q, w)
    else
      var w1 := if q[0].Component? then w.(hooks := w.hooks + [Unmounted(q[0].instance.value)]) else w;
      var tail := RemoveBefore(q[1..], stop, w1);
      var r := Removal([Remove] + tail.ops, [Unslot(q[0])] + tail.removed, tail.rest, tail.world);
      RemoveStep(q, stop, w, w1, tail, r);
      r
  }

  lemma {:induction false} RemoveStep(q: seq<Node>, stop: Option<Key>, w: World, w1: World, tail: Removal, r: Removal)
    requires AllMounted(q) && |q| > 0 && Some(q[0].key) != stop
    requires w1 == if q[0].Component? then w.(hooks := w.hooks + [Unmounted(q[0].instance.value)]) else w
    requires |tail.removed| <= |q[1..]| && tail.rest == q[1..][|tail.removed|..]
    requires tail.ops == Removes(|tail.removed|)
    requires forall i :: 0 <= i < |tail.removed| ==> Some(q[1..][i].key) != stop && tail.removed[i] == Unslot(q[1..][i])
    requires |tail.removed| < |q[1..]| ==> Some(q[1..][|tail.removed|].key) == stop
    requires tail.world == World(w1.next, w1.hooks + UnmountHooks(q[1..][..|tail.removed|]))
    requires r == Removal([Remove] + tail.ops, [Unslot(q[0])] + tail.removed, tail.rest, tail.world)
    ensures |r.removed| <= |q| && r.rest == q[|r.removed|..]
    ensures r.ops == Removes(|r.removed|)
    ensures forall i :: 0 <= i < |r.removed| ==> Some(q[i].key) != stop && r.removed[i] == Unslot(q[i])
    ensures |r.removed| < |q| ==> Some(q[|r.removed|].key) == stop
    ensures r.world == World(w.next, w.hooks + UnmountHooks(q[..|r.removed|]))
  {
    var n := |r.removed|;
    assert q[1..][|tail.removed|..] == q[n..];
    assert Removes(n) == [Remove] + Removes(|tail.removed|);
    forall i | 0 < i < n
      ensures Some(q[i].key) != stop && r.removed[i] == Unslot(q[i])
    {
      assert q[1..][i - 1] == q[i];
    }
    if n < |q| {
      assert q[1..][|tail.removed|] == q[n];
    }
    UnmountHooksPrefix(q, n);
  }

  /** Progress of `insertBeforeKey`: the Inserts emitted, the nodes they carry, the queue left. */
  datatype Insertion = Insertion(ops: seq<ChildOp>, inserted: seq<Node>, rest: seq<Node>)

  /**
   * `insertBeforeKey`: while the queue is non-empty and its head's key is
   * not `stop`, emit an Insert of the head and shift it.
   */
  function InsertBefore(q: seq<Node>, stop: Option<Key>): (r: Insertion)
    ensures |r.inserted| <= |q| && r.inserted == q[..|r.inserted|] && r.rest == q[|r.inserted|..]
    ensures r.ops == Inserts(r.inserted)
    ensures forall i :: 0 <= i < |r.inserted| ==> Some(q[i].key) != stop
    ensures |r.inserted| < |q| ==> Some(q[|r.inserted|].key) == stop
    decreases |q|
  {
    if |q| == 0 || Some(q[0].key) == stop then
      Insertion([], [], q)
    else
      var tail := InsertBefore(q[1..], stop);
      var r := Insertion([Insert(q[0])] + tail.ops, [q[0]] + tail.inserted, tail.rest);
      InsertStep(q, stop, tail, r);
      r
  }

  lemma {:induction false} InsertStep(q: seq<Node>, stop: Option<Key>, tail: Insertion, r: Insertion)
    requires |q| > 0 && Some(q[0].key) != stop
    requires |tail.inserted| <= |q[1..]| && tail.inserted == q[1..][..|tail.inserted|] && tail.rest == q[1..][|tail.inserted|..]
    requires tail.ops == Inserts(tail.inserted)
    requires forall i :: 0 <= i < |tail.inserted| ==> Some(q[1..][i].key) != stop
    requires |tail.inserted| < |q[1..]| ==> Some(q[1..][|tail.inserted|].key) == stop
    requires r == Insertion([Insert(q[0])] + tail.ops, [q[0]] + tail.inserted, tail.rest)
    ensures |r.inserted| <= |q| && r.inserted == q[..|r.inserted|] && r.rest == q[|r.inserted|..]
    ensures r.ops == Inserts(r.inserted)
    ensures forall i :: 0 <= i < |r.inserted| ==> Some(q[i].key) != stop
    ensures |r.inserted| < |q| ==> Some(q[|r.inserted|].key) == stop
  {
    var n := |r.inserted|;
    assert [q[0]] + q[1..][..n - 1] == q[..n];
    assert q[1..][n - 1..] == q[n..];
    assert Inserts(r.inserted) == [Insert(q[0])] + Inserts(tail.inserted);
    forall i | 0 < i < n
      ensures Some(q[i].key) != stop
    {
      assert q[1..][i - 1] == q[i];
    }
    if n < |q| {
      assert q[1..][n - 1] == q[n];
    }
  }

  /** Position of the first old entry whose key also occurs among the new entries (`|oldQ|` when none does). */
  function FirstShared(oldQ: seq<Node>, newQ: seq<Node>): (i: nat)
    ensures i <= |oldQ|
    ensures i < |oldQ| ==> oldQ[i].key in Keys(newQ)
    ensures forall j :: 0 <= j < i ==> oldQ[j].key !in Keys(newQ)
    decreases |oldQ|
  {
    if |oldQ| == 0 || oldQ[0].key in Keys(newQ) then 0
    else
      var i := 1 + FirstShared(oldQ[1..], newQ);
      assert forall j :: 1 <= j < i ==> oldQ[j] == oldQ[1..][j - 1];
      i
  }

  /** `nextUpdateKey`: the key of that entry, or `null`. */
  function NextUpdateKey(oldQ: seq<Node>, newQ: seq<Node>): Option<Key> {
    var i := FirstShared(oldQ, newQ);
    if i < |oldQ| then Some(oldQ[i].key) else None
  }

  /**
   * What the `find` lookup returns: `null` exactly when no old key occurs
   * among the new ones, and otherwise a key of both lists, taken from an old
   * entry with no shared entry before it.
   */
  lemma {:induction false} NextUpdateKeyFound(oldQ: seq<Node>, newQ: seq<Node>)
    ensures var r := NextUpdateKey(oldQ, newQ);
      && (r.None? <==> forall j :: 0 <= j < |oldQ| ==> oldQ[j].key !in Keys(newQ))
      && (r.Some? ==> r.value in Keys(oldQ) && r.value in Keys(newQ))
      && (r.Some? ==>
            exists i :: 0 <= i < |oldQ| && oldQ[i].key == r.value && forall j :: 0 <= j < i ==> oldQ[j].key !in Keys(newQ))
  {
    var i := FirstShared(oldQ, newQ);
    if i < |oldQ| {
      assert oldQ[i].key == NextUpdateKey(oldQ, newQ).value;
    }
  }

  /** The loop guard `while (nextUpdateKey)`: `null`, `""` and `0` all end the loop. */
  function Continues(next: Option<Key>): (b: bool)
    ensures b <==> next.Some? && next.value != KS("") && next.value != KN(0)
  {
    next.Some? && Truthy(next.value)
  }

  // The branches of createDiff, in the order they are tried.

  predicate SameText(a: Node, b: Node) {
    a.Text? && b.Text? && a.value == b.value
  }

  /** Text on either side (with a different text), or two elements with different tags. */
  predicate Retyped(a: Node, b: Node) {
    !SameText(a, b) && (a.Text? || b.Text? || (a.Element? && b.Element? && a.tag != b.tag))
  }

  /** Two components of the same class whose old node holds an instance. */
  predicate Reusable(a: Node, b: Node) {
    a.Component? && b.Component? && a.cls == b.cls && a.instance.Some?
  }

  /** An old component that is neither replaced by text nor reused. */
  predicate Dropped(a: Node, b: Node) {
    a.Component? && !b.Text? && !Reusable(a, b)
  }

  /** A new component where an element stood. */
  predicate MountsNew(a: Node, b: Node) {
    a.Element? && b.Component?
  }

  predicate SameTag(a: Node, b: Node) {
    a.Element? && b.Element? && a.tag == b.tag
  }

  /** An old Component's slot is emptied only once its instance has been unmounted. */
  predicate ClearedAfterUnmount(before: Node, after: Node, w: World)
    requires Mounted(before)
  {
    before.Component? && after.Component? && after.instance.None? ==> Unmounted(before.instance.value) in w.hooks
  }

  /**
   * `createDiff`: the first matching case decides. Equal texts are skipped;
   * a text on either side or a changed tag is replaced as is; a component of
   * the same class keeps the old instance (skipped when its props are equal,
   * otherwise updated through `setProps`); any other old component is
   * unmounted and replaced; a component over an element gets a fresh
   * instance and is replaced by its first tree with a `didMount` callback;
   * two elements with the same tag are patched in place.
   */
  function Diff(c: Components, oldNode: Node, newNode: Node, w: World): (r: DiffOut)
    requires Mounted(oldNode)
    ensures SameShape(oldNode, r.oldTree) && SameShape(newNode, r.newTree)
    ensures Evolves(w, r.world, Instances(oldNode))
    ensures ClearedAfterUnmount(oldNode, r.oldTree, r.world)
    ensures SameText(oldNode, newNode) ==> r == DiffOut(Skip, oldNode, newNode, w)
    ensures Retyped(oldNode, newNode) ==> r == DiffOut(Replace(newNode, None), oldNode, newNode, w)
    ensures Reusable(oldNode, newNode) ==>
      && r.oldTree == oldNode && r.newTree == newNode.(instance := oldNode.instance) && r.world == w
      && (oldNode.props == newNode.props ==> r.op == Skip)
      && (oldNode.props != newNode.props ==> r.op == c.setProps(oldNode.instance.value, newNode.props))
    ensures Dropped(oldNode, newNode) ==>
      && r.op == Replace(newNode, None) && r.oldTree == Unslot(oldNode) && r.newTree == newNode
      && r.world == World(w.next, w.hooks + [Unmounted(oldNode.instance.value)])
    ensures MountsNew(oldNode, newNode) ==>
      && r.op == Replace(c.initProps(w.next, newNode.cls, newNode.props), Some(w.next))
      && r.oldTree == oldNode && r.newTree == newNode.(instance := Some(w.next))
      && r.world == World(w.next + 1, w.hooks + [Created(w.next, newNode.cls)])
    ensures SameTag(oldNode, newNode) ==>
      && r.op.Update? && r.op.delta == AttributeDelta(oldNode.props, newNode.props)
      && Aligned(r.op.children, oldNode.children, newNode.children)
    decreases Size(oldNode) + Size(newNode), 0
  {
    SameShapeReflexive(oldNode);
    SameShapeReflexive(newNode);
    if SameText(oldNode, newNode) then
      DiffOut(Skip, oldNode, newNode, w)
    else if oldNode.Text? || newNode.Text? || (oldNode.Element? && newNode.Element? && oldNode.tag != newNode.tag) then
      DiffOut(Replace(newNode, None), oldNode, newNode, w)
    else if oldNode.Component? && newNode.Component? && oldNode.cls == newNode.cls && oldNode.instance.Some? then
      var instance := oldNode.instance.value;
      var reused := newNode.(instance := Some(instance));
      if PropsEqual(oldNode.props, newNode.props) then
        DiffOut(Skip, oldNode, reused, w)
      else
        DiffOut(c.setProps(instance, newNode.props), oldNode, reused, w)
    else if oldNode.Component? then
      DiffOut(Replace(newNode, None), oldNode.(instance := None), newNode,
              w.(hooks := w.hooks + [Unmounted(oldNode.instance.value)]))
    else if newNode.Component? then
      var instance := w.next;
      DiffOut(Replace(c.initProps(instance, newNode.cls, newNode.props), Some(instance)),
              oldNode, newNode.(instance := Some(instance)),
              World(instance + 1, w.hooks + [Created(instance, newNode.cls)]))
    else
      var delta := AttributeDelta(oldNode.props, newNode.props);
      var children := ChildDiff(c, oldNode.children, newNode.children, w);
      DiffOut(Update(delta, children.ops),
              oldNode.(children := children.olds), newNode.(children := children.news),
              children.world)
  }

  /**
   * `createChildDiff`: a greedy left-to-right alignment by key. While the
   * next old entry whose key also occurs in the new queue has a truthy key,
   * the old entries before it are removed, the new entries before its
   * partner are inserted, and the pair is diffed; then whatever is left is
   * drained, old entries as Removes and new entries as Inserts.
   */
  function ChildDiff(c: Components, oldQ: seq<Node>, newQ: seq<Node>, w: World): (r: ChildOut)
    requires AllMounted(oldQ)
    ensures ChildContract(oldQ, newQ, w, r)
    decreases SizeSeq(oldQ) + SizeSeq(newQ), 1
  {
    var next := NextUpdateKey(oldQ, newQ);
    if Continues(next) then
      var rm := RemoveBefore(oldQ, next, w);
      var ins := InsertBefore(newQ, next);
      StepMeasure(oldQ, newQ, w, rm, ins);
      var d := Diff(c, rm.rest[0], ins.rest[0], rm.world);
      var tail := ChildDiff(c, rm.rest[1..], ins.rest[1..], d.world);
      var r := ChildOut(rm.ops + ins.ops + [Nested(d.op)] + tail.ops,
                        rm.removed + [d.oldTree] + tail.olds,
                        ins.inserted + [d.newTree] + tail.news,
                        tail.world);
      StepFacts(oldQ, newQ, w, rm, ins, d, tail, r);
      r
    else
      var rm := RemoveBefore(oldQ, None, w);
      var ins := InsertBefore(newQ, None);
      var r := ChildOut(rm.ops + ins.ops, rm.removed, ins.inserted, rm.world);
      DrainFacts(oldQ, newQ, w, rm, ins, r);
      r
  }

  /** The pair one iteration diffs, and the rest of both queues, each weigh less than the two queues. */
  lemma {:induction false} StepMeasure(oldQ: seq<Node>, newQ: seq<Node>, w: World, rm: Removal, ins: Insertion)
    requires AllMounted(oldQ) && Continues(NextUpdateKey(oldQ, newQ))
    requires rm == RemoveBefore(oldQ, NextUpdateKey(oldQ, newQ), w)
    requires ins == InsertBefore(newQ, NextUpdateKey(oldQ, newQ))
    ensures |rm.rest| > 0 && |ins.rest| > 0 && AllMounted(rm.rest) && AllMounted(rm.rest[1..])
    ensures Size(rm.rest[0]) + Size(ins.rest[0]) <= SizeSeq(oldQ) + SizeSeq(newQ)
    ensures SizeSeq(rm.rest[1..]) + SizeSeq(ins.rest[1..]) < SizeSeq(oldQ) + SizeSeq(newQ)
  {
    StepPositions(oldQ, newQ, w, rm, ins);
    SizeSeqSuffix(oldQ, |rm.removed|);
    SizeSeqSuffix(newQ, |ins.inserted|);
  }

  /** Where the two loops of one iteration stop: at the shared entry in both queues. */
  lemma {:induction false} StepPositions(oldQ: seq<Node>, newQ: seq<Node>, w: World, rm: Removal, ins: Insertion)
    requires AllMounted(oldQ) && Continues(NextUpdateKey(oldQ, newQ))
    requires rm == RemoveBefore(oldQ, NextUpdateKey(oldQ, newQ), w)
    requires ins == InsertBefore(newQ, NextUpdateKey(oldQ, newQ))
    ensures |rm.removed| == FirstShared(oldQ, newQ) < |oldQ|
    ensures |ins.inserted| < |newQ| && oldQ[|rm.removed|].key == newQ[|ins.inserted|].key
    ensures AllMounted(rm.rest) && |rm.rest| > 0 && |ins.rest| > 0
    ensures rm.rest[0] == oldQ[|rm.removed|] && ins.rest[0] == newQ[|ins.inserted|]
    ensures rm.rest[1..] == oldQ[|rm.removed| + 1..] && ins.rest[1..] == newQ[|ins.inserted| + 1..]
  {
    RemovalPosition(oldQ, newQ, w, rm);
    InsertionPosition(oldQ, newQ, ins);
  }

  /** The removal loop stops at the first shared old entry. */
  lemma {:induction false} RemovalPosition(oldQ: seq<Node>, newQ: seq<Node>, w: World, rm: Removal)
    requires AllMounted(oldQ) && Continues(NextUpdateKey(oldQ, newQ))
    requires rm == RemoveBefore(oldQ, NextUpdateKey(oldQ, newQ), w)
    ensures |rm.removed| == FirstShared(oldQ, newQ) < |oldQ|
    ensures Some(oldQ[|rm.removed|].key) == NextUpdateKey(oldQ, newQ)
    ensures AllMounted(rm.rest) && |rm.rest| > 0
    ensures rm.rest[0] == oldQ[|rm.removed|] && rm.rest[1..] == oldQ[|rm.removed| + 1..]
  {
  }

  /** The insertion loop stops at the first new entry with the shared key. */
  lemma {:induction false} InsertionPosition(oldQ: seq<Node>, newQ: seq<Node>, ins: Insertion)
    requires Continues(NextUpdateKey(oldQ, newQ))
    requires ins == InsertBefore(newQ, NextUpdateKey(oldQ, newQ))
    ensures |ins.inserted| < |newQ| && Some(newQ[|ins.inserted|].key) == NextUpdateKey(oldQ, newQ)
    ensures |ins.rest| > 0 && ins.rest[0] == newQ[|ins.inserted|] && ins.rest[1..] == newQ[|ins.inserted| + 1..]
  {
  }

  /** What `Diff` promises about the trees and the world it returns. */
  predicate DiffContract(oldNode: Node, newNode: Node, w: World, r: DiffOut)
    requires Mounted(oldNode)
  {
    && SameShape(oldNode, r.oldTree) && SameShape(newNode, r.newTree)
    && Evolves(w, r.world, Instances(oldNode))
    && ClearedAfterUnmount(oldNode, r.oldTree, r.world)
  }

  /** What `ChildDiff` promises, in one piece, so that one iteration can hand it on to the next. */
  predicate ChildContract(oldQ: seq<Node>, newQ: seq<Node>, w: World, r: ChildOut)
    requires AllMounted(oldQ)
  {
    && Aligned(r.ops, oldQ, newQ)
    && |r.olds| == |oldQ| && (forall i :: 0 <= i < |oldQ| ==> SameShape(oldQ[i], r.olds[i]))
    && |r.news| == |newQ| && (forall j :: 0 <= j < |newQ| ==> SameShape(newQ[j], r.news[j]))
    && Evolves(w, r.world, InstancesSeq(oldQ))
    && (forall i :: 0 <= i < |oldQ| && RemovedAt(r.ops, i) ==> r.olds[i] == Unslot(oldQ[i]))
    && (forall i :: 0 <= i < |oldQ| ==> ClearedAfterUnmount(oldQ[i], r.olds[i], r.world))
  }

  /** One iteration of the loop, followed by the rest of the loop, meets the contract of the whole. */
  lemma {:induction false} StepFacts(oldQ: seq<Node>, newQ: seq<Node>, w: World, rm: Removal, ins: Insertion,
                  d: DiffOut, tail: ChildOut, r: ChildOut)
    requires AllMounted(oldQ) && Continues(NextUpdateKey(oldQ, newQ))
    requires rm == RemoveBefore(oldQ, NextUpdateKey(oldQ, newQ), w)
    requires ins == InsertBefore(newQ, NextUpdateKey(oldQ, newQ))
    requires |rm.rest| > 0 && |ins.rest| > 0 && AllMounted(rm.rest) && AllMounted(rm.rest[1..])
    requires DiffContract(rm.rest[0], ins.rest[0], rm.world, d)
    requires ChildContract(rm.rest[1..], ins.rest[1..], d.world, tail)
    requires r == ChildOut(rm.ops + ins.ops + [Nested(d.op)] + tail.ops,
                           rm.removed + [d.oldTree] + tail.olds,
                           ins.inserted + [d.newTree] + tail.news,
                           tail.world)
    ensures ChildContract(oldQ, newQ, w, r)
  {
    StepPositions(oldQ, newQ, w, rm, ins);
    var i := |rm.removed|;
    var j := |ins.inserted|;
    assert rm.rest[0] == oldQ[i] && rm.rest[1..] == oldQ[i + 1..];
    assert ins.rest[0] == newQ[j] && ins.rest[1..] == newQ[j + 1..];
    StepAligned(oldQ, newQ, i, j, rm.ops, ins.ops, d.op, tail.ops);
    StepShapes(oldQ, newQ, i, j, rm.removed, d.oldTree, tail.olds, ins.inserted, d.newTree, tail.news);
    StepRemovals(oldQ, newQ, i, j, rm.ops, ins.ops, d.op, tail.ops, rm.removed, d.oldTree, tail.olds);
    StepWorld(oldQ, i, w, rm.world, d.world, tail.world, rm.removed, d.oldTree, tail.olds);
  }

  lemma {:induction false} StepAligned(oldQ: seq<Node>, newQ: seq<Node>, i: nat, j: nat,
                    removes: seq<ChildOp>, inserts: seq<ChildOp>, op: UpdateOp, tail: seq<ChildOp>)
    requires i < |oldQ| && j < |newQ| && oldQ[i].key == newQ[j].key
    requires removes == Removes(i) && inserts == Inserts(newQ[..j])
    requires Aligned(tail, oldQ[i + 1..], newQ[j + 1..])
    ensures Aligned(removes + inserts + [Nested(op)] + tail, oldQ, newQ)
  {
    assert oldQ[i..][1..] == oldQ[i + 1..] && newQ[j..][1..] == newQ[j + 1..];
    NestedThen(op, tail, oldQ[i..], newQ[j..]);
    var rest := [Nested(op)] + tail;
    InsertsThen(newQ[..j], rest, oldQ[i..], newQ[j..]);
    assert newQ[..j] + newQ[j..] == newQ;
    RemovesThen(i, inserts + rest, oldQ, newQ);
    assert removes + inserts + [Nested(op)] + tail == removes + (inserts + rest);
  }

  lemma {:induction false} UnslotSameShape(n: Node)
    ensures SameShape(n, Unslot(n))
  {
    SameShapeReflexive(n);
  }

  lemma {:induction false} StepShapes(oldQ: seq<Node>, newQ: seq<Node>, i: nat, j: nat,
                   removed: seq<Node>, oldAfter: Node, oldTail: seq<Node>,
                   inserted: seq<Node>, newAfter: Node, newTail: seq<Node>)
    requires i < |oldQ| && j < |newQ|
    requires |removed| == i && forall x :: 0 <= x < i ==> removed[x] == Unslot(oldQ[x])
    requires SameShape(oldQ[i], oldAfter)
    requires |oldTail| == |oldQ| - i - 1 && forall x :: 0 <= x < |oldTail| ==> SameShape(oldQ[i + 1..][x], oldTail[x])
    requires inserted == newQ[..j]
    requires SameShape(newQ[j], newAfter)
    requires |newTail| == |newQ| - j - 1 && forall x :: 0 <= x < |newTail| ==> SameShape(newQ[j + 1..][x], newTail[x])
    ensures var olds := removed + [oldAfter] + oldTail;
      |olds| == |oldQ| && forall x :: 0 <= x < |oldQ| ==> SameShape(oldQ[x], olds[x])
    ensures var news := inserted + [newAfter] + newTail;
      |news| == |newQ| && forall x :: 0 <= x < |newQ| ==> SameShape(newQ[x], news[x])
  {
    var olds := removed + [oldAfter] + oldTail;
    forall x | 0 <= x < |oldQ|
      ensures SameShape(oldQ[x], olds[x])
    {
      if x < i {
        UnslotSameShape(oldQ[x]);
      } else if x > i {
        assert olds[x] == oldTail[x - i - 1] && oldQ[i + 1..][x - i - 1] == oldQ[x];
      }
    }
    var news := inserted + [newAfter] + newTail;
    forall x | 0 <= x < |newQ|
      ensures SameShape(newQ[x], news[x])
    {
      if x < j {
        SameShapeReflexive(newQ[x]);
      } else if x > j {
        assert news[x] == newTail[x - j - 1] && newQ[j + 1..][x - j - 1] == newQ[x];
      }
    }
  }

  lemma {:induction false} StepRemovals(oldQ: seq<Node>, newQ: seq<Node>, i: nat, j: nat,
                     removes: seq<ChildOp>, inserts: seq<ChildOp>, op: UpdateOp, tail: seq<ChildOp>,
                     removed: seq<Node>, oldAfter: Node, oldTail: seq<Node>)
    requires i < |oldQ| && j <= |newQ|
    requires removes == Removes(i) && inserts == Inserts(newQ[..j])
    requires |removed| == i && forall x :: 0 <= x < i ==> removed[x] == Unslot(oldQ[x])
    requires |oldTail| == |oldQ| - i - 1
    requires forall x :: 0 <= x < |oldTail| && RemovedAt(tail, x) ==> oldTail[x] == Unslot(oldQ[i + 1..][x])
    ensures var ops := removes + inserts + [Nested(op)] + tail;
      var olds := removed + [oldAfter] + oldTail;
      forall x :: 0 <= x < |oldQ| && RemovedAt(ops, x) ==> olds[x] == Unslot(oldQ[x])
  {
    var ops := removes + inserts + [Nested(op)] + tail;
    var olds := removed + [oldAfter] + oldTail;
    StepFates(oldQ[..i], newQ[..j], op, tail);
    var fates := OldFates(ops);
    forall x | 0 <= x < |oldQ| && RemovedAt(ops, x)
      ensures olds[x] == Unslot(oldQ[x])
    {
      if x > i {
        assert fates[x] == OldFates(tail)[x - i - 1];
        assert RemovedAt(tail, x - i - 1);
        assert olds[x] == oldTail[x - i - 1] && oldQ[i + 1..][x - i - 1] == oldQ[x];
      }
    }
  }

  /** The fates of the old entries in one iteration: `i` removed, the diffed one kept, then the rest's. */
  lemma {:induction false} StepFates(removedQ: seq<Node>, insertedQ: seq<Node>, op: UpdateOp, tail: seq<ChildOp>)
    ensures OldFates(Removes(|removedQ|) + Inserts(insertedQ) + [Nested(op)] + tail)
         == seq(|removedQ|, _ => true) + [false] + OldFates(tail)
  {
    var removes := Removes(|removedQ|);
    var inserts := Inserts(insertedQ);
    RemovesAligned(removedQ);
    InsertsAligned(insertedQ);
    OldFatesAppend(removes, inserts);
    OldFatesAppend(removes + inserts, [Nested(op)]);
    OldFatesAppend(removes + inserts + [Nested(op)], tail);
    assert OldFates([Nested(op)]) == [false] by {
      assert [Nested(op)][1..] == [];
    }
  }

  lemma {:induction false} StepWorld(oldQ: seq<Node>, i: nat, w: World, w1: World, w2: World, w3: World,
                  removed: seq<Node>, oldAfter: Node, oldTail: seq<Node>)
    requires i < |oldQ| && AllMounted(oldQ)
    requires w1 == World(w.next, w.hooks + UnmountHooks(oldQ[..i]))
    requires |removed| == i && forall x :: 0 <= x < i ==> removed[x] == Unslot(oldQ[x])
    requires Evolves(w1, w2, Instances(oldQ[i])) && ClearedAfterUnmount(oldQ[i], oldAfter, w2)
    requires Evolves(w2, w3, InstancesSeq(oldQ[i + 1..]))
    requires |oldTail| == |oldQ| - i - 1
    requires forall x :: 0 <= x < |oldTail| ==> ClearedAfterUnmount(oldQ[i + 1..][x], oldTail[x], w3)
    ensures Evolves(w, w3, InstancesSeq(oldQ))
    ensures var olds := removed + [oldAfter] + oldTail;
      forall x :: 0 <= x < |oldQ| ==> ClearedAfterUnmount(oldQ[x], olds[x], w3)
  {
    StepEvolves(oldQ, i, w, w1, w2, w3);
    var olds := removed + [oldAfter] + oldTail;
    forall x | 0 <= x < |oldQ|
      ensures ClearedAfterUnmount(oldQ[x], olds[x], w3)
    {
      if x < i {
        assert olds[x] == Unslot(oldQ[x]);
        RemovedStaysCleared(oldQ, i, x, w, w1, w2, w3);
      } else if x == i {
        if oldQ[i].Component? && oldAfter.Component? && oldAfter.instance.None? {
          EvolvesKeeps(w2, w3, InstancesSeq(oldQ[i + 1..]), Unmounted(oldQ[i].instance.value));
        }
      } else {
        assert olds[x] == oldTail[x - i - 1] && oldQ[i + 1..][x - i - 1] == oldQ[x];
      }
    }
  }

  /** The hooks of one iteration (removals, the diffed pair, the rest) only append events about the old queue. */
  lemma {:induction false} StepEvolves(oldQ: seq<Node>, i: nat, w: World, w1: World, w2: World, w3: World)
    requires i < |oldQ| && AllMounted(oldQ)
    requires w1 == World(w.next, w.hooks + UnmountHooks(oldQ[..i]))
    requires Evolves(w1, w2, Instances(oldQ[i]))
    requires Evolves(w2, w3, InstancesSeq(oldQ[i + 1..]))
    ensures Evolves(w, w3, InstancesSeq(oldQ))
  {
    UnmountHooksSound(oldQ[..i]);
    InstancesSeqPrefix(oldQ, i);
    InstancesSeqElement(oldQ, i);
    InstancesSeqSuffix(oldQ, i + 1);
    assert Evolves(w, w1, InstancesSeq(oldQ)) by {
      assert w1.hooks[..|w.hooks|] == w.hooks;
      assert w1.hooks[|w.hooks|..] == UnmountHooks(oldQ[..i]);
    }
    EvolvesTrans(w, w1, w2, InstancesSeq(oldQ), Instances(oldQ[i]), InstancesSeq(oldQ));
    EvolvesTrans(w, w2, w3, InstancesSeq(oldQ), InstancesSeq(oldQ[i + 1..]), InstancesSeq(oldQ));
  }

  /** A component removed before the shared entry keeps its unmount record through the rest of the iteration. */
  lemma {:induction false} RemovedStaysCleared(oldQ: seq<Node>, i: nat, x: nat, w: World, w1: World, w2: World, w3: World)
    requires x < i < |oldQ| && AllMounted(oldQ)
    requires w1 == World(w.next, w.hooks + UnmountHooks(oldQ[..i]))
    requires Evolves(w1, w2, Instances(oldQ[i]))
    requires Evolves(w2, w3, InstancesSeq(oldQ[i + 1..]))
    ensures ClearedAfterUnmount(oldQ[x], Unslot(oldQ[x]), w3)
  {
    if oldQ[x].Component? {
      UnmountHooksSound(oldQ[..i]);
      assert oldQ[..i][x] == oldQ[x];
      var e := Unmounted(oldQ[x].instance.value);
      assert e in w1.hooks;
      EvolvesKeeps(w1, w2, Instances(oldQ[i]), e);
      EvolvesKeeps(w2, w3, InstancesSeq(oldQ[i + 1..]), e);
    }
  }

  /** The drain after the loop: every remaining old entry removed, every remaining new entry inserted. */
  lemma {:induction false} DrainFacts(oldQ: seq<Node>, newQ: seq<Node>, w: World, rm: Removal, ins: Insertion, r: ChildOut)
    requires AllMounted(oldQ) && !Continues(NextUpdateKey(oldQ, newQ))
    requires rm == RemoveBefore(oldQ, None, w) && ins == InsertBefore(newQ, None)
    requires r == ChildOut(rm.ops + ins.ops, rm.removed, ins.inserted, rm.world)
    ensures ChildContract(oldQ, newQ, w, r)
  {
    DrainAll(oldQ, newQ, w, rm, ins, r);
  }

  lemma {:induction false} DrainAll(oldQ: seq<Node>, newQ: seq<Node>, w: World, rm: Removal, ins: Insertion, r: ChildOut)
    requires AllMounted(oldQ)
    requires |rm.removed| == |oldQ| && rm.ops == Removes(|oldQ|)
    requires forall i :: 0 <= i < |oldQ| ==> rm.removed[i] == Unslot(oldQ[i])
    requires rm.world == World(w.next, w.hooks + UnmountHooks(oldQ[..|oldQ|]))
    requires ins.inserted == newQ[..|newQ|] && ins.ops == Inserts(ins.inserted)
    requires r == ChildOut(rm.ops + ins.ops, rm.removed, ins.inserted, rm.world)
    ensures ChildContract(oldQ, newQ, w, r)
  {
    assert oldQ[..|oldQ|] == oldQ && newQ[..|newQ|] == newQ;
    DrainOps(oldQ, newQ, rm.ops, ins.ops);
    forall i | 0 <= i < |oldQ|
      ensures SameShape(oldQ[i], rm.removed[i])
    {
      UnslotSameShape(oldQ[i]);
    }
    forall j | 0 <= j < |newQ|
      ensures SameShape(newQ[j], ins.inserted[j])
    {
      SameShapeReflexive(newQ[j]);
    }
    DrainWorld(oldQ, w, rm.world);
  }

  /** The drain's operations: all Removes, then all Inserts, each old entry removed. */
  lemma {:induction false} DrainOps(oldQ: seq<Node>, newQ: seq<Node>, removes: seq<ChildOp>, inserts: seq<ChildOp>)
    requires removes == Removes(|oldQ|) && inserts == Inserts(newQ)
    ensures Aligned(removes + inserts, oldQ, newQ)
    ensures forall i :: 0 <= i < |oldQ| ==> RemovedAt(removes + inserts, i)
  {
    RemovesAligned(oldQ);
    InsertsAligned(newQ);
    AlignedAppend(removes, oldQ, [], inserts, [], newQ);
    assert oldQ + [] == oldQ && [] + newQ == newQ;
    OldFatesAppend(removes, inserts);
  }

  /** The drain's world: the unmount hooks of every old entry, appended. */
  lemma {:induction false} DrainWorld(oldQ: seq<Node>, w: World, w1: World)
    requires AllMounted(oldQ)
    requires w1 == World(w.next, w.hooks + UnmountHooks(oldQ))
    ensures Evolves(w, w1, InstancesSeq(oldQ))
    ensures forall i :: 0 <= i < |oldQ| && oldQ[i].Component? ==> Unmounted(oldQ[i].instance.value) in w1.hooks
  {
    UnmountHooksSound(oldQ);
    assert w1.hooks[|w.hooks|..] == UnmountHooks(oldQ);
    assert w1.hooks[..|w.hooks|] == w.hooks;
  }

  /** `j` is the first position of `newQ` whose key is `k`. */
  predicate FirstWithKey(newQ: seq<Node>, j: nat, k: Key) {
    j < |newQ| && newQ[j].key == k && forall m :: 0 <= m < j ==> newQ[m].key != k
  }

  /**
   * One iteration of `createChildDiff`, read off the queues: when the first
   * shared old entry `i` has a truthy key whose first occurrence in the new
   * queue is `j`, the operations are `i` Removes, the Inserts of the `j` new
   * entries before it, the diff of the pair (run after the removed
   * components' unmount hooks), and the operations of the rest.
   */
  lemma {:induction false} ChildDiffIteration(c: Components, oldQ: seq<Node>, newQ: seq<Node>, w: World, i: nat, j: nat)
    requires AllMounted(oldQ)
    requires i == FirstShared(oldQ, newQ) && i < |oldQ| && Truthy(oldQ[i].key)
    requires FirstWithKey(newQ, j, oldQ[i].key)
    ensures Mounted(oldQ[i]) && AllMounted(oldQ[i + 1..])
    ensures var d := Diff(c, oldQ[i], newQ[j], World(w.next, w.hooks + UnmountHooks(oldQ[..i])));
      ChildDiff(c, oldQ, newQ, w).ops
        == Removes(i) + Inserts(newQ[..j]) + [Nested(d.op)] + ChildDiff(c, oldQ[i + 1..], newQ[j + 1..], d.world).ops
  {
    IterationQueues(oldQ, newQ, w, i, j);
  }

  /** Where the removal and insertion loops of the iteration at `i` and `j` stop, and what they leave. */
  lemma {:induction false} IterationQueues(oldQ: seq<Node>, newQ: seq<Node>, w: World, i: nat, j: nat)
    requires AllMounted(oldQ)
    requires i == FirstShared(oldQ, newQ) && i < |oldQ| && Truthy(oldQ[i].key)
    requires FirstWithKey(newQ, j, oldQ[i].key)
    ensures Mounted(oldQ[i]) && AllMounted(oldQ[i + 1..])
    ensures var next := NextUpdateKey(oldQ, newQ);
      var rm := RemoveBefore(oldQ, next, w);
      var ins := InsertBefore(newQ, next);
      && next == Some(oldQ[i].key) && Continues(next)
      && rm.ops == Removes(i) && ins.ops == Inserts(newQ[..j])
      && |rm.rest| > 0 && rm.rest[0] == oldQ[i] && rm.rest[1..] == oldQ[i + 1..]
      && |ins.rest| > 0 && ins.rest[0] == newQ[j] && ins.rest[1..] == newQ[j + 1..]
      && rm.world == World(w.next, w.hooks + UnmountHooks(oldQ[..i]))
  {
    var next := NextUpdateKey(oldQ, newQ);
    assert next == Some(oldQ[i].key);
    var rm := RemoveBefore(oldQ, next, w);
    var ins := InsertBefore(newQ, next);
    StepPositions(oldQ, newQ, w, rm, ins);
    assert |ins.inserted| == j;
  }

  /** The drain: when the loop does not start, every old entry is removed and every new entry inserted, in order. */
  lemma {:induction false} ChildDiffDrained(c: Components, oldQ: seq<Node>, newQ: seq<Node>, w: World)
    requires AllMounted(oldQ) && !Continues(NextUpdateKey(oldQ, newQ))
    ensures ChildDiff(c, oldQ, newQ, w).ops == Removes(|oldQ|) + Inserts(newQ)
    ensures ChildDiff(c, oldQ, newQ, w).world == World(w.next, w.hooks + UnmountHooks(oldQ))
  {
    var rm := RemoveBefore(oldQ, None, w);
    var ins := InsertBefore(newQ, None);
    assert |rm.removed| == |oldQ| && |ins.inserted| == |newQ|;
    assert oldQ[..|oldQ|] == oldQ && newQ[..|newQ|] == newQ;
  }

  /**
   * `unmountChildNodes`: for an Element, `dispatchUnmount` on every
   * component reached through element children (text skipped, nested
   * elements entered), in document order; nothing for other nodes.
   */
  function UnmountChildNodes(n: Node): (r: seq<InstanceId>)
    requires Mounted(n)
    ensures forall i :: i in r <==> n.Element? && i in InstancesSeq(n.children)
    decreases Size(n), 0
  {
    if n.Element? then UnmountEach(n.children) else []
  }

  function UnmountEach(s: seq<Node>): (r: seq<InstanceId>)
    requires AllMounted(s)
    ensures forall i :: i in r <==> i in InstancesSeq(s)
    decreases SizeSeq(s), 1
  {
    if |s| == 0 then []
    else
      var head := match s[0]
        case Text(_, _) => []
        case Component(_, _, _, instance) => [instance.value]
        case Element(_, _, _, _, _) => UnmountChildNodes(s[0]);
      head + UnmountEach(s[1..])
  }
}
