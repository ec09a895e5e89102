/**
 * The intent tree: the three node kinds the template engine diffs, and the
 * measures and predicates the rest of the model states its contracts with.
 */
module Nodes {
  import opened Wrappers
  import opened Values

  /** Identity of a live component instance (a `Block` object). */
  type InstanceId = nat

  /** Identity of a component class (compared with `===`). */
  type ClassId = nat

  /**
   * A virtual-DOM node. `ref` is the identity of the capture-reference cell
   * an Element was built with; `instance` is the one mutable slot of a
   * Component node, empty until the component is mounted.
   */
  datatype Node =
    | Element(tag: string, props: Props, children: seq<Node>, ref: Option<nat>, key: Key)
    | Text(value: string, key: Key)
    | Component(cls: ClassId, props: Props, key: Key, instance: Option<InstanceId>)

  /** Number of nodes in a tree; the termination measure of the diff. */
  function Size(n: Node): (r: nat)
    ensures r >= 1
  {
    match n
    case Element(_, _, children, _, _) => 1 + SizeSeq(children)
    case _ => 1
  }

  /** Total size of a sibling list; it bounds the size of each sibling. */
  function SizeSeq(s: seq<Node>): (r: nat)
    ensures forall i :: 0 <= i < |s| ==> Size(s[i]) <= r
  {
    if |s| == 0 then 0
    else
      assert forall i :: 0 < i < |s| ==> s[i] == s[1..][i - 1];
      Size(s[0]) + SizeSeq(s[1..])
  }

  lemma {:induction false} SizeSeqAppend(a: seq<Node>, b: seq<Node>)
    ensures SizeSeq(a + b) == SizeSeq(a) + SizeSeq(b)
    decreases |a|
  {
    if |a| > 0 {
      assert (a + b)[1..] == a[1..] + b;
      SizeSeqAppend(a[1..], b);
    } else {
      assert a + b == b;
    }
  }

  /** A suffix starting at `i` weighs its head plus what follows it, and no more than the whole. */
  lemma {:induction false} SizeSeqSuffix(s: seq<Node>, i: nat)
    requires i < |s|
    ensures SizeSeq(s[i..]) == Size(s[i]) + SizeSeq(s[i + 1..])
    ensures SizeSeq(s[i..]) <= SizeSeq(s)
  {
    assert s[i..][1..] == s[i + 1..];
    assert s == s[..i] + s[i..];
    SizeSeqAppend(s[..i], s[i..]);
  }

  /** The list of keys of a sibling list, in order. */
  function Keys(s: seq<Node>): (ks: seq<Key>)
    ensures |ks| == |s|
    ensures forall i :: 0 <= i < |s| ==> ks[i] == s[i].key
  {
    seq(|s|, i requires 0 <= i < |s| => s[i].key)
  }

  /**
   * Every Component reachable through Element children holds a live
   * instance: the condition under which the diff may dereference it.
   */
  predicate Mounted(n: Node) {
    match n
    case Element(_, _, children, _, _) => forall i :: 0 <= i < |children| ==> Mounted(children[i])
    case Text(_, _) => true
    case Component(_, _, _, instance) => instance.Some?
  }

  predicate AllMounted(s: seq<Node>) {
    forall i :: 0 <= i < |s| ==> Mounted(s[i])
  }

  /** The instances held by Component nodes reachable through Element children. */
  function Instances(n: Node): set<InstanceId> {
    match n
    case Element(_, _, children, _, _) => InstancesSeq(children)
    case Text(_, _) => {}
    case Component(_, _, _, instance) => if instance.Some? then {instance.value} else {}
  }

  function InstancesSeq(s: seq<Node>): set<InstanceId> {
    if |s| == 0 then {} else Instances(s[0]) + InstancesSeq(s[1..])
  }

  lemma {:induction false} InstancesSeqAppend(a: seq<Node>, b: seq<Node>)
    ensures InstancesSeq(a + b) == InstancesSeq(a) + InstancesSeq(b)
    decreases |a|
  {
    if |a| > 0 {
      assert (a + b)[1..] == a[1..] + b;
      InstancesSeqAppend(a[1..], b);
    } else {
      assert a + b == b;
    }
  }

  /** The instances of a suffix, and of any one sibling, belong to the whole list's. */
  lemma {:induction false} InstancesSeqSuffix(s: seq<Node>, i: nat)
    requires i <= |s|
    ensures InstancesSeq(s[i..]) <= InstancesSeq(s)
    ensures i < |s| ==> InstancesSeq(s[i..]) == Instances(s[i]) + InstancesSeq(s[i + 1..])
  {
    assert s == s[..i] + s[i..];
    InstancesSeqAppend(s[..i], s[i..]);
    if i < |s| {
      assert s[i..][1..] == s[i + 1..];
    }
  }

  lemma {:induction false} InstancesSeqPrefix(s: seq<Node>, i: nat)
    requires i <= |s|
    ensures InstancesSeq(s[..i]) <= InstancesSeq(s)
  {
    assert s == s[..i] + s[i..];
    InstancesSeqAppend(s[..i], s[i..]);
  }

  lemma {:induction false} InstancesSeqElement(s: seq<Node>, i: nat)
    requires i < |s|
    ensures Instances(s[i]) <= InstancesSeq(s)
  {
    InstancesSeqSuffix(s, i);
  }

  /** The node with its instance slot emptied (`instance = null`); other kinds unchanged. */
  function Unslot(n: Node): (r: Node)
    ensures r.Component? <==> n.Component?
    ensures r.Component? ==> r == n.(instance := None)
    ensures !r.Component? ==> r == n
  {
    if n.Component? then n.(instance := None) else n
  }

  /**
   * `a` and `b` are the same intent tree up to the contents of instance
   * slots: the diff writes those slots and nothing else.
   */
  predicate SameShape(a: Node, b: Node) {
    match a
    case Text(_, _) => a == b
    case Component(cls, props, key, _) =>
      b.Component? && b.cls == cls && b.props == props && b.key == key
    case Element(tag, props, children, ref, key) =>
      && b.Element? && b.tag == tag && b.props == props && b.ref == ref && b.key == key
      && |b.children| == |children|
      && forall i :: 0 <= i < |children| ==> SameShape(children[i], b.children[i])
  }

  lemma {:induction false} SameShapeReflexive(n: Node)
    ensures SameShape(n, n)
  {
    match n
    case Element(_, _, children, _, _) =>
      forall i | 0 <= i < |children| {
        SameShapeReflexive(children[i]);
      }
    case _ =>
  }
}
