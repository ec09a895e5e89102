/**
 * The operations the diff produces, and the alignment a child-operation
 * list establishes between an old and a new sibling list.
 */
module Operations {
  import opened Wrappers
  import opened Values
  import opened Nodes
  import opened Attributes

  /**
   * An update of one node: leave it, replace it (with a `didMount` callback
   * for the instance whose first tree `node` is), or patch its properties
   * and children in place.
   */
  datatype UpdateOp =
    | Skip
    | Replace(node: Node, didMount: Option<InstanceId>)
    | Update(delta: PropsDelta, children: seq<ChildOp>)

  /** One slot of a child-list update: insert a new child, remove an old one, or update the current one. */
  datatype ChildOp =
    | Insert(node: Node)
    | Remove
    | Nested(op: UpdateOp)

  /** Does the operation consume an old child (Remove or a nested update)? */
  predicate ConsumesOld(c: ChildOp) {
    !c.Insert?
  }

  /** Does the operation consume a new child (Insert or a nested update)? */
  predicate ConsumesNew(c: ChildOp) {
    !c.Remove?
  }

  function CountRemoves(ops: seq<ChildOp>): nat {
    if |ops| == 0 then 0 else (if ops[0].Remove? then 1 else 0) + CountRemoves(ops[1..])
  }

  function CountInserts(ops: seq<ChildOp>): nat {
    if |ops| == 0 then 0 else (if ops[0].Insert? then 1 else 0) + CountInserts(ops[1..])
  }

  function CountNested(ops: seq<ChildOp>): nat {
    if |ops| == 0 then 0 else (if ops[0].Nested? then 1 else 0) + CountNested(ops[1..])
  }

  lemma {:induction false} CountsAppend(a: seq<ChildOp>, b: seq<ChildOp>)
    ensures CountRemoves(a + b) == CountRemoves(a) + CountRemoves(b)
    ensures CountInserts(a + b) == CountInserts(a) + CountInserts(b)
    ensures CountNested(a + b) == CountNested(a) + CountNested(b)
    decreases |a|
  {
    if |a| == 0 {
      assert a + b == b;
    } else {
      assert (a + b)[1..] == a[1..] + b;
      CountsAppend(a[1..], b);
    }
  }

  lemma {:induction false} CountsBounded(ops: seq<ChildOp>)
    ensures CountRemoves(ops) + CountInserts(ops) + CountNested(ops) == |ops|
    decreases |ops|
  {
    if |ops| > 0 {
      CountsBounded(ops[1..]);
    }
  }

  /** Removes preceding slot `k` number at most `k`. */
  lemma {:induction false} RemovesBeforeBounded(ops: seq<ChildOp>, k: nat)
    requires k <= |ops|
    ensures CountRemoves(ops[..k]) <= k
  {
    CountsBounded(ops[..k]);
  }

  /** Extending a prefix by one slot adds one Remove exactly when that slot is a Remove. */
  lemma {:induction false} RemovesBeforeStep(ops: seq<ChildOp>, k: nat)
    requires k < |ops|
    ensures CountRemoves(ops[..k + 1]) == CountRemoves(ops[..k]) + (if ops[k].Remove? then 1 else 0)
  {
    assert ops[..k + 1] == ops[..k] + [ops[k]];
    CountsAppend(ops[..k], [ops[k]]);
  }

  /**
   * The reference meaning of a child-operation list: read left to right,
   * every Remove consumes the next old child, every Insert consumes the next
   * new child and carries it, and every nested update consumes one of each,
   * and the two have equal keys; both lists are used up at the end.
   */
  predicate Aligned(ops: seq<ChildOp>, olds: seq<Node>, news: seq<Node>)
    decreases |ops|
  {
    if |ops| == 0 then
      olds == [] && news == []
    else
      match ops[0]
      case Remove => |olds| > 0 && Aligned(ops[1..], olds[1..], news)
      case Insert(n) => |news| > 0 && n == news[0] && Aligned(ops[1..], olds, news[1..])
      case Nested(_) =>
        |olds| > 0 && |news| > 0 && olds[0].key == news[0].key && Aligned(ops[1..], olds[1..], news[1..])
  }

  lemma {:induction false} AlignedAppend(a: seq<ChildOp>, olds1: seq<Node>, news1: seq<Node>,
                                         b: seq<ChildOp>, olds2: seq<Node>, news2: seq<Node>)
    requires Aligned(a, olds1, news1) && Aligned(b, olds2, news2)
    ensures Aligned(a + b, olds1 + olds2, news1 + news2)
    decreases |a|
  {
    if |a| == 0 {
      assert a + b == b && olds1 + olds2 == olds2 && news1 + news2 == news2;
    } else {
      assert (a + b)[0] == a[0] && (a + b)[1..] == a[1..] + b;
      match a[0]
      case Remove =>
        assert (olds1 + olds2)[1..] == olds1[1..] + olds2;
        AlignedAppend(a[1..], olds1[1..], news1, b, olds2, news2);
      case Insert(n) =>
        assert (news1 + news2)[1..] == news1[1..] + news2;
        AlignedAppend(a[1..], olds1, news1[1..], b, olds2, news2);
      case Nested(_) =>
        assert (olds1 + olds2)[1..] == olds1[1..] + olds2;
        assert (news1 + news2)[1..] == news1[1..] + news2;
        AlignedAppend(a[1..], olds1[1..], news1[1..], b, olds2, news2);
    }
  }

  /** Every old child is consumed once and every new child is consumed once. */
  lemma {:induction false} AlignedConserves(ops: seq<ChildOp>, olds: seq<Node>, news: seq<Node>)
    requires Aligned(ops, olds, news)
    ensures CountRemoves(ops) + CountNested(ops) == |olds|
    ensures CountInserts(ops) + CountNested(ops) == |news|
    decreases |ops|
  {
    if |ops| > 0 {
      match ops[0]
      case Remove => AlignedConserves(ops[1..], olds[1..], news);
      case Insert(_) => AlignedConserves(ops[1..], olds, news[1..]);
      case Nested(_) => AlignedConserves(ops[1..], olds[1..], news[1..]);
    }
  }

  /** How many old children the slots before `k` consume: the old index slot `k` works on. */
  function OldBefore(ops: seq<ChildOp>, k: nat): nat
    requires k <= |ops|
  {
    CountRemoves(ops[..k]) + CountNested(ops[..k])
  }

  /** How many new children the slots before `k` consume: the new index slot `k` works on. */
  function NewBefore(ops: seq<ChildOp>, k: nat): nat
    requires k <= |ops|
  {
    CountInserts(ops[..k]) + CountNested(ops[..k])
  }

  lemma {:induction false} BeforeShift(ops: seq<ChildOp>, k: nat)
    requires 0 < k <= |ops|
    ensures OldBefore(ops, k) == (if ConsumesOld(ops[0]) then 1 else 0) + OldBefore(ops[1..], k - 1)
    ensures NewBefore(ops, k) == (if ConsumesNew(ops[0]) then 1 else 0) + NewBefore(ops[1..], k - 1)
  {
    assert ops[..k] == [ops[0]] + ops[1..][..k - 1];
    CountsAppend([ops[0]], ops[1..][..k - 1]);
  }

  /**
   * The positional reading of `Aligned`: slot `k` works on old child
   * `OldBefore(ops, k)` and new child `NewBefore(ops, k)`; an Insert carries
   * that new child, and a nested update pairs two children with equal keys.
   * Since both indices only grow, Inserts follow the new list's order and
   * the updated pairs form a common subsequence of the two lists.
   */
  lemma {:induction false} AlignedPairs(ops: seq<ChildOp>, olds: seq<Node>, news: seq<Node>, k: nat)
    requires Aligned(ops, olds, news) && k < |ops|
    ensures ConsumesOld(ops[k]) ==> OldBefore(ops, k) < |olds|
    ensures ConsumesNew(ops[k]) ==> NewBefore(ops, k) < |news|
    ensures ops[k].Insert? ==> ops[k].node == news[NewBefore(ops, k)]
    ensures ops[k].Nested? ==> olds[OldBefore(ops, k)].key == news[NewBefore(ops, k)].key
    decreases k
  {
    if k > 0 {
      BeforeShift(ops, k);
      assert ops[1..][k - 1] == ops[k];
      match ops[0]
      case Remove => AlignedPairs(ops[1..], olds[1..], news, k - 1);
      case Insert(_) => AlignedPairs(ops[1..], olds, news[1..], k - 1);
      case Nested(_) => AlignedPairs(ops[1..], olds[1..], news[1..], k - 1);
    }
  }

  /** One fate per old child, in order: `true` when it is removed, `false` when it is updated. */
  function OldFates(ops: seq<ChildOp>): (f: seq<bool>)
    ensures |f| == CountRemoves(ops) + CountNested(ops)
  {
    if |ops| == 0 then []
    else if ops[0].Remove? then [true] + OldFates(ops[1..])
    else if ops[0].Nested? then [false] + OldFates(ops[1..])
    else OldFates(ops[1..])
  }

  /** Old child `i` is removed by the operation list. */
  predicate RemovedAt(ops: seq<ChildOp>, i: nat) {
    i < |OldFates(ops)| && OldFates(ops)[i]
  }

  lemma {:induction false} OldFatesAppend(a: seq<ChildOp>, b: seq<ChildOp>)
    ensures OldFates(a + b) == OldFates(a) + OldFates(b)
    decreases |a|
  {
    if |a| == 0 {
      assert a + b == b;
    } else {
      assert (a + b)[1..] == a[1..] + b;
      OldFatesAppend(a[1..], b);
    }
  }

  /** A run of `n` Removes. */
  function Removes(n: nat): (ops: seq<ChildOp>)
    ensures |ops| == n && forall i :: 0 <= i < n ==> ops[i] == Remove
  {
    seq(n, _ => Remove)
  }

  /** The Inserts of `nodes`, in order. */
  function Inserts(nodes: seq<Node>): (ops: seq<ChildOp>)
    ensures |ops| == |nodes| && forall i :: 0 <= i < |nodes| ==> ops[i] == Insert(nodes[i])
  {
    seq(|nodes|, i requires 0 <= i < |nodes| => Insert(nodes[i]))
  }

  lemma {:induction false} RemovesAligned(olds: seq<Node>)
    ensures Aligned(Removes(|olds|), olds, [])
    ensures OldFates(Removes(|olds|)) == seq(|olds|, _ => true)
    decreases |olds|
  {
    if |olds| > 0 {
      assert Removes(|olds|)[1..] == Removes(|olds| - 1);
      RemovesAligned(olds[1..]);
    }
  }

  lemma {:induction false} InsertsAligned(news: seq<Node>)
    ensures Aligned(Inserts(news), [], news)
    ensures OldFates(Inserts(news)) == []
    decreases |news|
  {
    if |news| > 0 {
      assert Inserts(news)[1..] == Inserts(news[1..]);
      InsertsAligned(news[1..]);
    }
  }

  /** Removes in front of an aligned list consume the same number of old entries in front. */
  lemma {:induction false} RemovesThen(n: nat, ops: seq<ChildOp>, olds: seq<Node>, news: seq<Node>)
    requires n <= |olds| && Aligned(ops, olds[n..], news)
    ensures Aligned(Removes(n) + ops, olds, news)
    decreases n
  {
    if n == 0 {
      assert Removes(n) + ops == ops && olds[n..] == olds;
    } else {
      assert olds[1..][n - 1..] == olds[n..];
      RemovesThen(n - 1, ops, olds[1..], news);
      assert (Removes(n) + ops)[0] == Remove;
      assert (Removes(n) + ops)[1..] == Removes(n - 1) + ops;
    }
  }

  /** Inserts of `ins` in front of an aligned list consume `ins` in front of the new entries. */
  lemma {:induction false} InsertsThen(ins: seq<Node>, ops: seq<ChildOp>, olds: seq<Node>, news: seq<Node>)
    requires Aligned(ops, olds, news)
    ensures Aligned(Inserts(ins) + ops, olds, ins + news)
    decreases |ins|
  {
    if |ins| == 0 {
      assert Inserts(ins) + ops == ops && ins + news == news;
    } else {
      InsertsThen(ins[1..], ops, olds, news);
      assert (ins + news)[0] == ins[0] && (ins + news)[1..] == ins[1..] + news;
      assert (Inserts(ins) + ops)[0] == Insert(ins[0]);
      assert (Inserts(ins) + ops)[1..] == Inserts(ins[1..]) + ops;
    }
  }

  /** A nested update in front of an aligned list consumes one old and one new entry with equal keys. */
  lemma {:induction false} NestedThen(op: UpdateOp, ops: seq<ChildOp>, olds: seq<Node>, news: seq<Node>)
    requires |olds| > 0 && |news| > 0 && olds[0].key == news[0].key
    requires Aligned(ops, olds[1..], news[1..])
    ensures Aligned([Nested(op)] + ops, olds, news)
  {
    assert ([Nested(op)] + ops)[1..] == ops;
  }
}
