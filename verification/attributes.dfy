/**
 * Attribute/event maps: the shallow equality `checkPropsEqual` and the
 * `{add, remove}` delta `createDiff` computes for two same-tag elements.
 */
module Attributes {
  import opened Values

  /** What an update must remove from and add to an element's properties. */
  datatype PropsDelta = PropsDelta(add: Props, remove: Props)

  lemma {:induction false} SubsetOfEqualSize<T>(a: set<T>, b: set<T>)
    requires a <= b && |a| == |b|
    ensures a == b
  {
    assert |b - a| == |b| - |a|;
  }

  /**
   * `checkPropsEqual`: equal numbers of keys, and every old key present in
   * the new map with a `===`-equal value. This is exactly map equality.
   */
  function PropsEqual(a: Props, b: Props): (r: bool)
    ensures r <==> a == b
  {
    if |a| == |b| then
      var sameEntries := forall p :: p in a ==> p in b && a[p] == b[p];
      if sameEntries then SubsetOfEqualSize(a.Keys, b.Keys); true else false
    else
      false
  }

  /**
   * The attribute delta of `createDiff`: `add` holds every new property
   * whose value differs from the old one (absent counts as different), with
   * its new value; `remove` holds every old property that is gone, and every
   * event handler whose value changed, with its old value.
   */
  function AttributeDelta(oldProps: Props, newProps: Props): (d: PropsDelta)
    ensures forall p :: p in d.add <==> p in newProps && (p !in oldProps || oldProps[p] != newProps[p])
    ensures forall p :: p in d.add ==> d.add[p] == newProps[p]
    ensures forall p :: p in d.remove <==> p in oldProps && (p !in newProps || (IsEvent(p) && newProps[p] != oldProps[p]))
    ensures forall p :: p in d.remove ==> d.remove[p] == oldProps[p]
  {
    PropsDelta(
      map p | p in newProps && (p !in oldProps || oldProps[p] != newProps[p]) :: newProps[p],
      map p | p in oldProps && (p !in newProps || (IsEvent(p) && newProps[p] != oldProps[p])) :: oldProps[p])
  }

  /** The map that results from dropping the removed keys and writing the added ones. */
  function Patch(m: Props, d: PropsDelta): Props {
    (m - d.remove.Keys) + d.add
  }

  /** Applying the delta to the old map yields exactly the new map. */
  lemma {:induction false} DeltaReconstructs(oldProps: Props, newProps: Props)
    ensures Patch(oldProps, AttributeDelta(oldProps, newProps)) == newProps
  {
    var d := AttributeDelta(oldProps, newProps);
    var r := Patch(oldProps, d);
    assert r.Keys == newProps.Keys;
    forall p | p in newProps
      ensures r[p] == newProps[p]
    {
      if p !in d.add {
        assert p in oldProps && oldProps[p] == newProps[p];
        assert p !in d.remove;
      }
    }
  }

  /** A property with the same value on both sides appears in neither half of the delta. */
  lemma {:induction false} UnchangedInNeither(oldProps: Props, newProps: Props, p: string)
    requires p in oldProps && p in newProps && oldProps[p] == newProps[p]
    ensures p !in AttributeDelta(oldProps, newProps).add && p !in AttributeDelta(oldProps, newProps).remove
  {
  }

  /** The delta is empty exactly when the two maps are equal. */
  lemma {:induction false} DeltaEmptyIffEqual(oldProps: Props, newProps: Props)
    ensures AttributeDelta(oldProps, newProps) == PropsDelta(map[], map[]) <==> PropsEqual(oldProps, newProps)
  {
    var d := AttributeDelta(oldProps, newProps);
    if d == PropsDelta(map[], map[]) {
      DeltaReconstructs(oldProps, newProps);
      assert Patch(oldProps, d) == oldProps;
    }
  }
}
