/**
 * The node builders: `createElement`, `createTextElement` and
 * `createComponent`, with the `checkKey` fallback they share.
 */
module Builders {
  import opened Wrappers
  import opened Values
  import opened Nodes

  /** The fallback key `checkKey` assigns to a keyless element or component. */
  const FallbackKey: Key := KS("key")

  /** The default key of a text node. */
  const TextKey: Key := KS("text")

  /** The `key` property, when given, holds a string or a number. */
  predicate KeyTyped(props: Props) {
    "key" in props ==> IsKeyValue(props["key"])
  }

  /** A `ref` property is captured only when it is an object with its own `current` field. */
  predicate HasCaptureRef(props: Props) {
    "ref" in props && props["ref"].Cell?
  }

  /** The property value that stands for a key. */
  function KeyValue(k: Key): (v: Value)
    ensures IsKeyValue(v) && AsKey(v) == k
  {
    match k
    case KS(s) => Str(s)
    case KN(n) => Num(n)
  }

  /**
   * `checkKey`: the props with a `key` entry, `'key'` filled in when the
   * caller gave none; nothing else is touched.
   */
  function CheckKey(props: Props): (r: Props)
    requires KeyTyped(props)
    ensures "key" in r && IsKeyValue(r["key"])
    ensures r.Keys == props.Keys + {"key"}
    ensures forall p :: p in props ==> r[p] == props[p]
    ensures "key" !in props ==> AsKey(r["key"]) == FallbackKey
  {
    if "key" !in props then props["key" := KeyValue(FallbackKey)] else props
  }

  /** The key a builder stores on its node. */
  function BuiltKey(props: Props): Key
    requires KeyTyped(props)
  {
    if "key" in props then AsKey(props["key"]) else FallbackKey
  }

  /**
   * `createElement`: `key` leaves the props for the node's key field, and
   * `ref` leaves them for the node's ref field when it is a capture cell;
   * every other property is kept as given.
   */
  function CreateElement(tag: string, props: Props, children: seq<Node>): (n: Node)
    requires KeyTyped(props)
    ensures n.Element? && n.tag == tag && n.children == children
    ensures n.key == BuiltKey(props)
    ensures HasCaptureRef(props) ==> n.ref == Some(props["ref"].id)
    ensures !HasCaptureRef(props) ==> n.ref == None
    ensures n.props.Keys == props.Keys - {"key"} - (if HasCaptureRef(props) then {"ref"} else {})
    ensures forall p :: p in n.props ==> n.props[p] == props[p]
  {
    var checked := CheckKey(props);
    var key := AsKey(checked["key"]);
    var attributes := checked - {"key"};
    if HasCaptureRef(props) then
      Element(tag, attributes - {"ref"}, children, Some(props["ref"].id), key)
    else
      Element(tag, attributes, children, None, key)
  }

  /** The props an Element was built from, reassembled from its fields. */
  function ElementSource(n: Node): Props
    requires n.Element?
  {
    var withKey := n.props["key" := KeyValue(n.key)];
    if n.ref.Some? then withKey["ref" := Cell(n.ref.value)] else withKey
  }

  /** When the caller supplied a key, nothing is lost: the props can be reassembled from the node. */
  lemma {:induction false} CreateElementKeepsProps(tag: string, props: Props, children: seq<Node>)
    requires KeyTyped(props) && "key" in props
    ensures ElementSource(CreateElement(tag, props, children)) == props
  {
    var n := CreateElement(tag, props, children);
    var r := ElementSource(n);
    assert r.Keys == props.Keys;
    forall p | p in props
      ensures r[p] == props[p]
    {
      if p == "key" {
        assert AsKey(KeyValue(n.key)) == AsKey(props["key"]);
        assert props["key"].Str? ==> KeyValue(n.key) == props["key"];
      }
    }
  }

  /**
   * `createTextElement`: the value as text, keyed `'text'` unless a key is
   * passed; no key check is made.
   */
  function CreateTextElement(value: Value, key: Option<Key>): (n: Node)
    requires IsPrimitive(value)
    ensures n.Text?
    ensures key.Some? ==> n.key == key.value
    ensures key.None? ==> n.key == TextKey
    ensures value.Str? ==> n.value == value.s
    ensures value.Bool? ==> n.value == (if value.b then "true" else "false")
    ensures value.Num? ==> ParseDecimal(n.value) == Some(value.n) && Canonical(n.value)
  {
    Text(Stringify(value), key.GetOr(TextKey))
  }

  /**
   * A number and the string of its digits give text nodes with the same
   * text and key, so `createDiff` cannot tell them apart.
   */
  lemma {:induction false} NumberTextMatchesString(n: int, key: Option<Key>)
    ensures CreateTextElement(Num(n), key) == CreateTextElement(Str(Decimal(n)), key)
  {
    var t := CreateTextElement(Num(n), key);
    CanonicalUnique(t.value, n);
  }

  /**
   * `createComponent`: `key` leaves the props for the node's key field;
   * the node starts with an empty instance slot. `ref` is not special here.
   */
  function CreateComponent(cls: ClassId, props: Props): (n: Node)
    requires KeyTyped(props)
    ensures n.Component? && n.cls == cls && n.instance == None
    ensures n.key == BuiltKey(props)
    ensures n.props.Keys == props.Keys - {"key"}
    ensures forall p :: p in n.props ==> n.props[p] == props[p]
  {
    var checked := CheckKey(props);
    Component(cls, checked - {"key"}, AsKey(checked["key"]), None)
  }
}
