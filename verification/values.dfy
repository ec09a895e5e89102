/**
 * Property values, node keys and the string conversions the template
 * engine applies to them.
 */
module Values {
  import opened Wrappers

  /**
   * A property value. Primitives compare by value; functions and
   * capture-reference objects (`{ current }`) compare by identity, so they
   * carry an identity number.
   */
  datatype Value =
    | Str(s: string)
    | Num(n: int)
    | Bool(b: bool)
    | Fn(id: nat)
    | Cell(id: nat)

  /** An attribute/event map: property name to value. */
  type Props = map<string, Value>

  /** A sibling key: a string or a number; `===` tells `"1"` from `1`. */
  datatype Key = KS(s: string) | KN(n: int)

  /** A property name that denotes an event handler (`onClick`, `onInput`, ...): `startsWith('on')`. */
  function IsEvent(name: string): (b: bool)
    ensures b <==> |name| >= 2 && name[0] == 'o' && name[1] == 'n'
    ensures b ==> name == "on" + name[2..]
  {
    |name| >= 2 && name[..2] == "on"
  }

  /** Every name made of `on` and a rest denotes a handler, whatever the rest. */
  lemma {:induction false} OnPrefixIsEvent(rest: string)
    ensures IsEvent("on" + rest)
    ensures ("on" + rest)[2..] == rest
  {
  }

  /** JavaScript truthiness of a key: `""` and `0` are falsy. */
  predicate Truthy(k: Key) {
    match k
    case KS(s) => s != ""
    case KN(n) => n != 0
  }

  predicate IsPrimitive(v: Value) {
    v.Str? || v.Num? || v.Bool?
  }

  /** Values a `key` property may hold: a string or a number. */
  predicate IsKeyValue(v: Value) {
    v.Str? || v.Num?
  }

  function AsKey(v: Value): (k: Key)
    requires IsKeyValue(v)
    ensures v.Str? ==> k == KS(v.s)
    ensures v.Num? ==> k == KN(v.n)
  {
    if v.Str? then KS(v.s) else KN(v.n)
  }

  predicate IsDigit(c: char) {
    '0' <= c <= '9'
  }

  function DigitChar(d: nat): (c: char)
    requires d < 10
    ensures IsDigit(c)
  {
    ['0', '1', '2', '3', '4', '5', '6', '7', '8', '9'][d]
  }

  function DigitValue(c: char): (d: nat)
    requires IsDigit(c)
    ensures d < 10
    ensures DigitChar(d) == c
  {
    (c as int - '0' as int) as nat
  }

  /** The decimal digits of `n`, most significant first, without leading zeros. */
  function NatDigits(n: nat): (s: string)
    ensures |s| > 0
    ensures forall i :: 0 <= i < |s| ==> IsDigit(s[i])
    decreases n
  {
    if n < 10 then [DigitChar(n)] else NatDigits(n / 10) + [DigitChar(n % 10)]
  }

  /** `Number.prototype.toString` on an integer below 10^21 in magnitude: optional `-`, then the digits. */
  function Decimal(n: int): string {
    if n < 0 then "-" + NatDigits(-n) else NatDigits(n)
  }

  /** The value of a non-empty run of digits. */
  function DigitsValue(s: string): nat
    requires forall i :: 0 <= i < |s| ==> IsDigit(s[i])
  {
    if |s| == 0 then 0 else DigitsValue(s[..|s| - 1]) * 10 + DigitValue(s[|s| - 1])
  }

  /** A non-empty run of digits with no leading zero, unless it is `0` itself. */
  predicate PlainDigits(t: string) {
    && |t| > 0
    && (forall i :: 0 <= i < |t| ==> IsDigit(t[i]))
    && (t[0] == '0' ==> |t| == 1)
  }

  /** The shape of `toString`'s output for an integer: no leading zeros and no `-0`. */
  predicate Canonical(s: string) {
    if |s| > 0 && s[0] == '-' then PlainDigits(s[1..]) && s[1] != '0'
    else PlainDigits(s)
  }

  /** Reads back a decimal integer as `Decimal` writes it. */
  function ParseDecimal(s: string): Option<int> {
    if |s| > 0 && s[0] == '-' then
      var t := s[1..];
      if |t| > 0 && forall i :: 0 <= i < |t| ==> IsDigit(t[i]) then Some(0 - DigitsValue(t) as int) else None
    else if |s| > 0 && forall i :: 0 <= i < |s| ==> IsDigit(s[i]) then Some(DigitsValue(s))
    else None
  }

  lemma {:induction false} NatDigitsValue(n: nat)
    ensures DigitsValue(NatDigits(n)) == n
    decreases n
  {
    if n >= 10 {
      var s := NatDigits(n);
      assert s[..|s| - 1] == NatDigits(n / 10);
      NatDigitsValue(n / 10);
    }
  }

  /** Reading back the text of a number gives the number again. */
  lemma {:induction false} DecimalRoundTrip(n: int)
    ensures ParseDecimal(Decimal(n)) == Some(n)
  {
    if n < 0 {
      var t := NatDigits(-n);
      assert Decimal(n)[0] == '-' && Decimal(n)[1..] == t;
      NatDigitsValue(-n);
    } else {
      var t := NatDigits(n);
      assert IsDigit(t[0]);
      NatDigitsValue(n);
    }
  }

  /** A positive number's digits do not start with `0`. */
  lemma {:induction false} NatDigitsLead(n: nat)
    ensures PlainDigits(NatDigits(n))
    ensures n > 0 ==> NatDigits(n)[0] != '0'
    decreases n
  {
    if n < 10 {
      if n > 0 {
        assert DigitValue(NatDigits(n)[0]) == n;
      }
    } else {
      NatDigitsLead(n / 10);
      assert NatDigits(n)[0] == NatDigits(n / 10)[0];
    }
  }

  /** `Decimal` writes the canonical form. */
  lemma {:induction false} DecimalCanonical(n: int)
    ensures Canonical(Decimal(n))
  {
    if n < 0 {
      NatDigitsLead(-n);
      assert Decimal(n)[1..] == NatDigits(-n);
    } else {
      NatDigitsLead(n);
    }
  }

  /** A run of digits is worth at least its first digit. */
  lemma {:induction false} DigitsValueAtLeastLead(t: string)
    requires |t| > 0 && forall i :: 0 <= i < |t| ==> IsDigit(t[i])
    ensures DigitsValue(t) >= DigitValue(t[0])
    decreases |t|
  {
    if |t| > 1 {
      DigitsValueAtLeastLead(t[..|t| - 1]);
    }
  }

  /** Plain digits are the digits `NatDigits` writes for their value. */
  lemma {:induction false} PlainDigitsUnique(t: string)
    requires PlainDigits(t)
    ensures t == NatDigits(DigitsValue(t))
    decreases |t|
  {
    var last := t[|t| - 1];
    if |t| == 1 {
      assert DigitsValue(t) == DigitValue(last);
    } else {
      var init := t[..|t| - 1];
      assert init[0] == t[0] != '0';
      assert PlainDigits(init);
      DigitsValueAtLeastLead(init);
      PlainDigitsUnique(init);
      var v := DigitsValue(t);
      assert v == DigitsValue(init) * 10 + DigitValue(last);
      assert v / 10 == DigitsValue(init) && v % 10 == DigitValue(last);
      assert t == init + [last];
    }
  }

  /**
   * Canonical numerals are unique: a canonical text that reads back as `n`
   * is the text `Decimal` writes for `n`.
   */
  lemma {:induction false} CanonicalUnique(s: string, n: int)
    requires Canonical(s) && ParseDecimal(s) == Some(n)
    ensures s == Decimal(n)
  {
    if |s| > 0 && s[0] == '-' {
      var t := s[1..];
      PlainDigitsUnique(t);
      assert DigitsValue(t) > 0 by {
        DigitsValueAtLeastLead(t);
      }
      assert s == "-" + t;
    } else {
      PlainDigitsUnique(s);
    }
  }

  /** `value.toString()` on a string, boolean or number. */
  function Stringify(v: Value): (s: string)
    requires IsPrimitive(v)
    ensures v.Str? ==> s == v.s
    ensures v.Bool? ==> s == (if v.b then "true" else "false")
    ensures v.Num? ==> ParseDecimal(s) == Some(v.n) && Canonical(s)
  {
    match v
    case Str(t) => t
    case Bool(b) => if b then "true" else "false"
    case Num(n) => DecimalRoundTrip(n); DecimalCanonical(n); Decimal(n)
  }
}
