/**
 * The JavaScript values the editor extensions read and write: property-bag
 * entries, widget values and event payload fields. Only primitives appear in
 * the modelled code paths; JavaScript's truthiness and `Number.prototype.toString`
 * on node ids are written out here because the handlers branch on them.
 */
module JsValues {

  datatype Option<+T> = None | Some(value: T)

  /**
   * A primitive JavaScript value. `Undefined` is also what reading a missing
   * key of a property bag yields (see `Get`). Numbers are modelled as reals
   * (NaN and the infinities do not occur in the modelled paths).
   */
  datatype Value = Undefined | Null | Bool(b: bool) | Num(n: real) | Str(s: string)

  /** JavaScript truthiness (`if (v)`, `!v`, `v || d`). */
  predicate Truthy(v: Value)
  {
    match v
    case Undefined => false
    case Null => false
    case Bool(b) => b
    case Num(n) => n != 0.0
    case Str(s) => s != ""
  }

  /** `obj[key]` on a plain object: a missing key reads as `undefined`. */
  function Get(props: map<string, Value>, key: string): Value
  {
    if key in props then props[key] else Undefined
  }

  /**
   * `if (props[key] === undefined) props[key] = v`: the entry is set only
   * where reading it gives `undefined`; every other entry is left alone.
   */
  function DefaultIfUndefined(props: map<string, Value>, key: string, v: Value): (r: map<string, Value>)
    ensures Get(props, key) == Undefined ==> Get(r, key) == v
    ensures Get(props, key) != Undefined ==> r == props
    ensures forall k :: k != key ==> Get(r, k) == Get(props, k)
  {
    if Get(props, key) == Undefined then props[key := v] else props
  }

  /** A default never overwrites a defined entry, so a second default for the same key is a no-op. */
  lemma DefaultIfUndefinedIdempotent(props: map<string, Value>, key: string, v: Value, w: Value)
    requires v != Undefined
    ensures DefaultIfUndefined(DefaultIfUndefined(props, key, v), key, w) == DefaultIfUndefined(props, key, v)
  {
  }

  /** `props[key] = !props[key]`: the entry negated, as a boolean. */
  function Toggled(props: map<string, Value>, key: string): (r: map<string, Value>)
    ensures Get(r, key) == Bool(!Truthy(Get(props, key)))
    ensures forall k :: k != key ==> Get(r, k) == Get(props, k)
  {
    props[key := Bool(!Truthy(Get(props, key)))]
  }

  /** Toggling twice restores the entry's truthiness, and a boolean entry itself. */
  lemma ToggledTwice(props: map<string, Value>, key: string)
    ensures Truthy(Get(Toggled(Toggled(props, key), key), key)) == Truthy(Get(props, key))
    ensures Get(props, key).Bool? ==> Toggled(Toggled(props, key), key) == props
  {
  }

  function DigitChar(d: nat): char
    requires d < 10
  {
    (48 + d) as char
  }

  /** Decimal rendering of a non-negative integer, most significant digit first. */
  function NatToString(n: nat): (s: string)
    ensures 1 <= |s|
    ensures n < 10 <==> |s| == 1
    ensures forall i :: 0 <= i < |s| ==> '0' <= s[i] <= '9'
  {
    if n < 10 then [DigitChar(n)] else NatToString(n / 10) + [DigitChar(n % 10)]
  }

  /** `id.toString()` for an integer node id. */
  function IntToString(i: int): (s: string)
    ensures 1 <= |s|
    ensures s[0] == '-' <==> i < 0
  {
    if i < 0 then "-" + NatToString(-i) else NatToString(i)
  }

  /** Two different numbers never render to the same decimal text. */
  lemma {:induction false} NatToStringInjective(a: nat, b: nat)
    requires NatToString(a) == NatToString(b)
    ensures a == b
  {
    var sa, sb := NatToString(a), NatToString(b);
    if a < 10 {
      assert |sb| == 1;
      assert DigitChar(a) == sa[0] == sb[0] == DigitChar(b);
    } else {
      assert |sb| == |sa| >= 2;
      var pa, pb := NatToString(a / 10), NatToString(b / 10);
      assert sa == pa + [DigitChar(a % 10)];
      assert sb == pb + [DigitChar(b % 10)];
      assert |pa| == |pb|;
      assert sa[..|pa|] == pa && sb[..|pb|] == pb;
      assert sa[|pa|] == DigitChar(a % 10) && sb[|pb|] == DigitChar(b % 10);
      NatToStringInjective(a / 10, b / 10);
    }
  }

  /** Node ids are told apart by their string form. */
  lemma IntToStringInjective(a: int, b: int)
    requires IntToString(a) == IntToString(b)
    ensures a == b
  {
    if a < 0 {
      assert IntToString(a)[1..] == NatToString(-a);
      assert IntToString(b)[1..] == NatToString(-b);
      NatToStringInjective(-a, -b);
    } else {
      NatToStringInjective(a, b);
    }
  }
}
