/** The JavaScript values the auditor inspects inside entry fields, and the
    three JavaScript operations it applies to them: optional property access
    (`v?.[key]`), `for (const k in v)` enumeration, and truthiness. */
module JsValues {

  /** A decoded JSON value. `Null` stands for both `null` and `undefined`,
      which every operation here treats alike. Numbers are integers. An object
      is its property list in `for...in` enumeration order; decoded JSON has
      distinct keys. */
  datatype Value =
    | Null
    | Bool(b: bool)
    | Num(n: int)
    | Str(s: string)
    | Arr(elems: seq<Value>)
    | Obj(props: seq<Prop>)

  datatype Prop = Prop(key: string, val: Value)

  /** The value of the first property named `key`, or `Null` when there is none. */
  function Find(props: seq<Prop>, key: string): (r: Value)
    ensures r != Null ==> exists i :: 0 <= i < |props| && props[i].key == key && props[i].val == r
  {
    if |props| == 0 then Null
    else if props[0].key == key then props[0].val
    else Find(props[1..], key)
  }

  /** Find gives `Null` for a missing key and otherwise the value of the
      first property with that key. */
  lemma {:induction false} FindFirst(props: seq<Prop>, key: string)
    ensures (forall i :: 0 <= i < |props| ==> props[i].key != key) ==> Find(props, key) == Null
    ensures forall i :: 0 <= i < |props| && props[i].key == key && NoKeyBefore(props, key, i) ==>
      Find(props, key) == props[i].val
  {
    if |props| > 0 {
      FindFirst(props[1..], key);
      forall i | 1 <= i < |props| && props[i].key == key && NoKeyBefore(props, key, i)
        ensures Find(props, key) == props[i].val
      {
        assert props[0].key != key;
        assert props[1..][i - 1] == props[i];
        assert NoKeyBefore(props[1..], key, i - 1) by {
          forall j | 0 <= j < i - 1 ensures props[1..][j].key != key {
            assert props[1..][j] == props[j + 1];
          }
        }
      }
      if forall i :: 0 <= i < |props| ==> props[i].key != key {
        assert forall i :: 0 <= i < |props[1..]| ==> props[1..][i].key != key by {
          forall i | 0 <= i < |props[1..]| ensures props[1..][i].key != key {
            assert props[1..][i] == props[i + 1];
          }
        }
      }
    }
  }

  /** No property before index `i` has the key. */
  predicate NoKeyBefore(props: seq<Prop>, key: string, i: int)
  {
    forall j :: 0 <= j < i && j < |props| ==> props[j].key != key
  }

  /** `v?.[key]`: a property of an object; `undefined` for anything else or a missing key. */
  function Get(v: Value, key: string): Value
  {
    if v.Obj? then Find(v.props, key) else Null
  }

  /** The values `v[k]` visited by `for (const k in v)`: an object's property
      values, an array's elements, a string's one-character substrings, and
      nothing for `null`, `undefined`, booleans and numbers. */
  function Members(v: Value): (r: seq<Value>)
    ensures v.Arr? ==> r == v.elems
    ensures v.Obj? ==> |r| == |v.props| && forall i :: 0 <= i < |r| ==> r[i] == v.props[i].val
    ensures (v.Null? || v.Bool? || v.Num?) ==> r == []
  {
    match v
    case Obj(props) => seq(|props|, i requires 0 <= i < |props| => props[i].val)
    case Arr(elems) => elems
    case Str(s) => seq(|s|, i requires 0 <= i < |s| => Str([s[i]]))
    case _ => []
  }

  /** JavaScript truthiness. */
  predicate Truthy(v: Value)
  {
    match v
    case Null => false
    case Bool(b) => b
    case Num(n) => n != 0
    case Str(s) => s != ""
    case _ => true
  }
}
