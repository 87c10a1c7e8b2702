/**
 * JavaScript values as the frontend handles them: component state, parsed
 * JSON responses and `localStorage` contents. Only the operators the
 * frontend applies are modelled: truthiness, `??`, `||`, property reads,
 * `===`, `String(v)` and the JSON stringify/parse round trip.
 */
module JsValue {
  import opened Text

  /**
   * A JavaScript value. Numbers are modelled as integers (no fractions, NaN
   * or infinities); arrays and objects carry their elements and own
   * enumerable properties.
   */
  datatype Js =
    | Undefined
    | Null
    | Bool(b: bool)
    | Num(n: int)
    | Str(s: string)
    | Arr(items: seq<Js>)
    | Obj(fields: map<string, Js>)

  /** `v == null`: the values `??` and `?.` skip. */
  predicate Nullish(v: Js) {
    v.Undefined? || v.Null?
  }

  /** `!!v` */
  predicate Truthy(v: Js) {
    match v
    case Undefined => false
    case Null => false
    case Bool(b) => b
    case Num(n) => n != 0
    case Str(s) => s != ""
    case Arr(_) => true
    case Obj(_) => true
  }

  /** `a ?? b`: the first operand unless it is null or undefined. */
  function Coalesce(a: Js, b: Js): (r: Js)
    ensures r == a || r == b
    ensures !Nullish(a) ==> r == a
    ensures Nullish(r) <==> Nullish(a) && Nullish(b)
  {
    if Nullish(a) then b else a
  }

  /** `a || b`: the first operand unless it is falsy. */
  function Either(a: Js, b: Js): (r: Js)
    ensures r == a || r == b
    ensures Truthy(a) ==> r == a
    ensures Truthy(r) <==> Truthy(a) || Truthy(b)
  {
    if Truthy(a) then a else b
  }

  /**
   * `v.k` on a value that is neither null nor undefined (reading a property
   * of those throws). Own properties of objects, the elements and `length`
   * of arrays, and the `length` of strings in UTF-16 code units are
   * modelled; inherited prototype members are not.
   */
  function Prop(v: Js, k: string): (r: Js)
    requires !Nullish(v)
    ensures v.Obj? ==> r == Field(v.fields, k)
    ensures v.Arr? && k == "length" ==> r == Num(|v.items|)
    ensures v.Arr? && IsIndexKey(k) ==> r == (if DigitsValue(k) < |v.items| then v.items[DigitsValue(k)] else Undefined)
    ensures v.Str? && k == "length" ==> r == Num(Utf16Length(v.s))
    ensures v.Bool? || v.Num? ==> r == Undefined
  {
    match v
    case Obj(m) => if k in m then m[k] else Undefined
    case Str(s) => if k == "length" then Num(Utf16Length(s)) else Undefined
    case Arr(xs) =>
      if k == "length" then Num(|xs|)
      else if IsIndexKey(k) && DigitsValue(k) < |xs| then xs[DigitsValue(k)]
      else Undefined
    case _ => Undefined
  }

  /** A key that names an array element: a natural number in canonical decimal form. */
  predicate IsIndexKey(k: string) {
    |k| >= 1 && AllDigits(k) && (k[0] == '0' ==> |k| == 1)
  }

  /** Reading the decimal key of an index in range gives that element. */
  lemma ArrayIndexRead(xs: seq<Js>, i: nat)
    requires i < |xs|
    ensures Prop(Arr(xs), NatToString(i)) == xs[i]
  {
    var k := NatToString(i);
    NatToStringRoundTrip(i);
    assert k[0] == '0' ==> |k| == 1 by {
      if k[0] == '0' {
        assert i == 0;
      }
    }
    assert k != "length" by {
      assert IsDigit(k[0]);
    }
  }

  /** The length of a string in UTF-16 code units: characters beyond U+FFFF take two. */
  function Utf16Length(s: string): (n: nat)
    ensures |s| <= n <= 2 * |s|
  {
    if |s| == 0 then 0 else (if s[0] as int >= 0x1_0000 then 2 else 1) + Utf16Length(s[1..])
  }

  /** Text in the Basic Multilingual Plane has one code unit per character. */
  lemma {:induction false} BmpLength(s: string)
    requires forall i :: 0 <= i < |s| ==> s[i] as int < 0x1_0000
    ensures Utf16Length(s) == |s|
  {
    if |s| > 0 {
      BmpLength(s[1..]);
    }
  }

  /** A character beyond U+FFFF counts twice. */
  lemma {:induction false} AstralLength(s: string)
    requires forall i :: 0 <= i < |s| ==> s[i] as int >= 0x1_0000
    ensures Utf16Length(s) == 2 * |s|
  {
    if |s| > 0 {
      AstralLength(s[1..]);
    }
  }

  /** `v?.k` */
  function OptProp(v: Js, k: string): (r: Js)
    ensures Nullish(v) ==> r == Undefined
    ensures v.Obj? ==> r == Field(v.fields, k)
    ensures v.Bool? || v.Num? ==> r == Undefined
  {
    if Nullish(v) then Undefined else Prop(v, k)
  }

  /** An own field of an object, `undefined` when absent. */
  function Field(m: map<string, Js>, k: string): Js {
    if k in m then m[k] else Undefined
  }

  /**
   * `a === b`. Two arrays or objects are equal only when they are the same
   * reference; the values handled here come from distinct `JSON.parse`
   * results, so they are never the same reference.
   */
  function StrictEquals(a: Js, b: Js): (e: bool)
    ensures e ==> a == b
    ensures a == b && (Nullish(a) || a.Bool? || a.Num? || a.Str?) ==> e
    ensures a.Arr? || a.Obj? ==> !e
  {
    a == b && !a.Arr? && !a.Obj?
  }

  /** The pieces joined with commas, as `Array.prototype.join()` does. */
  function CommaJoin(parts: seq<string>): string {
    if |parts| == 0 then "" else if |parts| == 1 then parts[0] else parts[0] + "," + CommaJoin(parts[1..])
  }

  /** `String(v)` */
  function ToJsString(v: Js): (r: string)
    ensures v.Str? ==> r == v.s
    ensures v.Num? ==> IsIntText(r) && IntValue(r) == v.n
    ensures v.Obj? ==> r == "[object Object]"
    ensures v.Arr? && |v.items| == 0 ==> r == ""
    ensures v.Arr? && |v.items| == 1 && v.items[0].Str? ==> r == v.items[0].s
  {
    match v
    case Undefined => "undefined"
    case Null => "null"
    case Bool(b) => if b then "true" else "false"
    case Num(n) =>
      IntToStringRoundTrip(n);
      IntToString(n)
    case Str(s) => s
    case Arr(xs) => CommaJoin(seq(|xs|, i requires 0 <= i < |xs| => if Nullish(xs[i]) then "" else ToJsString(xs[i])))
    case Obj(_) => "[object Object]"
  }

  /** A value `JSON.parse` can produce: no `undefined` anywhere inside. */
  predicate IsJson(v: Js) {
    match v
    case Undefined => false
    case Arr(xs) => forall i :: 0 <= i < |xs| ==> IsJson(xs[i])
    case Obj(m) => forall k :: k in m ==> IsJson(m[k])
    case _ => true
  }

  /**
   * `JSON.parse(JSON.stringify(v))` for a value nested in an object:
   * `undefined` properties are dropped and `undefined` array elements become
   * `null`. Truthiness and the kind of value survive the round trip.
   */
  function Jsonify(v: Js): (r: Js)
    ensures Truthy(r) == Truthy(v)
    ensures Nullish(r) == Nullish(v)
    ensures v.Obj? ==> r.Obj? && r.fields.Keys == set k | k in v.fields && !v.fields[k].Undefined?
    ensures v.Arr? ==> r.Arr? && |r.items| == |v.items|
  {
    match v
    case Arr(xs) => Arr(seq(|xs|, i requires 0 <= i < |xs| => if xs[i].Undefined? then Null else Jsonify(xs[i])))
    case Obj(m) => Obj(map k | k in m && !m[k].Undefined? :: Jsonify(m[k]))
    case _ => v
  }

  /** A JSON value survives the stringify/parse round trip unchanged. */
  lemma {:induction false} JsonifyKeepsJson(v: Js)
    requires IsJson(v)
    ensures Jsonify(v) == v
    decreases v
  {
    match v
    case Arr(xs) =>
      forall i | 0 <= i < |xs| ensures Jsonify(xs[i]) == xs[i] {
        JsonifyKeepsJson(xs[i]);
      }
      assert Jsonify(v).items == xs;
    case Obj(m) =>
      forall k | k in m ensures Jsonify(m[k]) == m[k] {
        JsonifyKeepsJson(m[k]);
      }
      assert Jsonify(v).fields == m;
    case _ =>
  }

  /** The round trip of anything but `undefined` is a JSON value. */
  lemma {:induction false} JsonifyIsJson(v: Js)
    requires !v.Undefined?
    ensures IsJson(Jsonify(v))
    decreases v
  {
    match v
    case Arr(xs) =>
      forall i | 0 <= i < |xs| ensures !xs[i].Undefined? ==> IsJson(Jsonify(xs[i])) {
        if !xs[i].Undefined? { JsonifyIsJson(xs[i]); }
      }
    case Obj(m) =>
      forall k | k in m && !m[k].Undefined? ensures IsJson(Jsonify(m[k])) {
        JsonifyIsJson(m[k]);
      }
    case _ =>
  }

  /** A second round trip changes nothing. */
  lemma JsonifyIdempotent(v: Js)
    requires !v.Undefined?
    ensures Jsonify(Jsonify(v)) == Jsonify(v)
  {
    JsonifyIsJson(v);
    JsonifyKeepsJson(Jsonify(v));
  }
}
