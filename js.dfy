/**
 * The JavaScript values the obfuscation script handles: what `JSON.parse`
 * produces, property lookup, assignment and `delete` on a plain object, and
 * the `String(value)` coercion.
 */
module Js {
  import opened Results

  /** 2^53 - 1: the largest integer a JavaScript number holds exactly. */
  const MaxSafeInteger: int := 0x1F_FFFF_FFFF_FFFF

  type SafeInt = n: int | -MaxSafeInteger <= n <= MaxSafeInteger

  /** A value as `JSON.parse` returns it (numbers only as safe integers). */
  datatype Value =
    | Null
    | Bool(b: bool)
    | Int(n: SafeInt)
    | Str(s: string)
    | Arr(items: seq<Value>)
    | Obj(props: Props)

  /** A plain object's own properties, in enumeration order. */
  type Props = seq<(string, Value)>

  /** The error `String(value)` throws: "Cannot convert object to primitive value". */
  datatype Fault = CannotConvertToPrimitive

  /** The names of the own properties, in enumeration order. */
  function Keys(p: Props): (ks: seq<string>)
    ensures |ks| == |p|
  {
    if p == [] then [] else [p[0].0] + Keys(p[1..])
  }

  ghost predicate Distinct(ks: seq<string>) {
    ks == [] || (ks[0] !in ks[1..] && Distinct(ks[1..]))
  }

  /** A JavaScript object never has two own properties with the same name. */
  ghost predicate UniqueKeys(p: Props) {
    Distinct(Keys(p))
  }

  /** `ks` without any occurrence of `k`, order kept (see `WithoutConcat`). */
  function Without(ks: seq<string>, k: string): (r: seq<string>)
    ensures k !in r
    ensures forall x :: x in r <==> x in ks && x != k
  {
    if ks == [] then []
    else if ks[0] == k then Without(ks[1..], k)
    else [ks[0]] + Without(ks[1..], k)
  }

  /** Filtering distributes over concatenation, so the names left keep their relative order. */
  lemma {:induction false} WithoutConcat(a: seq<string>, b: seq<string>, k: string)
    ensures Without(a + b, k) == Without(a, k) + Without(b, k)
  {
    if a == [] {
      assert a + b == b;
    } else {
      assert (a + b)[0] == a[0] && (a + b)[1..] == a[1..] + b;
      WithoutConcat(a[1..], b, k);
      if a[0] != k {
        assert [a[0]] + Without(a[1..], k) + Without(b, k) == [a[0]] + (Without(a[1..], k) + Without(b, k));
      }
    }
  }

  /** Property read `o.k`: the own property named `k`, `None` for `undefined`. */
  function Get(p: Props, k: string): (r: Option<Value>)
    ensures r.Some? <==> k in Keys(p)
  {
    if p == [] then None
    else if p[0].0 == k then assert k == Keys(p)[0]; Some(p[0].1)
    else Get(p[1..], k)
  }

  /** A read returns the value stored under that name. */
  lemma {:induction false} GetFound(p: Props, k: string)
    ensures Get(p, k).Some? ==> (k, Get(p, k).value) in p
  {
    if p != [] && p[0].0 != k {
      GetFound(p[1..], k);
    }
  }

  /**
   * Assignment `o.k = v`: an existing property keeps its place and takes the
   * new value; a new property goes after all the others.
   */
  function Set(p: Props, k: string, v: Value): Props {
    if p == [] then [(k, v)]
    else if p[0].0 == k then [(k, v)] + p[1..]
    else [p[0]] + Set(p[1..], k, v)
  }

  /** `delete o.k`: the property goes, every other one keeps its value and place. */
  function Remove(p: Props, k: string): Props {
    if p == [] then []
    else if p[0].0 == k then Remove(p[1..], k)
    else [p[0]] + Remove(p[1..], k)
  }

  /** After `o.k = v`, `o.k` reads `v` and every other property reads as before. */
  lemma {:induction false} SetGet(p: Props, k: string, v: Value)
    ensures Get(Set(p, k, v), k) == Some(v)
    ensures forall k' | k' != k :: Get(Set(p, k, v), k') == Get(p, k')
  {
    if p != [] && p[0].0 != k {
      SetGet(p[1..], k, v);
    }
  }

  /** Assignment keeps the order of the property names and appends a new one. */
  lemma {:induction false} SetKeys(p: Props, k: string, v: Value)
    ensures Keys(Set(p, k, v)) == if k in Keys(p) then Keys(p) else Keys(p) + [k]
  {
    if p != [] {
      assert Keys(p) == [p[0].0] + Keys(p[1..]);
      if p[0].0 != k {
        SetKeys(p[1..], k, v);
        assert Keys(Set(p, k, v)) == [p[0].0] + Keys(Set(p[1..], k, v));
      }
    }
  }

  /** After `delete o.k`, `o.k` is undefined and every other property reads as before. */
  lemma {:induction false} RemoveGet(p: Props, k: string)
    ensures Get(Remove(p, k), k) == None
    ensures forall k' | k' != k :: Get(Remove(p, k), k') == Get(p, k')
  {
    if p != [] {
      RemoveGet(p[1..], k);
    }
  }

  /** Deletion takes the name out of the property order and keeps the rest in place. */
  lemma {:induction false} RemoveKeys(p: Props, k: string)
    ensures Keys(Remove(p, k)) == Without(Keys(p), k)
  {
    if p != [] {
      assert Keys(p) == [p[0].0] + Keys(p[1..]);
      RemoveKeys(p[1..], k);
      if p[0].0 != k {
        assert Keys(Remove(p, k)) == [p[0].0] + Keys(Remove(p[1..], k));
      }
    }
  }

  /** Assignment keeps an object's property names distinct. */
  lemma {:induction false} SetUniqueKeys(p: Props, k: string, v: Value)
    requires UniqueKeys(p)
    ensures UniqueKeys(Set(p, k, v))
  {
    SetKeys(p, k, v);
    if p != [] && p[0].0 != k {
      SetUniqueKeys(p[1..], k, v);
      SetKeys(p[1..], k, v);
      assert Keys(Set(p, k, v)) == [p[0].0] + Keys(Set(p[1..], k, v));
    }
  }

  /** Deletion keeps an object's property names distinct. */
  lemma {:induction false} RemoveUniqueKeys(p: Props, k: string)
    requires UniqueKeys(p)
    ensures UniqueKeys(Remove(p, k))
  {
    if p != [] {
      RemoveUniqueKeys(p[1..], k);
      RemoveKeys(p[1..], k);
      if p[0].0 != k {
        assert Keys(Remove(p, k)) == [p[0].0] + Keys(Remove(p[1..], k));
      }
    }
  }

  /** The number a string of decimal digits denotes, read most significant digit first. */
  function DigitsValue(s: string): int {
    if s == [] then 0
    else DigitsValue(s[..|s| - 1]) * 10 + (s[|s| - 1] as int - '0' as int)
  }

  /**
   * `Number.prototype.toString()` of a non-negative integer: plain decimal
   * digits, the form JavaScript uses for every integer below 10^21 and so
   * for every safe integer.
   */
  function Decimal(n: nat): (r: string)
    ensures |r| >= 1 && (|r| > 1 ==> r[0] != '0')
    ensures forall i | 0 <= i < |r| :: '0' <= r[i] <= '9'
    ensures DigitsValue(r) == n
  {
    var d := ('0' as int + n % 10) as char;
    if n < 10 then [d] else Decimal(n / 10) + [d]
  }

  /**
   * `String(v)` throws exactly when `v` is an object with an own `toString`
   * property (a JSON value is never callable), or an array holding such a
   * value at any depth.
   */
  ghost predicate Unconvertible(v: Value) {
    match v
    case Obj(props) => "toString" in Keys(props)
    case Arr(items) => exists i | 0 <= i < |items| :: Unconvertible(items[i])
    case _ => false
  }

  /**
   * `String(v)`: "null", "true"/"false", the decimal form of a number, the
   * string itself, `Array.prototype.join(",")` for an array (null elements
   * give ""), "[object Object]" for an object.
   */
  function ToText(v: Value): (r: Result<string, Fault>)
    ensures r.Err? <==> Unconvertible(v)
    ensures v.Str? ==> r == Ok(v.s)
    decreases v, 1
  {
    match v
    case Null => Ok("null")
    case Bool(b) => Ok(if b then "true" else "false")
    case Int(n) => Ok(if n < 0 then "-" + Decimal(-n) else Decimal(n))
    case Str(s) => Ok(s)
    case Arr(items) => JoinFrom(v, 0)
    case Obj(props) => if "toString" in Keys(props) then Err(CannotConvertToPrimitive) else Ok("[object Object]")
  }

  /** The join of `v.items[i..]` with "," between elements. */
  function JoinFrom(v: Value, i: nat): (r: Result<string, Fault>)
    requires v.Arr? && i <= |v.items|
    ensures r.Err? <==> exists j | i <= j < |v.items| :: Unconvertible(v.items[j])
    decreases v, 0, |v.items| - i
  {
    if i == |v.items| then Ok("")
    else
      var head := if v.items[i].Null? then Ok("") else ToText(v.items[i]);
      match head
      case Err(e) => Err(e)
      case Ok(h) =>
        if i + 1 == |v.items| then Ok(h)
        else
          match JoinFrom(v, i + 1)
          case Err(e) => Err(e)
          case Ok(t) => Ok(h + "," + t)
  }

  /**
   * A JavaScript object on the heap, holding its own properties in
   * enumeration order. Values inside it are immutable here: the script never
   * writes to a nested object, so sharing them between a copy and its
   * original is not observable.
   */
  class JsObject {
    var props: Props

    /** `{ ...q }`: a fresh object with `q`'s own properties in `q`'s order. */
    constructor Spread(q: JsObject)
      ensures props == q.props
    {
      props := q.props;
    }

    /** Property read `this.k`. */
    function Lookup(k: string): (r: Option<Value>)
      reads this
      ensures r.Some? <==> k in Keys(props)
      ensures r.Some? ==> (k, r.value) in props
    {
      GetFound(props, k);
      Get(props, k)
    }

    /** `this.k = v`. */
    method Assign(k: string, v: Value)
      modifies this
      ensures props == Set(old(props), k, v)
    {
      props := Set(props, k, v);
    }

    /** `delete this.k`. */
    method Delete(k: string)
      modifies this
      ensures props == Remove(old(props), k)
    {
      props := Remove(props, k);
    }
  }
}
