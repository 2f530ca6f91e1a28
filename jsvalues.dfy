/** The slice of JavaScript's value model that the collection helpers touch:
    `undefined`, `null`, booleans, (integral) numbers, strings and arrays,
    together with the truthiness test and `Array.prototype.flat()`. */
module JsValues {

  /** A property or argument that may be absent (`undefined`/`null`). */
  datatype Option<+T> = None | Some(value: T) {
    /** `x ?? d` */
    function GetOr(d: T): T {
      match this
      case Some(v) => v
      case None => d
    }

    /** `x ?? y` for two optional values. */
    function OrElse(other: Option<T>): Option<T> {
      if this.Some? then this else other
    }
  }

  /** A value, or the message of the exception that was thrown instead. */
  datatype Result<+T> = Ok(value: T) | Err(message: string)

  datatype JsValue =
    | Undefined
    | Null
    | Bool(b: bool)
    | Num(n: int)
    | Str(s: string)
    | Arr(items: seq<JsValue>)

  /** `!v`: the falsy values of the model. Every array is truthy, even `[]`. */
  predicate Falsy(v: JsValue) {
    v.Undefined? || v.Null? || v == Bool(false) || v == Num(0) || v == Str("")
  }

  /** The elements `xs.flat()` contributes for one element `x`. */
  function Spread(x: JsValue): seq<JsValue> {
    if x.Arr? then x.items else [x]
  }

  /** `xs.flat()`: one level of nested arrays is spliced into the result. */
  function Flat(xs: seq<JsValue>): (r: seq<JsValue>)
    ensures (forall k :: 0 <= k < |xs| ==> !xs[k].Arr?) ==> r == xs
  {
    if xs == [] then [] else Spread(xs[0]) + Flat(xs[1..])
  }

  /** `xs.filter(Boolean)`: the truthy elements, in order. */
  function Compact(xs: seq<JsValue>): (r: seq<JsValue>)
    ensures forall k :: 0 <= k < |r| ==> !Falsy(r[k]) && r[k] in xs
    ensures forall x :: x in xs && !Falsy(x) ==> x in r
  {
    if xs == [] then []
    else if Falsy(xs[0]) then Compact(xs[1..])
    else [xs[0]] + Compact(xs[1..])
  }

  /** No element of `xs` is an array. */
  predicate NoArrays(xs: seq<JsValue>) {
    forall k :: 0 <= k < |xs| ==> !xs[k].Arr?
  }

  /** Arrays in `xs` nest at most one level deep, so one `flat()` removes all of them. */
  predicate Shallow(xs: seq<JsValue>) {
    forall k :: 0 <= k < |xs| ==> xs[k].Arr? ==> NoArrays(xs[k].items)
  }

  /** Flattening distributes over concatenation. */
  lemma {:induction false} FlatAppend(xs: seq<JsValue>, ys: seq<JsValue>)
    ensures Flat(xs + ys) == Flat(xs) + Flat(ys)
  {
    if xs == [] {
      assert xs + ys == ys;
    } else {
      assert (xs + ys)[1..] == xs[1..] + ys;
      FlatAppend(xs[1..], ys);
    }
  }

  /** `filter(Boolean)` of one element keeps it exactly when it is truthy. */
  lemma CompactSingleton(x: JsValue)
    ensures Compact([x]) == if Falsy(x) then [] else [x]
  {
    assert [x][1..] == [];
  }

  /** `filter(Boolean)` works element by element: it distributes over
      concatenation, so with `CompactSingleton` it keeps the truthy elements
      in their order and with their repetitions. */
  lemma {:induction false} CompactAppend(xs: seq<JsValue>, ys: seq<JsValue>)
    ensures Compact(xs + ys) == Compact(xs) + Compact(ys)
  {
    if xs == [] {
      assert xs + ys == ys;
    } else {
      assert (xs + ys)[1..] == xs[1..] + ys;
      CompactAppend(xs[1..], ys);
    }
  }

  /** After one `flat()` of a shallow array no element is an array. */
  lemma {:induction false} FlatOfShallow(xs: seq<JsValue>)
    requires Shallow(xs)
    ensures NoArrays(Flat(xs))
  {
    if xs != [] {
      FlatOfShallow(xs[1..]);
      assert Flat(xs) == Spread(xs[0]) + Flat(xs[1..]);
    }
  }
}
