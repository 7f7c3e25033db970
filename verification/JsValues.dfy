/** The JavaScript values a parsed JSON payload can hold, together with the
    two tests the normaliser applies to them: truthiness (used by `||`) and
    nullishness (used by `??` and `?.`).

    Numbers are kept as opaque reals: the scripts only ever ask whether a
    number is zero (falsy) or not, and `-0` equals `0` here just as it is
    falsy in JavaScript. */
module JsValues {

  datatype JsValue =
    | Undefined
    | Null
    | Bool(b: bool)
    | Num(n: real)
    | Str(s: string)
    | Arr(elems: seq<JsValue>)
    | Obj(props: map<string, JsValue>)

  /** `undefined` and `null`: the values `??` and `?.` treat as missing. */
  predicate Nullish(v: JsValue) {
    v.Undefined? || v.Null?
  }

  /** ToBoolean: everything is truthy except `undefined`, `null`, `false`,
      the number zero and the empty string. */
  predicate Truthy(v: JsValue) {
    match v
    case Undefined => false
    case Null => false
    case Bool(b) => b
    case Num(n) => n != 0.0
    case Str(s) => |s| > 0
    case Arr(_) => true
    case Obj(_) => true
  }

  /** Property read `v.key` on a value that is not nullish. Only objects
      carry own properties named like the payload's fields; on any other
      value such a read yields `undefined`. */
  function Prop(v: JsValue, key: string): JsValue
    requires !Nullish(v)
  {
    if v.Obj? && key in v.props then v.props[key] else Undefined
  }

  /** Optional chaining `v?.key`: `undefined` when `v` is nullish, a plain
      property read otherwise. It never throws. */
  function OptProp(v: JsValue, key: string): JsValue {
    if Nullish(v) then Undefined else Prop(v, key)
  }

  /** `a || b`: the left operand when it is truthy, the right one otherwise. */
  function Or(a: JsValue, b: JsValue): JsValue {
    if Truthy(a) then a else b
  }

  /** `a ?? b`: the left operand unless it is `null` or `undefined`. */
  function Coalesce(a: JsValue, b: JsValue): JsValue {
    if Nullish(a) then b else a
  }

  /** Reference meaning of a chain `xs[0] || xs[1] || … || last`: the first
      truthy candidate, or `last` when none is truthy. */
  function FirstTruthy(xs: seq<JsValue>, last: JsValue): JsValue {
    if |xs| == 0 then last
    else if Truthy(xs[0]) then xs[0]
    else FirstTruthy(xs[1..], last)
  }

  /** Reference meaning of a chain `xs[0] ?? xs[1] ?? … ?? last`: the first
      candidate that is neither `null` nor `undefined`, or `last`. */
  function FirstPresent(xs: seq<JsValue>, last: JsValue): JsValue {
    if |xs| == 0 then last
    else if !Nullish(xs[0]) then xs[0]
    else FirstPresent(xs[1..], last)
  }

  /** The result of a `||` chain is one of its candidates, and it is an
      earlier candidate exactly when that candidate is truthy and all
      candidates before it are falsy. */
  lemma {:induction false} FirstTruthyPicksFirst(xs: seq<JsValue>, last: JsValue, i: nat)
    requires i < |xs|
    requires Truthy(xs[i])
    requires forall j :: 0 <= j < i ==> !Truthy(xs[j])
    ensures FirstTruthy(xs, last) == xs[i]
  {
    if i > 0 {
      assert !Truthy(xs[0]);
      FirstTruthyPicksFirst(xs[1..], last, i - 1);
    }
  }

  /** When no candidate is truthy, a `||` chain falls through to `last`. */
  lemma {:induction false} FirstTruthyFallsThrough(xs: seq<JsValue>, last: JsValue)
    requires forall j :: 0 <= j < |xs| ==> !Truthy(xs[j])
    ensures FirstTruthy(xs, last) == last
  {
    if |xs| > 0 {
      FirstTruthyFallsThrough(xs[1..], last);
    }
  }

  /** A `??` chain returns the first candidate that is present. */
  lemma {:induction false} FirstPresentPicksFirst(xs: seq<JsValue>, last: JsValue, i: nat)
    requires i < |xs|
    requires !Nullish(xs[i])
    requires forall j :: 0 <= j < i ==> Nullish(xs[j])
    ensures FirstPresent(xs, last) == xs[i]
  {
    if i > 0 {
      assert Nullish(xs[0]);
      FirstPresentPicksFirst(xs[1..], last, i - 1);
    }
  }

  /** When every candidate is missing, a `??` chain falls through to `last`. */
  lemma {:induction false} FirstPresentFallsThrough(xs: seq<JsValue>, last: JsValue)
    requires forall j :: 0 <= j < |xs| ==> Nullish(xs[j])
    ensures FirstPresent(xs, last) == last
  {
    if |xs| > 0 {
      FirstPresentFallsThrough(xs[1..], last);
    }
  }

  /** A `||` chain ending in a truthy default always yields a truthy value;
      a `??` chain ending in a present default always yields a present one. */
  lemma {:induction false} ChainDefaults(xs: seq<JsValue>, last: JsValue)
    ensures Truthy(last) ==> Truthy(FirstTruthy(xs, last))
    ensures !Nullish(last) ==> !Nullish(FirstPresent(xs, last))
  {
    if |xs| > 0 {
      ChainDefaults(xs[1..], last);
    }
  }

  /** A left-nested `||` chain of four candidates and a default means
      "first truthy candidate, else the default", whatever the grouping. */
  lemma OrChainMeaning(a: JsValue, b: JsValue, c: JsValue, d: JsValue, last: JsValue)
    ensures Or(Or(Or(a, b), Or(c, d)), last) == FirstTruthy([a, b, c, d], last)
    ensures Or(Or(a, b), last) == FirstTruthy([a, b], last)
  {
    assert [a, b, c, d][1..] == [b, c, d];
    assert [b, c, d][1..] == [c, d];
    assert [c, d][1..] == [d];
    assert [d][1..] == [];
    assert FirstTruthy([d], last) == Or(d, last);
    assert FirstTruthy([c, d], last) == Or(c, FirstTruthy([d], last));
    assert FirstTruthy([b, c, d], last) == Or(b, FirstTruthy([c, d], last));
    assert FirstTruthy([a, b, c, d], last) == Or(a, FirstTruthy([b, c, d], last));
    assert [a, b][1..] == [b];
    assert [b][1..] == [];
    assert FirstTruthy([b], last) == Or(b, last);
    assert FirstTruthy([a, b], last) == Or(a, FirstTruthy([b], last));
  }

  /** `a ?? b ?? last`, which JavaScript groups as `(a ?? b) ?? last`, means
      "first present candidate, else the default"; so does the other
      grouping. */
  lemma CoalesceChainMeaning(a: JsValue, b: JsValue, last: JsValue)
    ensures Coalesce(Coalesce(a, b), last) == FirstPresent([a, b], last)
    ensures Coalesce(a, Coalesce(b, last)) == FirstPresent([a, b], last)
  {
    assert [a, b][1..] == [b];
    assert [b][1..] == [];
    assert FirstPresent([b], last) == Coalesce(b, last);
    assert FirstPresent([a, b], last) == Coalesce(a, FirstPresent([b], last));
  }
}
