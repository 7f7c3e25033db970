/** The route handler's rewrite of an intercepted quotes request: it sets the
    `fields` query parameter to one fixed list with `URLSearchParams.set`.

    The query is the URL's ordered list of name-value pairs. `set` follows
    section 6.2 of the WHATWG URL Standard: when pairs with the name exist,
    the first one gets the new value and the later ones are removed;
    otherwise a new pair is appended. */
module QueryRewrite {
  import opened Wrappers

  datatype Param = Param(name: string, value: string)

  type Query = seq<Param>

  const FieldsParam: string := "fields"

  const CanonicalFields: string :=
    "symbol,symbolName,percentChange,industry,percentChange5d,percentChange1m,percentChange3m,percentChange6m,marketCap,nextEarningsDate"

  predicate HasName(q: Query, n: string) {
    exists i :: 0 <= i < |q| && q[i].name == n
  }

  /** The pairs of `q` whose name is not `n`, in order. */
  function Without(q: Query, n: string): (r: Query)
    ensures forall i :: 0 <= i < |r| ==> r[i].name != n
    ensures |r| <= |q|
  {
    if |q| == 0 then []
    else (if q[0].name == n then [] else [q[0]]) + Without(q[1..], n)
  }

  /** `getAll(n)`: the values of the pairs named `n`, in order. */
  function Values(q: Query, n: string): seq<string> {
    if |q| == 0 then []
    else (if q[0].name == n then [q[0].value] else []) + Values(q[1..], n)
  }

  /** Position of the first pair named `n`. */
  function FirstIndex(q: Query, n: string): (i: nat)
    requires HasName(q, n)
    ensures i < |q| && q[i].name == n
    ensures forall j :: 0 <= j < i ==> q[j].name != n
  {
    if q[0].name == n then 0
    else
      assert HasName(q[1..], n) by {
        var k :| 0 <= k < |q| && q[k].name == n;
        assert q[1..][k - 1].name == n;
      }
      1 + FirstIndex(q[1..], n)
  }

  /** `get(n)`: the value of the first pair named `n`, if any. */
  function Get(q: Query, n: string): (r: Option<string>)
    ensures r.None? <==> !HasName(q, n)
  {
    if HasName(q, n) then Some(q[FirstIndex(q, n)].value) else None
  }

  lemma {:induction false} ValuesWithout(q: Query, n: string)
    ensures Values(Without(q, n), n) == []
    ensures Without(Without(q, n), n) == Without(q, n)
  {
    if |q| > 0 {
      ValuesWithout(q[1..], n);
      var head := if q[0].name == n then [] else [q[0]];
      ValuesConcat(head, Without(q[1..], n), n);
      WithoutConcat(head, Without(q[1..], n), n);
    }
  }

  lemma {:induction false} ValuesConcat(a: Query, b: Query, n: string)
    ensures Values(a + b, n) == Values(a, n) + Values(b, n)
  {
    if |a| == 0 {
      assert a + b == b;
    } else {
      assert (a + b)[0] == a[0];
      assert (a + b)[1..] == a[1..] + b;
      ValuesConcat(a[1..], b, n);
    }
  }

  lemma {:induction false} WithoutConcat(a: Query, b: Query, n: string)
    ensures Without(a + b, n) == Without(a, n) + Without(b, n)
  {
    if |a| == 0 {
      assert a + b == b;
    } else {
      assert (a + b)[0] == a[0];
      assert (a + b)[1..] == a[1..] + b;
      WithoutConcat(a[1..], b, n);
    }
  }

  /** The first pair named `n` takes value `v`; later pairs named `n` go. */
  function ReplaceFirst(q: Query, n: string, v: string): (r: Query)
    requires HasName(q, n)
    ensures Values(r, n) == [v]
    ensures Without(r, n) == Without(q, n)
    ensures FirstIndex(q, n) < |r|
    ensures r[..FirstIndex(q, n)] == q[..FirstIndex(q, n)]
    ensures r[FirstIndex(q, n)] == Param(n, v)
  {
    if q[0].name == n then
      ValuesWithout(q[1..], n);
      [Param(n, v)] + Without(q[1..], n)
    else
      assert HasName(q[1..], n) by {
        var k :| 0 <= k < |q| && q[k].name == n;
        assert q[1..][k - 1].name == n;
      }
      var rest := ReplaceFirst(q[1..], n, v);
      assert ([q[0]] + rest)[1..] == rest;
      [q[0]] + rest
  }

  /** `URLSearchParams.set(n, v)`. */
  function SetParam(q: Query, n: string, v: string): (r: Query)
    ensures Values(r, n) == [v]
    ensures Without(r, n) == Without(q, n)
    ensures HasName(q, n) ==> FirstIndex(q, n) < |r| && r[..FirstIndex(q, n)] == q[..FirstIndex(q, n)]
    ensures HasName(q, n) ==> r[FirstIndex(q, n)] == Param(n, v)
    ensures !HasName(q, n) ==> r == q + [Param(n, v)]
  {
    if HasName(q, n) then ReplaceFirst(q, n, v)
    else
      NoNameValues(q, n);
      ValuesConcat(q, [Param(n, v)], n);
      WithoutConcat(q, [Param(n, v)], n);
      assert [Param(n, v)][1..] == [];
      q + [Param(n, v)]
  }

  lemma {:induction false} NoNameValues(q: Query, n: string)
    requires !HasName(q, n)
    ensures Values(q, n) == []
    ensures Without(q, n) == q
  {
    if |q| > 0 {
      NoNameValues(q[1..], n);
      assert q == [q[0]] + q[1..];
    }
  }

  /** The rewrite applied to every intercepted quotes request. */
  function RewriteFields(q: Query): (r: Query)
    ensures Values(r, FieldsParam) == [CanonicalFields]
    ensures Get(r, FieldsParam) == Some(CanonicalFields)
    ensures Without(r, FieldsParam) == Without(q, FieldsParam)
  {
    var r := SetParam(q, FieldsParam, CanonicalFields);
    GetAfterSet(q, FieldsParam, CanonicalFields);
    r
  }

  /** After `set(n, v)`, `get(n)` answers `v`. */
  lemma GetAfterSet(q: Query, n: string, v: string)
    ensures Get(SetParam(q, n, v), n) == Some(v)
  {
    var r := SetParam(q, n, v);
    var i := if HasName(q, n) then FirstIndex(q, n) else |q|;
    assert r[i] == Param(n, v);
    assert forall j :: 0 <= j < i ==> r[j].name != n by {
      forall j | 0 <= j < i ensures r[j].name != n {
        if HasName(q, n) {
          assert r[j] == r[..i][j] == q[..i][j] == q[j];
        } else {
          assert r[j] == q[j];
        }
      }
    }
    assert HasName(r, n);
    FirstIndexUnique(r, n, i);
  }

  lemma FirstIndexUnique(q: Query, n: string, i: nat)
    requires i < |q| && q[i].name == n
    requires forall j :: 0 <= j < i ==> q[j].name != n
    ensures HasName(q, n) && FirstIndex(q, n) == i
  {
  }

  /** Setting the same pair twice is the same as setting it once. */
  lemma {:induction false} SetParamIdempotent(q: Query, n: string, v: string)
    ensures SetParam(SetParam(q, n, v), n, v) == SetParam(q, n, v)
  {
    if HasName(q, n) {
      ReplaceFirstIdempotent(q, n, v);
    } else {
      ReplaceAppended(q, n, v);
    }
  }

  lemma {:induction false} ReplaceFirstIdempotent(q: Query, n: string, v: string)
    requires HasName(q, n)
    ensures HasName(ReplaceFirst(q, n, v), n)
    ensures ReplaceFirst(ReplaceFirst(q, n, v), n, v) == ReplaceFirst(q, n, v)
  {
    var r := ReplaceFirst(q, n, v);
    assert r[FirstIndex(q, n)].name == n;
    if q[0].name == n {
      ValuesWithout(q[1..], n);
      assert r[1..] == Without(q[1..], n);
    } else {
      assert HasName(q[1..], n) by {
        var k :| 0 <= k < |q| && q[k].name == n;
        assert q[1..][k - 1].name == n;
      }
      ReplaceFirstIdempotent(q[1..], n, v);
      assert r[0] == q[0];
      assert r[1..] == ReplaceFirst(q[1..], n, v);
    }
  }

  /** Replacing in a query whose only pair named `n` is the appended last one
      changes nothing. */
  lemma {:induction false} ReplaceAppended(q: Query, n: string, v: string)
    requires !HasName(q, n)
    ensures HasName(q + [Param(n, v)], n)
    ensures ReplaceFirst(q + [Param(n, v)], n, v) == q + [Param(n, v)]
  {
    var r := q + [Param(n, v)];
    assert r[|q|].name == n;
    if |q| == 0 {
      assert r == [Param(n, v)];
      assert r[1..] == [];
    } else {
      ReplaceAppended(q[1..], n, v);
      assert r[1..] == q[1..] + [Param(n, v)];
    }
  }
}
