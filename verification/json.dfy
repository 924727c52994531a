/** The vendor's reply as the processors see it, and the handful of Python
    operations they apply to the decoded `Data` object: `key in v`, `v[key]`,
    `isinstance(v, list)` and `sep.join(values)`. Decoding itself (`json.loads`)
    is not modelled; it only decides between `Malformed` and `Parsed`. */
module Json {
  import opened Wrappers
  import opened Text

  /** A decoded JSON value. Numbers are integers here. */
  datatype Json =
    | JNull
    | JBool(b: bool)
    | JNumber(n: int)
    | JString(s: string)
    | JArray(items: seq<Json>)
    | JObject(fields: map<string, Json>)

  /** The only exception the extraction code can raise once the payload has
      been decoded: `in` on a number, boolean or None, indexing a string or a
      list by a key, or joining a value that is not a string. */
  datatype PyError = TypeError

  /** What a recogniser call produced, as far as the extraction code is
      concerned. */
  datatype Response =
    | Raised    // the SDK call raised
    | NoBody    // the response or its body is empty
    | NoData    // the body has no (or an empty) Data field
    | Malformed // Data is not valid JSON
    | Parsed(data: Json)

  /** Python truthiness of a decoded value. */
  predicate Truthy(v: Json) {
    match v
    case JNull => false
    case JBool(b) => b
    case JNumber(n) => n != 0
    case JString(s) => s != ""
    case JArray(items) => items != []
    case JObject(fields) => fields != map[]
  }

  /** `sub in s` on strings: `sub` occurs in `s`. */
  predicate Contains(s: string, sub: string) {
    exists i | 0 <= i <= |s| - |sub| :: OccursAt(s, sub, i)
  }

  predicate OccursAt(s: string, sub: string, i: nat)
    requires i + |sub| <= |s|
  {
    s[i..i + |sub|] == sub
  }

  /** Python's `key in v` for a string key. */
  function In(v: Json, key: string): (r: Result<bool, PyError>)
    ensures v.JObject? ==> r == Success(key in v.fields)
    ensures r.Failure? <==> v.JNull? || v.JBool? || v.JNumber?
  {
    match v
    case JObject(fields) => Success(key in fields)
    case JString(s) => Success(Contains(s, key))
    case JArray(items) => Success(JString(key) in items)
    case _ => Failure(TypeError)
  }

  /** `if key in v: ... v[key]`: the value stored under `key` when the test
      succeeds. Only a dict can be indexed by a string, so a string or list
      that passes the `in` test raises. */
  function Lookup(v: Json, key: string): (r: Result<Option<Json>, PyError>)
    ensures v.JObject? ==> r == Success(if key in v.fields then Some(v.fields[key]) else None)
    ensures r.Success? && r.value.Some? ==> v.JObject?
  {
    var present :- In(v, key);
    if !present then Success(None)
    else if v.JObject? then Success(Some(v.fields[key]))
    else Failure(TypeError)
  }

  /** The append loop `for e in items: if key in e: out.append(e[key])`. */
  function Collect(items: seq<Json>, key: string): (r: Result<seq<Json>, PyError>)
    ensures r.Success? ==> |r.value| <= |items|
    decreases |items|
  {
    if items == [] then Success([])
    else
      var front :- Collect(items[..|items| - 1], key);
      var entry :- Lookup(items[|items| - 1], key);
      if entry.Some? then Success(front + [entry.value]) else Success(front)
  }

  /** The loop itself, as both processors run it. */
  method CollectEntries(items: seq<Json>, key: string) returns (r: Result<seq<Json>, PyError>)
    ensures r == Collect(items, key)
  {
    var out: seq<Json> := [];
    var i := 0;
    while i < |items|
      invariant 0 <= i <= |items|
      invariant Collect(items[..i], key) == Success(out)
    {
      var prefix := items[..i + 1];
      assert prefix[..i] == items[..i] && prefix[i] == items[i];
      var entry := Lookup(items[i], key);
      if entry.Failure? {
        assert Collect(prefix, key).Failure?;
        CollectFailsOnPrefix(items, key, i + 1);
        assert Collect(items, key).Failure? && Collect(items, key).error.TypeError?;
        return Failure(TypeError);
      }
      if entry.value.Some? {
        out := out + [entry.value.value];
      }
      i := i + 1;
    }
    assert items[..i] == items;
    r := Success(out);
  }

  /** Collecting from a concatenation collects from each part, in order. */
  lemma {:induction false} CollectAppend(a: seq<Json>, b: seq<Json>, key: string)
    ensures Collect(a + b, key).Success? <==> Collect(a, key).Success? && Collect(b, key).Success?
    ensures Collect(a + b, key).Success? ==> Collect(a + b, key).value == Collect(a, key).value + Collect(b, key).value
    decreases |b|
  {
    if b == [] {
      assert a + b == a;
    } else {
      var front := b[..|b| - 1];
      assert (a + b)[..|a + b| - 1] == a + front;
      assert (a + b)[|a + b| - 1] == b[|b| - 1];
      CollectAppend(a, front, key);
    }
  }

  /** Once an entry raises, the whole collection raises. */
  lemma {:induction false} CollectFailsOnPrefix(items: seq<Json>, key: string, n: nat)
    requires n <= |items| && Collect(items[..n], key).Failure?
    ensures Collect(items, key).Failure?
  {
    assert items == items[..n] + items[n..];
    CollectAppend(items[..n], items[n..], key);
  }

  /** One entry: an object contributes its value under `key` if it has one and
      is skipped otherwise; a string or list is skipped unless it passes the
      `in` test (and then raises); any other value raises. */
  lemma CollectOne(e: Json, key: string)
    ensures e.JObject? ==> Collect([e], key) == Success(if key in e.fields then [e.fields[key]] else [])
    ensures e.JNull? || e.JBool? || e.JNumber? ==> Collect([e], key).Failure?
    ensures e.JString? ==> (Collect([e], key).Failure? <==> Contains(e.s, key)) && (!Contains(e.s, key) ==> Collect([e], key) == Success([]))
    ensures e.JArray? ==> (Collect([e], key).Failure? <==> JString(key) in e.items) && (JString(key) !in e.items ==> Collect([e], key) == Success([]))
  {
    assert [e][..0] == [] && [e][0] == e;
    assert Collect([], key) == Success([]);
    if e.JObject? && key in e.fields {
      assert Lookup(e, key) == Success(Some(e.fields[key]));
      assert [] + [e.fields[key]] == [e.fields[key]];
    }
  }

  /** The strings of `vals`, or TypeError if one of them is not a string. */
  function Strings(vals: seq<Json>): (r: Result<seq<string>, PyError>)
    ensures r.Success? <==> forall k :: 0 <= k < |vals| ==> vals[k].JString?
    ensures r.Success? ==> |r.value| == |vals| && forall k :: 0 <= k < |vals| ==> r.value[k] == vals[k].s
    decreases |vals|
  {
    if vals == [] then Success([])
    else if !vals[|vals| - 1].JString? then Failure(TypeError)
    else
      var front :- Strings(vals[..|vals| - 1]);
      Success(front + [vals[|vals| - 1].s])
  }

  /** `sep.join(vals)`: raises unless every value is a string. */
  function JoinStrings(sep: string, vals: seq<Json>): Result<string, PyError> {
    var strs :- Strings(vals);
    Success(Join(sep, strs))
  }
}
