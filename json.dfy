/** The JSON values the endpoints return, and the one dict operation the
    servers perform on a parsed object: item assignment `obj[key] = value`,
    which replaces the value of an existing key in place and otherwise
    appends the key at the end (Python dicts keep insertion order). */
module Json {
  import opened Wrappers

  datatype Json =
    | JNull
    | JBool(b: bool)
    | JInt(i: int)
    | JFloat(f: real)
    | JString(s: string)
    | JArray(items: seq<Json>)
    | JObject(members: seq<Member>)

  datatype Member = Member(key: string, value: Json)

  /** The keys of an object, in order. */
  function Keys(ms: seq<Member>): (ks: seq<string>)
    ensures |ks| == |ms|
  {
    if ms == [] then [] else [ms[0].key] + Keys(ms[1..])
  }

  /** The `i`-th key is the key of the `i`-th member. */
  lemma {:induction false} KeysAt(ms: seq<Member>, i: nat)
    requires i < |ms|
    ensures Keys(ms)[i] == ms[i].key
  {
    if i > 0 { KeysAt(ms[1..], i - 1); }
  }

  /** No key occurs twice, as in every Python dict. */
  predicate DistinctKeys(ms: seq<Member>) {
    forall i, j :: 0 <= i < j < |ms| ==> ms[i].key != ms[j].key
  }

  /** The value stored under `key`: the first member with that key. The
      program never reads a dict this way; it is how item assignment is
      specified. */
  function Lookup(ms: seq<Member>, key: string): (r: Option<Json>)
    ensures r.Some? <==> key in Keys(ms)
  {
    if ms == [] then None
    else if ms[0].key == key then Some(ms[0].value)
    else
      Lookup(ms[1..], key)
  }

  /** `value.get(key)` on a JSON value: the member's value when `value` is
      an object holding `key`, and nothing otherwise. */
  function Field(value: Json, key: string): (r: Option<Json>)
    ensures r.Some? <==> value.JObject? && key in Keys(value.members)
  {
    if value.JObject? then Lookup(value.members, key) else None
  }

  /** Python's `obj[key] = value` on a dict: the key gets the new value, the
      order of the keys is kept (a new key goes last) and every other key
      keeps its value. */
  function Put(ms: seq<Member>, key: string, value: Json): (r: seq<Member>)
    ensures Keys(r) == if key in Keys(ms) then Keys(ms) else Keys(ms) + [key]
    ensures Lookup(r, key) == Some(value)
    ensures forall k :: k != key ==> Lookup(r, k) == Lookup(ms, k)
  {
    if ms == [] then [Member(key, value)]
    else if ms[0].key == key then
      var r := [Member(key, value)] + ms[1..];
      assert r[1..] == ms[1..];
      r
    else
      var rest := Put(ms[1..], key, value);
      var r := [ms[0]] + rest;
      assert r[1..] == rest;
      r
  }

  /** Assignment keeps the keys of a dict distinct. */
  lemma PutDistinct(ms: seq<Member>, key: string, value: Json)
    requires DistinctKeys(ms)
    ensures DistinctKeys(Put(ms, key, value))
  {
    var r := Put(ms, key, value);
    forall i, j | 0 <= i < j < |r| ensures r[i].key != r[j].key {
      var ks, rs := Keys(ms), Keys(r);
      KeysAt(r, i);
      KeysAt(r, j);
      if i < |ms| { KeysAt(ms, i); }
      if j < |ms| { KeysAt(ms, j); }
      if key !in ks && j == |ms| {
        assert rs[i] == ks[i];
      } else {
        assert rs[i] == ks[i] && rs[j] == ks[j];
      }
    }
  }
}
