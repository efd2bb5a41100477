/**
 * The values `json.loads` can produce, as far as the curator looks at them.
 * A decoded object keeps its key/value pairs in source order, because a Python
 * dict built from them keeps each key at its first position and gives it the
 * value of its last occurrence.
 */
module Json {
  import opened Wrappers

  datatype Json =
    | JNull
    | JBool(b: bool)
    | JInt(i: int)
      /** A float, abstracted to what `int()` makes of it: the value truncated
          toward zero, or None when `int()` raises (infinity, NaN). */
    | JFloat(trunc: Option<int>)
    | JString(s: string)
    | JArray(elems: seq<Json>)
    | JObject(fields: seq<(string, Json)>)

  /** `key in d` for the dict decoded from `fields`. */
  predicate HasKey(fields: seq<(string, Json)>, key: string)
  {
    exists i :: 0 <= i < |fields| && fields[i].0 == key
  }

  /** `d.get(key)`: the value of the last pair carrying `key`. */
  function Lookup(fields: seq<(string, Json)>, key: string): Option<Json>
  {
    if fields == [] then None
    else if fields[|fields| - 1].0 == key then Some(fields[|fields| - 1].1)
    else Lookup(fields[..|fields| - 1], key)
  }

  /** The lookup finds a value exactly when the key is present, and the value
      is the one of the last pair carrying the key. */
  lemma {:induction false} LookupFacts(fields: seq<(string, Json)>, key: string)
    ensures Lookup(fields, key).None? <==> !HasKey(fields, key)
    ensures Lookup(fields, key).Some? ==>
              exists i :: 0 <= i < |fields| && fields[i] == (key, Lookup(fields, key).value) &&
                forall j :: i < j < |fields| ==> fields[j].0 != key
  {
    if fields != [] && fields[|fields| - 1].0 != key {
      LookupFacts(fields[..|fields| - 1], key);
      assert forall i :: 0 <= i < |fields| - 1 ==> fields[..|fields| - 1][i] == fields[i];
    }
  }

  /** The keys of the decoded dict in iteration order: each key once, at its
      first position. */
  function Keys(fields: seq<(string, Json)>): seq<string>
  {
    if fields == [] then []
    else
      var front := Keys(fields[..|fields| - 1]);
      var k := fields[|fields| - 1].0;
      if k in front then front else front + [k]
  }

  /** Every key once, and nothing else. */
  lemma {:induction false} KeysFacts(fields: seq<(string, Json)>)
    ensures forall k :: k in Keys(fields) <==> HasKey(fields, k)
    ensures forall i, j :: 0 <= i < j < |Keys(fields)| ==> Keys(fields)[i] != Keys(fields)[j]
  {
    if fields != [] {
      KeysFacts(fields[..|fields| - 1]);
      assert forall i :: 0 <= i < |fields| - 1 ==> fields[..|fields| - 1][i] == fields[i];
    }
  }
}
