/** Key/value slot maps: the `attrs` and `meta` objects that every graph
    Node and Edge owns (graphite.js `has`, `objAttr`, `objRemoveAttr`).
    A JS object used as a dictionary is a `map<string, V>`; reading a key
    that is not present yields `undefined`, which is `None` here. */
module Slots {

  datatype Option<+T> = None | Some(value: T)

  /** `has(obj, key) ? obj[key] : undefined`. */
  function Lookup<V>(m: map<string, V>, key: string): (r: Option<V>)
    ensures r.Some? <==> key in m
    ensures r.Some? ==> r.value == m[key]
  {
    if key in m then Some(m[key]) else None
  }

  /** The update half of `objAttr(obj, key, value)`: the slot is overwritten
      only when a value is supplied (`typeof value !== 'undefined'`). */
  function Write<V>(m: map<string, V>, key: string, value: Option<V>): (r: map<string, V>)
    ensures value.Some? ==> Lookup(r, key) == value
    ensures value.None? ==> r == m
    ensures forall k :: k != key ==> Lookup(r, k) == Lookup(m, k)
    ensures r.Keys == if value.Some? then m.Keys + {key} else m.Keys
  {
    if value.Some? then m[key := value.value] else m
  }

  /** `objAttr(obj, key, value)`: the new slot map and the value it returns,
      which is the slot's value after the optional write. */
  function Attr<V>(m: map<string, V>, key: string, value: Option<V>): (r: (map<string, V>, Option<V>))
    ensures value.Some? ==> r.1 == value
    ensures value.None? ==> r.0 == m && r.1 == Lookup(m, key)
    ensures r.1 == Lookup(r.0, key)
  {
    var m' := Write(m, key, value);
    (m', Lookup(m', key))
  }

  /** `objRemoveAttr(obj, key)`: `delete obj[key]`, a no-op when absent. */
  function Remove<V>(m: map<string, V>, key: string): (r: map<string, V>)
    ensures Lookup(r, key) == None
    ensures forall k :: k != key ==> Lookup(r, k) == Lookup(m, k)
    ensures key !in m ==> r == m
  {
    m - {key}
  }

  /** Last write wins: an `attr(k, v)` is seen by every later `attr(k)`
      until the slot is written again or removed, whatever other keys
      are written in between. */
  lemma {:induction false} LastWriteWins<V>(m: map<string, V>, key: string, v: V, others: seq<(string, Option<V>)>)
    requires forall i :: 0 <= i < |others| ==> others[i].0 != key
    ensures Lookup(WriteAll(Write(m, key, Some(v)), others), key) == Some(v)
    decreases |others|
  {
    if others != [] {
      var last := others[|others| - 1];
      LastWriteWins(m, key, v, others[..|others| - 1]);
      assert WriteAll(Write(m, key, Some(v)), others)
          == Write(WriteAll(Write(m, key, Some(v)), others[..|others| - 1]), last.0, last.1);
    }
  }

  /** A sequence of `attr(k, v)` calls applied in order. */
  function WriteAll<V>(m: map<string, V>, writes: seq<(string, Option<V>)>): map<string, V>
    decreases |writes|
  {
    if writes == [] then m
    else
      var last := writes[|writes| - 1];
      Write(WriteAll(m, writes[..|writes| - 1]), last.0, last.1)
  }
}
