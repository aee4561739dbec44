/**
  The in-memory download history of client.js: a dictionary from a key
  (a magnet link or an info hash) to a tag ("magnet" or "infoHash").
  It is the deduplication store; nothing ever removes a key from it.
*/
module History {

  type Store = map<string, string>

  /** `contains(key)` answers `Boolean(store[key])`: the key is present and its
      tag is truthy, that is, not the empty string. */
  predicate Contains(h: Store, key: string)
  {
    key in h && h[key] != ""
  }

  /** `set(key, tag)` overwrites the tag stored under `key`. */
  function Set(h: Store, key: string, tag: string): Store
  {
    h[key := tag]
  }

  /** After `set(k, v)` with a non-empty `v`, `contains(k)` holds and no other
      key's membership has changed. */
  lemma SetThenContains(h: Store, key: string, tag: string)
    requires tag != ""
    ensures Contains(Set(h, key, tag), key)
    ensures forall k :: k != key ==> (Contains(Set(h, key, tag), k) <==> Contains(h, k))
  {
  }

  /** Repeating `set(k, v)` leaves the store as it was after the first call. */
  lemma SetIdempotent(h: Store, key: string, tag: string)
    ensures Set(Set(h, key, tag), key, tag) == Set(h, key, tag)
  {
  }

  /** Recording a pair of keys a second time changes nothing. */
  lemma SetPairTwice(h: Store, a: string, x: string, b: string, y: string)
    ensures Set(Set(Set(Set(h, a, x), b, y), a, x), b, y) == Set(Set(h, a, x), b, y)
  {
  }

  /** Writes to different keys commute, so the order in which concurrent
      sessions record their keys does not matter. */
  lemma SetCommutes(h: Store, a: string, x: string, b: string, y: string)
    requires a != b
    ensures Set(Set(h, a, x), b, y) == Set(Set(h, b, y), a, x)
  {
  }

  /** Recording with a non-empty tag never makes a present key absent: the
      history is append-only. */
  lemma SetKeepsContents(h: Store, key: string, tag: string, k: string)
    requires tag != "" && Contains(h, k)
    ensures Contains(Set(h, key, tag), k)
  {
  }
}
