/** Shared vocabulary: optional values, bytes and table lookups. */
module Prelude {

  datatype Option<+T> = None | Some(value: T)

  newtype byte = x: int | 0 <= x < 256

  type Bytes = seq<byte>

  /** Row identifiers are the text primary keys of the journal. */
  type Id = string

  /** Every row of `earlier` is still in `later` under its key, unchanged. */
  ghost predicate Extends<K, V>(earlier: map<K, V>, later: map<K, V>) {
    forall k {:trigger later[k]} {:trigger k in earlier} :: k in earlier ==> k in later && later[k] == earlier[k]
  }

  /** The sequence without the element at position i. */
  function RemoveAt<T>(s: seq<T>, i: nat): (r: seq<T>)
    requires i < |s|
    ensures |r| == |s| - 1
    ensures multiset(r) == multiset(s) - multiset{s[i]}
  {
    assert s == s[..i] + [s[i]] + s[i + 1..];
    s[..i] + s[i + 1..]
  }
}
