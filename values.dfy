/**
 The values an attachment record holds: a dictionary from string keys to
 JSON-like scalars, read with dictionary `get` semantics.
 */
module Values {

  datatype Option<+T> = None | Some(value: T)

  /** A scalar stored under one key of the attachment's dictionary.
      `Null` is the host language's `None`. Every value is immutable, so a
      copy of the dictionary is already a deep copy. */
  datatype Value = Null | Str(s: string) | Int(i: int) | Bool(b: bool)

  /** The contents of one attachment dictionary. */
  type Entries = map<string, Value>

  /** Dictionary `get`: the stored value, or `Null` when the key is absent
      (a lookup that never fails). */
  function Get(m: Entries, k: string): (v: Value)
    ensures k in m ==> v == m[k]
    ensures k !in m ==> v == Null
  {
    if k in m then m[k] else Null
  }
}
