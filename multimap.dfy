/** A set-multimap from strings to sets of strings, as a Redis-backed store
    keeps it: removing the last value of a key removes the key, so no key
    is ever mapped to the empty set, and an absent key reads as empty. */
module Multimap {

  type SetMultimap = map<string, set<string>>

  ghost predicate Valid(m: SetMultimap)
  {
    forall k :: k in m ==> m[k] != {}
  }

  /** `getAll(key)`: the values of a key, empty when it has none. */
  function GetAll(m: SetMultimap, k: string): set<string>
  {
    if k in m then m[k] else {}
  }

  /** `put(key, value)`: add one pair. */
  function Put(m: SetMultimap, k: string, v: string): (r: SetMultimap)
    requires Valid(m)
    ensures Valid(r)
    ensures GetAll(r, k) == GetAll(m, k) + {v}
    ensures forall j :: j != k ==> GetAll(r, j) == GetAll(m, j)
  {
    m[k := GetAll(m, k) + {v}]
  }

  /** `remove(key, value)`: drop one pair, and the key with its last value. */
  function Remove(m: SetMultimap, k: string, v: string): (r: SetMultimap)
    requires Valid(m)
    ensures Valid(r)
    ensures GetAll(r, k) == GetAll(m, k) - {v}
    ensures forall j :: j != k ==> GetAll(r, j) == GetAll(m, j)
  {
    if GetAll(m, k) - {v} == {} then m - {k} else m[k := m[k] - {v}]
  }

  /** `removeAll(key)`: drop a key and all its values. */
  function RemoveAll(m: SetMultimap, k: string): (r: SetMultimap)
    requires Valid(m)
    ensures Valid(r)
    ensures GetAll(r, k) == {}
    ensures forall j :: j != k ==> GetAll(r, j) == GetAll(m, j)
  {
    m - {k}
  }

  /** A value removed from every key that holds it. */
  function RemoveValueEverywhere(m: SetMultimap, v: string): (r: SetMultimap)
    requires Valid(m)
    ensures Valid(r)
    ensures forall k :: GetAll(r, k) == GetAll(m, k) - {v}
  {
    map k | k in m && m[k] - {v} != {} :: m[k] - {v}
  }

  /** A value removed from the keys in `done` only: the state part-way
      through removing it everywhere. */
  function RemoveValueFrom(m: SetMultimap, v: string, done: set<string>): SetMultimap
  {
    map k | k in m && (k in done ==> m[k] - {v} != {}) :: if k in done then m[k] - {v} else m[k]
  }

  // ---------------------------------------------------------------------

  /** Valid multimaps with the same values under every key are equal. */
  lemma {:induction false} Extensionality(m: SetMultimap, n: SetMultimap)
    requires Valid(m) && Valid(n)
    requires forall k :: GetAll(m, k) == GetAll(n, k)
    ensures m == n
  {
    forall k | k in m
      ensures k in n && m[k] == n[k]
    {
      assert GetAll(m, k) == GetAll(n, k);
    }
    forall k | k in n
      ensures k in m
    {
      assert GetAll(m, k) == GetAll(n, k);
    }
  }

  /** Adding a pair twice is the same as adding it once. */
  lemma PutIdempotent(m: SetMultimap, k: string, v: string)
    requires Valid(m)
    ensures Put(Put(m, k, v), k, v) == Put(m, k, v)
  {
    Extensionality(Put(Put(m, k, v), k, v), Put(m, k, v));
  }

  /** Adding two values under one key returns both of them. */
  lemma PutTwoValues(m: SetMultimap, k: string, v: string, w: string)
    requires Valid(m)
    ensures GetAll(Put(Put(m, k, v), k, w), k) == GetAll(m, k) + {v, w}
  {
  }

  /** Adding then removing a pair leaves the key's other values, so a key
      that had none reads as empty again. */
  lemma PutThenRemove(m: SetMultimap, k: string, v: string)
    requires Valid(m)
    ensures GetAll(Remove(Put(m, k, v), k, v), k) == GetAll(m, k) - {v}
    ensures GetAll(m, k) == {} ==> Remove(Put(m, k, v), k, v) == m
  {
    if GetAll(m, k) == {} {
      Extensionality(Remove(Put(m, k, v), k, v), m);
    }
  }

  /** Removing a value from every key, one key at a time, ends with it
      removed everywhere. */
  lemma RemoveValueFromAll(m: SetMultimap, v: string)
    requires Valid(m)
    ensures RemoveValueFrom(m, v, m.Keys) == RemoveValueEverywhere(m, v)
  {
  }

  /** One more key processed: the step of the loop that removes a value
      from every key. */
  lemma RemoveValueFromStep(m: SetMultimap, v: string, done: set<string>, k: string)
    requires Valid(m) && k in m && k !in done
    ensures Valid(RemoveValueFrom(m, v, done))
    ensures RemoveValueFrom(m, v, done + {k}) == Remove(RemoveValueFrom(m, v, done), k, v)
  {
    var before := RemoveValueFrom(m, v, done);
    assert GetAll(before, k) == m[k];
    Extensionality(RemoveValueFrom(m, v, done + {k}), Remove(before, k, v));
  }
}
