/**
 The insertion-ordered map behind the server's participant registry.

 A JavaScript `Map` keeps its entries in insertion order: `set` on a key that
 is already present replaces the value where it stands, `set` on a new key
 appends an entry at the end, `delete` removes the entry and keeps the order
 of the others, and `values()` walks the entries in that order. Here the map
 is its sequence of `(key, value)` entries.
 */
module OrderedMap {

  datatype Option<T> = None | Some(value: T)

  /** The keys, in entry order. */
  function Keys<K, V>(m: seq<(K, V)>): seq<K>
  {
    if m == [] then [] else [m[0].0] + Keys(m[1..])
  }

  /** `Array.from(m.values())`: the values, in entry order. */
  function Values<K, V>(m: seq<(K, V)>): seq<V>
  {
    if m == [] then [] else [m[0].1] + Values(m[1..])
  }

  /** No key occurs twice. */
  ghost predicate Distinct<K>(ks: seq<K>)
  {
    forall i, j :: 0 <= i < j < |ks| ==> ks[i] != ks[j]
  }

  /** A sequence of entries that a JavaScript `Map` can hold: keys are unique. */
  ghost predicate WellFormed<K, V>(m: seq<(K, V)>)
  {
    Distinct(Keys(m))
  }

  /** `m.get(k)`: the value of the entry for `k`, or None (`undefined`). */
  function Get<K(==), V>(m: seq<(K, V)>, k: K): Option<V>
  {
    if m == [] then None
    else if m[0].0 == k then Some(m[0].1)
    else Get(m[1..], k)
  }

  /** `m.set(k, v)`: replace the value of `k` in place, or append a new entry. */
  function Set<K(==), V>(m: seq<(K, V)>, k: K, v: V): seq<(K, V)>
  {
    if m == [] then [(k, v)]
    else if m[0].0 == k then [(k, v)] + m[1..]
    else [m[0]] + Set(m[1..], k, v)
  }

  /** `m.delete(k)`: drop the entry for `k`, if any, keeping the others in order. */
  function Delete<K(==), V>(m: seq<(K, V)>, k: K): seq<(K, V)>
  {
    if m == [] then []
    else if m[0].0 == k then Delete(m[1..], k)
    else [m[0]] + Delete(m[1..], k)
  }

  // ---------------------------------------------------------------------------
  // Keys and values

  lemma {:induction false} KeysLength<K, V>(m: seq<(K, V)>)
    ensures |Keys(m)| == |m| && |Values(m)| == |m|
    ensures forall i :: 0 <= i < |m| ==> Keys(m)[i] == m[i].0 && Values(m)[i] == m[i].1
  {
    if m != [] {
      KeysLength(m[1..]);
    }
  }

  lemma {:induction false} KeysAppend<K, V>(m: seq<(K, V)>, k: K, v: V)
    ensures Keys(m + [(k, v)]) == Keys(m) + [k]
    ensures Values(m + [(k, v)]) == Values(m) + [v]
  {
    if m == [] {
      assert m + [(k, v)] == [(k, v)];
    } else {
      assert (m + [(k, v)])[1..] == m[1..] + [(k, v)];
      KeysAppend(m[1..], k, v);
    }
  }

  /** A value is on the roster exactly when some entry holds it. */
  lemma {:induction false} InValues<K, V>(m: seq<(K, V)>, v: V)
    ensures v in Values(m) <==> exists k :: (k, v) in m
  {
    if m != [] {
      InValues(m[1..], v);
      if v in Values(m[1..]) {
        var k :| (k, v) in m[1..];
        assert (k, v) in m;
      }
      if v != m[0].1 && exists k :: (k, v) in m {
        var k :| (k, v) in m;
        assert (k, v) in m[1..];
      }
    }
  }

  // ---------------------------------------------------------------------------
  // get

  /** `get` finds a key exactly when the key has an entry. */
  lemma {:induction false} GetSomeIffPresent<K, V>(m: seq<(K, V)>, k: K)
    ensures Get(m, k).Some? <==> k in Keys(m)
  {
    if m != [] {
      GetSomeIffPresent(m[1..], k);
    }
  }

  /** What `get` returns is the value of an entry for that key. */
  lemma {:induction false} GetIsEntry<K, V>(m: seq<(K, V)>, k: K)
    requires Get(m, k).Some?
    ensures (k, Get(m, k).value) in m
  {
    if m[0].0 != k {
      GetIsEntry(m[1..], k);
    }
  }

  // ---------------------------------------------------------------------------
  // set

  /** After `set(k, v)`, `get(k)` returns `v`. */
  lemma {:induction false} GetSet<K, V>(m: seq<(K, V)>, k: K, v: V)
    ensures Get(Set(m, k, v), k) == Some(v)
  {
    if m != [] && m[0].0 != k {
      GetSet(m[1..], k, v);
    }
  }

  /** `set(k, v)` leaves the value of every other key as it was. */
  lemma {:induction false} GetSetOther<K, V>(m: seq<(K, V)>, k: K, v: V, k': K)
    requires k' != k
    ensures Get(Set(m, k, v), k') == Get(m, k')
  {
    if m != [] && m[0].0 != k {
      GetSetOther(m[1..], k, v, k');
    }
  }

  /** `set` of a new key appends one entry after all the existing ones. */
  lemma {:induction false} SetFresh<K, V>(m: seq<(K, V)>, k: K, v: V)
    requires k !in Keys(m)
    ensures Set(m, k, v) == m + [(k, v)]
  {
    if m != [] {
      SetFresh(m[1..], k, v);
      assert [m[0]] + (m[1..] + [(k, v)]) == m + [(k, v)];
    }
  }

  /** `set` of a present key keeps the key order: the entry is replaced where it stands. */
  lemma {:induction false} SetPresentKeys<K, V>(m: seq<(K, V)>, k: K, v: V)
    requires k in Keys(m)
    ensures Keys(Set(m, k, v)) == Keys(m)
  {
    if m[0].0 != k {
      SetPresentKeys(m[1..], k, v);
    }
  }

  /** Every entry after `set(k, v)` is `(k, v)` or an entry that was there before. */
  lemma {:induction false} SetEntries<K, V>(m: seq<(K, V)>, k: K, v: V, e: (K, V))
    requires e in Set(m, k, v)
    ensures e == (k, v) || e in m
  {
    if m != [] && m[0].0 != k && e != m[0] {
      SetEntries(m[1..], k, v, e);
    }
  }

  /** `set` keeps the keys unique. */
  lemma {:induction false} SetWellFormed<K, V>(m: seq<(K, V)>, k: K, v: V)
    requires WellFormed(m)
    ensures WellFormed(Set(m, k, v))
  {
    if k in Keys(m) {
      SetPresentKeys(m, k, v);
    } else {
      SetFresh(m, k, v);
      KeysAppend(m, k, v);
      var ks := Keys(m) + [k];
      forall i, j | 0 <= i < j < |ks| ensures ks[i] != ks[j] {
        if j == |ks| - 1 {
          assert ks[i] in Keys(m);
        }
      }
    }
  }

  // ---------------------------------------------------------------------------
  // delete

  /** After `delete(k)` the key has no entry and `get(k)` is `undefined`. */
  lemma {:induction false} DeleteRemoves<K, V>(m: seq<(K, V)>, k: K)
    ensures k !in Keys(Delete(m, k))
    ensures Get(Delete(m, k), k) == None
  {
    if m != [] {
      DeleteRemoves(m[1..], k);
    }
    GetSomeIffPresent(Delete(m, k), k);
  }

  /** `delete(k)` leaves the value of every other key as it was. */
  lemma {:induction false} GetDeleteOther<K, V>(m: seq<(K, V)>, k: K, k': K)
    requires k' != k
    ensures Get(Delete(m, k), k') == Get(m, k')
  {
    if m != [] {
      GetDeleteOther(m[1..], k, k');
    }
  }

  /** `delete` of a key that has no entry is a no-op. */
  lemma {:induction false} DeleteAbsent<K, V>(m: seq<(K, V)>, k: K)
    requires k !in Keys(m)
    ensures Delete(m, k) == m
  {
    if m != [] {
      DeleteAbsent(m[1..], k);
      assert [m[0]] + m[1..] == m;
    }
  }

  /** The keys left after `delete(k)` are exactly the other keys. */
  lemma {:induction false} DeleteKeys<K, V>(m: seq<(K, V)>, k: K, x: K)
    ensures x in Keys(Delete(m, k)) <==> x in Keys(m) && x != k
  {
    if m != [] {
      DeleteKeys(m[1..], k, x);
    }
  }

  /** Every entry left after `delete` was there before. */
  lemma {:induction false} DeleteEntries<K, V>(m: seq<(K, V)>, k: K, e: (K, V))
    requires e in Delete(m, k)
    ensures e in m && e.0 != k
  {
    if m[0].0 == k || e != m[0] {
      DeleteEntries(m[1..], k, e);
    }
  }

  /** Behind the first entry of a map with unique keys is a map with unique keys that lacks the first key. */
  lemma WellFormedTail<K, V>(m: seq<(K, V)>)
    requires WellFormed(m) && m != []
    ensures WellFormed(m[1..]) && m[0].0 !in Keys(m[1..])
  {
    KeysLength(m);
    KeysLength(m[1..]);
    var ks := Keys(m[1..]);
    forall i, j | 0 <= i < j < |ks| ensures ks[i] != ks[j] {
      assert ks[i] == Keys(m)[i + 1] && ks[j] == Keys(m)[j + 1];
    }
    forall j | 0 <= j < |ks| ensures ks[j] != m[0].0 {
      assert ks[j] == Keys(m)[j + 1];
    }
  }

  /** `delete` keeps the keys unique. */
  lemma {:induction false} DeleteWellFormed<K, V>(m: seq<(K, V)>, k: K)
    requires WellFormed(m)
    ensures WellFormed(Delete(m, k))
  {
    if m != [] {
      WellFormedTail(m);
      DeleteWellFormed(m[1..], k);
      if m[0].0 != k {
        var rest := Keys(Delete(m[1..], k));
        DeleteKeys(m[1..], k, m[0].0);
        var ks := [m[0].0] + rest;
        assert Keys(Delete(m, k)) == ks;
        forall i, j | 0 <= i < j < |ks| ensures ks[i] != ks[j] {
          if i == 0 {
            assert ks[j] == rest[j - 1];
          } else {
            assert ks[i] == rest[i - 1] && ks[j] == rest[j - 1];
          }
        }
      }
    }
  }

  /** In a map with unique keys, entries at different positions have different keys. */
  lemma KeyAt<K, V>(m: seq<(K, V)>, i: int, j: int)
    requires WellFormed(m) && 0 <= i < j < |m|
    ensures m[i].0 != m[j].0
  {
    KeysLength(m);
    assert Keys(m)[i] != Keys(m)[j];
  }

  /**
   `delete` of the key at position `i` removes exactly that entry: the
   entries before it and after it stay, in the same order.
   */
  lemma {:induction false} DeleteAt<K, V>(m: seq<(K, V)>, i: int)
    requires WellFormed(m) && 0 <= i < |m|
    ensures Delete(m, m[i].0) == m[..i] + m[i + 1..]
  {
    WellFormedTail(m);
    var k, tail := m[i].0, m[1..];
    if i == 0 {
      DeleteAbsent(tail, k);
      assert m[..0] + m[1..] == tail;
    } else {
      KeyAt(m, 0, i);
      assert tail[i - 1] == m[i];
      DeleteAt(tail, i - 1);
      assert Delete(m, k) == [m[0]] + Delete(tail, k);
      assert [m[0]] + (tail[..i - 1] + tail[i..]) == m[..i] + m[i + 1..];
    }
  }
}
