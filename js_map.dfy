/** A JavaScript `Map`: its entries, and its keys in the order in which they
    were first inserted, which is the order `entries()` and `keys()` visit
    them in. */
module JsMap {

  datatype OrderedMap<K(==,!new), V> = OrderedMap(keys: seq<K>, entries: map<K, V>)
  {
    /** Every key once, and exactly the keys that have an entry. */
    ghost predicate Valid() {
      (forall i, j :: 0 <= i < j < |keys| ==> keys[i] != keys[j])
      && (forall k :: k in entries <==> k in keys)
    }

    /** `m.set(k, v)`: a new key goes last; a key already present keeps its
        position, so re-setting it does not make it younger. */
    function Set(k: K, v: V): (r: OrderedMap<K, V>)
      requires Valid()
      ensures r.Valid()
      ensures r.entries == entries[k := v]
      ensures k in entries ==> r.keys == keys
      ensures k !in entries ==> r.keys == keys + [k]
    {
      if k in entries then OrderedMap(keys, entries[k := v])
      else OrderedMap(keys + [k], entries[k := v])
    }

    /** `m.delete(k)`: the entry goes, the keys before and after it close
        up, and deleting an absent key changes nothing. */
    function Delete(k: K): (r: OrderedMap<K, V>)
      requires Valid()
      ensures r.Valid()
      ensures r.entries == entries - {k}
      ensures |r.keys| == if k in entries then |keys| - 1 else |keys|
      ensures forall x :: x in r.keys <==> x in keys && x != k
      ensures forall i :: 0 <= i < |keys| && keys[i] == k ==> r.keys == keys[..i] + keys[i + 1..]
      ensures k !in entries ==> r.keys == keys
    {
      WithoutDistinct(keys, k);
      WithoutAt(keys, k);
      OrderedMap(Without(keys, k), entries - {k})
    }
  }

  function Empty<K(==,!new), V>(): (r: OrderedMap<K, V>)
    ensures r.Valid() && r.keys == []
  {
    OrderedMap([], map[])
  }

  /** `s` with every occurrence of `k` taken out, the rest in order. */
  function Without<K(==,!new)>(s: seq<K>, k: K): (r: seq<K>)
    ensures forall x :: x in r <==> x in s && x != k
  {
    if s == [] then [] else (if s[0] == k then [] else [s[0]]) + Without(s[1..], k)
  }

  ghost predicate Distinct<K>(s: seq<K>) {
    forall i, j :: 0 <= i < j < |s| ==> s[i] != s[j]
  }

  /** Taking one key out of a sequence without repeats leaves one without
      repeats, one element shorter when the key was there. */
  lemma {:induction false} WithoutDistinct<K(!new)>(s: seq<K>, k: K)
    requires Distinct(s)
    ensures Distinct(Without(s, k))
    ensures |Without(s, k)| == if k in s then |s| - 1 else |s|
  {
    if s != [] {
      assert Distinct(s[1..]) by {
        forall i, j | 0 <= i < j < |s[1..]| ensures s[1..][i] != s[1..][j] {
          assert s[1..][i] == s[i + 1] && s[1..][j] == s[j + 1];
        }
      }
      WithoutDistinct(s[1..], k);
      var t := Without(s[1..], k);
      assert s[0] !in s[1..] by {
        forall j | 0 <= j < |s[1..]| ensures s[1..][j] != s[0] {
          assert s[1..][j] == s[j + 1];
        }
      }
      if s[0] != k {
        assert s[0] !in t;
        assert Without(s, k) == [s[0]] + t;
        forall i, j | 0 <= i < j < |[s[0]] + t| ensures ([s[0]] + t)[i] != ([s[0]] + t)[j] {
          if i > 0 {
            assert ([s[0]] + t)[i] == t[i - 1];
          }
          assert ([s[0]] + t)[j] == t[j - 1];
        }
        assert k in s <==> k in s[1..] by {
          assert s == [s[0]] + s[1..];
        }
      } else {
        assert Without(s, k) == t;
      }
    }
  }

  /** Deleting a key that occurs once, between `a` and `b`, leaves `a + b`. */
  lemma {:induction false} WithoutMiddle<K(!new)>(a: seq<K>, k: K, b: seq<K>)
    requires k !in a && k !in b
    ensures Without(a + [k] + b, k) == a + b
  {
    if a == [] {
      assert (a + [k] + b)[1..] == b;
      WithoutAbsent(b, k);
    } else {
      assert (a + [k] + b)[1..] == a[1..] + [k] + b;
      WithoutMiddle(a[1..], k, b);
      assert a + b == [a[0]] + (a[1..] + b);
    }
  }

  /** In a sequence without repeats, taking out `k` closes the gap where it
      stood and leaves every other element in its order. */
  lemma WithoutAt<K(!new)>(s: seq<K>, k: K)
    requires Distinct(s)
    ensures forall i :: 0 <= i < |s| && s[i] == k ==> Without(s, k) == s[..i] + s[i + 1..]
    ensures k !in s ==> Without(s, k) == s
  {
    forall i | 0 <= i < |s| && s[i] == k
      ensures Without(s, k) == s[..i] + s[i + 1..]
    {
      WithoutIndex(s, i);
    }
    if k !in s {
      WithoutAbsent(s, k);
    }
  }

  lemma WithoutIndex<K(!new)>(s: seq<K>, i: nat)
    requires Distinct(s) && i < |s|
    ensures Without(s, s[i]) == s[..i] + s[i + 1..]
  {
    VisitNext(s, i);
    assert s == s[..i] + [s[i]] + s[i + 1..];
    WithoutMiddle(s[..i], s[i], s[i + 1..]);
  }

  lemma {:induction false} WithoutAbsent<K(!new)>(s: seq<K>, k: K)
    requires k !in s
    ensures Without(s, k) == s
  {
    if s != [] {
      WithoutAbsent(s[1..], k);
      assert s == [s[0]] + s[1..];
    }
  }

  /** Setting a new key, then deleting the oldest key: the others move up
      one place and the new key comes last. */
  lemma {:induction false} SetThenDeleteOldest<K(!new), V>(m: OrderedMap<K, V>, k: K, v: V)
    requires m.Valid() && k !in m.entries && m.keys != []
    ensures m.Set(k, v).Delete(m.keys[0]).keys == m.keys[1..] + [k]
    ensures m.Set(k, v).Delete(m.keys[0]).entries == (m.entries - {m.keys[0]})[k := v]
  {
    var k0, rest := m.keys[0], m.keys[1..] + [k];
    var grown := m.Set(k, v);
    assert k0 in m.entries && k0 != k;
    assert Without(grown.keys, k0) == rest by {
      assert grown.keys == [k0] + rest;
      assert k0 !in rest by {
        forall j | 0 <= j < |m.keys| - 1 ensures rest[j] != k0 {
          assert rest[j] == m.keys[j + 1];
        }
      }
      WithoutAbsent(rest, k0);
      assert grown.keys[1..] == rest;
    }
    assert grown.entries - {k0} == (m.entries - {k0})[k := v];
  }

  /** The keys a loop over `m.entries()` visits, taken at its start: each
      once, each with an entry. */
  ghost predicate Snapshot<K(!new), V>(keys: seq<K>, m0: map<K, V>) {
    Distinct(keys) && forall k :: k in keys ==> k in m0
  }

  /** The set of keys in `s`. */
  function Elements<K(!new)>(s: seq<K>): (r: set<K>)
  {
    if s == [] then {} else Elements(s[..|s| - 1]) + {s[|s| - 1]}
  }

  lemma {:induction false} ElementsOf<K(!new)>(s: seq<K>)
    ensures forall x :: x in Elements(s) <==> x in s
  {
    if s != [] {
      ElementsOf(s[..|s| - 1]);
      assert s == s[..|s| - 1] + [s[|s| - 1]];
    }
  }

  /** The key visited next has not been visited, is not visited again, and
      extends the visited prefix by one. */
  lemma VisitNext<K(!new)>(keys: seq<K>, i: nat)
    requires Distinct(keys) && i < |keys|
    ensures keys[i] !in keys[..i] && keys[i] !in keys[i + 1..] && keys[i] !in Elements(keys[..i])
    ensures keys[..i + 1] == keys[..i] + [keys[i]] && keys[i..] == [keys[i]] + keys[i + 1..]
    ensures keys[..i + 1][..i] == keys[..i]
  {
    ElementsOf(keys[..i]);
  }

  /* A sweep: `for (const [k, v] of m.entries()) if (drop(v)) m.delete(k);`.
     Deleting the entry being visited does not disturb the iteration, so the
     loop visits the keys of `m` as they were when it started. */

  /** The entries of `m` that `drop` does not hold of. */
  function KeptEntries<K(!new), V>(m: map<K, V>, drop: V -> bool): (r: map<K, V>)
    ensures forall k :: k in r <==> k in m && !drop(m[k])
    ensures forall k :: k in r ==> r[k] == m[k]
  {
    map k | k in m && !drop(m[k]) :: m[k]
  }

  /** The keys under `keys` whose entry the sweep keeps, in order. */
  function Retained<K(!new), V>(keys: seq<K>, m: map<K, V>, drop: V -> bool): seq<K>
    requires forall k :: k in keys ==> k in m
  {
    if keys == [] then []
    else Retained(keys[..|keys| - 1], m, drop) + (if drop(m[keys[|keys| - 1]]) then [] else [keys[|keys| - 1]])
  }

  lemma {:induction false} RetainedKeys<K(!new), V>(keys: seq<K>, m: map<K, V>, drop: V -> bool)
    requires forall k :: k in keys ==> k in m
    ensures forall x :: x in Retained(keys, m, drop) <==> x in keys && !drop(m[x])
  {
    if keys != [] {
      RetainedKeys(keys[..|keys| - 1], m, drop);
      assert keys == keys[..|keys| - 1] + [keys[|keys| - 1]];
    }
  }

  /** The entries under `visited` that `drop` holds of are gone, the others
      are as they were in `m0`. */
  ghost predicate SweptOn<K(!new), V>(entries: map<K, V>, visited: set<K>, m0: map<K, V>, drop: V -> bool) {
    (forall k :: k in entries <==> k in m0 && (k in visited ==> !drop(m0[k])))
    && (forall k :: k in entries ==> entries[k] == m0[k])
  }

  /** After the sweep has visited `keys[..i]`. */
  ghost predicate SweptUpTo<K(!new), V>(cur: OrderedMap<K, V>, keys: seq<K>, m0: map<K, V>, drop: V -> bool, i: nat)
    requires Snapshot(keys, m0) && i <= |keys|
  {
    cur.Valid()
    && cur.keys == Retained(keys[..i], m0, drop) + keys[i..]
    && SweptOn(cur.entries, Elements(keys[..i]), m0, drop)
  }

  lemma SweepStart<K(!new), V>(m: OrderedMap<K, V>, drop: V -> bool)
    requires m.Valid()
    ensures Snapshot(m.keys, m.entries) && SweptUpTo(m, m.keys, m.entries, drop, 0)
  {
    assert m.keys[..0] == [];
  }

  /** The key visited next is still there, as it was. */
  lemma SweepVisit<K(!new), V>(cur: OrderedMap<K, V>, keys: seq<K>, m0: map<K, V>, drop: V -> bool, i: nat)
    requires Snapshot(keys, m0) && i < |keys|
    requires SweptUpTo(cur, keys, m0, drop, i)
    ensures keys[i] in cur.entries && cur.entries[keys[i]] == m0[keys[i]]
  {
    VisitNext(keys, i);
  }

  /** Deleting the entry visited next. */
  lemma SweepDrop<K(!new), V>(cur: OrderedMap<K, V>, keys: seq<K>, m0: map<K, V>, drop: V -> bool, i: nat)
    requires Snapshot(keys, m0) && i < |keys| && drop(m0[keys[i]])
    requires SweptUpTo(cur, keys, m0, drop, i)
    ensures SweptUpTo(cur.Delete(keys[i]), keys, m0, drop, i + 1)
  {
    var next := cur.Delete(keys[i]);
    assert next.keys == Without(cur.keys, keys[i]);
    RetainedDrop(cur.keys, keys, m0, drop, i);
    assert SweptOn(next.entries, Elements(keys[..i + 1]), m0, drop) by {
      VisitNext(keys, i);
      assert Elements(keys[..i + 1]) == Elements(keys[..i]) + {keys[i]};
      SweptEntries(cur.entries, next.entries, Elements(keys[..i]), keys[i], m0, drop);
    }
  }

  lemma RetainedDrop<K(!new), V>(ks: seq<K>, keys: seq<K>, m0: map<K, V>, drop: V -> bool, i: nat)
    requires Snapshot(keys, m0) && i < |keys| && drop(m0[keys[i]])
    requires ks == Retained(keys[..i], m0, drop) + keys[i..]
    ensures Without(ks, keys[i]) == Retained(keys[..i + 1], m0, drop) + keys[i + 1..]
  {
    VisitNext(keys, i);
    var u := Retained(keys[..i], m0, drop);
    assert Retained(keys[..i + 1], m0, drop) == u;
    RetainedKeys(keys[..i], m0, drop);
    assert ks == u + [keys[i]] + keys[i + 1..];
    WithoutMiddle(u, keys[i], keys[i + 1..]);
  }

  /** Keeping the entry visited next. */
  lemma SweepKeep<K(!new), V>(cur: OrderedMap<K, V>, keys: seq<K>, m0: map<K, V>, drop: V -> bool, i: nat)
    requires Snapshot(keys, m0) && i < |keys| && !drop(m0[keys[i]])
    requires SweptUpTo(cur, keys, m0, drop, i)
    ensures SweptUpTo(cur, keys, m0, drop, i + 1)
  {
    RetainedKeep(cur.keys, keys, m0, drop, i);
    assert SweptOn(cur.entries, Elements(keys[..i + 1]), m0, drop) by {
      VisitNext(keys, i);
      SweptEntries(cur.entries, cur.entries, Elements(keys[..i]), keys[i], m0, drop);
    }
  }

  lemma RetainedKeep<K(!new), V>(ks: seq<K>, keys: seq<K>, m0: map<K, V>, drop: V -> bool, i: nat)
    requires Snapshot(keys, m0) && i < |keys| && !drop(m0[keys[i]])
    requires ks == Retained(keys[..i], m0, drop) + keys[i..]
    ensures ks == Retained(keys[..i + 1], m0, drop) + keys[i + 1..]
  {
    VisitNext(keys, i);
    var u := Retained(keys[..i], m0, drop);
    assert Retained(keys[..i + 1], m0, drop) == u + [keys[i]];
    assert ks == (u + [keys[i]]) + keys[i + 1..];
  }

  lemma SweptEntries<K(!new), V>(entries: map<K, V>, next: map<K, V>, visited: set<K>,
                                 k0: K, m0: map<K, V>, drop: V -> bool)
    requires k0 in m0 && k0 !in visited
    requires SweptOn(entries, visited, m0, drop)
    requires next == if drop(m0[k0]) then entries - {k0} else entries
    ensures SweptOn(next, visited + {k0}, m0, drop)
  {
  }

  /** Once every key is visited, exactly the entries `drop` does not hold of
      are left, in their order. */
  lemma SweepFinished<K(!new), V>(cur: OrderedMap<K, V>, keys: seq<K>, m0: map<K, V>, drop: V -> bool)
    requires OrderedMap(keys, m0).Valid() && Snapshot(keys, m0)
    requires SweptUpTo(cur, keys, m0, drop, |keys|)
    ensures cur.Valid() && cur.keys == Retained(keys, m0, drop)
    ensures cur.entries == KeptEntries(m0, drop)
  {
    assert keys[..|keys|] == keys;
    ElementsOf(keys);
  }
}
