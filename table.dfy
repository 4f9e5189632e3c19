/**
 * The two-level registry as a plain value: for each value type, the
 * identifier-to-value entries held by that type's registry. This is the
 * specification against which the registry classes are proved, and the
 * level at which the properties that relate several operations are stated.
 */
module RegistryTable {
  import opened Wrappers

  type Table<K, Id, V> = map<K, map<Id, V>>

  /** The value registered for type k under identifier id, if any. */
  function Lookup<K(!new), Id(!new), V>(s: Table<K, Id, V>, k: K, id: Id): Option<V>
  {
    if k in s && id in s[k] then Some(s[k][id]) else None
  }

  /** The entries of type k's registry; a type without a registry has none. */
  function Row<K(!new), Id(!new), V>(s: Table<K, Id, V>, k: K): map<Id, V>
  {
    if k in s then s[k] else map[]
  }

  /** No type maps to an empty registry. */
  ghost predicate NoEmptyRow<K(!new), Id(!new), V>(s: Table<K, Id, V>)
  {
    forall k :: k in s ==> s[k] != map[]
  }

  /** Every value sits in the registry of its own type. */
  ghost predicate Typed<K, Id, V>(s: Table<K, Id, V>, typeOf: V -> K)
  {
    forall k, id :: k in s && id in s[k] ==> typeOf(s[k][id]) == k
  }

  /** Registers v under id in the registry of type k, creating that registry if needed. */
  function Register<K(!new), Id(!new), V>(s: Table<K, Id, V>, k: K, id: Id, v: V): (r: Table<K, Id, V>)
    ensures r.Keys == s.Keys + {k}
    ensures Lookup(r, k, id) == Some(v)
    ensures forall k', id' :: k' != k || id' != id ==> Lookup(r, k', id') == Lookup(s, k', id')
  {
    s[k := Row(s, k)[id := v]]
  }

  /** Drops the registry of type k if it exists and holds no entry. */
  function Prune<K(!new), Id(!new), V>(s: Table<K, Id, V>, k: K): (r: Table<K, Id, V>)
    ensures k in r ==> r[k] != map[]
    ensures k in s && s[k] != map[] ==> r == s
    ensures forall k' :: k' != k ==> (k' in r <==> k' in s)
    ensures forall k', id' :: Lookup(r, k', id') == Lookup(s, k', id')
  {
    if k in s && s[k] == map[] then s - {k} else s
  }

  /** Removes id from the registry of type k, then prunes that registry if it became empty. */
  function Unregister<K(!new), Id(!new), V>(s: Table<K, Id, V>, k: K, id: Id): (r: Table<K, Id, V>)
    ensures Lookup(r, k, id) == None
    ensures forall k', id' :: k' != k || id' != id ==> Lookup(r, k', id') == Lookup(s, k', id')
    ensures k in r ==> r[k] != map[]
    ensures forall k' :: k' != k ==> (k' in r <==> k' in s)
  {
    Prune(if k in s then s[k := s[k] - {id}] else s, k)
  }

  /**
   * Removes id from the registry of type k only if v is the value stored
   * there; prunes that registry if it is empty either way. The flag says
   * whether an entry was removed.
   */
  function UnregisterIfMatch<K(!new), Id(!new), V(==)>(s: Table<K, Id, V>, k: K, id: Id, v: V): (res: (bool, Table<K, Id, V>))
    ensures res.0 <==> Lookup(s, k, id) == Some(v)
    ensures res.0 ==> res.1 == Unregister(s, k, id)
    ensures !res.0 ==> res.1 == Prune(s, k)
  {
    var removed := Lookup(s, k, id) == Some(v);
    (removed, Prune(if removed then s[k := s[k] - {id}] else s, k))
  }

  /** Registering twice at the same place keeps only the later value. */
  lemma LastWriteWins<K(!new), Id(!new), V>(s: Table<K, Id, V>, k: K, id: Id, v1: V, v2: V)
    ensures Register(Register(s, k, id, v1), k, id, v2) == Register(s, k, id, v2)
  {
    assert Row(Register(s, k, id, v1), k) == Row(s, k)[id := v1];
    assert Row(s, k)[id := v1][id := v2] == Row(s, k)[id := v2];
  }

  /** Registering a value under its own type keeps every value in its own type's registry. */
  lemma {:induction false} RegisterKeepsTyped<K(!new), Id(!new), V>(s: Table<K, Id, V>, typeOf: V -> K, id: Id, v: V)
    requires Typed(s, typeOf)
    ensures Typed(Register(s, typeOf(v), id, v), typeOf)
  {
    var r := Register(s, typeOf(v), id, v);
    forall k, i | k in r && i in r[k]
      ensures typeOf(r[k][i]) == k
    {
      if k != typeOf(v) || i != id {
        assert Lookup(r, k, i) == Lookup(s, k, i);
      }
    }
  }

  /** Registrations at two different places commute. */
  lemma RegisterCommutes<K(!new), Id(!new), V>(s: Table<K, Id, V>, k1: K, id1: Id, v1: V, k2: K, id2: Id, v2: V)
    requires k1 != k2 || id1 != id2
    ensures Register(Register(s, k1, id1, v1), k2, id2, v2) == Register(Register(s, k2, id2, v2), k1, id1, v1)
  {
    var a := Register(Register(s, k1, id1, v1), k2, id2, v2);
    var b := Register(Register(s, k2, id2, v2), k1, id1, v1);
    assert a.Keys == b.Keys;
    forall k | k in a
      ensures a[k] == b[k]
    {
      assert a[k].Keys == b[k].Keys;
      forall id | id in a[k]
        ensures a[k][id] == b[k][id]
      {
        assert Lookup(a, k, id) == Lookup(b, k, id);
      }
    }
  }

  /**
   * Unregistering undoes a registration at a place that was free, provided
   * the type had no empty registry beforehand (one would be pruned).
   */
  lemma UnregisterUndoesRegister<K(!new), Id(!new), V>(s: Table<K, Id, V>, k: K, id: Id, v: V)
    requires Lookup(s, k, id) == None
    requires k in s ==> s[k] != map[]
    ensures Unregister(Register(s, k, id, v), k, id) == s
  {
    var r := Register(s, k, id, v);
    assert r[k] - {id} == Row(s, k);
    if k in s {
      assert r[k := r[k] - {id}] == s;
    } else {
      assert r[k := r[k] - {id}] - {k} == s;
    }
  }

  /**
   * Unregistering changes nothing exactly when the type has no registry, or
   * its registry lacks id and is not empty (an empty one is pruned).
   */
  lemma UnregisterUnchangedIff<K(!new), Id(!new), V>(s: Table<K, Id, V>, k: K, id: Id)
    ensures Unregister(s, k, id) == s <==> k !in s || (id !in s[k] && s[k] != map[])
  {
    if k in s {
      if id in s[k] {
        assert Lookup(Unregister(s, k, id), k, id) != Lookup(s, k, id);
      } else if s[k] == map[] {
        assert s[k] - {id} == s[k];
        assert k !in Unregister(s, k, id);
      } else {
        assert s[k] - {id} == s[k];
        assert s[k := s[k] - {id}] == s;
      }
    }
  }

  /** A rejected conditional unregistration leaves the entries as they were. */
  lemma UnregisterIfMismatchUnchanged<K(!new), Id(!new), V>(s: Table<K, Id, V>, k: K, id: Id, v: V)
    requires Lookup(s, k, id) != Some(v)
    requires k in s ==> s[k] != map[]
    ensures UnregisterIfMatch(s, k, id, v) == (false, s)
  {
  }

  /** The registering and unregistering paths never leave an empty registry behind. */
  lemma NoEmptyRowPreserved<K(!new), Id(!new), V>(s: Table<K, Id, V>, k: K, id: Id, v: V)
    requires NoEmptyRow(s)
    ensures NoEmptyRow(Register(s, k, id, v))
    ensures NoEmptyRow(Unregister(s, k, id))
    ensures NoEmptyRow(UnregisterIfMatch(s, k, id, v).1)
  {
  }

  /**
   * Two values registered under one type and then unregistered one after the
   * other: the first removal leaves the other entry, the second removes the
   * type's registry altogether.
   */
  lemma RegisterTwoUnregisterBoth<K(!new), Id(!new), V>(s: Table<K, Id, V>, k: K, a: Id, va: V, b: Id, vb: V)
    requires k !in s
    requires a != b
    ensures var full := Register(Register(s, k, a, va), k, b, vb);
            var half := Unregister(full, k, a);
            && half[k] == map[b := vb]
            && Unregister(half, k, b) == s
  {
  }
}
