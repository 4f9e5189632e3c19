/**
 * The per-type registry: a mutable map from identifiers to the values of one
 * type, with the registry-specific queries and a never-overwriting getOrPut
 * on top of the plain map operations.
 *
 * Values are compared with Dafny equality, which stands for the values'
 * `equals`; since `equals` is reflexive, the identity test the source makes
 * before calling `equals` adds no case.
 */
module KeyRegistry {
  import opened Wrappers

  /**
   * What getOrPut does to a registry's entries: the value already stored at
   * id wins; otherwise obj is stored. Returns the value now at id and the new
   * entries.
   */
  function GetOrPutEntries<Id, V>(m: map<Id, V>, id: Id, obj: V): (res: (V, map<Id, V>))
    ensures id in res.1 && res.1[id] == res.0
    ensures id in m ==> res.1 == m
    ensures id !in m ==> res.0 == obj && res.1.Keys == m.Keys + {id}
    ensures forall i :: i in m ==> i in res.1 && res.1[i] == m[i]
  {
    if id in m then (m[id], m) else (obj, m[id := obj])
  }

  /** Asking getOrPut again, with any value, returns the same value and changes nothing. */
  lemma GetOrPutIdempotent<Id, V>(m: map<Id, V>, id: Id, obj: V, other: V)
    ensures var (r, m') := GetOrPutEntries(m, id, obj);
            GetOrPutEntries(m', id, other) == (r, m')
  {
  }

  class Registry<Id(==), V(==)> {
    /** The entries; the source keeps them in a mutable map it never replaces. */
    var m: map<Id, V>

    /** An empty registry. */
    constructor ()
      ensures m == map[]
    {
      m := map[];
    }

    /** A registry holding the given entries. */
    constructor Of(entries: map<Id, V>)
      ensures m == entries
    {
      m := entries;
    }

    function Size(): (n: nat)
      reads this
      ensures n == |m.Keys|
      ensures n == 0 <==> IsEmpty()
    {
      |m|
    }

    function IsEmpty(): (b: bool)
      reads this
      ensures b <==> m == map[]
    {
      |m| == 0
    }

    function ContainsKey(id: Id): (b: bool)
      reads this
      ensures b <==> id in m
      ensures b ==> ContainsValue(m[id])
    {
      id in m
    }

    function ContainsValue(obj: V): (b: bool)
      reads this
      ensures b <==> exists id :: id in m && m[id] == obj
    {
      obj in m.Values
    }

    function Get(id: Id): (r: Option<V>)
      reads this
      ensures r.Some? <==> ContainsKey(id)
      ensures r.Some? ==> r.value == m[id] && ContainsValue(r.value)
    {
      if id in m then Some(m[id]) else None
    }

    function GetOrDefault(id: Id, default: V): (r: V)
      reads this
      ensures id in m ==> r == m[id]
      ensures id !in m ==> r == default
    {
      match Get(id)
      case Some(v) => v
      case None => default
    }

    /** Whether something is registered under id. */
    predicate IsRegistered(id: Id)
      reads this
      ensures IsRegistered(id) <==> Get(id).Some?
    {
      ContainsKey(id)
    }

    /** Whether obj is registered under some identifier. */
    predicate IsRegisteredValue(obj: V)
      reads this
      ensures IsRegisteredValue(obj) <==> exists id :: id in m && IsRegisteredAt(id, obj)
    {
      ContainsValue(obj)
    }

    /** Whether obj is the value registered under id. */
    predicate IsRegisteredAt(id: Id, obj: V)
      reads this
      ensures IsRegisteredAt(id, obj) <==> Get(id) == Some(obj)
    {
      id in m && m[id] == obj
    }

    /** A registry holding some identifier is not empty, so the prune step keeps it. */
    lemma ContainedKeyNotEmpty(id: Id)
      requires ContainsKey(id)
      ensures !IsEmpty() && Size() > 0
    {
      assert id in m.Keys;
    }

    /** Registering obj under id implies both of the other queries. */
    lemma RegisteredAtImpliesOthers(id: Id, obj: V)
      requires IsRegisteredAt(id, obj)
      ensures IsRegistered(id) && IsRegisteredValue(obj)
    {
    }

    /** Stores obj under id, overwriting; returns the previous value. */
    method Put(id: Id, obj: V) returns (prev: Option<V>)
      modifies this
      ensures prev == old(Get(id))
      ensures m == old(m)[id := obj]
      ensures Get(id) == Some(obj)
    {
      prev := Get(id);
      m := m[id := obj];
    }

    /** Removes id; returns the value it had. */
    method Remove(id: Id) returns (prev: Option<V>)
      modifies this
      ensures prev == old(Get(id))
      ensures m == old(m) - {id}
      ensures Get(id) == None
    {
      prev := Get(id);
      m := m - {id};
    }

    /** Removes id only if obj is the value stored there; says whether it did. */
    method RemoveIfMatch(id: Id, obj: V) returns (removed: bool)
      modifies this
      ensures removed == old(IsRegisteredAt(id, obj))
      ensures m == if removed then old(m) - {id} else old(m)
    {
      removed := id in m && m[id] == obj;
      if removed {
        m := m - {id};
      }
    }

    /** Returns the value at id, storing obj there first if there is none. */
    method GetOrPut(id: Id, obj: V) returns (r: V)
      modifies this
      ensures (r, m) == GetOrPutEntries(old(m), id, obj)
    {
      var presented := Get(id);
      if presented.Some? {
        return presented.value;
      }
      var _ := Put(id, obj);
      r := obj;
    }

    /** Stores obj under id unless id is taken; returns what was there. */
    method PutIfAbsent(id: Id, obj: V) returns (prev: Option<V>)
      modifies this
      ensures prev == old(Get(id))
      ensures m == if id in old(m) then old(m) else old(m)[id := obj]
    {
      prev := Get(id);
      if prev.None? {
        m := m[id := obj];
      }
    }

    /** Overwrites the value at id only if id is taken; returns what was there. */
    method Replace(id: Id, obj: V) returns (prev: Option<V>)
      modifies this
      ensures prev == old(Get(id))
      ensures m == if id in old(m) then old(m)[id := obj] else old(m)
    {
      prev := Get(id);
      if prev.Some? {
        m := m[id := obj];
      }
    }

    /** Overwrites the value at id with obj only if expected is stored there. */
    method ReplaceIfMatch(id: Id, expected: V, obj: V) returns (replaced: bool)
      modifies this
      ensures replaced == old(IsRegisteredAt(id, expected))
      ensures m == if replaced then old(m)[id := obj] else old(m)
    {
      replaced := id in m && m[id] == expected;
      if replaced {
        m := m[id := obj];
      }
    }

    /** Copies every entry of entries in, overwriting on shared identifiers. */
    method PutAll(entries: map<Id, V>)
      modifies this
      ensures m == old(m) + entries
    {
      m := m + entries;
    }

    method Clear()
      modifies this
      ensures m == map[]
    {
      m := map[];
    }
  }
}
