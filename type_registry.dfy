/**
 * The outer registry: a map from a value's runtime class to the registry of
 * that class's values. The convenience operations route a value to the
 * registry of its own class, create that registry on demand, and drop it
 * again once an unregistration leaves it empty.
 *
 * The source keeps one such map in a static field; here it is an ordinary
 * object, and the runtime class of a value is the function `classOf` it is
 * built with.
 */
module TypeRegistry {
  import opened Wrappers
  import RegistryTable
  import opened KeyRegistry

  class Registries<K(==, !new), Id(==, !new), V(==)> {
    /** The registry of each class that has one. */
    var regs: map<K, Registry<Id, V>>
    /** The runtime class of a value. */
    const classOf: V -> K

    constructor (classOf: V -> K)
      ensures regs == map[]
      ensures this.classOf == classOf
    {
      regs := map[];
      this.classOf := classOf;
    }

    /** What the registries hold, as a table of entries per class. */
    ghost function View(): RegistryTable.Table<K, Id, V>
      reads this, regs.Values
    {
      map t | t in regs :: regs[t].m
    }

    /** Every stored value sits in the registry of its own class. */
    ghost predicate Typed()
      reads this, regs.Values
    {
      RegistryTable.Typed(View(), classOf)
    }

    /** No registry instance is stored under two classes. */
    ghost predicate Unshared()
      reads this
    {
      forall t1, t2 :: t1 in regs && t2 in regs && t1 != t2 ==> regs[t1] != regs[t2]
    }

    // ---------------------------------------------------------------
    // Queries

    /** The registry stored for class t, if any. */
    function GetRegistry(t: K): (r: Option<Registry<Id, V>>)
      reads this
      ensures r.Some? <==> ContainsKey(t)
      ensures r.Some? ==> r.value == regs[t] && ContainsValue(r.value)
    {
      if t in regs then Some(regs[t]) else None
    }

    function GetOrDefault(t: K, default: Registry<Id, V>): (r: Registry<Id, V>)
      reads this
      ensures t in regs ==> r == regs[t]
      ensures t !in regs ==> r == default
    {
      match GetRegistry(t)
      case Some(reg) => reg
      case None => default
    }

    function Size(): (n: nat)
      reads this
      ensures n == |regs.Keys|
      ensures n == 0 <==> IsEmpty()
    {
      |regs|
    }

    function IsEmpty(): (b: bool)
      reads this
      ensures b <==> regs == map[]
    {
      |regs| == 0
    }

    function ContainsKey(t: K): (b: bool)
      reads this
      ensures b <==> t in regs.Keys
      ensures b ==> ContainsValue(regs[t])
    {
      t in regs
    }

    /** A class with a stored registry makes the outer map non-empty. */
    lemma ContainedClassNotEmpty(t: K)
      requires ContainsKey(t)
      ensures !IsEmpty() && Size() > 0
    {
      assert t in regs.Keys;
    }

    /** Whether the very instance r is stored under some class. */
    function ContainsValue(r: Registry<Id, V>): (b: bool)
      reads this
      ensures b <==> exists t :: t in regs && regs[t] == r
    {
      r in regs.Values
    }

    /** The value registered for class t under id. */
    function Get(t: K, id: Id): (r: Option<V>)
      reads this, regs.Values
      ensures r == RegistryTable.Lookup(View(), t, id)
    {
      match GetRegistry(t)
      case Some(reg) => reg.Get(id)
      case None => None
    }

    /** Whether class t has a registry holding id. */
    predicate IsRegistered(t: K, id: Id)
      reads this, regs.Values
      ensures IsRegistered(t, id) <==> Get(t, id).Some?
    {
      match GetRegistry(t)
      case Some(reg) => reg.IsRegistered(id)
      case None => false
    }

    /** Whether obj is registered, under any identifier, in its own class's registry. */
    predicate IsRegisteredValue(obj: V)
      reads this, regs.Values
      ensures IsRegisteredValue(obj) <==>
                classOf(obj) in regs && exists id :: id in regs[classOf(obj)].m && Get(classOf(obj), id) == Some(obj)
    {
      match GetRegistry(classOf(obj))
      case Some(reg) => reg.IsRegisteredValue(obj)
      case None => false
    }

    /** Whether obj is the value registered under id in its own class's registry. */
    predicate IsRegisteredAt(id: Id, obj: V)
      reads this, regs.Values
      ensures IsRegisteredAt(id, obj) <==> Get(classOf(obj), id) == Some(obj)
    {
      match GetRegistry(classOf(obj))
      case Some(reg) => reg.IsRegisteredAt(id, obj)
      case None => false
    }

    /**
     * The class under which the instance r is stored, found by scanning the
     * entries and comparing by identity; None if r is stored under none.
     */
    method GetType(r: Registry<Id, V>) returns (t: Option<K>)
      ensures t.Some? ==> t.value in regs && regs[t.value] == r
      ensures t.None? <==> r !in regs.Values
      ensures Unshared() ==> forall u :: u in regs && regs[u] == r ==> t == Some(u)
    {
      var todo := regs.Keys;
      while todo != {}
        invariant todo <= regs.Keys
        invariant forall u :: u in regs && u !in todo ==> regs[u] != r
        decreases todo
      {
        var u :| u in todo;
        if regs[u] == r {
          return Some(u);
        }
        todo := todo - {u};
      }
      return None;
    }

    // ---------------------------------------------------------------
    // Plain operations on the outer map

    /** Stores r for class t, overwriting; returns the registry it replaced. */
    method Put(t: K, r: Registry<Id, V>) returns (prev: Option<Registry<Id, V>>)
      modifies this
      ensures prev == old(GetRegistry(t))
      ensures regs == old(regs)[t := r]
    {
      prev := GetRegistry(t);
      regs := regs[t := r];
    }

    /** Removes class t's registry; returns it. */
    method Remove(t: K) returns (prev: Option<Registry<Id, V>>)
      modifies this
      ensures prev == old(GetRegistry(t))
      ensures regs == old(regs) - {t}
    {
      prev := GetRegistry(t);
      regs := regs - {t};
    }

    /** Removes class t's entry only if it holds the very instance r. */
    method RemoveIfSame(t: K, r: Registry<Id, V>) returns (removed: bool)
      modifies this
      ensures removed <==> t in old(regs) && old(regs[t]) == r
      ensures regs == if removed then old(regs) - {t} else old(regs)
    {
      removed := t in regs && regs[t] == r;
      if removed {
        regs := regs - {t};
      }
    }

    /** Stores r for class t unless t already has a registry; returns what was there. */
    method PutIfAbsent(t: K, r: Registry<Id, V>) returns (prev: Option<Registry<Id, V>>)
      modifies this
      ensures prev == old(GetRegistry(t))
      ensures regs == if t in old(regs) then old(regs) else old(regs)[t := r]
    {
      prev := GetRegistry(t);
      if prev.None? {
        regs := regs[t := r];
      }
    }

    /** Overwrites class t's registry only if it has one; returns what was there. */
    method Replace(t: K, r: Registry<Id, V>) returns (prev: Option<Registry<Id, V>>)
      modifies this
      ensures prev == old(GetRegistry(t))
      ensures regs == if t in old(regs) then old(regs)[t := r] else old(regs)
    {
      prev := GetRegistry(t);
      if prev.Some? {
        regs := regs[t := r];
      }
    }

    /** Overwrites class t's registry with r only if it is the very instance expected. */
    method ReplaceIfSame(t: K, expected: Registry<Id, V>, r: Registry<Id, V>) returns (replaced: bool)
      modifies this
      ensures replaced <==> t in old(regs) && old(regs[t]) == expected
      ensures regs == if replaced then old(regs)[t := r] else old(regs)
    {
      replaced := t in regs && regs[t] == expected;
      if replaced {
        regs := regs[t := r];
      }
    }

    /** Copies every entry of entries in at once, overwriting on shared classes. */
    method PutAll(entries: map<K, Registry<Id, V>>)
      modifies this
      ensures regs == old(regs) + entries
    {
      regs := regs + entries;
    }

    /** Copies every entry of entries in by one put per entry. */
    method PutAllEach(entries: map<K, Registry<Id, V>>)
      modifies this
      ensures regs == old(regs) + entries
    {
      var todo := entries.Keys;
      while todo != {}
        invariant todo <= entries.Keys
        invariant regs == old(regs) + map t | t in entries && t !in todo :: entries[t]
        decreases todo
      {
        var t :| t in todo;
        var _ := Put(t, entries[t]);
        todo := todo - {t};
      }
      assert (map t | t in entries && t !in todo :: entries[t]) == entries;
    }

    method Clear()
      modifies this
      ensures regs == map[]
    {
      regs := map[];
    }

    // ---------------------------------------------------------------
    // Registry management

    /** Returns class t's registry, storing r for t first if t has none. */
    method GetOrPutWith(t: K, r: Registry<Id, V>) returns (res: Registry<Id, V>)
      modifies this
      ensures t in regs && regs[t] == res
      ensures t in old(regs) ==> res == old(regs[t]) && regs == old(regs)
      ensures t !in old(regs) ==> res == r && regs == old(regs)[t := r]
    {
      var presented := GetRegistry(t);
      if presented.Some? {
        return presented.value;
      }
      var _ := Put(t, r);
      res := r;
    }

    /** Returns class t's registry, creating an empty one for t first if t has none. */
    method GetOrPut(t: K) returns (res: Registry<Id, V>)
      modifies this
      ensures t in regs && regs[t] == res
      ensures t in old(regs) ==> res == old(regs[t]) && regs == old(regs)
      ensures t !in old(regs) ==> fresh(res) && res.m == map[] && regs == old(regs)[t := res]
      ensures old(Unshared()) ==> Unshared()
    {
      var r := new Registry();
      res := GetOrPutWith(t, r);
    }

    /** Two getOrPut calls in a row for one class give the same instance and store nothing more. */
    method GetOrPutTwice(t: K) returns (first: Registry<Id, V>, second: Registry<Id, V>)
      modifies this
      ensures first == second
      ensures t in regs && regs[t] == first
      ensures t in old(regs) ==> first == old(regs[t]) && regs == old(regs)
      ensures t !in old(regs) ==> fresh(first) && first.m == map[] && regs == old(regs)[t := first]
    {
      first := GetOrPut(t);
      second := GetOrPut(t);
    }

    /** Removes and returns class t's registry if it exists and is empty. */
    method RemoveIfEmpty(t: K) returns (removed: Option<Registry<Id, V>>)
      modifies this
      ensures removed.Some? <==> t in old(regs) && old(regs[t].m) == map[]
      ensures removed.Some? ==> removed.value == old(regs[t]) && regs == old(regs) - {t}
      ensures removed.None? ==> regs == old(regs)
      ensures t in regs ==> regs[t].m != map[]
    {
      var registry := GetRegistry(t);
      if registry.Some? && registry.value.IsEmpty() {
        removed := Remove(t);
      } else {
        removed := None;
      }
    }

    /** Removes class t's registry and returns it, detached. */
    method UnregisterType(t: K) returns (prev: Option<Registry<Id, V>>)
      modifies this
      ensures prev == old(GetRegistry(t))
      ensures regs == old(regs) - {t}
      ensures old(Unshared()) && prev.Some? ==> prev.value !in regs.Values
    {
      prev := Remove(t);
    }
    // ---------------------------------------------------------------
    // Registering and unregistering values

    /**
     * Registers obj under id in the registry of obj's class, creating that
     * registry if needed and overwriting any value at id; returns obj.
     */
    method Register(id: Id, obj: V) returns (r: V)
      modifies this, regs.Values
      ensures r == obj
      ensures classOf(obj) in regs
      ensures Get(classOf(obj), id) == Some(obj) && IsRegistered(classOf(obj), id)
      ensures regs[classOf(obj)].m == RegistryTable.Row(old(View()), classOf(obj))[id := obj]
      ensures classOf(obj) in old(regs) ==> regs == old(regs)
      ensures classOf(obj) !in old(regs) ==>
                fresh(regs[classOf(obj)]) && regs == old(regs)[classOf(obj) := regs[classOf(obj)]]
      ensures forall u :: u in old(regs) && old(regs[u]) != regs[classOf(obj)] ==> old(regs[u]).m == old(regs[u].m)
      ensures old(Unshared()) ==> Unshared() && View() == RegistryTable.Register(old(View()), classOf(obj), id, obj)
      ensures old(Unshared()) && old(Typed()) ==> Typed()
    {
      ghost var before := View();
      var k := classOf(obj);
      var registry := GetOrPut(k);
      var _ := registry.Put(id, obj);
      r := obj;
      if old(Unshared()) {
        var after := RegistryTable.Register(before, k, id, obj);
        forall u | u in regs
          ensures View()[u] == after[u]
        {
          if u != k {
            assert regs[u] == old(regs[u]) && regs[u] != registry;
          }
        }
        assert View() == after;
        if old(Typed()) {
          RegistryTable.RegisterKeepsTyped(before, classOf, id, obj);
        }
      }
    }

    /**
     * Removes id from class t's registry and then drops that registry if it
     * is empty; returns the removed value.
     */
    method Unregister(t: K, id: Id) returns (obj: Option<V>)
      modifies this, regs.Values
      ensures obj == old(Get(t, id))
      ensures t in old(regs) ==> old(regs[t]).m == old(regs[t].m) - {id}
      ensures regs == if t in old(regs) && old(regs[t]).m == map[] then old(regs) - {t} else old(regs)
      ensures forall u :: u in old(regs) && (t !in old(regs) || old(regs[u]) != old(regs[t])) ==>
                old(regs[u]).m == old(regs[u].m)
      ensures t in regs ==> regs[t].m != map[]
      ensures Get(t, id) == None
      ensures old(Unshared()) ==> Unshared() && View() == RegistryTable.Unregister(old(View()), t, id)
      ensures old(Typed()) ==> Typed()
    {
      var registry := GetRegistry(t);
      obj := None;
      if registry.Some? {
        obj := registry.value.Remove(id);
      }
      var _ := RemoveIfEmpty(t);
      if old(Typed()) {
        ghost var was := old(View());
        forall u, i | u in View() && i in View()[u]
          ensures classOf(View()[u][i]) == u
        {
          assert u in was && i in was[u] && View()[u][i] == was[u][i];
        }
      }
    }

    /**
     * Removes id from the registry of obj's class only if obj is the value
     * stored there, then drops that registry if it is empty (whether or not
     * anything was removed); says whether it removed.
     */
    method UnregisterValue(id: Id, obj: V) returns (removed: bool)
      modifies this, regs.Values
      ensures removed == old(IsRegisteredAt(id, obj))
      ensures classOf(obj) in old(regs) ==>
                old(regs[classOf(obj)]).m == if removed then old(regs[classOf(obj)].m) - {id} else old(regs[classOf(obj)].m)
      ensures regs == if classOf(obj) in old(regs) && old(regs[classOf(obj)]).m == map[]
                      then old(regs) - {classOf(obj)} else old(regs)
      ensures forall u :: u in old(regs) && (!removed || old(regs[u]) != old(regs[classOf(obj)])) ==>
                old(regs[u]).m == old(regs[u].m)
      ensures classOf(obj) in regs ==> regs[classOf(obj)].m != map[]
      ensures old(Unshared()) ==>
                Unshared() && (removed, View()) == RegistryTable.UnregisterIfMatch(old(View()), classOf(obj), id, obj)
      ensures old(Typed()) ==> Typed()
    {
      ghost var before := View();
      var k := classOf(obj);
      var registry := GetRegistry(k);
      removed := false;
      if registry.Some? {
        removed := registry.value.RemoveIfMatch(id, obj);
      }
      var _ := RemoveIfEmpty(k);
      if old(Typed()) {
        ghost var was := old(View());
        forall u, i | u in View() && i in View()[u]
          ensures classOf(View()[u][i]) == u
        {
          assert u in was && i in was[u] && View()[u][i] == was[u][i];
        }
      }
      if old(Unshared()) {
        assert View() == RegistryTable.UnregisterIfMatch(before, k, id, obj).1;
      }
    }
  }
}
