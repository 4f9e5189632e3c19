# Two-level type registry, modelled in Dafny

The repository keeps a process-wide map from a value's runtime class to a
per-class `Registry`. Each `Registry` maps an `Identifier` to a value of
that class. Callers use the outer `Registries` operations:

- `register` files a value under its own class, creating that class's registry on demand;
- `get` and `isRegistered` look values up through both levels;
- `unregister` removes an entry and then drops the class's registry if it became empty;
- `getType` recovers a registry's class by scanning for the identical instance.

The model has four modules:

- `Wrappers`: `Option`, standing for Java's `null` result.
- `RegistryTable`: the two-level mapping as a plain value (`map<K, map<Id, V>>`). It holds
  the specification functions `Register`, `Prune`, `Unregister` and `UnregisterIfMatch`,
  and the lemmas that relate several operations (last write wins, unregister undoes
  register, when unregistering is a no-op, no empty registry survives).
- `KeyRegistry`: the class `Registry` with the field `m: map<Id, V>`. Its methods change
  `m` in place as the Java methods change the wrapped `HashMap`. Its queries are functions.
- `TypeRegistry`: the class `Registries` with the field `regs: map<K, Registry<Id, V>>`.
  Registries are object references, so "the same instance" and identity in `GetType`
  are stated with Dafny's reference equality.
  - `View()` reads the objects as a `RegistryTable.Table`.
  - `Unshared()` says that no registry instance is stored under two classes.
  - `Register`, `Unregister` and `UnregisterValue` state their effect registry by
    registry, so the statement also holds when one instance is shared by two classes.
    When the state was `Unshared()`, they also state that `View()` moved exactly as
    the matching `RegistryTable` function says.
  - `Typed()` says that every stored value sits in the registry of its own class
    (`classOf`). The unregister paths always keep it. `Register` keeps it when no
    registry instance is stored under two classes (`Unshared()`).

The repository has two copies of `Registries`, one in `net.hederamc.util.registry` and
one in `net.cookedseafood.genericregistry.registry`. One class models both:

- The cookedseafood copy writes the three `isRegistered` predicates inline. They read the
  same maps as the hederamc copy, which delegates to `Registry`, so they compute the same thing.
- Its `putAll` is a loop of single `put`s. `PutAllEach` models that loop and `PutAll` models
  the hederamc bulk call. Both are proved to give `old(regs) + entries`.
- Only the hederamc copy has `unregister(Class)` (`UnregisterType`) and `getType` (`GetType`).
- The cookedseafood file's `Registry` class is not part of this model. Its `Registries`
  calls only plain map operations on it, so it is given the hederamc `Registry`'s semantics.

The model follows the code at two points where the code is looser than its own prune step (`removeIfEmpty`) suggests:

- An empty registry can be stored for a class. `put` and `getOrPut(type)` do it directly.
  So "no registry is empty" is not a global invariant. The model proves instead that every
  unregister path leaves no empty registry for the class it touched, and that the
  register/unregister paths keep a table free of empty registries (`NoEmptyRowPreserved`).
- Unregistering an absent identifier is not always a no-op. Both unregister overloads call
  `removeIfEmpty` unconditionally, so an empty registry stored for that class is dropped even
  though nothing was removed. `UnregisterUnchangedIff` states exactly when nothing changes.

## Model

| member | source | states |
|---|---|---|
| `RegistryTable.Register` | src/main/java/net/hederamc/util/registry/Registries.java:49-52 | afterwards the value is found at (class, id); every other (class, id) lookup is unchanged; only the value's class can gain a registry |
| `RegistryTable.Prune` | src/main/java/net/hederamc/util/registry/Registries.java:146-149 | the class is left with no empty registry; a non-empty one is kept; no lookup and no other class changes |
| `RegistryTable.Unregister` | src/main/java/net/hederamc/util/registry/Registries.java:88-93 | afterwards (class, id) is absent, all other lookups are unchanged, the class has no empty registry, other classes keep or lack their registries as before |
| `RegistryTable.UnregisterIfMatch` | src/main/java/net/hederamc/util/registry/Registries.java:104-110 | removes exactly when the value stored at (class, id) is the given one, and then acts as `Unregister`; otherwise it only prunes |
| `RegistryTable.LastWriteWins` | src/main/java/net/hederamc/util/registry/Registries.java:50 | registering twice at one place equals registering only the later value |
| `RegistryTable.RegisterKeepsTyped` | src/main/java/net/hederamc/util/registry/Registries.java:49-52 | registering a value under its own class keeps every value of the table in its own class's row |
| `RegistryTable.RegisterCommutes` | src/main/java/net/hederamc/util/registry/Registries.java:49-52 | registrations at two different (class, id) places can be done in either order |
| `RegistryTable.UnregisterUndoesRegister` | src/main/java/net/hederamc/util/registry/Registries.java:88-93 | unregistering restores the table a registration started from, if that place was free and the class had no empty registry |
| `RegistryTable.UnregisterUnchangedIff` | src/main/java/net/hederamc/util/registry/Registries.java:88-93 | unregistering leaves the table unchanged if and only if the class has no registry, or its registry lacks id and is non-empty |
| `RegistryTable.UnregisterIfMismatchUnchanged` | src/main/java/net/hederamc/util/registry/Registries.java:104-110 | when the stored value is not the given one, the conditional unregister reports false and changes nothing (given no empty registry for the class) |
| `RegistryTable.NoEmptyRowPreserved` | src/main/java/net/hederamc/util/registry/Registries.java:88-110 | register, unregister and conditional unregister keep a table with no empty registry free of empty registries |
| `RegistryTable.RegisterTwoUnregisterBoth` | src/main/java/net/cookedseafood/genericregistry/registry/Registries.java:41-74 | two values registered under a new class: removing one leaves just the other; removing both drops the class's registry and restores the table |
| `KeyRegistry.GetOrPutEntries` | src/main/java/net/hederamc/util/registry/Registry.java:48-56 | the returned value is the one stored at id afterwards; an occupied id is never overwritten and nothing else changes |
| `KeyRegistry.GetOrPutIdempotent` | src/main/java/net/hederamc/util/registry/Registry.java:48-56 | a second getOrPut at the same id, with any value, returns the first result and changes nothing |
| `KeyRegistry.Registry.constructor` | src/main/java/net/hederamc/util/registry/Registry.java:27-29 | a new registry is empty |
| `KeyRegistry.Registry.Of` | src/main/java/net/hederamc/util/registry/Registry.java:31-33 | the registry holds the given entries |
| `KeyRegistry.Registry.Size` | src/main/java/net/hederamc/util/registry/Registry.java:62-64 | the number of identifiers; zero exactly when `IsEmpty` |
| `KeyRegistry.Registry.IsEmpty` | src/main/java/net/hederamc/util/registry/Registry.java:66-68 | true iff there is no entry, which is what the outer prune step tests |
| `KeyRegistry.Registry.ContainsKey` | src/main/java/net/hederamc/util/registry/Registry.java:70-72 | true iff id has an entry, and then the value stored there is one `ContainsValue` reports |
| `KeyRegistry.Registry.ContainsValue` | src/main/java/net/hederamc/util/registry/Registry.java:74-76 | true iff some identifier maps to the value |
| `KeyRegistry.Registry.Get` | src/main/java/net/hederamc/util/registry/Registry.java:79-81 | present iff `ContainsKey(id)`; when present it is the stored value and `ContainsValue` reports it |
| `KeyRegistry.Registry.GetOrDefault` | src/main/java/net/hederamc/util/registry/Registry.java:113-115 | the value at id, or the default when id has no entry |
| `KeyRegistry.Registry.IsRegistered` | src/main/java/net/hederamc/util/registry/Registry.java:35-37 | true iff `Get(id)` finds a value |
| `KeyRegistry.Registry.IsRegisteredValue` | src/main/java/net/hederamc/util/registry/Registry.java:39-41 | true iff the value is registered at some identifier (`IsRegisteredAt`) |
| `KeyRegistry.Registry.IsRegisteredAt` | src/main/java/net/hederamc/util/registry/Registry.java:43-46 | true iff `Get(id)` finds exactly that value |
| `KeyRegistry.Registry.ContainedKeyNotEmpty` | src/main/java/net/hederamc/util/registry/Registry.java:66-72 | a registry holding some identifier is not empty and has positive size, so the prune step keeps it |
| `KeyRegistry.Registry.RegisteredAtImpliesOthers` | src/main/java/net/hederamc/util/registry/Registry.java:35-46 | a value registered at id makes both the identifier and the value registered |
| `KeyRegistry.Registry.Put` | src/main/java/net/hederamc/util/registry/Registry.java:84-86 | returns the previous value at id; afterwards the entries are the old ones with id set to the value, so `Get(id)` finds it |
| `KeyRegistry.Registry.Remove` | src/main/java/net/hederamc/util/registry/Registry.java:89-91 | returns the previous value at id; afterwards the entries are the old ones without id, so `Get(id)` finds nothing |
| `KeyRegistry.Registry.RemoveIfMatch` | src/main/java/net/hederamc/util/registry/Registry.java:129-131 | removes id and returns true exactly when the value there was the given one; otherwise changes nothing |
| `KeyRegistry.Registry.GetOrPut` | src/main/java/net/hederamc/util/registry/Registry.java:48-56 | result and new entries are those of `GetOrPutEntries`: an existing value is returned untouched, otherwise the value is stored and returned |
| `KeyRegistry.Registry.PutIfAbsent` | src/main/java/net/hederamc/util/registry/Registry.java:125-127 | returns the previous value; stores only when id was free, never overwriting |
| `KeyRegistry.Registry.Replace` | src/main/java/net/hederamc/util/registry/Registry.java:138-140 | returns the previous value; overwrites only when id was present |
| `KeyRegistry.Registry.ReplaceIfMatch` | src/main/java/net/hederamc/util/registry/Registry.java:133-135 | overwrites id and returns true exactly when the value there was the expected one; otherwise changes nothing |
| `KeyRegistry.Registry.PutAll` | src/main/java/net/hederamc/util/registry/Registry.java:93-95 | the entries become the old ones overridden by the given map |
| `KeyRegistry.Registry.Clear` | src/main/java/net/hederamc/util/registry/Registry.java:97-99 | no entry remains |
| `TypeRegistry.Registries.constructor` | src/main/java/net/hederamc/util/registry/Registries.java:290-292 | the outer map starts empty |
| `TypeRegistry.Registries.GetRegistry` | src/main/java/net/hederamc/util/registry/Registries.java:173-175 | present iff `ContainsKey(t)`; when present it is the very instance stored for the class and `ContainsValue` reports it |
| `TypeRegistry.Registries.GetOrDefault` | src/main/java/net/hederamc/util/registry/Registries.java:210-212 | the stored registry for the class, or the default instance |
| `TypeRegistry.Registries.Size` | src/main/java/net/hederamc/util/registry/Registries.java:155-157 | the number of classes with a registry; zero exactly when `IsEmpty` |
| `TypeRegistry.Registries.IsEmpty` | src/main/java/net/hederamc/util/registry/Registries.java:159-161 | true iff no class has a registry |
| `TypeRegistry.Registries.ContainsKey` | src/main/java/net/hederamc/util/registry/Registries.java:163-165 | true iff the class has a stored registry; then `ContainsValue` reports that registry |
| `TypeRegistry.Registries.ContainedClassNotEmpty` | src/main/java/net/hederamc/util/registry/Registries.java:154-165 | a class with a stored registry makes the outer map non-empty with positive size |
| `TypeRegistry.Registries.ContainsValue` | src/main/java/net/hederamc/util/registry/Registries.java:167-169 | true iff that very instance is stored under some class |
| `TypeRegistry.Registries.Get` | src/main/java/net/hederamc/util/registry/Registries.java:63-66 | the lookup of (class, id) in the table `View()`: absent when the class has no registry, changes nothing |
| `TypeRegistry.Registries.IsRegistered` | src/main/java/net/cookedseafood/genericregistry/registry/Registries.java:93-96 | true iff `Get(class, id)` finds a value, false when the class has no registry |
| `TypeRegistry.Registries.IsRegisteredValue` | src/main/java/net/cookedseafood/genericregistry/registry/Registries.java:105-108 | true iff the value's own class has a registry in which some identifier maps to the value |
| `TypeRegistry.Registries.IsRegisteredAt` | src/main/java/net/cookedseafood/genericregistry/registry/Registries.java:99-102 | true iff `Get` on the value's own class and id finds exactly that value |
| `TypeRegistry.Registries.GetType` | src/main/java/net/hederamc/util/registry/Registries.java:271-279 | a result class maps to that very instance; none is returned iff no class maps to it; with no shared instances the result is the instance's only class |
| `TypeRegistry.Registries.Put` | src/main/java/net/hederamc/util/registry/Registries.java:179-181 | returns the previous registry of the class; the outer map becomes the old one with the class set to the registry |
| `TypeRegistry.Registries.Remove` | src/main/java/net/hederamc/util/registry/Registries.java:185-187 | returns the class's registry; the outer map loses the class and nothing else |
| `TypeRegistry.Registries.RemoveIfSame` | src/main/java/net/cookedseafood/genericregistry/registry/Registries.java:183-185 | removes the class and returns true exactly when it maps to that very instance |
| `TypeRegistry.Registries.PutIfAbsent` | src/main/java/net/hederamc/util/registry/Registries.java:223-225 | returns the previous registry; stores only for a class that has none |
| `TypeRegistry.Registries.Replace` | src/main/java/net/cookedseafood/genericregistry/registry/Registries.java:191-193 | returns the previous registry; overwrites only for a class that has one |
| `TypeRegistry.Registries.ReplaceIfSame` | src/main/java/net/cookedseafood/genericregistry/registry/Registries.java:195-197 | overwrites and returns true exactly when the class maps to the expected instance |
| `TypeRegistry.Registries.PutAll` | src/main/java/net/hederamc/util/registry/Registries.java:189-191 | the outer map becomes the old one overridden by the given map on its classes |
| `TypeRegistry.Registries.PutAllEach` | src/main/java/net/cookedseafood/genericregistry/registry/Registries.java:167-169 | one put per entry leaves the outer map equal to the old one overridden by the given map |
| `TypeRegistry.Registries.Clear` | src/main/java/net/hederamc/util/registry/Registries.java:193-195 | no class keeps a registry |
| `TypeRegistry.Registries.GetOrPutWith` | src/main/java/net/hederamc/util/registry/Registries.java:131-139 | an existing registry is returned and nothing changes; otherwise the given one is stored and returned |
| `TypeRegistry.Registries.GetOrPut` | src/main/java/net/hederamc/util/registry/Registries.java:141-143 | an existing registry is returned and nothing changes; otherwise a fresh empty one is stored and returned; no instance becomes shared |
| `TypeRegistry.Registries.GetOrPutTwice` | src/main/java/net/cookedseafood/genericregistry/registry/Registries.java:148-161 | two getOrPut calls in a row for one class return the identical instance, stored for that class; an existing registry is returned with nothing changed, otherwise the first call adds one fresh empty registry for the class and nothing else |
| `TypeRegistry.Registries.RemoveIfEmpty` | src/main/java/net/hederamc/util/registry/Registries.java:146-149 | removes and returns the class's registry exactly when it exists and is empty; otherwise returns none and changes nothing |
| `TypeRegistry.Registries.UnregisterType` | src/main/java/net/hederamc/util/registry/Registries.java:75-77 | returns the class's registry and removes the class; with no shared instances the detached registry is stored nowhere, so `GetType` finds nothing for it |
| `TypeRegistry.Registries.Register` | src/main/java/net/hederamc/util/registry/Registries.java:49-52 | returns the value, which `Get` then finds at its own class and id; only that class's registry changes (a new one if there was none), last write wins; with no shared instances the table moves as `RegistryTable.Register` and every stored value stays in its own class's registry (`Typed`) |
| `TypeRegistry.Registries.Unregister` | src/main/java/net/hederamc/util/registry/Registries.java:88-93 | returns the value previously at (class, id); afterwards id is gone, the class has no empty registry, other registries are untouched; with no shared instances the table moves as `RegistryTable.Unregister`; every stored value stays in its own class's registry (`Typed`) |
| `TypeRegistry.Registries.UnregisterValue` | src/main/java/net/hederamc/util/registry/Registries.java:104-110 | returns whether the given value was at id in its class's registry and removes it only then; prunes either way; with no shared instances the table moves as `RegistryTable.UnregisterIfMatch`; every stored value stays in its own class's registry (`Typed`) |

## Left out

- The static singleton and its static initialiser: `Registries` is an ordinary object built with `classOf`, which stands for `getClass()`.
- Java generics and unchecked casts: one value type `V`; a value's class is `classOf(v)`.
- `null`: values and registries are never null. A Java `null` result is `None`. A `null` stored value (possible through the inner `put`) is not modelled, nor is the `NullPointerException` that `getClass()` throws on a null argument.
- `equals` on values is Dafny equality on `V`. `equals` is reflexive, so the source's identity test before calling `equals` adds no case. An `equals` that is not an equivalence is not modelled.
- `forEach`, `replaceAll`, `compute`, `computeIfAbsent`, `computeIfPresent` and `merge`, on both levels: each takes a Java lambda and forwards to `HashMap` without any registry behaviour.
- `keySet`, `values`, `entrySet`, `getRegistries` and `Registry.getRegistry` return live views of the underlying maps. The model exposes the maps themselves (`regs`, `m`) instead.
- `toTypesString` and `Registry.toString` format `Class.getName()`, which is reflection.
- `Registry.getActualTypeParameter` is `getType` applied to the registry through the static singleton. Without the singleton a registry has no handle on its owner; `GetType` models the lookup.
- `Registry(Map)` and `Registry.of` wrap the caller's map without copying it, so later changes through either are shared. `Registry.Of` copies the entries instead.
- `GetType`: the order in which `HashMap` iterates is not modelled. When one instance is stored under several classes, any of them may be returned.
- Concurrency: the source has none.
