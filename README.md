# Simple reference-counting garbage collector, modelled in Dafny

This project models the core of a reference-counting smart-pointer layer written in C++.

A central registry, `GarbageCollector`, keeps a table of entries. Each entry (`ReferenceCount`) records:
- the address of one heap allocation;
- whether that allocation is an array;
- how many smart pointers (`SPointer<T>`, `SPointer<T[]>`) refer to it.

Handles register their address when they are constructed or copied. They release it when destroyed. On assignment they release the old address and then register the new one. When an entry's count leaves 1, the registry removes the entry and frees the allocation, with `delete[]` for arrays and `delete` otherwise.

Modelling choices:
- Addresses are `nat`, and 0 is the null pointer.
- Deallocations are recorded as events (`Delete(p)` / `DeleteArray(p)`) in the registry's log `frees`.
- The answer of `new` when growing the table is the parameter `allocFails`.
- The registry throws string literals of two kinds: a failed lookup (garbage_collector.cpp:35) and a failed allocation (garbage_collector.h:98 and garbage_collector.h:108). They become the error outcomes `LookupError` and `AllocationError`. The allocation failure at garbage_collector.h:108 is left out (see "## Left out").

Files:
- `entries.dfy` (module `Entries`): the entry record. It has the constructor, `++`, `--`, and the destructor's choice of deallocation.
- `table.dfy` (module `Table`): the table as a sequence, plus:
  - the table invariant: addresses unique and non-null, every count at least 1;
  - the linear search;
  - the filter used by `Remove`.
- `registry_spec.dfy` (module `RegistrySpec`): `Add`, `Subtract`, `Remove` and handle assignment as functions of the registry state. It also holds the lemmas that state the registry's promises, among them:
  - the "count equals the number of live handles" invariant, predicate `Tracks`. Construction, copy, assignment and destruction preserve it when no allocation fails (`TracksAdd`, `TracksSubtract`, `TracksAssign`). It is not claimed across `MemberwiseCopy`, which the registry does not count;
  - a release frees an address once, with its entry's kind, exactly when its last live handle goes (`TracksSubtract`). Two paths free an address twice: self-assigning its sole handle and then destroying that handle (`SelfAssignThenDestroyFreesTwice`), and self-assigning its sole handle when the re-registration's allocation fails (`SelfAssignFailedAllocFreesTwice`). When the allocation fails during an assignment to a new address, the handle is left holding an address that has been freed and that the registry no longer counts (`AssignFailedAllocUntracked`).
- `collector.dfy` (module `Collector`): the imperative model.
  - Class `GarbageCollector` has the fields `table: array?`, `count` and `frees`, with the loops of `SearchArray`, `Append` and `Remove`.
  - Class `SPointer` covers both handle variants. Its `isArray` field is the kind the handle registers and frees with. It is false for every `SPointer<T>`. It is true for an `SPointer<T[]>` that is null or built from a raw pointer. It is false for an `SPointer<T[]>` built from an `SPointer<T>` (garbage_collector.h:236-238), because that constructor copies the scalar handle's flag.
  - Each method is proved against the `RegistrySpec` functions.

Behaviours of the code that the model keeps as written:
- Assignment calls `Subtract` before `Add` (garbage_collector.h:181-183). Self-assigning the only handle to an allocation therefore frees it and then registers the freed address again; `SelfAssignSoleReferrer` states this. Destroying that handle afterwards frees the re-registered address a second time; `SelfAssignThenDestroyFreesTwice` states this. This is recorded under "## Findings", and the handle methods keep the source's order.
- `Add` on a registered address never compares the stored kind with the one passed in (garbage_collector.h:125-129); see `AddIgnoresKind`.
- The doc comment of `Subtract` (garbage_collector.h:137-138) says the entry is removed once its count drops to 0. The code removes an entry whose count is 1, without decrementing it first (garbage_collector.cpp:40-43). The model follows the code.

## Model

| member | source | states |
|---|---|---|
| `Entries.NewEntry` | garbage_collector.h:40 | a new entry holds the given pointer and kind and starts at count 1 |
| `Entries.Incremented` | garbage_collector.h:51 | `++` raises the count by exactly one; pointer and kind are unchanged |
| `Entries.Decremented` | garbage_collector.h:54 | `--` lowers a positive count by exactly one; pointer and kind are unchanged |
| `Entries.Destroy` | garbage_collector.h:58-68 | destroying an entry frees its own pointer once, with array deallocation if and only if `isArray` is set |
| `Entries.IncrementDecrementInverse` | garbage_collector.h:50-54 | `++` and `--` undo each other |
| `Table.Find` | garbage_collector.cpp:7-12 | the search returns the first position holding the key, or nothing exactly when no entry holds it |
| `Table.FindUnique` | garbage_collector.cpp:7-12 | with unique addresses, the search finds a registered address at its own entry |
| `Table.WithoutAbsent` | garbage_collector.cpp:23-25 | the filtering loop keeps a table without the removed entry as it is |
| `Table.WithoutDropsOne` | garbage_collector.cpp:22-28 | `Remove`'s rebuild drops exactly the given entry and keeps the others in their original relative order |
| `Table.WellformedDropOne` | garbage_collector.cpp:22-28 | dropping one entry keeps addresses unique and non-null and counts at least 1 |
| `RegistrySpec.Initial` | garbage_collector.cpp:4-5 | the registry starts with an empty, well-formed table in which no address is registered or counted, and nothing freed |
| `RegistrySpec.Append` | garbage_collector.h:92-112 | the outcome is `Done` exactly when the allocation succeeds; on success the table is the old one followed by a new count-1 entry of the given kind and nothing is freed; on failure the table is unchanged, the pointer is freed once and the allocation error is raised (see also `AddAppendsNew`, `AddAllocationFailure`) |
| `RegistrySpec.Add` | garbage_collector.h:118-130 | null is a no-op; `Add` fails exactly when a new non-null address cannot be appended, and then raises the allocation error with the table unchanged; a success frees nothing; the table grows by one exactly for a new address (per-entry meaning in `AddIncrementsExisting`, `AddCounts`, `AddPreservesWellformed`) |
| `RegistrySpec.Remove` | garbage_collector.cpp:14-29 | the new table holds exactly the old entries other than the removed one and is shorter; the log gains the removed entry's own deallocation (order and invariant in `WithoutDropsOne`, `WellformedDropOne`, `RemoveLastEmpties`) |
| `RegistrySpec.Subtract` | garbage_collector.cpp:31-45 | null is a no-op; `Subtract` raises the lookup error, changing nothing, exactly when a non-null address is unregistered; otherwise it frees nothing or exactly the found entry's deallocation, and never grows the table (per-count meaning in `SubtractShared`, `SubtractLast`, `SubtractCounts`) |
| `RegistrySpec.Assign` | garbage_collector.h:179-197 | assignment raises the lookup error, leaving the registry unchanged, exactly when the held address is non-null and unregistered; an allocation error always comes with a freed pointer (counts in `AssignDistinct`, `TracksAssign`, `SelfAssignShared`, `SelfAssignSoleReferrer`) |
| `Table.Without` | garbage_collector.cpp:22-25 | the filter keeps exactly the entries different from the removed one, is no longer than its input, and is shorter when the removed entry occurs (exact shape in `WithoutDropsOne`, `WithoutAbsent`) |
| `RegistrySpec.EntryOf` | garbage_collector.cpp:33 | the entry found for a registered address is in the table and holds that address |
| `RegistrySpec.FailureFree` | garbage_collector.h:94-98 | the corrected failure path frees the incoming pointer the way its entry's destructor would |
| `RegistrySpec.AddIgnoresNull` | garbage_collector.h:120 | `Add` of null leaves table, log and outcome untouched |
| `RegistrySpec.AddAppendsNew` | garbage_collector.h:122-124 | `Add` of an unregistered address appends one last entry with count 1 and the given kind; earlier entries keep positions and counts; nothing is freed |
| `RegistrySpec.AddAllocationFailure` | garbage_collector.h:94-98 | when the enlarged table cannot be allocated, the table is unchanged, the incoming pointer is freed once and the allocation error is raised |
| `RegistrySpec.AddIncrementsExisting` | garbage_collector.h:125-129 | `Add` of a registered address increments only that entry; length, other entries and the stored kind are unchanged |
| `RegistrySpec.AddIgnoresKind` | garbage_collector.h:125-129 | on a registered address the kind passed to `Add` makes no difference |
| `RegistrySpec.AddPreservesWellformed` | garbage_collector.h:118-130 | `Add` preserves the table invariant |
| `RegistrySpec.SubtractIgnoresNull` | garbage_collector.cpp:32 | `Subtract` of null is a no-op |
| `RegistrySpec.SubtractUnknown` | garbage_collector.cpp:33-35 | `Subtract` of an unregistered non-null address raises the lookup error, changes no count and frees nothing |
| `RegistrySpec.SubtractShared` | garbage_collector.cpp:40-41 | on a count above 1, only that entry is decremented; nothing is freed; the length is unchanged |
| `RegistrySpec.SubtractLast` | garbage_collector.cpp:42-43 | on a count of 1, the entry is removed, the table shrinks by exactly that entry, and its address is freed once with its kind |
| `RegistrySpec.RemoveLastEmpties` | garbage_collector.cpp:16-21 | removing the only entry leaves the initial empty table |
| `RegistrySpec.SubtractPreservesWellformed` | garbage_collector.cpp:31-45 | `Subtract` preserves the table invariant |
| `RegistrySpec.CountAt` | garbage_collector.cpp:7-12 | in a table with unique addresses, an address's count is its entry's count |
| `RegistrySpec.CountAfterAppend` | garbage_collector.h:104 | appending a new entry gives its address the new count and leaves every other count alone |
| `RegistrySpec.CountAfterUpdate` | garbage_collector.h:127 | rewriting one entry in place changes only that address's count |
| `RegistrySpec.CountAfterDrop` | garbage_collector.cpp:22-28 | dropping an entry sets its address's count to 0 and leaves every other count alone |
| `RegistrySpec.AddCounts` | garbage_collector.h:118-130 | a successful `Add` of a non-null address raises its count by one, leaves every other count alone and frees nothing |
| `RegistrySpec.SubtractCounts` | garbage_collector.cpp:31-45 | `Subtract` of a registered address lowers its count by one and leaves the others alone; it frees that address with its kind exactly when its count was 1 |
| `RegistrySpec.TracksInitial` | garbage_collector.cpp:4-5 | the initial empty registry tracks the empty set of live handles |
| `RegistrySpec.TracksAdd` | garbage_collector.h:164-173 | constructing or copying a handle keeps each address's count equal to the number of live handles holding it, when the address is null, already held by a live handle, or allocation succeeds |
| `RegistrySpec.TracksSubtract` | garbage_collector.h:210 | destroying a live handle keeps counts equal to live handles; the address is freed, once and with its kind, exactly when that was its last handle |
| `RegistrySpec.TracksSubtractUnknown` | garbage_collector.cpp:33-35 | releasing a non-null address that no live handle holds raises the lookup error, changes no count and frees nothing |
| `RegistrySpec.TracksAssign` | garbage_collector.h:179-197 | assignment keeps counts equal to live handles, the handle moving from the old address to the new, when the new address is null, held by another live handle, or allocation succeeds |
| `RegistrySpec.AssignDistinct` | garbage_collector.h:191-197 | between distinct non-null addresses, when the new address is registered or allocation succeeds, assignment drops the old count by one (freed at 1) and raises the new count by one (a new entry when unregistered), leaving other counts alone |
| `RegistrySpec.SelfAssignShared` | garbage_collector.h:179-185 | self-assignment of a shared address leaves the registry exactly as it was |
| `RegistrySpec.SelfAssignSoleReferrer` | garbage_collector.h:181-183 | self-assignment of the sole referrer frees the allocation, then registers the freed address again with count 1 as the last entry |
| `RegistrySpec.SelfAssignThenDestroyFreesTwice` | garbage_collector.h:181-183 | with one live handle, self-assignment keeps the count equal to the live handles, yet destroying the handle afterwards leaves an empty table and a log that frees the address twice |
| `RegistrySpec.SelfAssignFailedAllocFreesTwice` | garbage_collector.h:193-195 | self-assigning the sole handle while the re-registration's allocation fails frees the address twice in one assignment and raises the allocation error, leaving an empty table |
| `RegistrySpec.AssignFailedAllocUntracked` | garbage_collector.h:193-195 | assigning the sole handle of `a` to a distinct, unregistered `b` while allocation fails frees both `a` and `b`, raises the allocation error and leaves `b` with count 0 although the handle holds it |
| `RegistrySpec.AssignAddFirst` | garbage_collector.h:181-183 | the corrected assignment: an allocation error leaves the table unchanged, and the lookup error is raised exactly when the registration succeeded and the held address is non-null and unregistered afterwards |
| `RegistrySpec.SelfAssignAddFirstUnchanged` | garbage_collector.h:181-183 | with `Add` first, self-assignment of a null or registered address leaves the registry exactly as it was, for any count and any allocation answer |
| `RegistrySpec.TracksAssignAddFirst` | garbage_collector.h:181-183 | with `Add` first, assignment keeps counts equal to live handles whenever the new address is null, already held by a live handle, or allocation succeeds; self-assignment frees nothing |
| `RegistrySpec.CopyThenDestroy` | GC_test.cpp:68-76 | handle, copy, destroy both: no step raises, counts run 1, 2, 1, then one scalar deallocation and an empty table |
| `RegistrySpec.FailureFreeAsWritten` | garbage_collector.h:97 | the failure path as written always frees with scalar `delete` |
| `RegistrySpec.FailureFreeAsWrittenMismatch` | garbage_collector.h:97 | the failure path as written frees an array allocation with scalar `delete` |
| `RegistrySpec.FailureFreeMatchesKind` | garbage_collector.h:94-98 | the corrected failure path frees the incoming pointer with `delete[]` exactly for arrays |
| `Collector.GarbageCollector.constructor` | garbage_collector.cpp:4-5 | the registry starts with `array` null, `count` 0 and nothing freed |
| `Collector.GarbageCollector.SearchArray` | garbage_collector.cpp:7-12 | the scan returns the first position holding the pointer, or none exactly when it is unregistered; it changes nothing |
| `Collector.GarbageCollector.Append` | garbage_collector.h:92-112 | the copying loop produces the old entries followed by the new one with count 1; on allocation failure the table is unchanged and the pointer freed |
| `Collector.GarbageCollector.Add` | garbage_collector.h:119-130 | the registry's new state and outcome are those of `RegistrySpec.Add`, and the invariant is kept |
| `Collector.GarbageCollector.Remove` | garbage_collector.cpp:14-29 | the entry is freed, the table is rebuilt without it, `count` drops by one, and removing the last entry restores `array` null and `count` 0 |
| `Collector.GarbageCollector.CopyWithout` | garbage_collector.cpp:22-25 | the two-index loop yields a table one shorter holding every other entry in order |
| `Collector.GarbageCollector.Subtract` | garbage_collector.cpp:31-45 | the registry's new state and outcome are those of `RegistrySpec.Subtract`, and the invariant is kept |
| `Collector.SPointer.constructor` | garbage_collector.h:159 | the default scalar handle is null and touches no registry |
| `Collector.SPointer.NullArray` | garbage_collector.h:225 | the default array handle is null, of array kind, and touches no registry |
| `Collector.SPointer.Fields` | garbage_collector.h:164 | the member initialisers store the pointer and the kind |
| `Collector.SPointer.MemberwiseCopy` | garbage_collector.h:216-221 | the array handle's compiler-generated copy copies both fields and calls no `Add` |
| `Collector.SPointer.FromPointer` | garbage_collector.h:164-167 | construction from a pointer holds it with the variant's kind and calls `Add` exactly once; the same holds for the array variant at garbage_collector.h:230-233 |
| `Collector.SPointer.Copy` | garbage_collector.h:170-173 | the scalar copy constructor copies both fields and calls `Add` exactly once; the same holds for the array variant's constructor from a scalar handle at garbage_collector.h:236-238 |
| `Collector.SPointer.AssignFrom` | garbage_collector.h:179-185 | `Subtract` of the old pointer, then (unless it raised) the other handle's pointer is stored and `Add`ed with this handle's kind; the same holds at garbage_collector.h:244-250 |
| `Collector.SPointer.AssignPointer` | garbage_collector.h:191-197 | `Subtract` of the old pointer, then (unless it raised) `p` is stored and `Add`ed with this handle's kind; the same holds at garbage_collector.h:256-262 |
| `Collector.SPointer.Destroy` | garbage_collector.h:210 | destruction calls `Subtract` on the held pointer; the same holds at garbage_collector.h:275 |
| `Collector.CopyThenDestroyClient` | GC_test.cpp:68-76 | through the class methods: no operation raises, and exactly one scalar deallocation of the address is logged |

## Findings

| source | as written | input that shows it | evidently intended | confidence | as-written member | corrected member |
|---|---|---|---|---|---|---|
| garbage_collector.h:97 | when growing the table fails, `Append` frees the incoming pointer with scalar `delete ref`, whatever `isArray` says | `Add(p, true)` for an unregistered array allocation `p` while `new ReferenceCounter*[count + 1]` throws: the array is released with `delete`, which is undefined behaviour | free with `delete[]` for array allocations, as the entry's destructor does (garbage_collector.h:59-67) | high (not executed) | `RegistrySpec.FailureFreeAsWritten`, shown by `RegistrySpec.FailureFreeAsWrittenMismatch` | `RegistrySpec.FailureFree`, proved by `RegistrySpec.FailureFreeMatchesKind`; used by `Append` |
| garbage_collector.h:181-183 | `operator =` calls `Subtract` on the held pointer before `Add` on the new one | self-assign the only handle to `a`, then destroy it: `Subtract` frees `a`, `Add` registers the freed `a` again, and the destructor (garbage_collector.h:210) frees `a` a second time; with a failing allocation the second free happens inside the assignment (garbage_collector.h:94-98) | self-assignment leaves the registry unchanged, as `Add` before `Subtract` gives | high (not executed) | `RegistrySpec.Assign`, shown by `RegistrySpec.SelfAssignThenDestroyFreesTwice` and `RegistrySpec.SelfAssignFailedAllocFreesTwice` | `RegistrySpec.AssignAddFirst`, proved by `RegistrySpec.SelfAssignAddFirstUnchanged` and `RegistrySpec.TracksAssignAddFirst` |

## Left out

- `DEBUG_MODE` console tracing is left out. It is output only.
- The contents of allocations are left out, and so are `operator T*` and `operator ->`, which only return the stored pointer.
- Cascading destruction is left out. Freeing a node or a row array runs the destructors of the handles inside it, which re-enter the registry. A deallocation is modelled as a logged event only.
- The second allocation-failure path of `Append` (garbage_collector.h:103-108) is left out. Only the failure of allocating the enlarged table is modelled.
- The allocation of the rebuilt table in `Remove` (garbage_collector.cpp:22) is modelled as always succeeding.
- The menu program GC_test.cpp is left out, except for its copy-then-destroy scenario.
- RegistrySpec.AssignAddFirst: the handle methods `AssignFrom` and `AssignPointer` keep the source's order, `Subtract` before `Add`, and are proved against `RegistrySpec.Assign`. The corrected order is stated and proved on the registry functions only, so the double free of the self-assignment finding stays observable in the model.
- Entries are stored by value, not as separately allocated objects. `Remove`'s identity comparison becomes equality of entries, which picks out the same entry because addresses are unique.
- Counts are unbounded naturals. `size_t` wrap-around is not modelled; counts stay bounded by the number of handles.
- Entries.Decremented: requires a positive count instead of modelling `size_t` wrap-around at 0. The registry only decrements counts above 1.
- Handle construction that calls `Add` is a static method that returns the new handle together with the outcome, because a Dafny constructor cannot report one. In the source, a constructor that throws leaves no object behind. Here the caller receives the handle and must discard it on failure.
- An error raised by `Subtract` inside `~SPointer` is returned as an outcome. The source throws from the destructor, and the C++ runtime would then terminate the program.
- Collector.SPointer.MemberwiseCopy: the registry does not count this copy, so `Tracks` (count equals live handles) is not claimed across it.
- Collector.SPointer.Copy: as the array variant's constructor from a scalar handle (garbage_collector.h:236-238) it yields an `SPointer<T[]>` whose `isArray` is false. Such a handle is indistinguishable from a scalar one, and later assignments register with scalar kind. GC_test.cpp never uses that constructor, and as written it reads private fields of `SPointer<T>` without a friend declaration, so it could not be instantiated.
- RegistrySpec.Append: on allocation failure it frees the pointer with the corrected, kind-matching `FailureFree`, not with the scalar `delete` written at garbage_collector.h:97 (see Findings). `RegistrySpec.Add`, `Collector.GarbageCollector.Append` and every handle method that registers inherit this choice.
- Collector.GarbageCollector.Append: on allocation failure it frees the pointer with the corrected, kind-matching `FailureFree`, not with the scalar `delete` written at garbage_collector.h:97 (see Findings).
- RegistrySpec.AddAllocationFailure: it states the corrected, kind-matching deallocation, not the scalar `delete` written at garbage_collector.h:97 (see Findings).
- The template parameter and virtual dispatch are left out. Both handle variants are one class with an `isArray` field. The entry variants are one record with a kind flag.
- The code has no concurrency, so none is modelled. The static registry is one object passed to every handle operation.
