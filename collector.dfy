/** The registry and the smart-pointer handles as the program runs them: the
    static state of `GarbageCollector` becomes one object that every handle
    operation is given, and `SPointer<T>` / `SPointer<T[]>` become one handle
    class whose `isArray` field tells the two variants apart. Each method is
    proved against the functions of module RegistrySpec.

    The allocator's answer to `new` (whether growing the table fails) is the
    parameter `allocFails`; a raw allocation is its address, a positive number.
 */
module Collector {
  import opened Entries
  import opened Table
  import opened RegistrySpec

  class GarbageCollector {
    /** The table of entries (`array`); null exactly when it is empty. */
    var table: array?<ReferenceCount>
    /** The number of entries (`count`). */
    var count: nat
    /** Every deallocation the registry has performed, in order. */
    var frees: seq<Free>

    ghost predicate Valid()
      reads this, table
    {
      && (table == null <==> count == 0)
      && (table != null ==> table.Length == count)
      && Wellformed(Contents())
    }

    ghost function Contents(): seq<ReferenceCount>
      reads this, table
    {
      if table == null then [] else table[..]
    }

    ghost function Abstract(): State
      reads this, table
    {
      State(Contents(), frees)
    }

    /** The static initialisation: `array = NULL`, `count = 0`. */
    constructor ()
      ensures Valid() && table == null && count == 0
      ensures Abstract() == Initial()
    {
      table := null;
      count := 0;
      frees := [];
    }

    /** The linear scan: the position of the first entry holding `p`, or none.
        The table is not modified. */
    method SearchArray(p: nat) returns (r: Option<nat>)
      requires Valid()
      ensures r == Find(Contents(), p)
      ensures r.Some? ==> r.value < count && table[r.value].pointer == p
      ensures r.None? <==> !Registered(Contents(), p)
    {
      for i := 0 to count
        invariant forall j :: 0 <= j < i ==> table[j].pointer != p
      {
        if table[i].pointer == p {
          return Some(i);
        }
      }
      return None;
    }

    /** Grow the table by one entry for `p`, copying the old entries across;
        on allocation failure free `p` and raise the allocation error. */
    method Append(p: nat, isArray: bool, allocFails: bool) returns (o: Outcome)
      requires Valid() && p != 0 && !Registered(Contents(), p)
      modifies this
      ensures Valid()
      ensures Step(Abstract(), o) == RegistrySpec.Append(old(Abstract()), p, isArray, allocFails)
      ensures table == old(table) || fresh(table)
    {
      if allocFails {
        frees := frees + [FailureFree(p, isArray)];
        return Failed(AllocationError);
      }
      var uj := new ReferenceCount[count + 1];
      for i := 0 to count
        invariant forall j :: 0 <= j < i ==> uj[j] == table[j]
        modifies uj
      {
        uj[i] := table[i];
      }
      uj[count] := NewEntry(p, isArray);
      assert uj[..] == Contents() + [NewEntry(p, isArray)];
      count := count + 1;
      table := uj;
      return Done;
    }

    /** Register one more reference to `p`. */
    method Add(p: nat, isArray: bool, allocFails: bool) returns (o: Outcome)
      requires Valid()
      modifies this, table
      ensures Valid()
      ensures Step(Abstract(), o) == RegistrySpec.Add(old(Abstract()), p, isArray, allocFails)
      ensures table == old(table) || fresh(table)
    {
      ghost var s := Abstract();
      if p == 0 {
        return Done;
      }
      var res := SearchArray(p);
      if res.None? {
        o := Append(p, isArray, allocFails);
      } else {
        var k := res.value;
        table[k] := Incremented(table[k]);
        assert Contents() == s.table[k := Incremented(s.table[k])];
        AddPreservesWellformed(s, p, isArray, allocFails);
        o := Done;
      }
    }

    /** Destroy the entry `ref` (freeing its allocation) and rebuild the table
        without it; the last entry's removal releases the table itself. */
    method Remove(ref: ReferenceCount)
      requires Valid() && ref in Contents()
      modifies this
      ensures Valid()
      ensures Abstract() == RegistrySpec.Remove(old(Abstract()), ref)
      ensures count + 1 == old(count)
      ensures old(count) == 1 ==> table == null && count == 0
      ensures table == null || fresh(table)
    {
      ghost var t := Contents();
      ghost var k :| 0 <= k < |t| && t[k] == ref;
      WithoutDropsOne(t, k);
      WellformedDropOne(t, k);
      frees := frees + [Destroy(ref)];
      assert forall m :: 0 <= m < count && m != k ==> table[m] != ref;
      if count == 1 {
        assert Without(t[..0], ref) == [];
        table := null;
        count := 0;
        return;
      }
      var uj := CopyWithout(table, ref, k);
      table := uj;
      count := count - 1;
    }

    /** The rebuilding loop of `Remove`: a new table of one entry fewer holding,
        in order, every entry of `arr` other than `ref`. */
    static method CopyWithout(arr: array<ReferenceCount>, ref: ReferenceCount, ghost k: nat)
      returns (uj: array<ReferenceCount>)
      requires k < arr.Length && arr[k] == ref
      requires forall m :: 0 <= m < arr.Length && m != k ==> arr[m] != ref
      ensures fresh(uj) && uj.Length + 1 == arr.Length
      ensures uj[..] == Without(arr[..], ref)
    {
      ghost var t := arr[..];
      uj := new ReferenceCount[arr.Length - 1];
      var i, j := 0, 0;
      while i < arr.Length
        invariant 0 <= i <= arr.Length
        invariant j == if i <= k then i else i - 1
        invariant uj[..j] == Without(t[..i], ref)
      {
        assert t[..i + 1][..i] == t[..i];
        if arr[i] != ref {
          uj[j] := arr[i];
          j := j + 1;
        }
        i := i + 1;
      }
      assert t[..arr.Length] == t;
    }

    /** Release one reference to `p`. */
    method Subtract(p: nat) returns (o: Outcome)
      requires Valid()
      modifies this, table
      ensures Valid()
      ensures Step(Abstract(), o) == RegistrySpec.Subtract(old(Abstract()), p)
      ensures table == null || table == old(table) || fresh(table)
    {
      ghost var s := Abstract();
      if p == 0 {
        return Done;
      }
      var res := SearchArray(p);
      if res.None? {
        return Failed(LookupError);
      }
      var k := res.value;
      if table[k].referenceCount > 1 {
        table[k] := Decremented(table[k]);
        assert Contents() == s.table[k := Decremented(s.table[k])];
        SubtractPreservesWellformed(s, p);
      } else {
        Remove(table[k]);
      }
      return Done;
    }
  }

  /** A smart pointer of either variant. `isArray` is the kind the handle
      registers and frees with: false for every `SPointer<T>`, true for an
      `SPointer<T[]>` built from a raw pointer or null, and false for an
      `SPointer<T[]>` built from an `SPointer<T>` (see `Copy`), which is then
      indistinguishable from a scalar handle. */
  class SPointer {
    var pointer: nat
    var isArray: bool

    /** `SPointer<T>()`: null, scalar kind; the registry is not touched. */
    constructor ()
      ensures pointer == 0 && !isArray
    {
      pointer := 0;
      isArray := false;
    }

    /** `SPointer<T[]>()`: null, array kind; the registry is not touched. */
    constructor NullArray()
      ensures pointer == 0 && isArray
    {
      pointer := 0;
      isArray := true;
    }

    /** Only the member-initialiser step of `FromPointer` and `Copy`: it sets
        the two fields and does not register anything; those two methods
        perform the `Add` that the constructor bodies do. */
    constructor Fields(p: nat, isArr: bool)
      ensures pointer == p && isArray == isArr
    {
      pointer := p;
      isArray := isArr;
    }

    /** The compiler-generated copy of `SPointer<T[]>`: the fields are copied and
        the registry is NOT told, so the copy is not counted. */
    constructor MemberwiseCopy(src: SPointer)
      ensures pointer == src.pointer && isArray == src.isArray
    {
      pointer := src.pointer;
      isArray := src.isArray;
    }

    /** `SPointer<T>(T* p)` (isArr false) and `SPointer<T[]>(T* p)` (isArr true):
        hold `p` and `Add` it once. */
    static method FromPointer(gc: GarbageCollector, p: nat, isArr: bool, allocFails: bool)
      returns (h: SPointer, o: Outcome)
      requires gc.Valid()
      modifies gc, gc.table
      ensures fresh(h) && h.pointer == p && h.isArray == isArr
      ensures gc.Valid() && (gc.table == old(gc.table) || fresh(gc.table))
      ensures Step(gc.Abstract(), o) == RegistrySpec.Add(old(gc.Abstract()), p, isArr, allocFails)
    {
      h := new SPointer.Fields(p, isArr);
      o := gc.Add(h.pointer, h.isArray, allocFails);
    }

    /** The copy constructor of `SPointer<T>`, and the constructor of `SPointer<T[]>`
        from an `SPointer<T>`: copy both fields of the scalar handle `src` and
        `Add` its address once. The array variant built this way therefore
        carries `isArray` false. */
    static method Copy(gc: GarbageCollector, src: SPointer, allocFails: bool)
      returns (h: SPointer, o: Outcome)
      requires gc.Valid() && !src.isArray
      modifies gc, gc.table
      ensures fresh(h) && h.pointer == src.pointer && h.isArray == src.isArray
      ensures gc.Valid() && (gc.table == old(gc.table) || fresh(gc.table))
      ensures Step(gc.Abstract(), o) == RegistrySpec.Add(old(gc.Abstract()), src.pointer, src.isArray, allocFails)
    {
      h := new SPointer.Fields(src.pointer, src.isArray);
      o := gc.Add(h.pointer, h.isArray, allocFails);
    }

    /** `operator =(SPointer& other)`: `Subtract` the held address; unless that
        raised, hold `other`'s address and `Add` it with this handle's kind. */
    method AssignFrom(gc: GarbageCollector, other: SPointer, allocFails: bool) returns (o: Outcome)
      requires gc.Valid()
      modifies this, gc, gc.table
      ensures gc.Valid() && isArray == old(isArray)
      ensures gc.table == null || gc.table == old(gc.table) || fresh(gc.table)
      ensures Step(gc.Abstract(), o)
           == Assign(old(gc.Abstract()), old(pointer), old(other.pointer), isArray, allocFails)
      ensures pointer
           == if Subtract(old(gc.Abstract()), old(pointer)).outcome.Failed? then old(pointer)
              else old(other.pointer)
    {
      o := gc.Subtract(pointer);
      if o.Failed? {
        return;
      }
      pointer := other.pointer;
      o := gc.Add(other.pointer, isArray, allocFails);
    }

    /** `operator =(T* p)`: `Subtract` the held address; unless that raised, hold
        `p` and `Add` it with this handle's kind. */
    method AssignPointer(gc: GarbageCollector, p: nat, allocFails: bool) returns (o: Outcome)
      requires gc.Valid()
      modifies this, gc, gc.table
      ensures gc.Valid() && isArray == old(isArray)
      ensures gc.table == null || gc.table == old(gc.table) || fresh(gc.table)
      ensures Step(gc.Abstract(), o) == Assign(old(gc.Abstract()), old(pointer), p, isArray, allocFails)
      ensures pointer
           == if Subtract(old(gc.Abstract()), old(pointer)).outcome.Failed? then old(pointer) else p
    {
      o := gc.Subtract(pointer);
      if o.Failed? {
        return;
      }
      pointer := p;
      o := gc.Add(p, isArray, allocFails);
    }

    /** `~SPointer()`: `Subtract` the held address. */
    method Destroy(gc: GarbageCollector) returns (o: Outcome)
      requires gc.Valid()
      modifies gc, gc.table
      ensures gc.Valid() && (gc.table == null || gc.table == old(gc.table) || fresh(gc.table))
      ensures Step(gc.Abstract(), o) == Subtract(old(gc.Abstract()), pointer)
    {
      o := gc.Subtract(pointer);
    }
  }

  /** A handle `a` to a new scalar at address `p`, a copy `b` of it, then `b`
      and `a` destroyed in turn: no operation raises, and exactly one scalar
      deallocation of `p` is performed, at the end. */
  method CopyThenDestroyClient(p: nat) returns (log: seq<Free>, outcomes: seq<Outcome>)
    requires p != 0
    ensures log == [Delete(p)]
    ensures outcomes == [Done, Done, Done, Done]
  {
    CopyThenDestroy(p);
    ghost var r1 := RegistrySpec.Add(Initial(), p, false, false);
    ghost var r2 := RegistrySpec.Add(r1.state, p, false, false);
    ghost var r3 := Subtract(r2.state, p);
    var gc := new GarbageCollector();
    var a, o1 := SPointer.FromPointer(gc, p, false, false);
    assert Step(gc.Abstract(), o1) == r1;
    var b, o2 := SPointer.Copy(gc, a, false);
    assert Step(gc.Abstract(), o2) == r2;
    var o3 := b.Destroy(gc);
    assert Step(gc.Abstract(), o3) == r3;
    var o4 := a.Destroy(gc);
    log := gc.frees;
    outcomes := [o1, o2, o3, o4];
  }
}
