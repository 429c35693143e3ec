/** The per-allocation record of the registry (`ReferenceCount<T>` behind the
    `ReferenceCounter` interface) and the deallocation that destroying it performs.

    Addresses are natural numbers and 0 stands for the null pointer. The
    template parameter and the virtual dispatch of the original collapse into
    one record with an `isArray` flag that selects the deallocation form.
 */
module Entries {

  /** One tracked allocation: its address, whether it came from `new[]`, and the
      number of handles that refer to it. */
  datatype ReferenceCount = ReferenceCount(pointer: nat, isArray: bool, referenceCount: nat)

  /** A deallocation event: `delete p` or `delete[] p`. */
  datatype Free = Delete(address: nat) | DeleteArray(address: nat)

  /** The constructor: stores the pointer and the kind, and starts with one referrer. */
  function NewEntry(p: nat, isArr: bool): (e: ReferenceCount)
    ensures e.pointer == p && e.isArray == isArr && e.referenceCount == 1
  {
    ReferenceCount(p, isArr, 1)
  }

  /** `operator ++`: one more referrer, nothing else changes. */
  function Incremented(e: ReferenceCount): (r: ReferenceCount)
    ensures r.referenceCount == e.referenceCount + 1
    ensures r.pointer == e.pointer && r.isArray == e.isArray
  {
    e.(referenceCount := e.referenceCount + 1)
  }

  /** `operator --`: one referrer fewer, nothing else changes. The registry
      only decrements counts above 1. */
  function Decremented(e: ReferenceCount): (r: ReferenceCount)
    requires e.referenceCount >= 1
    ensures r.referenceCount + 1 == e.referenceCount
    ensures r.pointer == e.pointer && r.isArray == e.isArray
  {
    e.(referenceCount := e.referenceCount - 1)
  }

  /** The destructor: frees the stored pointer once, with `delete[]` exactly
      when the entry records an array allocation. */
  function Destroy(e: ReferenceCount): (d: Free)
    ensures d.address == e.pointer
    ensures d.DeleteArray? <==> e.isArray
  {
    if e.isArray then DeleteArray(e.pointer) else Delete(e.pointer)
  }

  /** `++` and `--` undo each other. */
  lemma IncrementDecrementInverse(e: ReferenceCount)
    ensures Decremented(Incremented(e)) == e
    ensures e.referenceCount >= 1 ==> Incremented(Decremented(e)) == e
  {
  }
}
