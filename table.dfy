/** The registry's table as a value: the sequence of entries in the order the
    registry stores them, the lookup it performs by linear scan, and the
    filtering that `Remove` performs when it rebuilds the table.
 */
module Table {
  import opened Entries

  datatype Option<T> = None | Some(value: T)

  /** Some entry of `t` records address `p`. */
  ghost predicate Registered(t: seq<ReferenceCount>, p: nat) {
    exists i :: 0 <= i < |t| && t[i].pointer == p
  }

  /** No two entries record the same address. */
  ghost predicate UniquePointers(t: seq<ReferenceCount>) {
    forall i, j :: 0 <= i < j < |t| ==> t[i].pointer != t[j].pointer
  }

  /** The table invariant: addresses are unique and non-null, and every
      stored count is at least 1. */
  ghost predicate Wellformed(t: seq<ReferenceCount>) {
    && (forall i :: 0 <= i < |t| ==> t[i].pointer != 0 && t[i].referenceCount >= 1)
    && UniquePointers(t)
  }

  /** The position of the first entry whose address is `p`, if any. */
  function Find(t: seq<ReferenceCount>, p: nat): (r: Option<nat>)
    ensures r.Some? ==> r.value < |t| && t[r.value].pointer == p
    ensures r.Some? ==> forall j :: 0 <= j < r.value ==> t[j].pointer != p
    ensures r.None? <==> !Registered(t, p)
  {
    if |t| == 0 then None
    else if t[0].pointer == p then Some(0)
    else match Find(t[1..], p)
      case None => None
      case Some(k) => Some(k + 1)
  }

  /** The number of referrers the table records for `p`; 0 when unregistered. */
  function CountOf(t: seq<ReferenceCount>, p: nat): nat {
    match Find(t, p)
    case None => 0
    case Some(k) => t[k].referenceCount
  }

  /** The entries of `t` other than `e`, in their original order (the filter
      of `Remove`, which compares every entry with the one being removed). */
  function Without(t: seq<ReferenceCount>, e: ReferenceCount): (r: seq<ReferenceCount>)
    ensures forall x :: x in r <==> x in t && x != e
    ensures e in t ==> |r| < |t|
    ensures |r| <= |t|
  {
    if t == [] then []
    else Without(t[..|t| - 1], e) + (if t[|t| - 1] != e then [t[|t| - 1]] else [])
  }

  /** With unique addresses, a registered address is found exactly at its entry. */
  lemma FindUnique(t: seq<ReferenceCount>, k: nat)
    requires UniquePointers(t) && k < |t|
    ensures Find(t, t[k].pointer) == Some(k)
  {
  }

  /** Filtering out an entry that does not occur leaves the table as it is. */
  lemma {:induction false} WithoutAbsent(t: seq<ReferenceCount>, e: ReferenceCount)
    requires forall i :: 0 <= i < |t| ==> t[i] != e
    ensures Without(t, e) == t
  {
    if t != [] {
      WithoutAbsent(t[..|t| - 1], e);
      assert t[..|t| - 1] + [t[|t| - 1]] == t;
    }
  }

  /** With unique addresses, filtering out entry `k` drops exactly that entry
      and keeps every other entry in its original relative order. */
  lemma {:induction false} WithoutDropsOne(t: seq<ReferenceCount>, k: nat)
    requires UniquePointers(t) && k < |t|
    ensures Without(t, t[k]) == t[..k] + t[k + 1..]
  {
    var n := |t| - 1;
    if k == n {
      WithoutAbsent(t[..n], t[k]);
    } else {
      WithoutDropsOne(t[..n], k);
      assert t[..n][..k] == t[..k];
      assert t[..n][k + 1..] + [t[n]] == t[k + 1..];
    }
  }

  /** Removing one entry of a well-formed table keeps it well-formed. */
  lemma WellformedDropOne(t: seq<ReferenceCount>, k: nat)
    requires Wellformed(t) && k < |t|
    ensures Wellformed(t[..k] + t[k + 1..])
  {
    var r := t[..k] + t[k + 1..];
    forall i | 0 <= i < |r|
      ensures r[i] == t[if i < k then i else i + 1]
    {
    }
  }
}
