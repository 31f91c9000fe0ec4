/** The manifest list of the xcpio engine: a growable array of filenames
    that keeps insertion order and grows sixteen slots at a time. */
module FileList {

  /** How many slots `file_list_add_entry` adds when the array is full. */
  const GrowBy: nat := 16

  /** The capacity after one successful `file_list_add_entry` on a list
      holding `nentries` names in `nsize` slots. */
  function NextCapacity(nentries: nat, nsize: nat): (c: nat)
    requires nentries <= nsize
    ensures nentries < c
    ensures c == nsize || (nentries == nsize && c == nsize + GrowBy)
  {
    if nentries == nsize then nsize + GrowBy else nsize
  }

  /** The capacity of a list created empty after `k` successful adds. */
  function CapacityAfter(k: nat): (c: nat)
    ensures k <= c
  {
    if k == 0 then 0 else NextCapacity(k - 1, CapacityAfter(k - 1))
  }

  /** Growing sixteen at a time, the capacity is always `k` rounded up to
      a multiple of sixteen: never more than fifteen unused slots. */
  lemma {:induction false} CapacityIsRoundedUp(k: nat)
    ensures CapacityAfter(k) % 16 == 0
    ensures k <= CapacityAfter(k) < k + 16
  {
    if k > 0 {
      CapacityIsRoundedUp(k - 1);
    }
  }

  class FileList {
    /** `file_list`: the slot array (its length is the allocation size). */
    var slots: array<string>
    /** `nentries`: how many slots hold names. */
    var nentries: int
    /** `nsize`: the recorded capacity. */
    var nsize: int

    /** The shape every list has: the recorded capacity is the array's. */
    ghost predicate Valid()
      reads this
    {
      slots.Length == nsize && 0 <= nentries
    }

    /** The sizing invariant `0 <= nentries <= nsize`. */
    ghost predicate Consistent()
      reads this
    {
      Valid() && nentries <= nsize
    }

    /** The names in the list, in insertion order. */
    ghost function Entries(): seq<string>
      reads this, slots
      requires Consistent()
    {
      slots[..nentries]
    }

    /** `file_list_create`: a zeroed list, no slots allocated. */
    constructor ()
      ensures Consistent() && nentries == 0 && nsize == 0 && Entries() == []
    {
      slots := new string[0];
      nentries := 0;
      nsize := 0;
    }

    /** `file_list_grow`: refuses an inconsistent list, keeps a list that
        still has room, and otherwise copies the names into a fresh array
        of `size` slots.  `allocOk` is the outcome of calloc. */
    method Grow(size: int, allocOk: bool) returns (r: int)
      requires Valid() && size >= nsize
      modifies this
      ensures Valid()
      ensures old(nentries) > old(nsize) ==>
                r == -1 && slots == old(slots) && nentries == old(nentries) && nsize == old(nsize)
      ensures old(nentries) < old(nsize) ==>
                r == 0 && slots == old(slots) && nentries == old(nentries) && nsize == old(nsize)
      ensures old(nentries) == old(nsize) && !allocOk ==>
                r == -1 && slots == old(slots) && nentries == old(nentries) && nsize == old(nsize)
      ensures old(nentries) == old(nsize) && allocOk ==>
                r == 0 && fresh(slots) && nsize == size && nentries == old(nentries) &&
                slots[..nentries] == old(slots[..nentries])
    {
      if nentries > nsize {
        return -1;
      }
      if nentries < nsize {
        return 0;
      }
      if !allocOk {
        return -1;
      }
      var fl := new string[size];
      var i := 0;
      while i < nentries
        invariant 0 <= i <= nentries <= slots.Length <= fl.Length
        invariant nentries == old(nentries) && nsize == old(nsize) && slots == old(slots)
        invariant fl[..i] == slots[..i]
      {
        fl[i] := slots[i];
        i := i + 1;
      }
      assert fl[..nentries] == slots[..nentries];
      slots := fl;
      nsize := size;
      r := 0;
    }

    /** `file_list_add_entry`: grows by sixteen slots when full, then
        stores the name after the existing ones.  It fails only when the
        growth allocation fails, and then changes nothing. */
    method AddEntry(name: string, allocOk: bool) returns (r: int)
      requires Consistent()
      modifies this, slots
      ensures Consistent()
      ensures slots == old(slots) || fresh(slots)
      ensures r == 0 || r == -1
      ensures r == -1 <==> (old(nentries) == old(nsize) && !allocOk)
      ensures r == 0 ==> Entries() == old(Entries()) + [name] &&
                         nsize == NextCapacity(old(nentries), old(nsize))
      ensures r == -1 ==> Entries() == old(Entries()) && nsize == old(nsize)
    {
      if nentries == nsize {
        r := Grow(nsize + GrowBy, allocOk);
        if r != 0 {
          return;
        }
      }
      ghost var before := slots[..nentries];
      slots[nentries] := name;
      nentries := nentries + 1;
      assert slots[..nentries] == before + [name];
      r := 0;
    }

    /** `file_list_flush`: forgets every name but keeps the slots. */
    method Flush()
      requires Valid()
      modifies this
      ensures Consistent() && Entries() == []
      ensures nsize == old(nsize) && slots == old(slots)
    {
      nentries := 0;
    }
  }
}
