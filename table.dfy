/** The `rottDB` handle and its single-table operations, run in place with
    the loops of rottDB.c.  Each method is proved to leave exactly the table
    that the matching function of module Slots describes. */
module Table {
  import opened Basics
  import opened Memory
  import opened Hashing
  import opened Slots

  /** A `rottDB`: `length` slots in the array `pairs`, here the sequence
      `slots` (its length is the `length` field).  `realloc` and the swap in
      copyall replace the sequence as a whole. */
  class Db {
    var slots: seq<Slot>

    /** The handle holds a well-formed table: every stored hash is its key's
        hash and no key occurs twice. */
    predicate Valid()
      reads this
    {
      Slots.Valid(slots)
    }

    /** The struct before rottDB_init: no slots yet. */
    constructor ()
      ensures slots == [] && Valid()
    {
      slots := [];
    }

    /** rottDB_init: one tombstone slot, or NO_MEMORY when the array cannot
        be allocated. */
    method Init(heap: Allocator) returns (code: int)
      modifies this, heap
      ensures var (ok, rest) := Alloc(old(heap.failures));
        && heap.failures == rest
        && (ok ==> code == Success && slots == InitSlots)
        && (!ok ==> code == NoMemory && slots == old(slots))
      ensures code == Success ==> Valid()
    {
      InitSlotsEmpty();
      var ok := heap.Malloc();
      if !ok {
        return NoMemory;
      }
      slots := [Tombstone];
      code := Success;
    }

    /** rottDB_shut: every key, value and the array are released and the
        length becomes 0. */
    method Shut()
      modifies this
      ensures slots == [] && Valid()
    {
      slots := [];
    }

    /** rottDB_set: one scan that remembers the last tombstone, then update,
        fill or grow. */
    method Set(key: CStr, value: CStr, heap: Allocator) returns (code: int)
      requires Valid()
      modifies this, heap
      ensures Outcome(code, slots, heap.failures) == SetSlots(old(slots), key, value, old(heap.failures))
      ensures Valid()
    {
      var nullPos: nat := |slots|;
      var h := ComputeHash(key);
      var i := 0;
      while i < |slots|
        invariant 0 <= i <= |slots| && nullPos <= |slots|
        invariant slots == old(slots) && heap.failures == old(heap.failures)
        invariant forall j :: 0 <= j < i ==> !Matches(key, h, slots[j])
        invariant nullPos == |slots| ==> forall j :: 0 <= j < i ==> slots[j].Live?
        invariant nullPos < |slots| ==>
          nullPos < i && slots[nullPos].Tombstone? && forall j :: nullPos < j < i ==> slots[j].Live?
      {
        if slots[i].Tombstone? {
          nullPos := i;
        } else if Matches(key, h, slots[i]) {
          var ok := heap.Malloc();
          if !ok {
            return NoMemory;
          }
          slots := slots[i := Live(slots[i].hash, slots[i].key, value)];
          SetAbstractly(old(slots), key, value, old(heap.failures));
          return Updated;
        }
        i := i + 1;
      }
      if nullPos < |slots| {
        code := FillSlot(nullPos, key, value, heap);
      } else {
        var ok := heap.Malloc();  // realloc by one slot
        if !ok {
          return NoMemory;
        }
        slots := slots + [Tombstone];
        code := FillSlot(|slots| - 1, key, value, heap);
      }
      SetAbstractly(old(slots), key, value, old(heap.failures));
    }

    /** Copy key and value into the tombstone at `t` and store the hash;
        when the value cannot be copied the key copy is released again. */
    method FillSlot(t: nat, key: CStr, value: CStr, heap: Allocator) returns (code: int)
      requires t < |slots|
      modifies this, heap
      ensures Outcome(code, slots, heap.failures) == Fill(old(slots), t, key, value, old(heap.failures))
    {
      var keyOk := heap.Malloc();
      if !keyOk {
        return NoMemory;
      }
      var valueOk := heap.Malloc();
      if !valueOk {
        return NoMemory;
      }
      var h := ComputeHash(key);
      slots := slots[t := Live(h, key, value)];
      code := Added;
    }

    /** rottDB_get: a copy of the value stored under `key`, or NULL. */
    method Get(key: CStr) returns (value: Option<CStr>)
      ensures value == Lookup(slots, key)
    {
      var h := ComputeHash(key);
      var i := 0;
      while i < |slots|
        invariant 0 <= i <= |slots|
        invariant forall j :: 0 <= j < i ==> !Matches(key, h, slots[j])
      {
        if Matches(key, h, slots[i]) {
          return Some(slots[i].value);
        }
        i := i + 1;
      }
      value := None;
    }

    /** rottDB_exist: SUCCESS exactly when the scan finds `key`. */
    method Exist(key: CStr) returns (code: int)
      ensures code == if Present(slots, key) then Success else KeyNotExist
    {
      var h := ComputeHash(key);
      var i := 0;
      while i < |slots|
        invariant 0 <= i <= |slots|
        invariant forall j :: 0 <= j < i ==> !Matches(key, h, slots[j])
      {
        if Matches(key, h, slots[i]) {
          return Success;
        }
        i := i + 1;
      }
      code := KeyNotExist;
    }

    /** rottDB_del: the matching slot becomes a tombstone. */
    method Del(key: CStr) returns (code: int)
      requires Valid()
      modifies this
      ensures (code, slots) == DelSlots(old(slots), key)
      ensures Valid()
    {
      DelAbstractly(slots, key);
      var h := ComputeHash(key);
      var i := 0;
      while i < |slots|
        invariant 0 <= i <= |slots|
        invariant slots == old(slots)
        invariant forall j :: 0 <= j < i ==> !Matches(key, h, slots[j])
      {
        if Matches(key, h, slots[i]) {
          slots := slots[i := Tombstone];
          return Success;
        }
        i := i + 1;
      }
      code := KeyNotExist;
    }

    /** rottDB_delall: every slot becomes a tombstone; the length stays. */
    method DelAll()
      modifies this
      ensures slots == Cleared(old(slots))
      ensures Valid()
    {
      AllTombstonesEmpty(Cleared(slots));
      var i := 0;
      while i < |slots|
        invariant 0 <= i <= |slots| == |old(slots)|
        invariant forall j :: 0 <= j < i ==> slots[j] == Tombstone
      {
        slots := slots[i := Tombstone];
        i := i + 1;
      }
    }
  }
}
