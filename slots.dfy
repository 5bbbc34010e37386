/** The slot table of a rottDB as a value: the sequence `pairs[0..length)`
    and what each table operation does to it.  The class in module Table
    runs these operations in place and is proved to agree with them. */
module Slots {
  import opened Basics
  import opened Memory
  import opened Hashing

  /** One `rottDBpair`.  A slot whose key is NULL is a tombstone: never used
      or deleted, hash 0 and value NULL, free for the next insertion. */
  datatype Slot = Tombstone | Live(hash: nat, key: CStr, value: CStr)

  /** rDB_isEqual: the hashes agree, the slot has a key, and the keys are
      equal byte for byte. */
  predicate Matches(key: CStr, h: nat, slot: Slot) {
    slot.Live? && slot.hash == h && slot.key == key
  }

  /** Every live slot stores the hash of its own key. */
  predicate HashesConsistent(s: seq<Slot>) {
    forall i :: 0 <= i < |s| && s[i].Live? ==> s[i].hash == Hash(s[i].key)
  }

  /** No key is live in two slots. */
  predicate DistinctKeys(s: seq<Slot>) {
    forall i, j :: 0 <= i < j < |s| && s[i].Live? && s[j].Live? ==> s[i].key != s[j].key
  }

  /** The invariant every operation of the library keeps. */
  predicate Valid(s: seq<Slot>) {
    HashesConsistent(s) && DistinctKeys(s)
  }

  /** What the table means to its callers: each live key and its value. */
  function MapOf(s: seq<Slot>): map<CStr, CStr>
    requires DistinctKeys(s)
  {
    map i | 0 <= i < |s| && s[i].Live? :: s[i].key := s[i].value
  }

  /** A live slot's key is bound to its value. */
  lemma MapOfAt(s: seq<Slot>, j: nat)
    requires DistinctKeys(s) && j < |s| && s[j].Live?
    ensures s[j].key in MapOf(s) && MapOf(s)[s[j].key] == s[j].value
  {
  }

  /** A bound key comes from a live slot. */
  lemma MapOfWitness(s: seq<Slot>, k: CStr) returns (j: nat)
    requires DistinctKeys(s) && k in MapOf(s)
    ensures j < |s| && s[j].Live? && s[j].key == k && MapOf(s)[k] == s[j].value
  {
    j :| 0 <= j < |s| && s[j].Live? && s[j].key == k;
  }

  /** The map of a table, read from its first slot on. */
  lemma {:induction false} MapOfCons(s: seq<Slot>)
    requires DistinctKeys(s) && s != []
    ensures DistinctKeys(s[1..])
    ensures s[0].Tombstone? ==> MapOf(s) == MapOf(s[1..])
    ensures s[0].Live? ==>
      s[0].key !in MapOf(s[1..]) && MapOf(s) == MapOf(s[1..])[s[0].key := s[0].value]
  {
    var t := s[1..];
    assert forall j :: 0 <= j < |t| ==> t[j] == s[j + 1];
    forall k | k in MapOf(s) && (s[0].Live? ==> k != s[0].key)
      ensures k in MapOf(t)
    {
      var j :| 0 <= j < |s| && s[j].Live? && s[j].key == k;
      assert t[j - 1] == s[j];
    }
  }

  lemma OverrideFirst<K, V>(m: map<K, V>, k: K, v: V, rest: map<K, V>)
    requires k !in rest
    ensures m[k := v] + rest == m + rest[k := v]
  {
  }

  /** The table `rottDB_init` creates: one tombstone. */
  const InitSlots: seq<Slot> := [Tombstone]

  lemma InitSlotsEmpty()
    ensures Valid(InitSlots) && |InitSlots| == 1 && MapOf(InitSlots) == map[]
  {
  }

  /** Every slot a tombstone, as `rottDB_delall` leaves the table. */
  predicate AllTombstones(s: seq<Slot>) {
    forall i :: 0 <= i < |s| ==> s[i] == Tombstone
  }

  /** The table `rottDB_delall` leaves: as many slots, all tombstones. */
  function Cleared(s: seq<Slot>): (r: seq<Slot>)
    ensures |r| == |s| && AllTombstones(r)
  {
    seq(|s|, _ => Tombstone)
  }

  lemma AllTombstonesEmpty(s: seq<Slot>)
    requires AllTombstones(s)
    ensures Valid(s) && MapOf(s) == map[]
  {
  }

  /** The linear scan of get, del, exist and copy: the first slot that
      matches, or |s| when none does. */
  function Find(s: seq<Slot>, key: CStr, h: nat): (i: nat)
    ensures i <= |s|
    ensures i < |s| ==> Matches(key, h, s[i])
    ensures forall j :: 0 <= j < i ==> !Matches(key, h, s[j])
  {
    if s == [] then 0
    else if Matches(key, h, s[0]) then 0
    else 1 + Find(s[1..], key, h)
  }

  /** Whether the scan for `key`, with its hash as pre-filter, finds a slot. */
  predicate Present(s: seq<Slot>, key: CStr) {
    Find(s, key, Hash(key)) < |s|
  }

  /** On a valid table the hash never hides a key: the scan finds exactly
      the keys of the map, at the slot that holds their value. */
  lemma {:induction false} FindAgreesWithMap(s: seq<Slot>, key: CStr)
    requires Valid(s)
    ensures Present(s, key) <==> key in MapOf(s)
    ensures Present(s, key) ==>
      var i := Find(s, key, Hash(key));
      s[i].key == key && MapOf(s)[key] == s[i].value
  {
    if key in MapOf(s) {
      var i :| 0 <= i < |s| && s[i].Live? && s[i].key == key;
      assert Matches(key, Hash(key), s[i]);
    }
  }

  /** The value `rottDB_get` copies out, if the scan finds the key. */
  function Lookup(s: seq<Slot>, key: CStr): Option<CStr>
  {
    var i := Find(s, key, Hash(key));
    if i < |s| then Some(s[i].value) else None
  }

  lemma LookupAgreesWithMap(s: seq<Slot>, key: CStr)
    requires Valid(s)
    ensures Lookup(s, key) == if key in MapOf(s) then Some(MapOf(s)[key]) else None
  {
    FindAgreesWithMap(s, key);
  }

  /** The position `null_pos` holds after a full scan: the last tombstone,
      or |s| when there is none. */
  function LastTombstone(s: seq<Slot>): (i: nat)
    ensures i <= |s|
    ensures i < |s| ==> s[i].Tombstone? && forall j :: i < j < |s| ==> s[j].Live?
    ensures i == |s| ==> forall j :: 0 <= j < |s| ==> s[j].Live?
  {
    if s == [] then 0
    else if s[|s| - 1].Tombstone? then |s| - 1
    else
      var i := LastTombstone(s[..|s| - 1]);
      if i == |s| - 1 then |s| else i
  }

  /** A return code, the table it leaves, and what is left of the
      allocation script. */
  datatype Outcome = Outcome(code: int, slots: seq<Slot>, failures: seq<bool>)

  /** rottDB_set.  A live slot holding the key gets a fresh copy of the
      value (one allocation).  Otherwise the key and value are copied into
      the last tombstone seen (two allocations); with no tombstone the array
      first grows by one tombstone (one more allocation), and that slot is
      kept even when copying the key or value then fails. */
  function SetSlots(s: seq<Slot>, key: CStr, value: CStr, failures: seq<bool>): Outcome
  {
    var i := Find(s, key, Hash(key));
    if i < |s| then
      var (ok, rest) := Alloc(failures);
      if ok then Outcome(Updated, s[i := Live(s[i].hash, s[i].key, value)], rest)
      else Outcome(NoMemory, s, rest)
    else
      var t := LastTombstone(s);
      if t < |s| then Fill(s, t, key, value, failures)
      else
        var (ok, rest) := Alloc(failures);
        if ok then Fill(s + [Tombstone], |s|, key, value, rest)
        else Outcome(NoMemory, s, rest)
  }

  /** Copy key and value into tombstone `t`, then store the key's hash. */
  function Fill(s: seq<Slot>, t: nat, key: CStr, value: CStr, failures: seq<bool>): Outcome
    requires t < |s|
  {
    var (keyOk, rest) := Alloc(failures);
    if !keyOk then Outcome(NoMemory, s, rest)
    else
      var (valueOk, rest') := Alloc(rest);
      if !valueOk then Outcome(NoMemory, s, rest')
      else Outcome(Added, s[t := Live(Hash(key), key, value)], rest')
  }

  /** set on a key that is live replaces only that slot's value: the slot
      keeps its key and hash, and neither the length nor any other slot
      changes.  Without memory nothing changes at all. */
  lemma SetOnPresentKey(s: seq<Slot>, key: CStr, value: CStr, failures: seq<bool>)
    requires Valid(s) && key in MapOf(s)
    ensures var r := SetSlots(s, key, value, failures);
      var i := Find(s, key, Hash(key));
      && i < |s| && s[i].key == key
      && (r.code == Updated || r.code == NoMemory)
      && (r.code == NoMemory ==> r.slots == s)
      && (r.code == Updated ==>
            && |r.slots| == |s|
            && r.slots[i] == Live(s[i].hash, key, value)
            && forall j :: 0 <= j < |s| && j != i ==> r.slots[j] == s[j])
  {
    FindAgreesWithMap(s, key);
  }

  /** set on an absent key fills the last tombstone in scan order, keeping
      the length, or, with no tombstone, appends a slot at the old length.
      Either way the new slot stores the key's hash. */
  lemma SetOnAbsentKey(s: seq<Slot>, key: CStr, value: CStr, failures: seq<bool>)
    requires Valid(s) && key !in MapOf(s)
    ensures var r := SetSlots(s, key, value, failures);
      var t := LastTombstone(s);
      && (r.code == Added || r.code == NoMemory)
      && (r.code == Added && t < |s| ==>
            && s[t].Tombstone?
            && (forall j :: t < j < |s| ==> s[j].Live?)
            && r.slots == s[t := Live(Hash(key), key, value)])
      && (r.code == Added && t == |s| ==>
            r.slots == s + [Live(Hash(key), key, value)])
      && (r.code == NoMemory ==> r.slots == s || r.slots == s + [Tombstone])
  {
    FindAgreesWithMap(s, key);
  }

  /** After set the table is still valid and means the old map with `key`
      bound to `value`; a failed set changes no binding and fails only for
      lack of memory. */
  lemma SetAbstractly(s: seq<Slot>, key: CStr, value: CStr, failures: seq<bool>)
    requires Valid(s)
    ensures var r := SetSlots(s, key, value, failures);
      && Valid(r.slots)
      && (r.code == Added || r.code == Updated || r.code == NoMemory)
      && (r.code == Updated <==> r.code != NoMemory && key in MapOf(s))
      && (r.code != NoMemory ==> MapOf(r.slots) == MapOf(s)[key := value])
      && (r.code == NoMemory ==> MapOf(r.slots) == MapOf(s))
  {
    FindAgreesWithMap(s, key);
    if key in MapOf(s) {
      SetPresentAbstractly(s, key, value, failures);
    } else {
      SetAbsentAbstractly(s, key, value, failures);
    }
  }

  lemma SetPresentAbstractly(s: seq<Slot>, key: CStr, value: CStr, failures: seq<bool>)
    requires Valid(s) && Present(s, key)
    ensures var r := SetSlots(s, key, value, failures);
      && Valid(r.slots)
      && (r.code == Updated || r.code == NoMemory)
      && (r.code == Updated ==> MapOf(r.slots) == MapOf(s)[key := value])
      && (r.code == NoMemory ==> r.slots == s)
  {
    var i := Find(s, key, Hash(key));
    UpdateValue(s, i, value);
  }

  lemma SetAbsentAbstractly(s: seq<Slot>, key: CStr, value: CStr, failures: seq<bool>)
    requires Valid(s) && !Present(s, key) && key !in MapOf(s)
    ensures var r := SetSlots(s, key, value, failures);
      && Valid(r.slots)
      && (r.code == Added || r.code == NoMemory)
      && (r.code == Added ==> MapOf(r.slots) == MapOf(s)[key := value])
      && (r.code == NoMemory ==> MapOf(r.slots) == MapOf(s))
  {
    var t := LastTombstone(s);
    if t < |s| {
      assert SetSlots(s, key, value, failures) == Fill(s, t, key, value, failures);
      FillAbstractly(s, t, key, value, failures);
    } else {
      var (ok, rest) := Alloc(failures);
      AppendTombstone(s);
      if ok {
        assert SetSlots(s, key, value, failures) == Fill(s + [Tombstone], |s|, key, value, rest);
        FillAbstractly(s + [Tombstone], |s|, key, value, rest);
      }
    }
  }

  lemma FillAbstractly(s: seq<Slot>, t: nat, key: CStr, value: CStr, failures: seq<bool>)
    requires Valid(s) && t < |s| && s[t].Tombstone? && key !in MapOf(s)
    ensures var r := Fill(s, t, key, value, failures);
      && Valid(r.slots)
      && (r.code == Added || r.code == NoMemory)
      && (r.code == Added ==> MapOf(r.slots) == MapOf(s)[key := value])
      && (r.code == NoMemory ==> r.slots == s)
  {
    FillTombstone(s, t, key, value);
  }

  /** With an allocator that never fails, set always succeeds and leaves an
      allocator that still never fails. */
  lemma SetNeverFails(s: seq<Slot>, key: CStr, value: CStr, failures: seq<bool>)
    requires NeverFails(failures)
    ensures var r := SetSlots(s, key, value, failures);
      r.code != NoMemory && NeverFails(r.failures)
  {
  }

  lemma UpdateValue(s: seq<Slot>, i: nat, value: CStr)
    requires Valid(s) && i < |s| && s[i].Live?
    ensures var s' := s[i := Live(s[i].hash, s[i].key, value)];
      Valid(s') && MapOf(s') == MapOf(s)[s[i].key := value]
  {
    var s' := s[i := Live(s[i].hash, s[i].key, value)];
    assert Valid(s');
    forall k | k in MapOf(s)[s[i].key := value]
      ensures k in MapOf(s') && MapOf(s')[k] == MapOf(s)[s[i].key := value][k]
    {
      if k != s[i].key {
        var j := MapOfWitness(s, k);
        assert s'[j] == s[j];
        MapOfAt(s', j);
      } else {
        MapOfAt(s', i);
      }
    }
    forall k | k in MapOf(s')
      ensures k in MapOf(s)[s[i].key := value]
    {
      var j := MapOfWitness(s', k);
      if j != i {
        assert s[j] == s'[j];
        MapOfAt(s, j);
      }
    }
  }

  lemma FillTombstone(s: seq<Slot>, t: nat, key: CStr, value: CStr)
    requires Valid(s) && t < |s| && s[t].Tombstone? && key !in MapOf(s)
    ensures var s' := s[t := Live(Hash(key), key, value)];
      Valid(s') && MapOf(s') == MapOf(s)[key := value]
  {
    FillTombstoneValid(s, t, key, value);
    FillTombstoneMap(s, t, key, value);
  }

  lemma FillTombstoneValid(s: seq<Slot>, t: nat, key: CStr, value: CStr)
    requires Valid(s) && t < |s| && s[t].Tombstone? && key !in MapOf(s)
    ensures Valid(s[t := Live(Hash(key), key, value)])
  {
    var s' := s[t := Live(Hash(key), key, value)];
    forall i, j | 0 <= i < j < |s'| && s'[i].Live? && s'[j].Live?
      ensures s'[i].key != s'[j].key
    {
      if i == t {
        assert s[j].key in MapOf(s);
      } else if j == t {
        assert s[i].key in MapOf(s);
      }
    }
  }

  lemma FillTombstoneMap(s: seq<Slot>, t: nat, key: CStr, value: CStr)
    requires DistinctKeys(s) && t < |s| && s[t].Tombstone?
    requires DistinctKeys(s[t := Live(Hash(key), key, value)])
    ensures MapOf(s[t := Live(Hash(key), key, value)]) == MapOf(s)[key := value]
  {
    var s' := s[t := Live(Hash(key), key, value)];
    forall k | k in MapOf(s)[key := value]
      ensures k in MapOf(s') && MapOf(s')[k] == MapOf(s)[key := value][k]
    {
      if k != key {
        var j := MapOfWitness(s, k);
        assert s'[j] == s[j];
        MapOfAt(s', j);
      } else {
        MapOfAt(s', t);
      }
    }
    forall k | k in MapOf(s')
      ensures k in MapOf(s)[key := value]
    {
      var j := MapOfWitness(s', k);
      if j != t {
        assert s[j] == s'[j];
        MapOfAt(s, j);
      }
    }
  }

  lemma AppendTombstone(s: seq<Slot>)
    requires Valid(s)
    ensures Valid(s + [Tombstone]) && MapOf(s + [Tombstone]) == MapOf(s)
  {
    var s' := s + [Tombstone];
    assert Valid(s');
    forall k | k in MapOf(s)
      ensures k in MapOf(s') && MapOf(s')[k] == MapOf(s)[k]
    {
      var j := MapOfWitness(s, k);
      assert s'[j] == s[j];
      MapOfAt(s', j);
    }
    forall k | k in MapOf(s')
      ensures k in MapOf(s)
    {
      var j := MapOfWitness(s', k);
      assert s[j] == s'[j];
      MapOfAt(s, j);
    }
  }

  /** rottDB_del: the first matching slot becomes a tombstone (its key and
      value are released and its hash reset to 0); nothing else changes. */
  function DelSlots(s: seq<Slot>, key: CStr): (int, seq<Slot>)
  {
    var i := Find(s, key, Hash(key));
    if i < |s| then (Success, s[i := Tombstone]) else (KeyNotExist, s)
  }

  /** del removes exactly the key from the map and keeps the length; on an
      absent key it reports KEY_NOT_EXIST and changes nothing. */
  lemma DelAbstractly(s: seq<Slot>, key: CStr)
    requires Valid(s)
    ensures var (code, s') := DelSlots(s, key);
      && Valid(s') && |s'| == |s|
      && (code == Success <==> key in MapOf(s))
      && (code != Success ==> code == KeyNotExist && s' == s)
      && MapOf(s') == MapOf(s) - {key}
  {
    FindAgreesWithMap(s, key);
    var i := Find(s, key, Hash(key));
    if i < |s| {
      ClearSlot(s, i);
    }
  }

  lemma ClearSlot(s: seq<Slot>, i: nat)
    requires Valid(s) && i < |s| && s[i].Live?
    ensures var s' := s[i := Tombstone];
      Valid(s') && MapOf(s') == MapOf(s) - {s[i].key}
  {
    assert Valid(s[i := Tombstone]);
    ClearSlotMap(s, i);
  }

  lemma ClearSlotMap(s: seq<Slot>, i: nat)
    requires DistinctKeys(s) && i < |s| && s[i].Live? && DistinctKeys(s[i := Tombstone])
    ensures MapOf(s[i := Tombstone]) == MapOf(s) - {s[i].key}
  {
    var s' := s[i := Tombstone];
    forall k | k in MapOf(s) - {s[i].key}
      ensures k in MapOf(s') && MapOf(s')[k] == (MapOf(s) - {s[i].key})[k]
    {
      var j := MapOfWitness(s, k);
      assert s'[j] == s[j];
      MapOfAt(s', j);
    }
    forall k | k in MapOf(s')
      ensures k in MapOf(s) - {s[i].key}
    {
      var j := MapOfWitness(s', k);
      assert j != i && s[j] == s'[j];
      MapOfAt(s, j);
      assert k != s[i].key;
    }
  }
}
