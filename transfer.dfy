/** The transfer engine: copy and move of one key or of every key between
    two distinct tables, under an overwrite flag.  Each operation is a
    function of the two tables (and the allocation script), the methods run
    the loops of rottDB.c and are proved to agree with those functions, and
    the lemmas say what the functions mean for the two maps. */
module Transfer {
  import opened Basics
  import opened Memory
  import opened Hashing
  import opened Slots
  import opened Table

  /** rottDB_copy.  With `overwrite == 0` a key already in the destination
      stops the copy before the source is looked at. */
  function CopySlots(src: seq<Slot>, key: CStr, dst: seq<Slot>, overwrite: int, failures: seq<bool>): Outcome
  {
    if overwrite == 0 && Present(dst, key) then Outcome(KeyExist, dst, failures)
    else
      var i := Find(src, key, Hash(key));
      if i < |src| then SetSlots(dst, key, src[i].value, failures)
      else Outcome(KeyNotExist, dst, failures)
  }

  /** copy binds `key` in the destination to its value in the source, or
      reports why not: KEY_EXIST (nothing touched), KEY_NOT_EXIST (nothing
      touched) or NO_MEMORY (no binding changed). */
  lemma CopyAbstractly(src: seq<Slot>, key: CStr, dst: seq<Slot>, overwrite: int, failures: seq<bool>)
    requires Valid(src) && Valid(dst)
    ensures var r := CopySlots(src, key, dst, overwrite, failures);
      && Valid(r.slots)
      && (r.code == KeyExist <==> overwrite == 0 && key in MapOf(dst))
      && (r.code == KeyNotExist <==> !(overwrite == 0 && key in MapOf(dst)) && key !in MapOf(src))
      && (r.code == KeyExist || r.code == KeyNotExist ==> r.slots == dst)
      && (r.code >= 0 ==>
            && key in MapOf(src)
            && (r.code == Added <==> key !in MapOf(dst))
            && (r.code == Updated <==> key in MapOf(dst))
            && MapOf(r.slots) == MapOf(dst)[key := MapOf(src)[key]])
      && (Failed(r.code) ==> MapOf(r.slots) == MapOf(dst))
      && (r.code == NoMemory || r.code == KeyExist || r.code == KeyNotExist || r.code >= 0)
  {
    FindAgreesWithMap(src, key);
    FindAgreesWithMap(dst, key);
    var i := Find(src, key, Hash(key));
    if i < |src| {
      SetAbstractly(dst, key, src[i].value, failures);
    }
  }

  method Copy(src: Db, key: CStr, dst: Db, overwrite: int, heap: Allocator) returns (code: int)
    requires src != dst && dst.Valid()
    modifies dst, heap
    ensures Outcome(code, dst.slots, heap.failures) == CopySlots(src.slots, key, old(dst.slots), overwrite, old(heap.failures))
    ensures dst.Valid()
  {
    var h := ComputeHash(key);
    if overwrite == 0 {
      var e := dst.Exist(key);
      if e != KeyNotExist {
        return KeyExist;
      }
    }
    var i := 0;
    while i < |src.slots|
      invariant 0 <= i <= |src.slots|
      invariant dst.slots == old(dst.slots) && heap.failures == old(heap.failures)
      invariant forall j :: 0 <= j < i ==> !Matches(key, h, src.slots[j])
    {
      if Matches(key, h, src.slots[i]) {
        code := dst.Set(key, src.slots[i].value, heap);
        return;
      }
      i := i + 1;
    }
    code := KeyNotExist;
  }

  /** copyall's pre-check: some live source key is found in the destination. */
  predicate Overlap(src: seq<Slot>, dst: seq<Slot>) {
    exists j :: 0 <= j < |src| && src[j].Live? && Present(dst, src[j].key)
  }

  /** Replay `set` for every live slot of `from`, in order, into the table of
      `o`, stopping at the first failure. */
  function Replay(o: Outcome, from: seq<Slot>): Outcome
    decreases |from|
  {
    if Failed(o.code) || from == [] then o
    else if from[0].Tombstone? then Replay(o, from[1..])
    else Replay(SetSlots(o.slots, from[0].key, from[0].value, o.failures), from[1..])
  }

  /** rottDB_copyall: build a fresh table from the destination's entries and
      then the source's, and adopt it only when every insert succeeded. */
  function CopyAllSlots(src: seq<Slot>, dst: seq<Slot>, overwrite: int, failures: seq<bool>): (r: Outcome)
    ensures r.code != Success ==> r.slots == dst
  {
    if overwrite == 0 && Overlap(src, dst) then Outcome(KeyExist, dst, failures)
    else
      var (ok, rest) := Alloc(failures);
      if !ok then Outcome(NoMemory, dst, rest)
      else
        var o := Rebuilt(src, dst, rest);
        if Failed(o.code) then Outcome(o.code, dst, o.failures)
        else Outcome(Success, o.slots, o.failures)
  }

  /** The temporary table of copyall: a fresh table, then the destination's
      entries, then the source's. */
  function Rebuilt(src: seq<Slot>, dst: seq<Slot>, failures: seq<bool>): Outcome
  {
    Replay(Replay(Outcome(Success, InitSlots, failures), dst), src)
  }

  /** The slots a successful copyall leaves: no tombstone at all, except the
      single one of a fresh table when there is nothing to hold. */
  predicate Compact(s: seq<Slot>) {
    s == InitSlots || (s != [] && forall j :: 0 <= j < |s| ==> s[j].Live?)
  }

  /** A table with distinct keys and no tombstone holds one binding per slot. */
  lemma {:induction false} CompactSize(s: seq<Slot>)
    requires DistinctKeys(s) && forall j :: 0 <= j < |s| ==> s[j].Live?
    ensures |MapOf(s)| == |s|
  {
    if s != [] {
      MapOfCons(s);
      CompactSize(s[1..]);
    }
  }

  /** Replaying keeps the table valid, and a failed outcome is passed on
      unchanged. */
  lemma {:induction false} ReplayValid(o: Outcome, from: seq<Slot>)
    requires Valid(o.slots)
    ensures Valid(Replay(o, from).slots)
    ensures Failed(o.code) ==> Replay(o, from) == o
    decreases |from|
  {
    if o.code >= 0 && from != [] {
      if from[0].Tombstone? {
        ReplayValid(o, from[1..]);
      } else {
        SetAbstractly(o.slots, from[0].key, from[0].value, o.failures);
        ReplayValid(SetSlots(o.slots, from[0].key, from[0].value, o.failures), from[1..]);
      }
    }
  }

  /** Replay fails only for lack of memory, and never with an allocator that
      never fails. */
  lemma {:induction false} ReplayFailsOnlyForMemory(o: Outcome, from: seq<Slot>)
    requires Valid(o.slots) && o.code >= 0
    ensures Failed(Replay(o, from).code) ==> Replay(o, from).code == NoMemory
    ensures NeverFails(o.failures) ==> Replay(o, from).code >= 0 && NeverFails(Replay(o, from).failures)
    decreases |from|
  {
    if from != [] {
      if from[0].Tombstone? {
        ReplayFailsOnlyForMemory(o, from[1..]);
      } else {
        var o' := SetSlots(o.slots, from[0].key, from[0].value, o.failures);
        SetAbstractly(o.slots, from[0].key, from[0].value, o.failures);
        if NeverFails(o.failures) {
          SetNeverFails(o.slots, from[0].key, from[0].value, o.failures);
        }
        if o'.code >= 0 {
          ReplayFailsOnlyForMemory(o', from[1..]);
        }
      }
    }
  }

  /** A successful replay binds the keys of `from` over the old map. */
  lemma {:induction false} ReplayMap(o: Outcome, from: seq<Slot>)
    requires Valid(o.slots) && Valid(from) && o.code >= 0 && Replay(o, from).code >= 0
    ensures Valid(Replay(o, from).slots)
    ensures MapOf(Replay(o, from).slots) == MapOf(o.slots) + MapOf(from)
    decreases |from|
  {
    ReplayValid(o, from);
    if from == [] {
      assert MapOf(from) == map[];
    } else {
      MapOfCons(from);
      var rest := from[1..];
      if from[0].Tombstone? {
        ReplayMap(o, rest);
      } else {
        var k, v := from[0].key, from[0].value;
        var o' := SetSlots(o.slots, k, v, o.failures);
        SetAbstractly(o.slots, k, v, o.failures);
        ReplayMap(o', rest);
        OverrideFirst(MapOf(o.slots), k, v, MapOf(rest));
      }
    }
  }

  /** A successful replay into a compact table leaves it compact. */
  lemma {:induction false} ReplayCompact(o: Outcome, from: seq<Slot>)
    requires Valid(o.slots) && Compact(o.slots) && o.code >= 0 && Replay(o, from).code >= 0
    ensures Compact(Replay(o, from).slots)
    decreases |from|
  {
    if from != [] {
      if from[0].Tombstone? {
        ReplayCompact(o, from[1..]);
      } else {
        var o' := SetSlots(o.slots, from[0].key, from[0].value, o.failures);
        SetAbstractly(o.slots, from[0].key, from[0].value, o.failures);
        SetKeepsCompact(o.slots, from[0].key, from[0].value, o.failures);
        ReplayCompact(o', from[1..]);
      }
    }
  }

  lemma SetKeepsCompact(s: seq<Slot>, key: CStr, value: CStr, failures: seq<bool>)
    requires Valid(s) && Compact(s) && SetSlots(s, key, value, failures).code >= 0
    ensures Compact(SetSlots(s, key, value, failures).slots)
  {
    var r := SetSlots(s, key, value, failures);
    var i := Find(s, key, Hash(key));
    if i == |s| {
      var t := LastTombstone(s);
      if t < |s| {
        assert s == InitSlots && t == 0;
        assert r.slots == [Live(Hash(key), key, value)];
      } else {
        assert s != InitSlots;
        assert r.slots == s + [Live(Hash(key), key, value)];
      }
    } else if s == InitSlots {
      assert false;
    }
  }

  /** Both directions of the pre-check: it fires exactly when the two maps
      share a key. */
  lemma OverlapIffSharedKey(src: seq<Slot>, dst: seq<Slot>)
    requires Valid(src) && Valid(dst)
    ensures Overlap(src, dst) <==> exists k :: k in MapOf(src) && k in MapOf(dst)
  {
    if Overlap(src, dst) {
      var j :| 0 <= j < |src| && src[j].Live? && Present(dst, src[j].key);
      FindAgreesWithMap(dst, src[j].key);
      assert src[j].key in MapOf(src);
    }
    if exists k :: k in MapOf(src) && k in MapOf(dst) {
      var k :| k in MapOf(src) && k in MapOf(dst);
      var j :| 0 <= j < |src| && src[j].Live? && src[j].key == k;
      FindAgreesWithMap(dst, k);
    }
  }

  /** copyall is all or nothing.  With overwrite off, a shared key makes it
      return KEY_EXIST; any failure leaves the destination exactly as it
      was; success leaves the destination map overridden by the source map,
      stored without tombstones in max(1, number of keys) slots. */
  lemma CopyAllAbstractly(src: seq<Slot>, dst: seq<Slot>, overwrite: int, failures: seq<bool>)
    requires Valid(src) && Valid(dst)
    ensures var r := CopyAllSlots(src, dst, overwrite, failures);
      && (r.code == Success || r.code == KeyExist || r.code == NoMemory)
      && (r.code == KeyExist <==> overwrite == 0 && exists k :: k in MapOf(src) && k in MapOf(dst))
      && (r.code != Success ==> r.slots == dst)
      && (NeverFails(failures) ==> r.code != NoMemory)
  {
    OverlapIffSharedKey(src, dst);
    if !(overwrite == 0 && Overlap(src, dst)) {
      var (ok, rest) := Alloc(failures);
      if ok {
        RebuiltFailsOnlyForMemory(src, dst, rest);
      }
    }
  }

  lemma RebuiltFailsOnlyForMemory(src: seq<Slot>, dst: seq<Slot>, failures: seq<bool>)
    requires Valid(src) && Valid(dst)
    ensures var o := Rebuilt(src, dst, failures);
      && (Failed(o.code) ==> o.code == NoMemory)
      && (NeverFails(failures) ==> o.code >= 0)
  {
    var o0 := Outcome(Success, InitSlots, failures);
    var o1 := Replay(o0, dst);
    InitSlotsEmpty();
    ReplayValid(o0, dst);
    ReplayFailsOnlyForMemory(o0, dst);
    if o1.code >= 0 {
      ReplayFailsOnlyForMemory(o1, src);
    } else {
      ReplayValid(o1, src);
    }
  }

  /** The rebuilt table holds the destination map overridden by the source
      map, and is compact. */
  lemma RebuiltAbstractly(src: seq<Slot>, dst: seq<Slot>, failures: seq<bool>)
    requires Valid(src) && Valid(dst) && Rebuilt(src, dst, failures).code >= 0
    ensures Valid(Rebuilt(src, dst, failures).slots)
    ensures MapOf(Rebuilt(src, dst, failures).slots) == MapOf(dst) + MapOf(src)
  {
    var o0 := Outcome(Success, InitSlots, failures);
    var o1 := Replay(o0, dst);
    InitSlotsEmpty();
    ReplayValid(o0, dst);
    ReplayValid(o1, src);
    assert o1.code >= 0;
    ReplayMap(o0, dst);
    assert MapOf(o1.slots) == MapOf(dst);
    ReplayMap(o1, src);
  }

  lemma RebuiltCompact(src: seq<Slot>, dst: seq<Slot>, failures: seq<bool>)
    requires Valid(src) && Valid(dst) && Rebuilt(src, dst, failures).code >= 0
    ensures Compact(Rebuilt(src, dst, failures).slots)
  {
    var o0 := Outcome(Success, InitSlots, failures);
    var o1 := Replay(o0, dst);
    InitSlotsEmpty();
    assert Compact(o0.slots);
    ReplayValid(o0, dst);
    ReplayValid(o1, src);
    assert o1.code >= 0;
    ReplayCompact(o0, dst);
    ReplayCompact(o1, src);
  }

  /** A successful copyall leaves the destination map overridden by the
      source map, stored without tombstones in max(1, number of keys) slots. */
  lemma CopyAllSucceeds(src: seq<Slot>, dst: seq<Slot>, overwrite: int, failures: seq<bool>)
    requires Valid(src) && Valid(dst)
    requires CopyAllSlots(src, dst, overwrite, failures).code == Success
    ensures var r := CopyAllSlots(src, dst, overwrite, failures);
      && Valid(r.slots)
      && MapOf(r.slots) == MapOf(dst) + MapOf(src)
      && Compact(r.slots)
      && |r.slots| == if |MapOf(r.slots)| == 0 then 1 else |MapOf(r.slots)|
  {
    var (ok, rest) := Alloc(failures);
    var o := Rebuilt(src, dst, rest);
    assert CopyAllSlots(src, dst, overwrite, failures).slots == o.slots;
    RebuiltAbstractly(src, dst, rest);
    RebuiltCompact(src, dst, rest);
    if o.slots != InitSlots {
      CompactSize(o.slots);
    }
  }

  /** The overwrite pre-check of copyall: does any live source key exist in
      the destination? */
  method HasOverlap(src: Db, dst: Db) returns (found: bool)
    ensures found == Overlap(src.slots, dst.slots)
  {
    var i := 0;
    while i < |src.slots|
      invariant 0 <= i <= |src.slots|
      invariant forall j :: 0 <= j < i && src.slots[j].Live? ==> !Present(dst.slots, src.slots[j].key)
    {
      if src.slots[i].Live? {
        var e := dst.Exist(src.slots[i].key);
        if e != KeyNotExist {
          assert src.slots[i].Live? && Present(dst.slots, src.slots[i].key);
          return true;
        }
      }
      i := i + 1;
    }
    found := false;
  }

  /** One set loop of copyall: set every live pair of `from` into `tmp`, in
      slot order, stopping at the first failure.  `code` carries the result
      of the last set, starting from `start`. */
  method SetEach(tmp: Db, from: seq<Slot>, start: int, heap: Allocator) returns (code: int)
    requires start >= 0 && tmp.Valid()
    modifies tmp, heap
    ensures Outcome(code, tmp.slots, heap.failures) == Replay(Outcome(start, old(tmp.slots), old(heap.failures)), from)
    ensures tmp.Valid()
  {
    code := start;
    var i := 0;
    while i < |from|
      invariant 0 <= i <= |from| && code >= 0 && tmp.Valid()
      invariant Replay(Outcome(code, tmp.slots, heap.failures), from[i..])
        == Replay(Outcome(start, old(tmp.slots), old(heap.failures)), from)
    {
      assert from[i..][1..] == from[i + 1..];
      if from[i].Live? {
        code := tmp.Set(from[i].key, from[i].value, heap);
        if Failed(code) {
          return;
        }
      }
      i := i + 1;
    }
  }

  method CopyAll(src: Db, dst: Db, overwrite: int, heap: Allocator) returns (code: int)
    requires src != dst && dst.Valid()
    modifies dst, heap
    ensures Outcome(code, dst.slots, heap.failures) == CopyAllSlots(src.slots, old(dst.slots), overwrite, old(heap.failures))
    ensures dst.Valid()
  {
    if overwrite == 0 {
      var found := HasOverlap(src, dst);
      if found {
        return KeyExist;
      }
    }
    var tmp := new Db();
    code := tmp.Init(heap);
    if Failed(code) {
      return;
    }
    code := SetEach(tmp, dst.slots, code, heap);
    if Failed(code) {
      tmp.Shut();
      return;
    }
    code := SetEach(tmp, src.slots, code, heap);
    if Failed(code) {
      tmp.Shut();
      return;
    }
    dst.Shut();
    dst.slots := tmp.slots;
    code := Success;
  }

  /** Both tables after a transfer that may change the source. */
  datatype Moved = Moved(code: int, src: seq<Slot>, dst: seq<Slot>, failures: seq<bool>)

  /** rottDB_move: copy, then delete the key from the source unless the copy
      failed. */
  function MoveSlots(src: seq<Slot>, key: CStr, dst: seq<Slot>, overwrite: int, failures: seq<bool>): Moved
  {
    var c := CopySlots(src, key, dst, overwrite, failures);
    if Failed(c.code) then Moved(c.code, src, c.slots, c.failures)
    else Moved(c.code, DelSlots(src, key).1, c.slots, c.failures)
  }

  /** move hands the binding of `key` over from source to destination and
      reports ADDED or UPDATED; when the copy step fails, its code is
      returned, the source is untouched and no destination binding changes. */
  lemma MoveAbstractly(src: seq<Slot>, key: CStr, dst: seq<Slot>, overwrite: int, failures: seq<bool>)
    requires Valid(src) && Valid(dst)
    ensures var m := MoveSlots(src, key, dst, overwrite, failures);
      && Valid(m.src) && Valid(m.dst)
      && m.code == CopySlots(src, key, dst, overwrite, failures).code
      && (Failed(m.code) ==> m.src == src && MapOf(m.dst) == MapOf(dst))
      && (m.code >= 0 ==>
            && (m.code == Added || m.code == Updated)
            && key in MapOf(src)
            && |m.src| == |src|
            && MapOf(m.src) == MapOf(src) - {key}
            && MapOf(m.dst) == MapOf(dst)[key := MapOf(src)[key]])
  {
    CopyAbstractly(src, key, dst, overwrite, failures);
    DelAbstractly(src, key);
  }

  method Move(src: Db, key: CStr, dst: Db, overwrite: int, heap: Allocator) returns (code: int)
    requires src != dst && src.Valid() && dst.Valid()
    modifies src, dst, heap
    ensures Moved(code, src.slots, dst.slots, heap.failures)
      == MoveSlots(old(src.slots), key, old(dst.slots), overwrite, old(heap.failures))
    ensures src.Valid() && dst.Valid()
  {
    code := Copy(src, key, dst, overwrite, heap);
    if Failed(code) {
      return;
    }
    var _ := src.Del(key);
  }

  /** rottDB_moveall: copyall, then tombstone every source slot. */
  function MoveAllSlots(src: seq<Slot>, dst: seq<Slot>, overwrite: int, failures: seq<bool>): Moved
  {
    var c := CopyAllSlots(src, dst, overwrite, failures);
    if Failed(c.code) then Moved(c.code, src, c.slots, c.failures)
    else Moved(Success, Cleared(src), c.slots, c.failures)
  }

  /** moveall leaves every source slot a tombstone (the length unchanged)
      and the destination holding both maps, or, on failure, both tables
      exactly as they were. */
  lemma MoveAllAbstractly(src: seq<Slot>, dst: seq<Slot>, overwrite: int, failures: seq<bool>)
    requires Valid(src) && Valid(dst)
    ensures var m := MoveAllSlots(src, dst, overwrite, failures);
      && (m.code == Success || m.code == KeyExist || m.code == NoMemory)
      && (m.code != Success ==> m.src == src && m.dst == dst)
      && (m.code == Success ==>
            && |m.src| == |src| && AllTombstones(m.src) && MapOf(m.src) == map[]
            && Valid(m.dst) && MapOf(m.dst) == MapOf(dst) + MapOf(src))
  {
    var c := CopyAllSlots(src, dst, overwrite, failures);
    var m := MoveAllSlots(src, dst, overwrite, failures);
    CopyAllAbstractly(src, dst, overwrite, failures);
    assert m.code == c.code && m.dst == c.slots;
    if c.code == Success {
      CopyAllSucceeds(src, dst, overwrite, failures);
      AllTombstonesEmpty(m.src);
    } else {
      assert m.src == src;
    }
  }

  method MoveAll(src: Db, dst: Db, overwrite: int, heap: Allocator) returns (code: int)
    requires src != dst && src.Valid() && dst.Valid()
    modifies src, dst, heap
    ensures Moved(code, src.slots, dst.slots, heap.failures)
      == MoveAllSlots(old(src.slots), old(dst.slots), overwrite, old(heap.failures))
    ensures src.Valid() && dst.Valid()
  {
    code := CopyAll(src, dst, overwrite, heap);
    if Failed(code) {
      return;
    }
    src.DelAll();
    code := Success;
  }
}
