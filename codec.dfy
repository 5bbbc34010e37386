/** rottDB_save and rottDB_load: the file format of a table.

    A file is the signature word followed by one record per live slot, in
    slot order.  A record is the size of the key (its bytes plus the
    terminating NUL) as a word, the key and its NUL, then the size of the
    value as a word, the value and its NUL.  Words are `size_t` written in
    host byte order; this model fixes them at eight little-endian bytes, as
    on x86-64.  The file is a byte sequence here: writing returns the bytes
    and reading takes them. */
module Codec {
  import opened Basics
  import opened Memory
  import opened Slots
  import opened Table

  /** rDB_SIGN, the first word of every file: the bytes "rott". */
  const Sign: nat := 0x74746f72

  const WordSize: nat := 8

  function Pow256(n: nat): (p: nat)
    ensures p > 0
  {
    if n == 0 then 1 else 256 * Pow256(n - 1)
  }

  lemma PowWord()
    ensures Pow256(WordSize) == WORD
  {
    assert Pow256(2) == 0x1_0000;
    assert Pow256(4) == 0x1_0000_0000;
    assert Pow256(6) == 0x1_0000_0000_0000;
  }

  /** `n` as `width` bytes, least significant first. */
  function LittleEndian(n: nat, width: nat): (b: seq<byte>)
    requires n < Pow256(width)
    ensures |b| == width
  {
    if width == 0 then [] else [n % 256] + LittleEndian(n / 256, width - 1)
  }

  /** The number whose little-endian bytes are `b`. */
  function FromLittleEndian(b: seq<byte>): (n: nat)
    ensures n < Pow256(|b|)
  {
    if b == [] then 0
    else
      var rest := FromLittleEndian(b[1..]);
      assert rest <= Pow256(|b| - 1) - 1;
      assert 256 * rest <= 256 * Pow256(|b| - 1) - 256;
      b[0] + 256 * rest
  }

  /** Reading back what was written gives the number. */
  lemma {:induction false} LittleEndianRoundTrip(n: nat, width: nat)
    requires n < Pow256(width)
    ensures FromLittleEndian(LittleEndian(n, width)) == n
  {
    if width > 0 {
      var b := LittleEndian(n, width);
      assert n / 256 < Pow256(width - 1);
      assert b[1..] == LittleEndian(n / 256, width - 1);
      LittleEndianRoundTrip(n / 256, width - 1);
    }
  }

  /** Writing what was read gives the bytes. */
  lemma {:induction false} LittleEndianOfBytes(b: seq<byte>)
    ensures LittleEndian(FromLittleEndian(b), |b|) == b
  {
    if b != [] {
      var n := FromLittleEndian(b);
      var rest := FromLittleEndian(b[1..]);
      assert n == b[0] + 256 * rest;
      assert n % 256 == b[0] && n / 256 == rest;
      LittleEndianOfBytes(b[1..]);
    }
  }

  /** One `size_t` as it is written to the file. */
  function Word(n: nat): (w: seq<byte>)
    requires n < WORD
    ensures |w| == WordSize
  {
    PowWord();
    LittleEndian(n, WordSize)
  }

  /** One `size_t` as it is read from eight bytes of the file. */
  function ReadWord(b: seq<byte>): (n: nat)
    requires |b| == WordSize
    ensures n < WORD
  {
    PowWord();
    FromLittleEndian(b)
  }

  lemma WordRoundTrip(n: nat)
    requires n < WORD
    ensures ReadWord(Word(n)) == n
  {
    PowWord();
    LittleEndianRoundTrip(n, WordSize);
  }

  /** The signature word starts every file with the bytes 72 6f 74 74. */
  lemma SignatureBytes()
    ensures Sign < WORD && Word(Sign) == [0x72, 0x6f, 0x74, 0x74, 0, 0, 0, 0]
  {
    PowWord();
    assert LittleEndian(0, 4) == [0, 0, 0, 0];
    assert LittleEndian(0x74, 5) == [0x74, 0, 0, 0, 0];
    assert LittleEndian(0x7474, 6) == [0x74, 0x74, 0, 0, 0, 0];
    assert LittleEndian(0x74746f, 7) == [0x6f, 0x74, 0x74, 0, 0, 0, 0];
  }

  /** rDB_size: the bytes a string occupies, its terminating NUL included. */
  function Size(s: CStr): nat
  {
    |s| + 1
  }

  /** A string whose size a `size_t` can hold. */
  predicate Storable(s: CStr) {
    Size(s) < WORD
  }

  /** A key or value as written: its size, its bytes and the NUL. */
  function Field(s: CStr): (f: seq<byte>)
    requires Storable(s)
    ensures |f| == WordSize + Size(s)
  {
    Word(Size(s)) + s + [0]
  }

  /** The key and value of each live slot, in slot order. */
  function LivePairs(s: seq<Slot>): seq<(CStr, CStr)>
  {
    if s == [] then []
    else (if s[0].Live? then [(s[0].key, s[0].value)] else []) + LivePairs(s[1..])
  }

  /** Every pair's key and value can be written. */
  predicate Fits(ps: seq<(CStr, CStr)>) {
    forall i :: 0 <= i < |ps| ==> Storable(ps[i].0) && Storable(ps[i].1)
  }

  /** Every live key and value of a table can be written. */
  predicate Savable(s: seq<Slot>) {
    forall i :: 0 <= i < |s| && s[i].Live? ==> Storable(s[i].key) && Storable(s[i].value)
  }

  lemma {:induction false} SavableFits(s: seq<Slot>)
    requires Savable(s)
    ensures Fits(LivePairs(s))
  {
    if s != [] {
      assert Savable(s[1..]) by {
        forall i | 0 <= i < |s[1..]| && s[1..][i].Live?
          ensures Storable(s[1..][i].key) && Storable(s[1..][i].value)
        {
          assert s[1..][i] == s[i + 1];
        }
      }
      SavableFits(s[1..]);
    }
  }

  /** The records of a sequence of pairs, one after the other. */
  function EncodePairs(ps: seq<(CStr, CStr)>): (b: seq<byte>)
    requires Fits(ps)
  {
    if ps == [] then []
    else
      assert Fits(ps[1..]) by {
        forall i | 0 <= i < |ps[1..]| ensures Storable(ps[1..][i].0) && Storable(ps[1..][i].1) {
          assert ps[1..][i] == ps[i + 1];
        }
      }
      Field(ps[0].0) + Field(ps[0].1) + EncodePairs(ps[1..])
  }

  /** The record of one slot: nothing for a tombstone. */
  function SlotRecord(slot: Slot): seq<byte>
    requires slot.Live? ==> Storable(slot.key) && Storable(slot.value)
  {
    if slot.Live? then Field(slot.key) + Field(slot.value) else []
  }

  /** The whole file rottDB_save writes for a table. */
  function Encode(s: seq<Slot>): (b: seq<byte>)
    requires Savable(s)
  {
    SavableFits(s);
    Word(Sign) + EncodePairs(LivePairs(s))
  }

  /** One more slot adds its record to the records of the live pairs. */
  lemma AppendSlotRecord(done: seq<Slot>, slot: Slot)
    requires Savable(done) && (slot.Live? ==> Storable(slot.key) && Storable(slot.value))
    ensures Fits(LivePairs(done)) && Fits(LivePairs(done + [slot]))
    ensures EncodePairs(LivePairs(done + [slot])) == EncodePairs(LivePairs(done)) + SlotRecord(slot)
  {
    SavableFits(done);
    LivePairsSnoc(done, slot);
    var next := if slot.Live? then [(slot.key, slot.value)] else [];
    assert Fits(next);
    EncodePairsAppend(LivePairs(done), next);
    if slot.Live? {
      assert EncodePairs(next) == Field(slot.key) + Field(slot.value) + EncodePairs([]);
    }
  }

  lemma SavablePrefix(s: seq<Slot>, n: nat)
    requires Savable(s) && n <= |s|
    ensures Savable(s[..n])
  {
    forall i | 0 <= i < n && s[..n][i].Live? ensures Storable(s[..n][i].key) && Storable(s[..n][i].value) {
      assert s[..n][i] == s[i];
    }
  }

  lemma Associate<T>(a: seq<T>, b: seq<T>, c: seq<T>)
    ensures a + b + c == a + (b + c)
  {
  }

  lemma {:induction false} LivePairsSnoc(s: seq<Slot>, x: Slot)
    ensures LivePairs(s + [x]) == LivePairs(s) + (if x.Live? then [(x.key, x.value)] else [])
  {
    if s != [] {
      assert (s + [x])[1..] == s[1..] + [x];
      LivePairsSnoc(s[1..], x);
      var head := if s[0].Live? then [(s[0].key, s[0].value)] else [];
      Associate(head, LivePairs(s[1..]), if x.Live? then [(x.key, x.value)] else []);
    } else {
      assert [] + [x] == [x];
    }
  }

  lemma {:induction false} EncodePairsAppend(ps: seq<(CStr, CStr)>, qs: seq<(CStr, CStr)>)
    requires Fits(ps) && Fits(qs)
    ensures Fits(ps + qs) && EncodePairs(ps + qs) == EncodePairs(ps) + EncodePairs(qs)
  {
    assert Fits(ps + qs) by {
      forall i | 0 <= i < |ps + qs| ensures Storable((ps + qs)[i].0) && Storable((ps + qs)[i].1) {
        if i < |ps| { assert (ps + qs)[i] == ps[i]; } else { assert (ps + qs)[i] == qs[i - |ps|]; }
      }
    }
    if ps == [] {
      assert ps + qs == qs;
    } else {
      assert (ps + qs)[1..] == ps[1..] + qs;
      assert Fits(ps[1..]) by {
        forall i | 0 <= i < |ps[1..]| ensures Storable(ps[1..][i].0) && Storable(ps[1..][i].1) {
          assert ps[1..][i] == ps[i + 1];
        }
      }
      EncodePairsAppend(ps[1..], qs);
    }
  }

  /** What `strcpy` and the string routines see in a buffer read from the
      file: its bytes up to the first NUL, or all of them when it has none. */
  function CString(b: seq<byte>): (s: CStr)
    ensures |s| <= |b| && s == b[..|s|]
    ensures |s| < |b| ==> b[|s|] == 0
  {
    if b == [] || b[0] == 0 then [] else [b[0]] + CString(b[1..])
  }

  lemma {:induction false} CStringOfTerminated(s: CStr, rest: seq<byte>)
    ensures CString(s + [0] + rest) == s
  {
    if s != [] {
      assert (s + [0] + rest)[1..] == s[1..] + [0] + rest;
      CStringOfTerminated(s[1..], rest);
    }
  }

  /** One record read from the front of the rest of a file. */
  datatype Record = Record(key: CStr, value: CStr, rest: seq<byte>)

  /** The reads of one pass of the load loop: key size, key, value size,
      value.  None when the file ends before all of them are complete, which
      the loop sees as end of file. */
  function ReadRecord(input: seq<byte>): (r: Option<Record>)
    ensures r.Some? ==> |r.value.rest| < |input|
  {
    if |input| < WordSize then None
    else
      var keyLength := ReadWord(input[..WordSize]);
      var afterKeyLength := input[WordSize..];
      if |afterKeyLength| < keyLength then None
      else
        var afterKey := afterKeyLength[keyLength..];
        if |afterKey| < WordSize then None
        else
          var valueLength := ReadWord(afterKey[..WordSize]);
          var afterValueLength := afterKey[WordSize..];
          if |afterValueLength| < valueLength then None
          else
            Some(Record(CString(afterKeyLength[..keyLength]),
                        CString(afterValueLength[..valueLength]),
                        afterValueLength[valueLength..]))
  }

  /** A field as written reads back as its size, then the string, then
      whatever follows it. */
  lemma ReadField(x: CStr, rest: seq<byte>)
    requires Storable(x)
    ensures var input := Field(x) + rest;
      && |input| >= WordSize && ReadWord(input[..WordSize]) == Size(x)
      && |input[WordSize..]| >= Size(x)
      && CString(input[WordSize..][..Size(x)]) == x
      && input[WordSize..][Size(x)..] == rest
  {
    var input := Field(x) + rest;
    assert input[..WordSize] == Word(Size(x));
    WordRoundTrip(Size(x));
    assert input[WordSize..] == (x + [0]) + rest;
    CStringOfTerminated(x, []);
    assert x + [0] + [] == x + [0];
  }

  /** rDB_size counts the NUL: the size word of a field reads back as the
      string's length plus one, and exactly the string and one NUL follow. */
  lemma FieldSize(x: CStr)
    requires Storable(x)
    ensures ReadWord(Field(x)[..WordSize]) == |x| + 1
    ensures Field(x)[WordSize..] == x + [0]
    ensures CString(Field(x)[WordSize..]) == x
  {
    ReadField(x, []);
    assert Field(x) + [] == Field(x);
  }

  /** A record as written reads back as its key and value. */
  lemma ReadEncodedRecord(key: CStr, value: CStr, rest: seq<byte>)
    requires Storable(key) && Storable(value)
    ensures ReadRecord(Field(key) + Field(value) + rest) == Some(Record(key, value, rest))
  {
    var input := Field(key) + Field(value) + rest;
    assert input == Field(key) + (Field(value) + rest);
    ReadField(key, Field(value) + rest);
    var afterKey := input[WordSize..][Size(key)..];
    assert afterKey == Field(value) + rest;
    ReadField(value, rest);
  }

  /** A record cut short anywhere reads as the end of the file. */
  lemma TruncatedRecord(key: CStr, value: CStr, n: nat)
    requires Storable(key) && Storable(value)
    requires n < |Field(key) + Field(value)|
    ensures ReadRecord((Field(key) + Field(value))[..n]) == None
  {
    var input := (Field(key) + Field(value))[..n];
    if WordSize <= n {
      assert input[..WordSize] == Word(Size(key));
      WordRoundTrip(Size(key));
      if WordSize + Size(key) + WordSize <= n {
        var full := Field(key) + Field(value);
        assert full[WordSize + Size(key)..] == Field(value);
        assert input[WordSize..][Size(key)..][..WordSize] == Field(value)[..WordSize] == Word(Size(value));
        WordRoundTrip(Size(value));
      }
    }
  }

  /** Setting the pairs in order into a map: the last value written for a
      key is the one that stays. */
  function Overlay(m: map<CStr, CStr>, ps: seq<(CStr, CStr)>): map<CStr, CStr>
    decreases ps
  {
    if ps == [] then m else Overlay(m[ps[0].0 := ps[0].1], ps[1..])
  }

  /** A binding survives pairs that never mention its key. */
  lemma {:induction false} OverlayKeeps(m: map<CStr, CStr>, ps: seq<(CStr, CStr)>, key: CStr)
    requires key in m
    requires forall j :: 0 <= j < |ps| ==> ps[j].0 != key
    ensures key in Overlay(m, ps) && Overlay(m, ps)[key] == m[key]
    decreases ps
  {
    if ps != [] {
      assert ps[0].0 != key;
      forall j | 0 <= j < |ps[1..]| ensures ps[1..][j].0 != key {
        assert ps[1..][j] == ps[j + 1];
      }
      OverlayKeeps(m[ps[0].0 := ps[0].1], ps[1..], key);
    }
  }

  /** The last pair for a key decides its value, whatever pairs for other
      keys follow it. */
  lemma {:induction false} OverlayLastWins(m: map<CStr, CStr>, ps: seq<(CStr, CStr)>, i: nat)
    requires i < |ps|
    requires forall j :: i < j < |ps| ==> ps[j].0 != ps[i].0
    ensures ps[i].0 in Overlay(m, ps) && Overlay(m, ps)[ps[i].0] == ps[i].1
    decreases ps
  {
    var m' := m[ps[0].0 := ps[0].1];
    if i == 0 {
      forall j | 0 <= j < |ps[1..]| ensures ps[1..][j].0 != ps[0].0 {
        assert ps[1..][j] == ps[j + 1];
      }
      OverlayKeeps(m', ps[1..], ps[0].0);
    } else {
      forall j | i - 1 < j < |ps[1..]| ensures ps[1..][j].0 != ps[1..][i - 1].0 {
        assert ps[1..][j] == ps[j + 1];
      }
      OverlayLastWins(m', ps[1..], i - 1);
    }
  }

  /** The pairs of a table with distinct keys do not override each other. */
  lemma {:induction false} OverlayLivePairs(m: map<CStr, CStr>, s: seq<Slot>)
    requires DistinctKeys(s)
    ensures Overlay(m, LivePairs(s)) == m + MapOf(s)
    decreases s
  {
    if s == [] {
      assert MapOf(s) == map[];
    } else {
      MapOfCons(s);
      if s[0].Live? {
        var ps := LivePairs(s);
        assert ps[0] == (s[0].key, s[0].value) && ps[1..] == LivePairs(s[1..]);
        OverlayLivePairs(m[s[0].key := s[0].value], s[1..]);
        OverrideFirst(m, s[0].key, s[0].value, MapOf(s[1..]));
      } else {
        assert LivePairs(s) == LivePairs(s[1..]);
        OverlayLivePairs(m, s[1..]);
      }
    }
  }

  /** What rottDB_load leaves: the file's signature did not match or the
      table could not be created, so there is no table; or a table and the
      code the load returned. */
  datatype Loaded = NotLoaded(code: int) | Loaded(code: int, slots: seq<Slot>)

  predicate HasSignature(stream: seq<byte>) {
    |stream| >= WordSize && ReadWord(stream[..WordSize]) == Sign
  }

  /** rottDB_load over the bytes of a file, with the allocations it makes
      decided by `failures`. */
  function Decode(stream: seq<byte>, failures: seq<bool>): (r: Loaded)
    ensures r == NotLoaded(Error) <==> !HasSignature(stream)
  {
    if !HasSignature(stream) then NotLoaded(Error)
    else
      var (ok, rest) := Alloc(failures);
      if !ok then NotLoaded(NoMemory)
      else LoadRecords(InitSlots, stream[WordSize..], rest)
  }

  /** The passes of the load loop from table `s` on: two buffers are
      allocated, a record is read, and a complete record is set. */
  function LoadRecords(s: seq<Slot>, input: seq<byte>, failures: seq<bool>): (r: Loaded)
    ensures r.Loaded?
    decreases |input|
  {
    var (keyOk, afterKey) := Alloc(failures);
    if !keyOk then Loaded(NoMemory, s)
    else
      var (valueOk, afterValue) := Alloc(afterKey);
      if !valueOk then Loaded(NoMemory, s)
      else
        match ReadRecord(input)
        case None => Loaded(Success, s)
        case Some(record) =>
          var o := SetSlots(s, record.key, record.value, afterValue);
          if Failed(o.code) then Loaded(o.code, [])
          else LoadRecords(o.slots, record.rest, o.failures)
  }

  lemma {:induction false} LoadRecordsOutcomes(s: seq<Slot>, input: seq<byte>, failures: seq<bool>)
    requires Valid(s)
    ensures var r := LoadRecords(s, input, failures);
      && Valid(r.slots)
      && (r.code == Success || r.code == NoMemory)
      && (NeverFails(failures) ==> r.code == Success)
    decreases |input|
  {
    var (keyOk, afterKey) := Alloc(failures);
    var (valueOk, afterValue) := Alloc(afterKey);
    if keyOk && valueOk {
      match ReadRecord(input)
      case None =>
      case Some(record) =>
        SetAbstractly(s, record.key, record.value, afterValue);
        if NeverFails(failures) {
          SetNeverFails(s, record.key, record.value, afterValue);
        }
        var o := SetSlots(s, record.key, record.value, afterValue);
        if o.code >= 0 {
          LoadRecordsOutcomes(o.slots, record.rest, o.failures);
        }
    }
  }

  /** A loaded table is well formed; loading fails only for lack of memory
      or a bad signature, and with enough memory a signed file loads. */
  lemma DecodeOutcomes(stream: seq<byte>, failures: seq<bool>)
    ensures var r := Decode(stream, failures);
      && (r.NotLoaded? ==> r.code == Error || r.code == NoMemory)
      && (r.Loaded? ==> Valid(r.slots) && (r.code == Success || r.code == NoMemory))
      && (NeverFails(failures) && HasSignature(stream) ==> r.Loaded? && r.code == Success)
  {
    var (ok, rest) := Alloc(failures);
    if HasSignature(stream) && ok {
      LoadRecordsOutcomes(InitSlots, stream[WordSize..], rest);
    }
  }

  /** One pass over a complete record, when memory does not run out: the
      record is set into the table. */
  lemma LoadStep(s: seq<Slot>, key: CStr, value: CStr, rest: seq<byte>, failures: seq<bool>)
    requires Storable(key) && Storable(value) && NeverFails(failures)
    ensures var f := Alloc(Alloc(failures).1).1;
      var o := SetSlots(s, key, value, f);
      && NeverFails(f)
      && LoadRecords(s, Field(key) + Field(value) + rest, failures)
         == if Failed(o.code) then Loaded(o.code, []) else LoadRecords(o.slots, rest, o.failures)
  {
    ReadEncodedRecord(key, value, rest);
    NeverFailsAlloc(failures);
    NeverFailsAlloc(Alloc(failures).1);
  }

  lemma FitsTail(ps: seq<(CStr, CStr)>)
    requires Fits(ps) && ps != []
    ensures Storable(ps[0].0) && Storable(ps[0].1) && Fits(ps[1..])
  {
    forall i | 0 <= i < |ps[1..]| ensures Storable(ps[1..][i].0) && Storable(ps[1..][i].1) {
      assert ps[1..][i] == ps[i + 1];
    }
  }

  /** Loading a run of records followed by a trailing incomplete record (or
      nothing) sets every pair in order and drops the trailing bytes. */
  lemma {:induction false} LoadPairs(s: seq<Slot>, ps: seq<(CStr, CStr)>, tail: seq<byte>, failures: seq<bool>)
    requires Valid(s) && Fits(ps) && ReadRecord(tail) == None && NeverFails(failures)
    ensures var r := LoadRecords(s, EncodePairs(ps) + tail, failures);
      && r.code == Success && Valid(r.slots) && MapOf(r.slots) == Overlay(MapOf(s), ps)
    decreases ps
  {
    if ps == [] {
      assert EncodePairs(ps) + tail == tail;
      NeverFailsAlloc(failures);
      NeverFailsAlloc(Alloc(failures).1);
    } else {
      FitsTail(ps);
      var key, value := ps[0].0, ps[0].1;
      var more := EncodePairs(ps[1..]);
      assert EncodePairs(ps) + tail == Field(key) + Field(value) + (more + tail);
      LoadStep(s, key, value, more + tail, failures);
      var f := Alloc(Alloc(failures).1).1;
      SetAbstractly(s, key, value, f);
      SetNeverFails(s, key, value, f);
      var o := SetSlots(s, key, value, f);
      LoadPairs(o.slots, ps[1..], tail, o.failures);
    }
  }

  /** A signed file passes the signature test: it goes on to the record
      loop from init's table when the table can be allocated, and fails
      with NO_MEMORY, creating no table, when it cannot. */
  lemma DecodeSigned(body: seq<byte>, failures: seq<bool>)
    ensures Sign < WORD
    ensures Decode(Word(Sign) + body, failures)
      == if Alloc(failures).0 then LoadRecords(InitSlots, body, Alloc(failures).1) else NotLoaded(NoMemory)
    ensures NeverFails(failures) ==> Alloc(failures).0 && NeverFails(Alloc(failures).1)
  {
    var stream := Word(Sign) + body;
    assert stream[..WordSize] == Word(Sign);
    WordRoundTrip(Sign);
    assert stream[WordSize..] == body;
    if NeverFails(failures) {
      NeverFailsAlloc(failures);
    }
  }

  /** A signed file of records loads as the pairs set in file order, the
      last value of a repeated key winning; trailing bytes too short for a
      record are ignored. */
  lemma DecodePairs(ps: seq<(CStr, CStr)>, tail: seq<byte>, failures: seq<bool>)
    requires Fits(ps) && ReadRecord(tail) == None && NeverFails(failures)
    ensures Sign < WORD
    ensures var r := Decode(Word(Sign) + (EncodePairs(ps) + tail), failures);
      && r.Loaded? && r.code == Success && Valid(r.slots) && MapOf(r.slots) == Overlay(map[], ps)
  {
    DecodeSigned(EncodePairs(ps) + tail, failures);
    InitSlotsEmpty();
    LoadPairs(InitSlots, ps, tail, Alloc(failures).1);
  }

  /** A saved table loads back as the same map, with enough memory. */
  lemma DecodeEncode(s: seq<Slot>, failures: seq<bool>)
    requires Valid(s) && Savable(s) && NeverFails(failures)
    ensures var r := Decode(Encode(s), failures);
      && r.Loaded? && r.code == Success && Valid(r.slots) && MapOf(r.slots) == MapOf(s)
  {
    EncodeAsPairs(s);
    DecodePairs(LivePairs(s), [], failures);
    OverlayOfTable(s);
  }

  /** The saved file is the signature and the records of the live pairs. */
  lemma EncodeAsPairs(s: seq<Slot>)
    requires Savable(s)
    ensures Fits(LivePairs(s)) && Encode(s) == Word(Sign) + (EncodePairs(LivePairs(s)) + [])
  {
    SavableFits(s);
    assert EncodePairs(LivePairs(s)) == EncodePairs(LivePairs(s)) + [];
  }

  /** Setting the live pairs of a table with distinct keys into an empty
      map gives the table's map. */
  lemma OverlayOfTable(s: seq<Slot>)
    requires DistinctKeys(s)
    ensures Overlay(map[], LivePairs(s)) == MapOf(s)
  {
    OverlayLivePairs(map[], s);
    assert map[] + MapOf(s) == MapOf(s);
  }

  /** A file whose last record is cut short loads as if the record had
      never been written. */
  lemma DecodeTruncated(ps: seq<(CStr, CStr)>, key: CStr, value: CStr, n: nat, failures: seq<bool>)
    requires Fits(ps) && Storable(key) && Storable(value) && NeverFails(failures)
    requires n < |Field(key) + Field(value)|
    ensures Sign < WORD
    ensures var r := Decode(Word(Sign) + (EncodePairs(ps) + (Field(key) + Field(value))[..n]), failures);
      && r.Loaded? && r.code == Success && Valid(r.slots) && MapOf(r.slots) == Overlay(map[], ps)
  {
    TruncatedRecord(key, value, n);
    DecodePairs(ps, (Field(key) + Field(value))[..n], failures);
  }

  /** The write loop of rottDB_save: after the bytes already in `out`, the
      record of each live slot in slot order. */
  method WriteRecords(out: seq<byte>, slots: seq<Slot>) returns (stream: seq<byte>)
    requires Savable(slots)
    ensures Fits(LivePairs(slots)) && stream == out + EncodePairs(LivePairs(slots))
  {
    stream := out;
    var i := 0;
    assert slots[..i] == [];
    while i < |slots|
      invariant 0 <= i <= |slots|
      invariant Fits(LivePairs(slots[..i])) && stream == out + EncodePairs(LivePairs(slots[..i]))
    {
      assert slots[..i + 1] == slots[..i] + [slots[i]];
      SavablePrefix(slots, i);
      AppendSlotRecord(slots[..i], slots[i]);
      if slots[i].Live? {
        var record := Field(slots[i].key) + Field(slots[i].value);
        Associate(out, EncodePairs(LivePairs(slots[..i])), record);
        stream := stream + record;
      } else {
        assert EncodePairs(LivePairs(slots[..i])) + [] == EncodePairs(LivePairs(slots[..i]));
      }
      i := i + 1;
    }
    assert slots[..i] == slots;
  }

  /** rottDB_save: the signature word, then the record of each live slot. */
  method Save(db: Db) returns (stream: seq<byte>)
    requires Savable(db.slots)
    ensures stream == Encode(db.slots)
  {
    stream := Word(Sign);
    stream := WriteRecords(stream, db.slots);
  }

  /** rottDB_load: check the signature, create the table, then read and set
      records until the file ends. */
  method Load(db: Db, stream: seq<byte>, heap: Allocator) returns (code: int)
    modifies db, heap
    ensures var r := Decode(stream, old(heap.failures));
      && code == r.code
      && (r.Loaded? ==> db.slots == r.slots)
      && (r.NotLoaded? ==> db.slots == old(db.slots))
    ensures Decode(stream, old(heap.failures)).Loaded? ==> db.Valid()
  {
    if |stream| < WordSize || ReadWord(stream[..WordSize]) != Sign {
      return Error;
    }
    code := db.Init(heap);
    if Failed(code) {
      return;
    }
    var input := stream[WordSize..];
    while true
      invariant LoadRecords(db.slots, input, heap.failures) == Decode(stream, old(heap.failures))
      invariant db.Valid()
      decreases |input|
    {
      var keyOk := heap.Malloc();
      if !keyOk {
        return NoMemory;
      }
      var valueOk := heap.Malloc();
      if !valueOk {
        return NoMemory;
      }
      var record := ReadRecord(input);
      if record.None? {
        return Success;
      }
      code := db.Set(record.value.key, record.value.value, heap);
      if Failed(code) {
        db.Shut();
        return;
      }
      input := record.value.rest;
    }
  }
}
