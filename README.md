# rottDB in Dafny

rottDB is a small in-memory key-value store for C strings. A `rottDB` handle
owns an array of `length` slots. Each slot is either empty (a tombstone: key
and value NULL, hash 0) or a live pair with a key, a value and the djb2 hash of
the key. A lookup scans the slots in order. It compares the hash first and then
the key bytes. `set` updates a live key in place, or else fills the last
tombstone the scan saw, or else grows the array by one slot. `del` and `delall`
turn slots back into tombstones and never shrink the array. The transfer
operations copy or move one pair or all pairs between two handles. `copyall`
builds the merged table in a temporary handle, so a failure leaves the
destination untouched. `save` and `load` write and read a table as a signature
word followed by length-prefixed key/value records.

This project models all of that:

- `Basics`: bytes, NUL-free strings (`CStr`) and the return codes.
- `Memory`: the allocator. Whether each `malloc`/`realloc` succeeds comes from
  a script that the caller supplies.
- `Hashing`: `rDB_hash`.
- `Slots`: the slot table as values. It defines well-formedness (`Valid`: every
  stored hash is the hash of its key, and no key occurs twice), the map a table
  stands for (`MapOf`), and `set`/`get`/`del` as functions, with lemmas about
  their effect on that map.
- `Table`: the `rottDB` handle as a class `Db`. Its methods run the loops of
  rottDB.c and are proved to leave exactly the table that `Slots` describes.
- `Transfer`: copy, copyall, move and moveall, both as methods on two handles
  and as functions with lemmas.
- `Codec`: save and load over a byte sequence standing for the file, with the
  round trip proved.

## Model

| member | source | states |
|---|---|---|
| Basics.CodeSigns | src/rottDB.h:38-49 | every error code is negative and every success code is not, which is the test all callers apply |
| Hashing.CharValue | src/rottDB.c:418-426 | a key byte read through a signed `char` lies in -128..127 and is congruent to the byte modulo 256 |
| Hashing.Hash | src/rottDB.c:418-426 | the hash always fits in an `unsigned long` (below 2^64) |
| Hashing.HashIsHornerModWord | src/rottDB.c:418-426 | wrapping at every step gives the djb2 polynomial (5381, then times 33 plus each byte) computed exactly and reduced modulo 2^64 once |
| Hashing.ComputeHash | src/rottDB.c:418-426 | the accumulator loop over the key's bytes returns the hash of the key |
| Slots.Find | src/rottDB.h:31-32 | the scan returns the first slot that matches the key and hash (none before it matches), or the length when no slot matches |
| Slots.FindAgreesWithMap | src/rottDB.h:31-32 | on a well-formed table the hash pre-filter never hides a key: the scan finds the key exactly when it is in the table's map, at the slot holding its value |
| Slots.LookupAgreesWithMap | src/rottDB.c:159-177 | get yields the key's value when the key is in the map, and nothing otherwise |
| Slots.LastTombstone | src/rottDB.c:65-77 | `null_pos` after the scan is the last tombstone (every later slot live), or the length when every slot is live |
| Slots.InitSlotsEmpty | src/rottDB.c:34-48 | a fresh table has one tombstone slot, is well formed and maps nothing |
| Slots.AllTombstonesEmpty | src/rottDB.c:198-208 | a table of tombstones is well formed and maps nothing |
| Slots.Cleared | src/rottDB.c:198-208 | delall leaves as many slots as before, every one a tombstone |
| Slots.SetOnPresentKey | src/rottDB.c:79-94 | set on a live key replaces only that slot's value (its key and hash stay, nothing else changes) or, without memory, changes nothing |
| Slots.SetOnAbsentKey | src/rottDB.c:97-156 | set on an absent key fills the last tombstone, or, when there is none, appends one slot holding the key, its hash and the value; a failure leaves the table or the table plus one tombstone |
| Slots.SetAbstractly | src/rottDB.c:64-157 | set keeps the table well formed; it returns UPDATED exactly when the key was present, ADDED when it was absent, and NO_MEMORY otherwise; on success the map becomes the old map with the key bound to the value, and on failure the map is unchanged |
| Slots.SetPresentAbstractly | src/rottDB.c:79-94 | the update path keeps the table well formed and rebinds the key, or changes nothing |
| Slots.SetAbsentAbstractly | src/rottDB.c:97-156 | the insert paths keep the table well formed and add the binding, or leave the map unchanged |
| Slots.FillAbstractly | src/rottDB.c:99-119 | filling a tombstone adds the binding (ADDED) or leaves the table unchanged (NO_MEMORY) |
| Slots.SetNeverFails | src/rottDB.c:64-157 | when no allocation fails, set never returns NO_MEMORY |
| Slots.UpdateValue | src/rottDB.c:89-91 | replacing a live slot's value keeps the table well formed and rebinds only that key |
| Slots.FillTombstone | src/rottDB.c:113-116 | storing an absent key, its hash and a value in a tombstone keeps the table well formed and adds exactly that binding |
| Slots.AppendTombstone | src/rottDB.c:125-136 | growing the array by one tombstone keeps the table well formed and its map unchanged |
| Slots.DelAbstractly | src/rottDB.c:179-196 | del keeps the length and well-formedness; it returns SUCCESS exactly when the key was present; otherwise it returns KEY_NOT_EXIST and changes nothing; the map loses exactly that key |
| Slots.ClearSlot | src/rottDB.c:186-189 | turning a live slot into a tombstone removes exactly its key from the map |
| Table.Db.constructor | src/rottDB.h:57-60 | a handle before init has no slots |
| Table.Db.Init | src/rottDB.c:34-48 | init makes one allocation; it leaves one tombstone, a well-formed table, and returns SUCCESS, or it returns NO_MEMORY (the handle's slots are then not those of C, see Left out) |
| Table.Db.Shut | src/rottDB.c:50-62 | shut leaves no slots (length 0) |
| Table.Db.Set | src/rottDB.c:64-157 | the scan, update, fill and grow code keeps the table well formed and leaves the code, the table and the allocations that `Slots.SetSlots` gives |
| Table.Db.FillSlot | src/rottDB.c:99-119 | copying key and value into a tombstone leaves what `Slots.Fill` gives |
| Table.Db.Get | src/rottDB.c:159-177 | the scan returns the value of the first matching slot, or nothing |
| Table.Db.Exist | src/rottDB.c:406-416 | returns SUCCESS exactly when the scan finds the key, otherwise KEY_NOT_EXIST |
| Table.Db.Del | src/rottDB.c:179-196 | keeps the table well formed; the scan clears the first matching slot and returns SUCCESS, or returns KEY_NOT_EXIST with the table unchanged |
| Table.Db.DelAll | src/rottDB.c:198-208 | the handle ends up as the cleared table: every slot a tombstone and the same length, so the table is well formed and maps nothing |
| Transfer.CopyAbstractly | src/rottDB.c:210-229 | copy returns KEY_EXIST exactly when overwrite is 0 and the destination has the key; otherwise it returns KEY_NOT_EXIST exactly when the source lacks the key; in both cases the destination is unchanged; on success the destination binds the key to the source's value, with ADDED or UPDATED as the key was new or not |
| Transfer.Copy | src/rottDB.c:210-229 | the overwrite check and the source scan keep the destination well formed and leave the destination, code and allocations that `Transfer.CopySlots` gives |
| Transfer.CopyAllSlots | src/rottDB.c:231-282 | any result of copyall other than SUCCESS leaves the destination exactly as it was |
| Transfer.OverlapIffSharedKey | src/rottDB.c:236-245 | the pre-check finds a source slot whose key exists in the destination exactly when the two maps share a key |
| Transfer.CompactSize | src/rottDB.c:247-273 | a table without tombstones has as many slots as its map has keys |
| Transfer.ReplayValid | src/rottDB.c:252-273 | setting each live pair of a table in turn keeps the temporary table well formed, and stops at the first failure |
| Transfer.ReplayFailsOnlyForMemory | src/rottDB.c:252-273 | those sets fail only with NO_MEMORY, and never when no allocation fails |
| Transfer.ReplayMap | src/rottDB.c:252-273 | after setting every pair of a table, the temporary map is the old one overridden by that table's map |
| Transfer.ReplayCompact | src/rottDB.c:252-273 | setting pairs into a compact table (no tombstones, or init's single tombstone) leaves a compact table |
| Transfer.SetKeepsCompact | src/rottDB.c:64-157 | set on a compact table (no tombstones, or init's single tombstone) leaves it compact |
| Transfer.RebuiltFailsOnlyForMemory | src/rottDB.c:247-273 | building the merged table fails only for lack of memory |
| Transfer.RebuiltAbstractly | src/rottDB.c:247-273 | the merged table is well formed and maps the destination's pairs overridden by the source's |
| Transfer.RebuiltCompact | src/rottDB.c:247-273 | the merged table has no tombstones, or is init's single tombstone when both maps are empty |
| Transfer.CopyAllAbstractly | src/rottDB.c:231-282 | copyall returns SUCCESS, KEY_EXIST or NO_MEMORY; KEY_EXIST exactly when overwrite is 0 and the maps share a key; any failure leaves the destination unchanged; with no failing allocation it never returns NO_MEMORY |
| Transfer.CopyAllSucceeds | src/rottDB.c:247-282 | after a successful copyall the destination is well formed and maps the destination's pairs overridden by the source's; it has no tombstones and has one slot per key (one tombstone when empty) |
| Transfer.HasOverlap | src/rottDB.c:236-245 | the pre-check loop answers whether some live source key exists in the destination |
| Transfer.SetEach | src/rottDB.c:252-273 | one set loop of copyall leaves the temporary table, the code and the allocations of setting each live pair in turn, stopping at the first failure |
| Transfer.CopyAll | src/rottDB.c:231-282 | the pre-check, the temporary table and the two set loops keep the destination well formed and leave the destination, code and allocations that `Transfer.CopyAllSlots` gives |
| Transfer.MoveAbstractly | src/rottDB.c:284-297 | move returns copy's code; after a failure the source is unchanged and the destination's map is unchanged; after success (ADDED or UPDATED) the key leaves the source's map, the source keeps its length, and the destination binds the key to the source's value |
| Transfer.Move | src/rottDB.c:284-297 | copy and then, unless it failed, del on the source keep both tables well formed and leave what `Transfer.MoveSlots` gives |
| Transfer.MoveAllAbstractly | src/rottDB.c:299-309 | moveall returns SUCCESS, KEY_EXIST or NO_MEMORY; a failure changes neither table; success turns every source slot into a tombstone, keeps the source's length, and merges the source's map over the destination's |
| Transfer.MoveAll | src/rottDB.c:299-309 | copyall and then, unless it failed, delall on the source keep both tables well formed and leave what `Transfer.MoveAllSlots` gives |
| Codec.LittleEndianRoundTrip | src/rottDB.c:341-344 | reading back the bytes of a written word gives the number |
| Codec.LittleEndianOfBytes | src/rottDB.c:341-344 | writing the number read from bytes gives the same bytes |
| Codec.WordRoundTrip | src/rottDB.c:311-315 | a `size_t` written to the file reads back as itself |
| Codec.SignatureBytes | src/rottDB.h:35 | the signature word is written as the bytes 72 6f 74 74 00 00 00 00 |
| Codec.SavableFits | src/rottDB.c:317-322 | every live pair of a savable table has sizes that fit a `size_t` |
| Codec.LivePairsSnoc | src/rottDB.c:317-319 | one more slot contributes its pair to the saved pairs exactly when it is live |
| Codec.EncodePairsAppend | src/rottDB.c:317-332 | the records of two runs of pairs are the records of the first followed by those of the second |
| Codec.AppendSlotRecord | src/rottDB.c:317-328 | one more slot appends its record to the saved records when it is live, and nothing when it is a tombstone |
| Codec.CString | src/rottDB.c:386 | the string `set` sees in a buffer read from the file is its prefix before the first NUL |
| Codec.CStringOfTerminated | src/rottDB.c:324-328 | a string written with its NUL reads back as itself, whatever follows |
| Codec.ReadField | src/rottDB.c:354-360 | a size word and a string as save writes them read back as that size, then the string, then what follows |
| Codec.FieldSize | src/rottDB.c:428-430 | the size written before a string is its length plus one for the NUL: exactly the string and one NUL follow the size word, and reading them as a C string gives the string back |
| Codec.ReadEncodedRecord | src/rottDB.c:352-371 | a record as save writes it reads back as its key, its value and the bytes after it |
| Codec.TruncatedRecord | src/rottDB.c:373-375 | any proper prefix of a record reads as the end of the file |
| Codec.OverlayKeeps | src/rottDB.c:385-386 | setting pairs that never name a key leaves that key's binding as it was |
| Codec.OverlayLastWins | src/rottDB.c:385-386 | when pairs are set in order, the key of any pair not followed by another pair for the same key ends bound to that pair's value, whatever pairs for other keys come after it |
| Codec.OverlayLivePairs | src/rottDB.c:317-319 | setting the live pairs of a table with distinct keys over a map adds that table's map |
| Codec.OverlayOfTable | src/rottDB.c:317-319 | setting the live pairs of a table with distinct keys into an empty map gives that table's map |
| Codec.Decode | src/rottDB.c:343-345 | load fails with ERROR without creating a table exactly when the file does not start with the signature |
| Codec.LoadRecords | src/rottDB.c:352-401 | every pass of the load loop ends with a table and a code |
| Codec.LoadRecordsOutcomes | src/rottDB.c:352-403 | the loaded table is always well formed; the loop returns only SUCCESS or NO_MEMORY, and never NO_MEMORY when no allocation fails |
| Codec.DecodeOutcomes | src/rottDB.c:337-404 | a failure before a table exists is ERROR or NO_MEMORY; a loaded table is well formed with SUCCESS or NO_MEMORY; a signed file always loads when no allocation fails |
| Codec.DecodeSigned | src/rottDB.c:343-350 | a file that starts with the signature passes the check: when the table's allocation succeeds it goes on to the record loop from init's table, otherwise load returns NO_MEMORY with no table; with no failing allocation the first case holds |
| Codec.LoadStep | src/rottDB.c:352-397 | when no allocation fails, one pass over a complete record allocates two buffers and sets the pair |
| Codec.LoadPairs | src/rottDB.c:352-403 | loading a run of records followed by an incomplete record, or by nothing, yields SUCCESS when no allocation fails, and the pairs set in order |
| Codec.DecodePairs | src/rottDB.c:337-404 | a signed file of records loads, when no allocation fails, with SUCCESS as a well-formed table mapping the pairs in file order, the last value of a repeated key winning; trailing bytes too short for a record are ignored |
| Codec.DecodeEncode | src/rottDB.c:311-404 | a saved table loads back, when no allocation fails, with SUCCESS as a well-formed table with the same map |
| Codec.DecodeTruncated | src/rottDB.c:373-375 | a file whose last record is cut short loads, when no allocation fails, with SUCCESS and as if that record had never been written |
| Codec.WriteRecords | src/rottDB.c:317-332 | the write loop appends, after what is already written, the record of each live slot in slot order |
| Codec.Save | src/rottDB.c:311-335 | the signature word followed by what the write loop appends is exactly the encoding of the table: the records of the live slots in slot order |
| Codec.Load | src/rottDB.c:337-404 | the read loop returns load's code; whenever a table was created the handle holds the table load's function describes, which is well formed; without a signature the handle is unchanged |

## Left out

- Files are byte sequences. `fwrite`, `fread`, `feof` and `ferror` are not modelled, so neither is the ERROR that `save` and `load` return on a stream error (src/rottDB.c:330-331 and 378-383).
- A `size_t` is fixed at eight little-endian bytes, as on x86-64. The C code writes host width and host byte order.
- Codec.Save: requires each live key and value to be shorter than 2^64 - 1 bytes, so that its size fits a `size_t`. No C string can be that long.
- The sizes passed to `malloc`/`realloc` are not modelled, only whether each call returns NULL. This includes init's `sizeof(db->pairs)`, which is the size of a pointer and not of a slot. Huge sizes read by `load` are covered only through the allocation script.
- Table.Db.Init: on NO_MEMORY the model keeps the handle's old slots. In C, `db->pairs` has already been overwritten with NULL (src/rottDB.c:35-37) while `length` keeps its old value, so a table the handle held is lost and the handle is left inconsistent; the model does not represent that state.
- Codec.Load: when init fails inside load (src/rottDB.c:347-349) the model keeps the handle's old slots, while in C the handle's old table is lost as described for Table.Db.Init.
- Table.Db.constructor: the empty slot sequence stands for a `rottDB` struct before init, whose fields C leaves indeterminate.
- Hashing.CharValue: reads a key byte as a signed `char`, which is the x86-64 convention; where `char` is unsigned, bytes of 128 and above hash differently.
- Memory release (`free`, leaks on error paths, the buffers `load` frees) is not modelled.
- Codec.Decode: a file shorter than one word is treated as a signature mismatch. The C code then compares an uninitialised or partly read `sign` (src/rottDB.c:339-345).
- Codec.Decode: when the file ends before or inside a size word, the C code calls `malloc` with a stale, uninitialised or partly read size (src/rottDB.c:339, 354-365). The model reads the record as incomplete and leaves the outcome of that allocation to the allocation script; in both the loop then stops at the end-of-file test.
- Codec.CString: a key or value read from the file without a NUL is taken whole. The C code then reads past the buffer. A size of 0, which `save` never writes, likewise reads as the empty string.
- Codec.Load: on NO_MEMORY from a key or value buffer, the model leaves the partly loaded table in the handle, which is what the C code returns to its caller.
- Table.Db.Get: does not take an allocator, so the NULL that `get` returns when copying the value fails is not modelled. The copy it returns is the value itself.
- Transfer: the two handles must be distinct objects. The C code does not check this, and copying a table onto itself aliases its arrays.
- The `length` field is the length of the slot sequence. A tombstone's hash of 0 is implicit in `Tombstone`.
- `rottDB_clone` is declared in src/rottDB.h but never defined, so it is not modelled. KEY_INVALID is defined but never returned.
- Thread safety: rottDB has none, and the model is sequential.
