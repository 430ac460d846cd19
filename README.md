# kvstore: a verified model of the slot store

kvstore keeps key-value pairs in a flat backend storage of fixed size,
reached only through read, write and get-size callbacks. The backend is
a chain of slots laid back to back from offset 0. Each slot holds:

- the 4-byte magic header `f8 2a 93 11`;
- a 4-byte key length, then the key;
- a 4-byte value length, then the value.

A slot with key length 0 is free, and its value bytes are padding.

- `kvstore_prepare` formats the backend as one free slot.
- `kvstore_put` walks the chain from offset 0 to the first free slot that
  has room for the new slot plus another free slot. It writes the new slot
  there and writes a free slot over what is left.
- A cursor (a position and a key of at most 16 bytes) is placed by
  `kvstore_search` and moved by `kvstore_search_next` and
  `kvstore_advance`.
- `kvstore_get` and `kvstore_get_kv` read the slot under the cursor.

The Dafny project has six modules:

- `KvTypes` (kvtypes.dfy): the configuration constants, the result codes
  and the cursor. The cursor is a class because the cursor operations
  update it in place.
- `SlotCodec` (slot_codec.dfy): the slot size arithmetic and the slot
  layout. It defines `write_slot` and `read_slot` as functions of the
  backend contents (`WriteSlotSpec`, `ReadSlotSpec`), a decoder `Decode`
  and an encoder `EncodeSlot` with their round trips.
- `SlotChain` (slot_chain.dfy): a backend as a gapless chain of slots
  (`IsChain`), and the facts about runs of slots that the proofs use.
- `Allocator` (allocator.dfy): `kvstore_put` and `kvstore_prepare` as
  functions (`PutSpec`, `PrepareSpec`), the first-fit scan, and what a
  split does to a chain.
- `CursorSearch` (cursor_search.dfy): the search loop and the one-slot
  step of `kvstore_advance` as functions, and their behaviour on a chain.
- `Store` (kvstore.dfy): the class `KvStore`, whose backend is an
  `array<byte>`. Its methods follow the C functions statement by
  statement: byte writes, loops and cursor updates. Each method is proved
  equal to the function that specifies it.

Some behaviours of the code are proved as they are:

- kvstore_advance moves the cursor by exactly one slot, free or used
  (kvstore.c:365-380). The header comment (kvstore.h:143) promises "the
  next non-empty key-value pair". `AdvanceWalksRun` and
  `AdvanceLandsOnFree` state what the code does.
- Suppose the chosen free slot is exactly 12 bytes larger than the new
  slot. Then the remainder's free-slot write gets a value size of 0, and
  write_slot refuses it with BadArg. kvstore_put ignores that result and
  returns Ok (kvstore.c:299-305). The 12 bytes after the new slot keep
  their old contents. Unless those bytes happen to begin with the magic
  header, the backend is no longer a chain (`PutExactFit`).
- kvstore_prepare ignores what write_slot returns. On a 12-byte backend
  it reports Ok and writes nothing (`PrepareTwelve`).
- The header documents Failed as kvstore_put's only other result
  (kvstore.h:130-132). The code returns NotFound when the scan runs off
  the end, because the fallback write past the end can never succeed
  (kvstore.c:308-311, `PutStatus`).

## Model

| member | source | states |
|---|---|---|
| KvTypes.Code | kvstore.h:59-64 | each result code is one of 0, -1, -2, -3, and decoding the number gives back the code |
| KvTypes.FromCode | kvstore.h:59-64 | a number names a result code exactly when it lies in -3..0 |
| KvTypes.CodeInjective | kvstore.h:59-64 | distinct result codes have distinct numbers |
| KvTypes.Cursor.constructor | kvstore.h:76-80 | a fresh cursor is at offset 0 with an empty key that fits the 16-byte key buffer |
| SlotCodec.SlotSize | kvstore.c:43-45 | a slot is at least header plus both length fields, 12 bytes |
| SlotCodec.ValueSize | kvstore.c:48-50 | the value size computed from a slot size gives back that slot size |
| SlotCodec.SizeArithmetic | kvstore.c:43-50 | calculate_value_size inverts calculate_slot_size, and an empty slot takes 12 bytes |
| SlotCodec.DecodeField | kvstore.c:146-163 | the 32-bit length read from a 4-byte field, least significant byte first, is below 2^32 |
| SlotCodec.EncodeField | kvstore.c:71-80 | a length stored in a 4-byte field reads back modulo 2^32, and exactly when it is below 2^32 |
| SlotCodec.LittleEndianIsEncoding | kvstore.c:75-80 | the bytes stored for a length are the 4-byte field encoding of that length truncated to 32 bits |
| SlotCodec.FieldIsEncoding | kvstore.c:146-163 | every 4-byte field is the encoding of the length read from it |
| SlotCodec.DecodeFieldInjective | kvstore.c:146-163 | two fields that hold the same length are the same bytes |
| SlotCodec.EncodeSlot | kvstore.c:53-115 | the slot layout (magic, key length, key, value length, value) takes exactly the slot's size |
| SlotCodec.Decode | kvstore.c:119-210 | a slot found at a position lies wholly inside the backend |
| SlotCodec.HeaderAtMagic | kvstore.c:141-144 | the header test holds exactly when the 4 bytes equal the magic |
| SlotCodec.DecodeIsEncoding | kvstore.c:119-210 | the bytes of a decoded slot are exactly the encoding of its key and value |
| SlotCodec.DecodeEncoded | kvstore.c:53-210 | a slot's encoding decodes back to that slot, whatever surrounds it |
| SlotCodec.DecodedWellFormed | kvstore.c:119-210 | a decoded slot starts with the magic, has 32-bit lengths, and its key and value are the bytes at their offsets |
| SlotCodec.DecodeLocal | kvstore.c:119-210 | whether and what a slot decodes depends only on the bytes it occupies |
| SlotCodec.Written | kvstore.c:85-112 | the slot write_slot lays down has the requested key and value sizes (what it holds where no buffer is given is stated by WriteKeepsAbsentKey and WriteKeepsAbsentValue) |
| SlotCodec.WriteImage | kvstore.c:66-112 | the backend after write_slot's five writes keeps its size (what changes is stated by WriteImageFrame, WriteDecodes and FreeWriteDecodes) |
| SlotCodec.WriteImageFrame | kvstore.c:53-115 | write_slot changes nothing before the position or after the end of the slot |
| SlotCodec.WriteKeepsAbsentKey | kvstore.c:85-90 | without a key buffer, the key bytes are skipped and keep their old contents |
| SlotCodec.WriteKeepsAbsentValue | kvstore.c:107-112 | without a value buffer, the value bytes are skipped and keep their old contents |
| SlotCodec.WriteDecodes | kvstore.c:53-115 | a slot written with its key and value decodes at that position |
| SlotCodec.FreeWriteDecodes | kvstore.c:53-115 | a free-slot marker written without buffers decodes as a free slot padded with the old bytes |
| SlotCodec.WriteSlotSpec | kvstore.c:53-64 | BadArg exactly for a zero value size, Failed exactly when the slot would pass the end, and the backend unchanged unless Ok |
| SlotCodec.ReadSlotSpec | kvstore.c:119-210 | the read only succeeds or fails; copied bytes have the reported length, within the buffer capacity, and on success exactly the supplied buffers are filled |
| SlotCodec.ReadSlotMatchesDecode | kvstore.c:119-210 | read_slot succeeds exactly when a slot decodes there and fits each supplied buffer; it then reports the stored lengths and copies the stored bytes |
| SlotCodec.ReadSlotRefusesSmallBuffers | kvstore.c:164-170 | a key buffer that is too small fails the read with both lengths unchanged; a value buffer that is too small fails it after the key length was reported |
| SlotCodec.ReadSlotRejectsBadMagic | kvstore.c:141-144 | a magic mismatch fails the read with both lengths unchanged |
| SlotCodec.WriteThenRead | kvstore.c:53-210 | round trip: after a successful write of k and v, a read with large enough buffers returns Ok, the lengths of k and v, and k and v |
| SlotChain.ChainUnique | kvstore.c:280-306 | the slots of a backend are determined by its bytes: a backend holds at most one chain |
| SlotChain.RunAt | kvstore.c:280-306 | slot i of a run is read at its offset, and what follows it is again a run |
| Allocator.Scan | kvstore.c:280-306 | the scan stops only at a free slot that fits, read at an offset at or past the start, or runs off the end |
| Allocator.FirstFit | kvstore.c:287-297 | the index found fits, and no earlier slot does |
| Allocator.ScanFirstFit | kvstore.c:280-306 | on a chain the scan never fails: it stops at the offset of the first slot that fits, or at the end of the backend |
| Allocator.PutSpec | kvstore.c:264-314 | kvstore_put keeps the backend size |
| Allocator.SplitWrite | kvstore.c:299-304 | the two writes of a split, results ignored, keep the backend size |
| Allocator.SplitFirstWrite | kvstore.c:299-304 | the split is the new slot followed by a free-slot marker with the rest of the room, refused when the rest is 0 |
| Allocator.SplitKeepsOutside | kvstore.c:299-304 | a split writes only inside the free slot it splits |
| Allocator.SplitStoresSlot | kvstore.c:302 | after a split the new slot decodes where the free slot began |
| Allocator.SplitExactFit | kvstore.c:299-304 | with exactly 12 bytes to spare, only the new slot is written and the 12 bytes after it keep their old contents |
| Allocator.PutStatus | kvstore.c:264-314 | BadArg exactly for bad arguments, Failed exactly when the scan meets a slot that does not read, NotFound exactly when it runs off the end, Ok otherwise; nothing is written unless Ok |
| Allocator.PutOnChain | kvstore.c:264-314 | on a chain, put returns Ok exactly when some free slot fits and NotFound otherwise, with nothing written |
| Allocator.SplitChain | kvstore.c:299-305 | splitting slot i of a chain with more than 12 bytes to spare leaves the chain with slot i replaced by the new slot and a free slot holding the rest of its padding |
| Allocator.PutSplitChain | kvstore.c:264-314 | on a chain, put into a first fit with more than 12 bytes to spare returns Ok and leaves that chain |
| Allocator.PutExactFit | kvstore.c:299-305 | on a chain, put into a first fit with exactly 12 bytes to spare returns Ok and writes only the new record, and the backend holds no chain unless the stale bytes begin with the magic |
| Allocator.PutAtFirstFit | kvstore.c:280-306 | on a chain with a fitting free slot, put splits the first one |
| Allocator.ExactFitBreaksChain | kvstore.c:299-305 | the exact-fit split leaves no chain unless the stale bytes after the new slot begin with the magic |
| Allocator.PrepareSpec | kvstore.c:248-261 | kvstore_prepare always reports Ok and keeps the backend size |
| Allocator.PrepareFormats | kvstore.c:248-261 | on a backend larger than 12 bytes and smaller than 2^32 + 12 bytes (so that the value length fits its 32-bit field), prepare leaves a chain of one free slot covering the whole backend |
| Allocator.PrepareTwelve | kvstore.c:254-260 | on a 12-byte backend the write is refused with BadArg, yet prepare reports Ok with nothing written |
| CursorSearch.Step | kvstore.c:365-380 | an advance succeeds exactly when a slot reads at the cursor, and moves it by that slot's size, at least 12 |
| CursorSearch.SearchFrom | kvstore.c:336-362 | a search never moves backwards, and where it succeeds a slot reads whose key is the cursor key |
| CursorSearch.KeyIndex | kvstore.c:342-357 | the index found holds the key, and no earlier slot does |
| CursorSearch.SearchAlongRun | kvstore.c:342-357 | along a run whose keys fit the cursor, the search finds the first slot with the key, or walks past the whole run |
| CursorSearch.SearchOnChain | kvstore.c:317-362 | on a chain, a search from offset 0 finds the first slot with the key, or fails at the end of the backend |
| CursorSearch.SearchAgainStable | kvstore.c:336-359 | search_next restarted on a match finds the same slot again: it does not advance past a match |
| CursorSearch.AdvanceWalksRun | kvstore.c:365-380 | advance moves from slot i of a run to slot i+1, free or used |
| CursorSearch.AdvanceLandsOnFree | kvstore.h:143 | advance from a used slot lands on a following free slot, not on the next non-empty one |
| CursorSearch.PutThenSearch | kvstore.c:264-362 | on a chain without the key, put with room returns Ok and a search then finds the new record where the free slot began |
| CursorSearch.PutThenRead | kvstore.c:264-406 | on a chain without the key, put with room returns Ok, a search then succeeds, and get_kv there with large enough buffers returns exactly the stored key and value, and get exactly the stored value |
| CursorSearch.SplitThenSearch | kvstore.c:299-362 | after a split of a slot of a chain that lacks the key, a search finds the new record at its offset |
| CursorSearch.SearchAfterRewrite | kvstore.c:317-362 | a backend that keeps the chain's bytes before slot i and holds a slot with a new key there is searched up to that slot |
| Store.KvStore.WriteBytes | kvstore.h:72 | the backend write callback stores the bytes at the position and changes nothing else |
| Store.KvStore.WriteSlot | kvstore.c:53-115 | the byte-by-byte writes of write_slot give the result and backend of WriteSlotSpec |
| Store.KvStore.ReadSlot | kvstore.c:119-210 | the field-by-field reads of read_slot give the outcome of ReadSlotSpec |
| Store.KvStore.Prepare | kvstore.c:248-261 | prepare gives the result and backend of PrepareSpec |
| Store.KvStore.Put | kvstore.c:264-314 | the scan loop and the two writes give the result and backend of PutSpec |
| Store.KvStore.Advance | kvstore.c:365-380 | the cursor moves to Step's position with Ok, or stays where it is with Failed; its key is kept |
| Store.KvStore.SearchNext | kvstore.c:336-362 | for a cursor whose key fits its 16-byte buffer, the cursor ends where SearchFrom stops, with Ok on a match and Failed otherwise; its key is kept |
| Store.KvStore.Search | kvstore.c:317-333 | an empty or over-long key gives BadArg with the cursor untouched; otherwise the cursor holds the key and ends where a search from offset 0 stops |
| Store.KvStore.Get | kvstore.c:383-394 | a missing or zero-capacity value buffer gives BadArg; otherwise the value is read at the cursor as ReadSlotSpec says |
| Store.KvStore.GetKv | kvstore.c:397-406 | the key and value are read at the cursor as ReadSlotSpec says |

## Left out

- The backend callbacks are modelled as direct access to an array of bytes. A backend read or write that fails is not modelled, so write_slot's and read_slot's Failed results for a callback failure are absent, and so are the missing-callback BadArg checks.
- NULL pointer checks on `self`, `cursor` and the length pointers are not modelled, nor are their BadArg results.
- A missing buffer is modelled where the code goes on without it. write_slot takes the key and value as `Option` arguments. read_slot and kvstore_get_kv take `hasKey`/`hasValue` flags. kvstore_get takes a `hasValue` flag and returns BadArg without a buffer (kvstore.c:386).
- Store.KvStore.Put: takes the key and value as sequences, so the BadArg for a NULL key or value (kvstore.c:266, 268) is not modelled. The BadArg for an empty key or value is.
- Store.KvStore.Search: takes the key as a sequence, so the BadArg for a NULL key (kvstore.c:320) is not modelled. The BadArg for an empty or over-long key is.
- The 4-byte length fields are little-endian: `DecodeField` reads them least significant byte first, and `LittleEndianIsEncoding` fixes the bytes written. The C code stores the host's native order (kvstore.c:76, 96, 151, 183), which matches this on a little-endian machine. A big-endian host's bytes are not modelled. The properties only use the fact that a field written is read back as the same length.
- Allocator.PrepareFormats: requires a backend smaller than 2^32 + 12 bytes. On a larger backend, write_slot stores the free slot's value length truncated to 32 bits (kvstore.c:96). The free slot then reads back shorter than the backend, and prepare does not in general leave a chain. `PrepareSpec` models this truncation, but no lemma describes what it leaves.
- `size_t` arithmetic is unbounded: a position or size that wraps around 2^64 is not modelled.
- Store.KvStore.Prepare: requires a backend of at least 12 bytes. On a smaller one, the C subtraction in calculate_value_size wraps around, and the model leaves that case out with the other `size_t` wrap.
- CursorSearch.SearchFrom: stops at the end of the backend explicitly. The C loop relies on read_slot failing there, and `DecodePastEnd` proves that the two agree.
- kvstore_init and kvstore_free only store or check pointers. The store's constructor takes the backend array.
- advance_slot (kvstore.c:213-220) is never called and does nothing.
- The return of NotFound after kvstore_search_next's endless loop (kvstore.c:361) cannot be reached.
- Locking, deletion, merging of free slots, defragmenting and truncating are listed as to-do items (kvstore.c:31-40) and have no code.
- Store.KvStore.WriteEncoding, WriteHead, WriteTail, WritePiece and WriteGiven are helper methods that split write_slot's five writes for the proof. They are not operations of the source.
- memcmp and memcpy are modelled as sequence equality and sequence assignment.
