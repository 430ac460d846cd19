/**
 * The store itself: a fixed-size backend array that write_slot, read_slot,
 * kvstore_prepare and kvstore_put update and read step by step, and the
 * cursor operations that move a cursor over it. Each method is proved
 * against the function that specifies it in SlotCodec, Allocator or
 * CursorSearch.
 */
module Store {
  import opened KvTypes
  import opened SlotCodec
  import opened SlotChain
  import opened Allocator
  import opened CursorSearch

  /** `c` with the bytes at `at` replaced by `d`. */
  ghost function Splice(c: seq<byte>, at: nat, d: seq<byte>): (r: seq<byte>)
    requires at + |d| <= |c|
    ensures |r| == |c|
  {
    c[..at] + d + c[at + |d|..]
  }

  /** `b` with the first `k` bytes of the encoding `e` written at `pos`. */
  ghost function Partial(b: seq<byte>, pos: nat, e: seq<byte>, k: nat): (r: seq<byte>)
    requires k <= |e| && pos + |e| <= |b|
    ensures |r| == |b|
  {
    b[..pos] + e[..k] + b[pos + k..]
  }

  /** Before any write nothing of the encoding is in place. */
  lemma PartialNone(b: seq<byte>, pos: nat, e: seq<byte>)
    requires pos + |e| <= |b|
    ensures Partial(b, pos, e, 0) == b
  {
    assert e[..0] == [];
    assert b[..pos] + b[pos..] == b;
  }

  /** Writing the next piece of the encoding extends what is in place. */
  lemma PartialStore(b: seq<byte>, pos: nat, e: seq<byte>, k: nat, k2: nat)
    requires k <= k2 <= |e| && pos + |e| <= |b|
    ensures Splice(Partial(b, pos, e, k), pos + k, e[k..k2]) == Partial(b, pos, e, k2)
  {
    var c := Partial(b, pos, e, k);
    var l, r := Splice(c, pos + k, e[k..k2]), Partial(b, pos, e, k2);
    forall i | 0 <= i < |b|
      ensures l[i] == r[i]
    {
      if i < pos + k {
        assert l[i] == c[i];
      } else if i >= pos + k2 {
        assert l[i] == c[i];
      }
    }
  }

  /** One backend write of the next piece of the encoding, at the offset where it belongs. */
  lemma StoreStep(b: seq<byte>, pos: nat, e: seq<byte>, k: nat, k2: nat,
                  before: seq<byte>, at: nat, d: seq<byte>, after: seq<byte>)
    requires k <= k2 <= |e| && pos + |e| <= |b|
    requires before == Partial(b, pos, e, k)
    requires at == pos + k && d == e[k..k2]
    requires after == Splice(before, at, d)
    ensures after == Partial(b, pos, e, k2)
  {
    PartialStore(b, pos, e, k, k2);
  }

  /** A piece of the encoding that equals the bytes already there is in place without a write. */
  lemma PartialSkip(b: seq<byte>, pos: nat, e: seq<byte>, k: nat, k2: nat)
    requires k <= k2 <= |e| && pos + |e| <= |b|
    requires e[k..k2] == b[pos + k..pos + k2]
    ensures Partial(b, pos, e, k) == Partial(b, pos, e, k2)
  {
    var l, r := Partial(b, pos, e, k), Partial(b, pos, e, k2);
    forall i | 0 <= i < |b|
      ensures l[i] == r[i]
    {
      if pos + k <= i < pos + k2 {
        assert e[k..k2][i - pos - k] == b[pos + k..pos + k2][i - pos - k];
      }
    }
  }

  /** Once the whole encoding is written, the backend is the write_slot image. */
  lemma PartialAll(b: seq<byte>, pos: nat, key: Option<seq<byte>>, keySize: nat,
                   value: Option<seq<byte>>, valueSize: nat)
    requires pos + SlotSize(keySize, valueSize) <= |b|
    requires key.Some? ==> |key.value| == keySize
    requires value.Some? ==> |value.value| == valueSize
    ensures var e := EncodeSlot(Written(b, pos, key, keySize, value, valueSize));
            Partial(b, pos, e, |e|) == WriteImage(b, pos, key, keySize, value, valueSize)
  {
    var e := EncodeSlot(Written(b, pos, key, keySize, value, valueSize));
    assert e[..|e|] == e;
  }

  /** The pieces of the encoding write_slot lays down, at the offsets its writes use. */
  lemma WrittenPieces(b: seq<byte>, pos: nat, key: Option<seq<byte>>, keySize: nat,
                      value: Option<seq<byte>>, valueSize: nat)
    requires pos + SlotSize(keySize, valueSize) <= |b|
    requires key.Some? ==> |key.value| == keySize
    requires value.Some? ==> |value.value| == valueSize
    ensures var e := EncodeSlot(Written(b, pos, key, keySize, value, valueSize));
            && |e| == 12 + keySize + valueSize && pos + |e| <= |b|
            && e[0..4] == HEADER_MAGIC
            && e[4..8] == EncodeField(keySize)
            && (key.Some? ==> e[8..8 + keySize] == key.value)
            && (key.None? ==> e[8..8 + keySize] == b[pos + 8..pos + (8 + keySize)])
            && e[8 + keySize..12 + keySize] == EncodeField(valueSize)
            && (value.Some? ==> e[12 + keySize..|e|] == value.value)
            && (value.None? ==> e[12 + keySize..|e|] == b[pos + (12 + keySize)..pos + |e|])
  {
    EncodeSlotParts(Written(b, pos, key, keySize, value, valueSize));
  }

  /** A key-value store over a backend of fixed size. */
  class KvStore {
    /** The backend: reads and writes inside it always succeed. */
    const backend: array<byte>

    constructor (backend: array<byte>)
      ensures this.backend == backend
    {
      this.backend := backend;
    }

    /** One backend write: `data` in place of the bytes at `at`. */
    method WriteBytes(at: nat, data: seq<byte>)
      requires at + |data| <= backend.Length
      modifies backend
      ensures backend[..] == Splice(old(backend[..]), at, data)
    {
      for j := 0 to |data|
        invariant forall k :: 0 <= k < backend.Length ==>
                    backend[k] == if at <= k < at + j then data[k - at] else old(backend[k])
      {
        backend[at + j] := data[j];
      }
      assert backend[..] == Splice(old(backend[..]), at, data);
    }

    /**
     * write_slot: refuse a zero value size and a slot that would end past the
     * backend, then write the header, the key length, the key (when given),
     * the value length and the value (when given), in that order. A length
     * is written as its low 32 bits.
     */
    method WriteSlot(pos: nat, key: Option<seq<byte>>, keySize: nat, value: Option<seq<byte>>, valueSize: nat)
      returns (status: Status)
      requires key.Some? ==> |key.value| == keySize
      requires value.Some? ==> |value.value| == valueSize
      modifies backend
      ensures var w := WriteSlotSpec(old(backend[..]), pos, key, keySize, value, valueSize);
              status == w.status && backend[..] == w.bytes
    {
      if valueSize == 0 {
        return BadArg;
      }
      if pos + SlotSize(keySize, valueSize) > backend.Length {
        return Failed;
      }
      ghost var b := backend[..];
      WrittenPieces(b, pos, key, keySize, value, valueSize);
      WriteEncoding(b, pos, EncodeSlot(Written(b, pos, key, keySize, value, valueSize)),
                    key, keySize, value, valueSize);
      PartialAll(b, pos, key, keySize, value, valueSize);
      return Ok;
    }

    /**
     * The five backend writes of write_slot, laying down the encoding `e`
     * piece by piece at `pos`.
     */
    method WriteEncoding(ghost b: seq<byte>, pos: nat, ghost e: seq<byte>, key: Option<seq<byte>>, keySize: nat,
                         value: Option<seq<byte>>, valueSize: nat)
      requires backend[..] == b
      requires |e| == 12 + keySize + valueSize && pos + |e| <= |b|
      requires e[0..4] == HEADER_MAGIC
      requires e[4..8] == EncodeField(keySize)
      requires key.Some? ==> e[8..8 + keySize] == key.value
      requires key.None? ==> e[8..8 + keySize] == b[pos + 8..pos + (8 + keySize)]
      requires e[8 + keySize..12 + keySize] == EncodeField(valueSize)
      requires value.Some? ==> e[12 + keySize..|e|] == value.value
      requires value.None? ==> e[12 + keySize..|e|] == b[pos + (12 + keySize)..pos + |e|]
      modifies backend
      ensures backend[..] == Partial(b, pos, e, |e|)
    {
      PartialNone(b, pos, e);
      WriteHead(b, pos, e, key, keySize);
      WriteTail(b, pos, e, keySize, value, valueSize);
    }

    /** The header, key length and key writes of write_slot. */
    method WriteHead(ghost b: seq<byte>, pos: nat, ghost e: seq<byte>, key: Option<seq<byte>>, keySize: nat)
      requires 8 + keySize <= |e| && pos + |e| <= |b| == backend.Length
      requires backend[..] == Partial(b, pos, e, 0)
      requires e[0..4] == HEADER_MAGIC
      requires e[4..8] == EncodeField(keySize)
      requires key.Some? ==> e[8..8 + keySize] == key.value
      requires key.None? ==> e[8..8 + keySize] == b[pos + 8..pos + (8 + keySize)]
      modifies backend
      ensures backend[..] == Partial(b, pos, e, 8 + keySize)
    {
      var at := pos;
      WritePiece(b, pos, e, 0, 4, at, HEADER_MAGIC);
      at := at + HEADER_SIZE_BYTES;
      LittleEndianIsEncoding(keySize);
      WritePiece(b, pos, e, 4, 8, at, LittleEndian(keySize % FIELD_MODULUS));
      at := at + KEY_SIZE_BYTES;
      WriteGiven(b, pos, e, 8, 8 + keySize, at, key);
    }

    /** The value length and value writes of write_slot, after the key. */
    method WriteTail(ghost b: seq<byte>, pos: nat, ghost e: seq<byte>, keySize: nat,
                     value: Option<seq<byte>>, valueSize: nat)
      requires |e| == 12 + keySize + valueSize && pos + |e| <= |b| == backend.Length
      requires backend[..] == Partial(b, pos, e, 8 + keySize)
      requires e[8 + keySize..12 + keySize] == EncodeField(valueSize)
      requires value.Some? ==> e[12 + keySize..|e|] == value.value
      requires value.None? ==> e[12 + keySize..|e|] == b[pos + (12 + keySize)..pos + |e|]
      modifies backend
      ensures backend[..] == Partial(b, pos, e, |e|)
    {
      var at := pos + (8 + keySize);
      LittleEndianIsEncoding(valueSize);
      WritePiece(b, pos, e, 8 + keySize, 12 + keySize, at, LittleEndian(valueSize % FIELD_MODULUS));
      at := at + VALUE_SIZE_BYTES;
      WriteGiven(b, pos, e, 12 + keySize, |e|, at, value);
    }

    /**
     * One backend write inside write_slot: the bytes of the encoding `e` from
     * `k` to `k2`, at their place in the slot that starts at `pos`.
     */
    method WritePiece(ghost b: seq<byte>, ghost pos: nat, ghost e: seq<byte>, ghost k: nat, ghost k2: nat,
                      at: nat, data: seq<byte>)
      requires k <= k2 <= |e| && pos + |e| <= |b| == backend.Length
      requires backend[..] == Partial(b, pos, e, k)
      requires at == pos + k && data == e[k..k2]
      modifies backend
      ensures backend[..] == Partial(b, pos, e, k2)
    {
      ghost var before := backend[..];
      WriteBytes(at, data);
      StoreStep(b, pos, e, k, k2, before, at, data, backend[..]);
    }

    /**
     * The key or value write inside write_slot, made only when the caller
     * gives the bytes; otherwise the bytes already there stay, which is what
     * the encoding `e` holds at that place.
     */
    method WriteGiven(ghost b: seq<byte>, ghost pos: nat, ghost e: seq<byte>, ghost k: nat, ghost k2: nat,
                      at: nat, data: Option<seq<byte>>)
      requires k <= k2 <= |e| && pos + |e| <= |b| == backend.Length
      requires backend[..] == Partial(b, pos, e, k)
      requires at == pos + k
      requires data.Some? ==> data.value == e[k..k2]
      requires data.None? ==> e[k..k2] == b[pos + k..pos + k2]
      modifies backend
      ensures backend[..] == Partial(b, pos, e, k2)
    {
      if data.Some? {
        WritePiece(b, pos, e, k, k2, at, data.value);
      } else {
        PartialSkip(b, pos, e, k, k2);
      }
    }

    /**
     * read_slot: check that each field fits the backend before reading it,
     * check the magic header, check each length against the buffer supplied
     * for it, and report each length once it has passed that check.
     * `hasKey`/`hasValue` say whether a buffer is supplied; `keyCap` and
     * `valueCap` are the in-values of the two length variables.
     */
    method ReadSlot(pos: nat, hasKey: bool, keyCap: nat, hasValue: bool, valueCap: nat)
      returns (status: Status, keySize: nat, valueSize: nat,
               keyBytes: Option<seq<byte>>, valueBytes: Option<seq<byte>>)
      ensures ReadOutcome(status, keySize, valueSize, keyBytes, valueBytes)
           == ReadSlotSpec(backend[..], pos, hasKey, keyCap, hasValue, valueCap)
    {
      keySize, valueSize, keyBytes, valueBytes := keyCap, valueCap, None, None;
      var size := backend.Length;
      var position := pos;
      if position + HEADER_SIZE_BYTES > size {
        return Failed, keySize, valueSize, keyBytes, valueBytes;
      }
      var header := backend[position..position + HEADER_SIZE_BYTES];
      position := position + HEADER_SIZE_BYTES;
      if header != HEADER_MAGIC {
        return Failed, keySize, valueSize, keyBytes, valueBytes;
      }
      if position + KEY_SIZE_BYTES > size {
        return Failed, keySize, valueSize, keyBytes, valueBytes;
      }
      var storedKeySize := DecodeField(backend[position..position + KEY_SIZE_BYTES]);
      position := position + KEY_SIZE_BYTES;
      if storedKeySize > keySize && hasKey {
        return Failed, keySize, valueSize, keyBytes, valueBytes;
      }
      keySize := storedKeySize;
      if position + storedKeySize > size {
        return Failed, keySize, valueSize, keyBytes, valueBytes;
      }
      if hasKey {
        keyBytes := Some(backend[position..position + storedKeySize]);
      }
      position := position + storedKeySize;
      if position + VALUE_SIZE_BYTES > size {
        return Failed, keySize, valueSize, keyBytes, valueBytes;
      }
      var storedValueSize := DecodeField(backend[position..position + VALUE_SIZE_BYTES]);
      position := position + VALUE_SIZE_BYTES;
      if storedValueSize > valueSize && hasValue {
        return Failed, keySize, valueSize, keyBytes, valueBytes;
      }
      valueSize := storedValueSize;
      if position + storedValueSize > size {
        return Failed, keySize, valueSize, keyBytes, valueBytes;
      }
      if hasValue {
        valueBytes := Some(backend[position..position + storedValueSize]);
      }
      return Ok, keySize, valueSize, keyBytes, valueBytes;
    }

    /**
     * kvstore_prepare: one free slot over the whole backend, whatever the
     * write returns.
     */
    method Prepare() returns (status: Status)
      requires backend.Length >= SlotSize(0, 0)
      modifies backend
      ensures var r := PrepareSpec(old(backend[..]));
              status == r.status && backend[..] == r.bytes
    {
      var valueSize := ValueSize(backend.Length, 0);
      var ignored := WriteSlot(0, None, 0, None, valueSize);
      return Ok;
    }

    /**
     * kvstore_put: check the arguments, walk the slots from offset 0 until a
     * free one is large enough for the new slot plus a free slot, split it,
     * and fall back to a write past the end when the walk runs off the
     * backend.
     */
    method Put(key: seq<byte>, value: seq<byte>) returns (status: Status)
      modifies backend
      ensures var r := PutSpec(old(backend[..]), key, value);
              status == r.status && backend[..] == r.bytes
    {
      if |key| == 0 || |value| == 0 || |key| > MAX_KEY_SIZE {
        return BadArg;
      }
      ghost var b := backend[..];
      var need := SlotSize(|key|, |value|);
      var position: nat := 0;
      var size := backend.Length;
      while position < size
        invariant backend[..] == b
        invariant Scan(Decode, b, position, need) == Scan(Decode, b, 0, need)
        decreases size - position
      {
        var st, foundKeySize, foundValueSize, keyBytes, valueBytes := ReadSlot(position, false, 0, false, 0);
        ScanStep(b, position, need, st, foundKeySize, foundValueSize, keyBytes, valueBytes);
        if st != Ok {
          return Failed;
        }
        var foundSize := SlotSize(foundKeySize, foundValueSize);
        if foundKeySize > 0 || foundSize < need + SlotSize(0, 0) {
          ghost var at := position;
          position := position + foundSize;
          ScanStepOver(b, at, need, st, foundKeySize, foundValueSize, keyBytes, valueBytes, position);
          continue;
        }
        // The free slot at `position` becomes the new slot and a free remainder.
        ghost var free := Scan(Decode, b, position, need).free;
        var remaining := foundSize - need;
        var slot2ValueSize := ValueSize(remaining, 0);
        var ignored := WriteSlot(position, Some(key), |key|, Some(value), |value|);
        ghost var first := backend[..];
        ghost var at := position;
        position := position + need;
        ignored := WriteSlot(position, None, 0, None, slot2ValueSize);
        PutSplits(b, key, value, at, free, first, position, slot2ValueSize, backend[..]);
        return Ok;
      }
      ghost var w := WriteSlotSpec(b, position, Some(key), |key|, Some(value), |value|);
      PutRunsOff(b, key, value, position, w);
      var st := WriteSlot(position, Some(key), |key|, Some(value), |value|);
      if st != Ok {
        return NotFound;
      }
      return Ok;
    }

    /**
     * kvstore_advance: move the cursor past the slot it is on, free or used;
     * fail and leave it where it is when no slot reads there.
     */
    method Advance(cursor: Cursor) returns (status: Status)
      modifies cursor
      ensures cursor.key == old(cursor.key)
      ensures match Step(Decode, backend[..], old(cursor.position))
              case None => status == Failed && cursor.position == old(cursor.position)
              case Some(q) => status == Ok && cursor.position == q
    {
      var st, keySize, valueSize, keyBytes, valueBytes := ReadSlot(cursor.position, false, 0, false, 0);
      ReadSlotMatchesDecode(backend[..], cursor.position, false, 0, false, 0);
      if st != Ok {
        return Failed;
      }
      cursor.position := cursor.position + SlotSize(keySize, valueSize);
      return Ok;
    }

    /**
     * kvstore_search_next: from the cursor position, read each slot's key
     * into a buffer of MAX_KEY_SIZE bytes and advance until it equals the
     * cursor key; fail, with the cursor on the slot that did not read, when
     * a read fails.
     */
    method SearchNext(cursor: Cursor) returns (status: Status)
      requires cursor.Valid()
      modifies cursor
      ensures cursor.key == old(cursor.key) && cursor.Valid()
      ensures var r := SearchFrom(Decode, backend[..], old(cursor.position), cursor.key);
              cursor.position == r.pos && (if r.Found? then status == Ok else status == Failed)
    {
      ghost var b := backend[..];
      ghost var target := SearchFrom(Decode, b, cursor.position, cursor.key);
      while true
        invariant backend[..] == b
        invariant cursor.key == old(cursor.key)
        invariant SearchFrom(Decode, b, cursor.position, cursor.key) == target
        decreases backend.Length - cursor.position
      {
        var st, keySize, valueSize, keyBytes, valueBytes := ReadSlot(cursor.position, true, MAX_KEY_SIZE, false, 0);
        SearchStep(b, cursor.position, cursor.key, st, keySize, valueSize, keyBytes, valueBytes);
        if st != Ok {
          return Failed;
        }
        if keySize != |cursor.key| {
          ghost var at := cursor.position;
          var ignored := Advance(cursor);
          SearchStepOver(b, at, cursor.key, st, keySize, valueSize, keyBytes, valueBytes, cursor.position);
          continue;
        }
        if keyBytes.value != cursor.key {
          ghost var at := cursor.position;
          var ignored := Advance(cursor);
          SearchStepOver(b, at, cursor.key, st, keySize, valueSize, keyBytes, valueBytes, cursor.position);
          continue;
        }
        return Ok;
      }
    }

    /**
     * kvstore_search: refuse an empty key or one longer than MAX_KEY_SIZE,
     * otherwise put the cursor at offset 0 with a copy of the key and search
     * from there.
     */
    method Search(cursor: Cursor, key: seq<byte>) returns (status: Status)
      modifies cursor
      ensures !(0 < |key| <= MAX_KEY_SIZE) ==>
                status == BadArg && cursor.position == old(cursor.position) && cursor.key == old(cursor.key)
      ensures 0 < |key| <= MAX_KEY_SIZE ==>
                cursor.key == key && cursor.Valid()
                && var r := SearchFrom(Decode, backend[..], 0, key);
                   cursor.position == r.pos && (if r.Found? then status == Ok else status == Failed)
    {
      if |key| == 0 || |key| > MAX_KEY_SIZE {
        return BadArg;
      }
      cursor.position := 0;
      cursor.key := key;
      status := SearchNext(cursor);
    }

    /**
     * kvstore_get: refuse a missing or zero-capacity value buffer, otherwise
     * read the value of the slot at the cursor (without its key).
     */
    method Get(cursor: Cursor, hasValue: bool, valueCap: nat)
      returns (status: Status, valueSize: nat, valueBytes: Option<seq<byte>>)
      ensures !hasValue || valueCap == 0 ==> status == BadArg && valueSize == valueCap && valueBytes.None?
      ensures hasValue && valueCap != 0 ==>
                var r := ReadSlotSpec(backend[..], cursor.position, false, 0, true, valueCap);
                status == r.status && valueSize == r.valueSize && valueBytes == r.valueBytes
    {
      if !hasValue || valueCap == 0 {
        return BadArg, valueCap, None;
      }
      var st, keySize, vs, keyBytes, vb := ReadSlot(cursor.position, false, 0, true, valueCap);
      return st, vs, vb;
    }

    /** kvstore_get_kv: read the key and the value of the slot at the cursor. */
    method GetKv(cursor: Cursor, hasKey: bool, keyCap: nat, hasValue: bool, valueCap: nat)
      returns (status: Status, keySize: nat, valueSize: nat,
               keyBytes: Option<seq<byte>>, valueBytes: Option<seq<byte>>)
      ensures ReadOutcome(status, keySize, valueSize, keyBytes, valueBytes)
           == ReadSlotSpec(backend[..], cursor.position, hasKey, keyCap, hasValue, valueCap)
    {
      status, keySize, valueSize, keyBytes, valueBytes := ReadSlot(cursor.position, hasKey, keyCap, hasValue, valueCap);
    }
  }
}
