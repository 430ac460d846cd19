/**
 * The framing of one slot on the backend, as pure functions over the backend
 * contents `b: seq<byte>`:
 *
 *   [magic header][key length][key bytes][value length][value bytes]
 *
 * A slot whose key length is 0 is a free slot; its value bytes are padding.
 */
module SlotCodec {
  import opened KvTypes

  /** Bytes a slot occupies on the backend (calculate_slot_size). */
  function SlotSize(keySize: nat, valueSize: nat): (s: nat)
    ensures s >= HEADER_SIZE_BYTES + KEY_SIZE_BYTES + VALUE_SIZE_BYTES
  {
    HEADER_SIZE_BYTES + KEY_SIZE_BYTES + keySize + VALUE_SIZE_BYTES + valueSize
  }

  /** Value capacity of a slot of a given total size (calculate_value_size). */
  function ValueSize(slotSize: nat, keySize: nat): (v: nat)
    requires slotSize >= SlotSize(keySize, 0)
    ensures SlotSize(keySize, v) == slotSize
  {
    slotSize - HEADER_SIZE_BYTES - KEY_SIZE_BYTES - keySize - VALUE_SIZE_BYTES
  }

  /** The two size computations are inverse, and an empty slot costs 12 bytes. */
  lemma SizeArithmetic(keySize: nat, valueSize: nat)
    ensures ValueSize(SlotSize(keySize, valueSize), keySize) == valueSize
    ensures SlotSize(0, 0) == 12
  {
  }

  /** The length a 4-byte field holds, read least significant byte first. */
  function DecodeField(s: seq<byte>): (n: nat)
    requires |s| == 4
    ensures n < FIELD_MODULUS
  {
    s[0] as nat + 256 * (s[1] as nat + 256 * (s[2] as nat + 256 * s[3] as nat))
  }

  /**
   * A length field: the 4 bytes that hold the length truncated to 32 bits,
   * in little-endian order, the only layout `DecodeField` reads back
   * (`LittleEndianIsEncoding` pins the bytes down).
   */
  ghost function EncodeField(n: nat): (s: seq<byte>)
    ensures |s| == KEY_SIZE_BYTES == VALUE_SIZE_BYTES
    ensures DecodeField(s) == n % FIELD_MODULUS
    ensures n < FIELD_MODULUS ==> DecodeField(s) == n
  {
    LittleEndianHolds(n % FIELD_MODULUS);
    var s :| |s| == 4 && DecodeField(s) == n % FIELD_MODULUS; s
  }

  /** The layout of a field as the store writes it: least significant byte first. */
  function LittleEndian(m: nat): (s: seq<byte>)
    requires m < FIELD_MODULUS
    ensures |s| == 4
  {
    [(m % 256) as byte, (m / 256 % 256) as byte, (m / 65536 % 256) as byte, (m / 16777216) as byte]
  }

  /** The little-endian layout reads back as the length it was made from. */
  lemma LittleEndianHolds(m: nat)
    requires m < FIELD_MODULUS
    ensures DecodeField(LittleEndian(m)) == m
  {
    var s := LittleEndian(m);
    DigitSplit(m, s[0] as nat, m / 256);
    DigitSplit(m / 256, s[1] as nat, m / 65536);
    DigitSplit(m / 65536, s[2] as nat, s[3] as nat);
  }

  /** Two fields that hold the same length are the same bytes. */
  lemma DecodeFieldInjective(s: seq<byte>, t: seq<byte>)
    requires |s| == 4 && |t| == 4 && DecodeField(s) == DecodeField(t)
    ensures s == t
  {
    var n := DecodeField(s);
    var qs1, qt1 := s[1] as nat + 256 * (s[2] as nat + 256 * s[3] as nat), t[1] as nat + 256 * (t[2] as nat + 256 * t[3] as nat);
    DigitSplit(n, s[0] as nat, qs1);
    DigitSplit(n, t[0] as nat, qt1);
    var qs2, qt2 := s[2] as nat + 256 * s[3] as nat, t[2] as nat + 256 * t[3] as nat;
    DigitSplit(qs1, s[1] as nat, qs2);
    DigitSplit(qt1, t[1] as nat, qt2);
    DigitSplit(qs2, s[2] as nat, s[3] as nat);
    DigitSplit(qt2, t[2] as nat, t[3] as nat);
  }

  /** Splitting off the lowest base-256 digit. */
  lemma DigitSplit(x: nat, low: nat, high: nat)
    requires low < 256 && x == low + 256 * high
    ensures x / 256 == high && x % 256 == low
  {
  }

  /** Every 4-byte field is the encoding of the length it holds. */
  lemma FieldIsEncoding(s: seq<byte>)
    requires |s| == 4
    ensures EncodeField(DecodeField(s)) == s
  {
    DecodeFieldInjective(EncodeField(DecodeField(s)), s);
  }

  /** The bytes a method writes for a length are the field encoding of that length. */
  lemma LittleEndianIsEncoding(n: nat)
    ensures LittleEndian(n % FIELD_MODULUS) == EncodeField(n)
  {
    LittleEndianHolds(n % FIELD_MODULUS);
    DecodeFieldInjective(LittleEndian(n % FIELD_MODULUS), EncodeField(n));
  }

  /** The key and value a slot holds; a free slot has an empty key. */
  datatype Slot = Slot(key: seq<byte>, value: seq<byte>) {
    function Size(): nat {
      SlotSize(|key|, |value|)
    }

    predicate IsFree() {
      |key| == 0
    }

    /** Both lengths fit a 32-bit length field. */
    predicate Encodable() {
      |key| < FIELD_MODULUS && |value| < FIELD_MODULUS
    }
  }

  /** The bytes of a slot as they are laid out on the backend. */
  ghost function EncodeSlot(s: Slot): (e: seq<byte>)
    ensures |e| == s.Size()
  {
    HEADER_MAGIC + EncodeField(|s.key|) + s.key + EncodeField(|s.value|) + s.value
  }

  /**
   * The slot stored at `pos`, if the magic header matches and every field
   * lies inside the backend. A decoded slot is exactly the encoding of what it
   * holds.
   */
  function Decode(b: seq<byte>, pos: nat): (r: Option<Slot>)
    ensures r.Some? ==> pos + r.value.Size() <= |b|
  {
    if pos + SlotSize(0, 0) > |b| || !HeaderAt(b, pos) then None
    else
      var kl := FieldAt(b, pos + 4);
      if pos + SlotSize(kl, 0) > |b| then None
      else
        var vl := FieldAt(b, pos + 8 + kl);
        if pos + SlotSize(kl, vl) > |b| then None
        else Some(Slot(b[pos + 8..pos + 8 + kl], b[pos + 12 + kl..pos + 12 + kl + vl]))
  }

  /** The magic header starts at `pos`. */
  predicate HeaderAt(b: seq<byte>, pos: nat) {
    pos + HEADER_SIZE_BYTES <= |b| && b[pos] == 0xf8 && b[pos + 1] == 0x2a && b[pos + 2] == 0x93 && b[pos + 3] == 0x11
  }

  /** The header check byte by byte is the comparison with the magic sequence. */
  lemma HeaderAtMagic(b: seq<byte>, pos: nat)
    requires pos + HEADER_SIZE_BYTES <= |b|
    ensures HeaderAt(b, pos) <==> b[pos..pos + HEADER_SIZE_BYTES] == HEADER_MAGIC
  {
    var h := b[pos..pos + HEADER_SIZE_BYTES];
    assert h[0] == b[pos] && h[1] == b[pos + 1] && h[2] == b[pos + 2] && h[3] == b[pos + 3];
    if HeaderAt(b, pos) {
      assert h == HEADER_MAGIC;
    }
  }

  /** The length held by the 4-byte field at `at`. */
  function FieldAt(b: seq<byte>, at: nat): (n: nat)
    requires at + 4 <= |b|
    ensures n < FIELD_MODULUS
  {
    DecodeField(b[at..at + 4])
  }

  /** A decoded slot is exactly the encoding of what it holds. */
  lemma DecodeIsEncoding(b: seq<byte>, pos: nat)
    requires Decode(b, pos).Some?
    ensures var s := Decode(b, pos).value;
            s.Encodable() && b[pos..pos + s.Size()] == EncodeSlot(s)
  {
    var s := Decode(b, pos).value;
    var kl := |s.key|;
    HeaderAtMagic(b, pos);
    FieldIsEncoding(b[pos + 4..pos + 8]);
    FieldIsEncoding(b[pos + 8 + kl..pos + 12 + kl]);
    FieldsAreEncoding(b, pos, s);
  }

  /** Bytes holding each field of a slot in turn are the encoding of that slot. */
  lemma FieldsAreEncoding(b: seq<byte>, p: nat, s: Slot)
    requires p + s.Size() <= |b|
    requires b[p..p + 4] == HEADER_MAGIC
    requires b[p + 4..p + 8] == EncodeField(|s.key|)
    requires b[p + 8..p + 8 + |s.key|] == s.key
    requires b[p + 8 + |s.key|..p + 12 + |s.key|] == EncodeField(|s.value|)
    requires b[p + 12 + |s.key|..p + s.Size()] == s.value
    ensures b[p..p + s.Size()] == EncodeSlot(s)
  {
    var kl, n := |s.key|, s.Size();
    SliceSplit(b, p, p + 12 + kl, p + n);
    SliceSplit(b, p, p + 8 + kl, p + 12 + kl);
    SliceSplit(b, p, p + 8, p + 8 + kl);
    SliceSplit(b, p, p + 4, p + 8);
  }

  /** A slice splits at any point inside it. */
  lemma SliceSplit(b: seq<byte>, x: nat, y: nat, z: nat)
    requires x <= y <= z <= |b|
    ensures b[x..z] == b[x..y] + b[y..z]
  {
  }

  /** A slice of a slice is a slice. */
  lemma SliceOfSlice(b: seq<byte>, p: nat, n: nat, i: nat, j: nat)
    requires p + n <= |b| && i <= j <= n
    ensures b[p..p + n][i..j] == b[p + i..p + j]
  {
    var w := b[p..p + n];
    forall k | i <= k < j
      ensures w[k] == b[p + k]
    {
    }
    assert w[i..j] == b[p + i..p + j];
  }

  /** Whatever holds the encoding of a slot at `p` decodes to that slot there. */
  lemma EncodingDecodes(b: seq<byte>, p: nat, s: Slot)
    requires s.Encodable() && p + s.Size() <= |b| && b[p..p + s.Size()] == EncodeSlot(s)
    ensures Decode(b, p) == Some(s)
  {
    var n, kl, vl := s.Size(), |s.key|, |s.value|;
    EncodeSlotParts(s);
    SliceOfSlice(b, p, n, 0, 4);
    SliceOfSlice(b, p, n, 4, 8);
    SliceOfSlice(b, p, n, 8, 8 + kl);
    SliceOfSlice(b, p, n, 8 + kl, 12 + kl);
    SliceOfSlice(b, p, n, 12 + kl, n);
    DecodeFields(b, p, s);
  }

  /** Equal slices have equal sub-slices. */
  lemma SubSlice(b: seq<byte>, c: seq<byte>, lo: nat, hi: nat, x: nat, y: nat)
    requires lo <= x <= y <= hi <= |b| && hi <= |c| && b[lo..hi] == c[lo..hi]
    ensures b[x..y] == c[x..y]
  {
    SliceOfSlice(b, lo, hi - lo, x - lo, y - lo);
    SliceOfSlice(c, lo, hi - lo, x - lo, y - lo);
  }

  /** Whether a slot decodes depends only on the bytes it occupies. */
  lemma DecodeLocal(b: seq<byte>, c: seq<byte>, pos: nat)
    requires Decode(b, pos).Some?
    requires pos + Decode(b, pos).value.Size() <= |c|
    requires b[pos..pos + Decode(b, pos).value.Size()] == c[pos..pos + Decode(b, pos).value.Size()]
    ensures Decode(c, pos) == Decode(b, pos)
  {
    DecodeIsEncoding(b, pos);
    EncodingDecodes(c, pos, Decode(b, pos).value);
  }

  /** A slot inside a window of bytes that two backends share decodes the same in both. */
  lemma SlotLocal(b: seq<byte>, c: seq<byte>, lo: nat, hi: nat, pos: nat, s: Slot)
    requires Decode(b, pos) == Some(s)
    requires lo <= pos && pos + s.Size() <= hi <= |b| && hi <= |c| && b[lo..hi] == c[lo..hi]
    ensures Decode(c, pos) == Some(s)
  {
    SubSlice(b, c, lo, hi, pos, pos + s.Size());
    DecodeLocal(b, c, pos);
  }

  /** Whatever decodes carries the magic header and fits the 32-bit length fields. */
  lemma DecodedWellFormed(b: seq<byte>, pos: nat)
    requires Decode(b, pos).Some?
    ensures var s := Decode(b, pos).value;
            && HeaderAt(b, pos) && s.Encodable()
            && s.key == b[pos + 8..pos + 8 + |s.key|]
            && s.value == b[pos + 12 + |s.key|..pos + s.Size()]
  {
  }

  /** A slot decodes from its own encoding, whatever surrounds it. */
  lemma DecodeEncoded(pre: seq<byte>, s: Slot, post: seq<byte>)
    requires s.Encodable()
    ensures Decode(pre + EncodeSlot(s) + post, |pre|) == Some(s)
  {
    Placed(pre, EncodeSlot(s), post);
    EncodingDecodes(pre + EncodeSlot(s) + post, |pre|, s);
  }

  /** The fields of an encoded slot, at their offsets. */
  lemma EncodeSlotParts(s: Slot)
    ensures var e, kl := EncodeSlot(s), |s.key|;
            && e[..4] == e[0..4] == HEADER_MAGIC
            && e[4..8] == EncodeField(kl)
            && e[8..8 + kl] == s.key
            && e[8 + kl..12 + kl] == EncodeField(|s.value|)
            && e[12 + kl..] == e[12 + kl..s.Size()] == s.value
  {
  }

  /** A slot decodes at `p` once each of its fields has been read back. */
  lemma DecodeFields(b: seq<byte>, p: nat, s: Slot)
    requires s.Encodable() && p + s.Size() <= |b|
    requires b[p..p + 4] == HEADER_MAGIC
    requires b[p + 4..p + 8] == EncodeField(|s.key|)
    requires b[p + 8..p + 8 + |s.key|] == s.key
    requires b[p + 8 + |s.key|..p + 12 + |s.key|] == EncodeField(|s.value|)
    requires b[p + 12 + |s.key|..p + s.Size()] == s.value
    ensures Decode(b, p) == Some(s)
  {
    assert HeaderAt(b, p) by {
      assert b[p] == b[p..p + 4][0];
      assert b[p + 1] == b[p..p + 4][1];
      assert b[p + 2] == b[p..p + 4][2];
      assert b[p + 3] == b[p..p + 4][3];
    }
  }

  /** A sequence placed between a prefix and a suffix can be sliced back out, and so can they. */
  lemma Placed(pre: seq<byte>, e: seq<byte>, post: seq<byte>)
    ensures var b := pre + e + post;
            && b[..|pre|] == pre
            && b[|pre|..|pre| + |e|] == e
            && b[|pre| + |e|..] == post
  {
    var b := pre + e + post;
    assert b[..|pre|] == pre;
    assert b[|pre|..|pre| + |e|] == e;
    assert b[|pre| + |e|..] == post;
  }

  /**
   * The slot write_slot lays down at `pos`: the given key and value, or, for
   * one that is not given, the bytes already in its place (only its length
   * field is written).
   */
  ghost function Written(b: seq<byte>, pos: nat, key: Option<seq<byte>>, keySize: nat,
                         value: Option<seq<byte>>, valueSize: nat): (s: Slot)
    requires pos + SlotSize(keySize, valueSize) <= |b|
    requires key.Some? ==> |key.value| == keySize
    requires value.Some? ==> |value.value| == valueSize
    ensures |s.key| == keySize && |s.value| == valueSize
  {
    Slot(if key.Some? then key.value else b[pos + 8..pos + 8 + keySize],
         if value.Some? then value.value else b[pos + 12 + keySize..pos + SlotSize(keySize, valueSize)])
  }

  /**
   * The backend after the writes of a successful write_slot: header, key
   * length, key, value length and value, in place of the bytes at `pos`.
   */
  ghost function WriteImage(b: seq<byte>, pos: nat, key: Option<seq<byte>>, keySize: nat,
                            value: Option<seq<byte>>, valueSize: nat): (r: seq<byte>)
    requires pos + SlotSize(keySize, valueSize) <= |b|
    requires key.Some? ==> |key.value| == keySize
    requires value.Some? ==> |value.value| == valueSize
    ensures |r| == |b|
  {
    b[..pos] + EncodeSlot(Written(b, pos, key, keySize, value, valueSize)) + b[pos + SlotSize(keySize, valueSize)..]
  }

  /** write_slot touches nothing outside the slot. */
  lemma WriteImageFrame(b: seq<byte>, pos: nat, key: Option<seq<byte>>, keySize: nat,
                        value: Option<seq<byte>>, valueSize: nat)
    requires pos + SlotSize(keySize, valueSize) <= |b|
    requires key.Some? ==> |key.value| == keySize
    requires value.Some? ==> |value.value| == valueSize
    ensures var r, end := WriteImage(b, pos, key, keySize, value, valueSize), pos + SlotSize(keySize, valueSize);
            r[..pos] == b[..pos] && r[end..] == b[end..]
  {
    Placed(b[..pos], EncodeSlot(Written(b, pos, key, keySize, value, valueSize)), b[pos + SlotSize(keySize, valueSize)..]);
  }

  /** Without a key buffer, write_slot leaves the bytes of the key region as they were. */
  lemma WriteKeepsAbsentKey(b: seq<byte>, pos: nat, keySize: nat, value: Option<seq<byte>>, valueSize: nat)
    requires pos + SlotSize(keySize, valueSize) <= |b|
    requires value.Some? ==> |value.value| == valueSize
    ensures WriteImage(b, pos, None, keySize, value, valueSize)[pos + 8..pos + 8 + keySize]
         == b[pos + 8..pos + 8 + keySize]
  {
    var s := Written(b, pos, None, keySize, value, valueSize);
    var r, n := WriteImage(b, pos, None, keySize, value, valueSize), SlotSize(keySize, valueSize);
    WriteImageHolds(b, pos, None, keySize, value, valueSize);
    EncodeSlotParts(s);
    SliceOfSlice(r, pos, n, 8, 8 + keySize);
    assert r[pos + 8..pos + 8 + keySize] == EncodeSlot(s)[8..8 + keySize] == s.key;
  }

  /** Without a value buffer, write_slot leaves the bytes of the value region as they were. */
  lemma WriteKeepsAbsentValue(b: seq<byte>, pos: nat, key: Option<seq<byte>>, keySize: nat, valueSize: nat)
    requires pos + SlotSize(keySize, valueSize) <= |b|
    requires key.Some? ==> |key.value| == keySize
    ensures WriteImage(b, pos, key, keySize, None, valueSize)[pos + 12 + keySize..pos + SlotSize(keySize, valueSize)]
         == b[pos + 12 + keySize..pos + SlotSize(keySize, valueSize)]
  {
    var s := Written(b, pos, key, keySize, None, valueSize);
    WriteImageHolds(b, pos, key, keySize, None, valueSize);
    WrittenKeepsValue(b, pos, key, keySize, valueSize);
    TailOfWindow(WriteImage(b, pos, key, keySize, None, valueSize), b, pos, SlotSize(keySize, valueSize), 12 + keySize, EncodeSlot(s),
                 pos + 12 + keySize, pos + SlotSize(keySize, valueSize));
  }

  /** Without a value buffer, the encoding write_slot lays down ends with the old bytes of the value region. */
  lemma WrittenKeepsValue(b: seq<byte>, pos: nat, key: Option<seq<byte>>, keySize: nat, valueSize: nat)
    requires pos + SlotSize(keySize, valueSize) <= |b|
    requires key.Some? ==> |key.value| == keySize
    ensures EncodeSlot(Written(b, pos, key, keySize, None, valueSize))[12 + keySize..SlotSize(keySize, valueSize)]
         == b[pos + 12 + keySize..pos + SlotSize(keySize, valueSize)]
  {
    EncodeSlotParts(Written(b, pos, key, keySize, None, valueSize));
  }

  /** A window holding `e` whose tail from `i` is the old bytes there keeps those bytes. */
  lemma TailOfWindow(r: seq<byte>, b: seq<byte>, pos: nat, n: nat, i: nat, e: seq<byte>, lo: nat, hi: nat)
    requires i <= n && pos + n <= |r| && pos + n <= |b| && lo == pos + i && hi == pos + n
    requires r[pos..pos + n] == e && e[i..n] == b[lo..hi]
    ensures r[lo..hi] == b[lo..hi]
  {
    SliceOfSlice(r, pos, n, i, n);
  }

  /** The bytes write_slot leaves at `pos` are the encoding of the slot it lays down. */
  lemma WriteImageHolds(b: seq<byte>, pos: nat, key: Option<seq<byte>>, keySize: nat,
                        value: Option<seq<byte>>, valueSize: nat)
    requires pos + SlotSize(keySize, valueSize) <= |b|
    requires key.Some? ==> |key.value| == keySize
    requires value.Some? ==> |value.value| == valueSize
    ensures WriteImage(b, pos, key, keySize, value, valueSize)[pos..pos + SlotSize(keySize, valueSize)]
         == EncodeSlot(Written(b, pos, key, keySize, value, valueSize))
  {
    Placed(b[..pos], EncodeSlot(Written(b, pos, key, keySize, value, valueSize)), b[pos + SlotSize(keySize, valueSize)..]);
  }

  /** A slot written with its key and value decodes at the position written. */
  lemma WriteDecodes(b: seq<byte>, pos: nat, k: seq<byte>, v: seq<byte>)
    requires Slot(k, v).Encodable()
    requires pos + SlotSize(|k|, |v|) <= |b|
    ensures Decode(WriteImage(b, pos, Some(k), |k|, Some(v), |v|), pos) == Some(Slot(k, v))
  {
    WriteImageHolds(b, pos, Some(k), |k|, Some(v), |v|);
    EncodingDecodes(WriteImage(b, pos, Some(k), |k|, Some(v), |v|), pos, Slot(k, v));
  }

  /** A free-slot marker decodes as a free slot whose padding is the old bytes. */
  lemma FreeWriteDecodes(b: seq<byte>, pos: nat, valueSize: nat)
    requires valueSize < FIELD_MODULUS
    requires pos + SlotSize(0, valueSize) <= |b|
    ensures Decode(WriteImage(b, pos, None, 0, None, valueSize), pos)
         == Some(Slot([], b[pos + 12..pos + 12 + valueSize]))
  {
    var s := Written(b, pos, None, 0, None, valueSize);
    assert s == Slot([], b[pos + 12..pos + 12 + valueSize]);
    WriteImageHolds(b, pos, None, 0, None, valueSize);
    EncodingDecodes(WriteImage(b, pos, None, 0, None, valueSize), pos, s);
  }

  /** What write_slot returns and what the backend holds afterwards. */
  datatype WriteOutcome = WriteOutcome(status: Status, bytes: seq<byte>)

  /**
   * write_slot: a zero value size is a bad argument and a slot that would end
   * past the backend fails; both are detected before anything is written.
   */
  ghost function WriteSlotSpec(b: seq<byte>, pos: nat, key: Option<seq<byte>>, keySize: nat,
                         value: Option<seq<byte>>, valueSize: nat): (r: WriteOutcome)
    requires key.Some? ==> |key.value| == keySize
    requires value.Some? ==> |value.value| == valueSize
    ensures |r.bytes| == |b|
    ensures r.status == BadArg <==> valueSize == 0
    ensures r.status == Failed <==> valueSize != 0 && pos + SlotSize(keySize, valueSize) > |b|
    ensures r.status != Ok ==> r.bytes == b
  {
    if valueSize == 0 then WriteOutcome(BadArg, b)
    else if pos + SlotSize(keySize, valueSize) > |b| then WriteOutcome(Failed, b)
    else WriteOutcome(Ok, WriteImage(b, pos, key, keySize, value, valueSize))
  }

  /**
   * What read_slot returns: the result, the final values of the two in/out
   * length variables, and the bytes copied into the key and value buffers
   * (None when the buffer is absent or was not written).
   */
  datatype ReadOutcome = ReadOutcome(status: Status, keySize: nat, valueSize: nat,
                                     keyBytes: Option<seq<byte>>, valueBytes: Option<seq<byte>>)

  /**
   * read_slot at `pos`, step by step. `hasKey`/`hasValue` say whether a buffer
   * is supplied; `keyCap`/`valueCap` are the in-values of the length variables,
   * which are the buffer capacities. Each length variable is overwritten once
   * its field has been read and has passed the capacity check.
   */
  function ReadSlotSpec(b: seq<byte>, pos: nat, hasKey: bool, keyCap: nat,
                        hasValue: bool, valueCap: nat): (r: ReadOutcome)
    ensures r.status == Ok || r.status == Failed
    ensures r.keyBytes.Some? ==> hasKey && |r.keyBytes.value| == r.keySize <= keyCap
    ensures r.valueBytes.Some? ==> hasValue && |r.valueBytes.value| == r.valueSize <= valueCap
    ensures r.status == Ok ==> r.keyBytes.Some? == hasKey && r.valueBytes.Some? == hasValue
  {
    var fail := ReadOutcome(Failed, keyCap, valueCap, None, None);
    var keyFieldAt := pos + HEADER_SIZE_BYTES;
    if keyFieldAt > |b| then fail
    else if b[pos..keyFieldAt] != HEADER_MAGIC then fail
    else if keyFieldAt + KEY_SIZE_BYTES > |b| then fail
    else
      var kl := DecodeField(b[keyFieldAt..keyFieldAt + KEY_SIZE_BYTES]);
      var keyAt := keyFieldAt + KEY_SIZE_BYTES;
      if hasKey && kl > keyCap then fail
      else if keyAt + kl > |b| then fail.(keySize := kl)
      else
        var kb := if hasKey then Some(b[keyAt..keyAt + kl]) else None;
        var valueFieldAt := keyAt + kl;
        if valueFieldAt + VALUE_SIZE_BYTES > |b| then ReadOutcome(Failed, kl, valueCap, kb, None)
        else
          var vl := DecodeField(b[valueFieldAt..valueFieldAt + VALUE_SIZE_BYTES]);
          var valueAt := valueFieldAt + VALUE_SIZE_BYTES;
          if hasValue && vl > valueCap then ReadOutcome(Failed, kl, valueCap, kb, None)
          else if valueAt + vl > |b| then ReadOutcome(Failed, kl, vl, kb, None)
          else ReadOutcome(Ok, kl, vl, kb, if hasValue then Some(b[valueAt..valueAt + vl]) else None)
  }

  /**
   * read_slot succeeds exactly when a slot decodes at `pos` and fits every
   * supplied buffer; it then reports the stored lengths (also when no buffer
   * is supplied) and copies exactly the stored bytes.
   */
  lemma ReadSlotMatchesDecode(b: seq<byte>, pos: nat, hasKey: bool, keyCap: nat,
                              hasValue: bool, valueCap: nat)
    ensures var r := ReadSlotSpec(b, pos, hasKey, keyCap, hasValue, valueCap);
            var d := Decode(b, pos);
            (r.status == Ok <==>
               d.Some? && (hasKey ==> |d.value.key| <= keyCap) && (hasValue ==> |d.value.value| <= valueCap))
            && (r.status == Ok ==>
                  r.keySize == |d.value.key| && r.valueSize == |d.value.value|
                  && (hasKey ==> r.keyBytes == Some(d.value.key))
                  && (hasValue ==> r.valueBytes == Some(d.value.value)))
  {
    if pos + HEADER_SIZE_BYTES <= |b| {
      HeaderAtMagic(b, pos);
    }
  }

  /**
   * A key buffer smaller than the stored key fails the read and leaves both
   * length variables as they were; a value buffer smaller than the stored
   * value fails it after the key length has been reported.
   */
  lemma ReadSlotRefusesSmallBuffers(b: seq<byte>, pos: nat, hasKey: bool, keyCap: nat,
                                    hasValue: bool, valueCap: nat)
    requires Decode(b, pos).Some?
    ensures var r := ReadSlotSpec(b, pos, hasKey, keyCap, hasValue, valueCap);
            var s := Decode(b, pos).value;
            (hasKey && |s.key| > keyCap ==>
               r == ReadOutcome(Failed, keyCap, valueCap, None, None))
            && ((!hasKey || |s.key| <= keyCap) && hasValue && |s.value| > valueCap ==>
               r.status == Failed && r.keySize == |s.key| && r.valueSize == valueCap && r.valueBytes.None?)
  {
  }

  /** A magic mismatch fails the read and leaves both length variables as they were. */
  lemma ReadSlotRejectsBadMagic(b: seq<byte>, pos: nat, hasKey: bool, keyCap: nat,
                                hasValue: bool, valueCap: nat)
    requires pos + HEADER_SIZE_BYTES <= |b| && b[pos..pos + HEADER_SIZE_BYTES] != HEADER_MAGIC
    ensures ReadSlotSpec(b, pos, hasKey, keyCap, hasValue, valueCap)
         == ReadOutcome(Failed, keyCap, valueCap, None, None)
  {
  }

  /**
   * Codec round trip: after a successful write_slot of `k` and `v`, read_slot
   * with large enough buffers succeeds, reports |k| and |v| and yields the
   * bytes of k and v.
   */
  lemma WriteThenRead(b: seq<byte>, pos: nat, k: seq<byte>, v: seq<byte>, keyCap: nat, valueCap: nat)
    requires |k| < FIELD_MODULUS && |v| < FIELD_MODULUS
    requires WriteSlotSpec(b, pos, Some(k), |k|, Some(v), |v|).status == Ok
    requires |k| <= keyCap && |v| <= valueCap
    ensures ReadSlotSpec(WriteSlotSpec(b, pos, Some(k), |k|, Some(v), |v|).bytes, pos, true, keyCap, true, valueCap)
         == ReadOutcome(Ok, |k|, |v|, Some(k), Some(v))
  {
    WriteDecodes(b, pos, k, v);
    ReadSlotMatchesDecode(WriteSlotSpec(b, pos, Some(k), |k|, Some(v), |v|).bytes, pos, true, keyCap, true, valueCap);
  }
}
