/**
 * kvstore_search_next and kvstore_advance as functions of the backend
 * contents: a cursor walks the chain one slot at a time until a slot's key
 * equals the cursor key or a slot fails to read.
 */
module CursorSearch {
  import opened KvTypes
  import opened SlotCodec
  import opened SlotChain
  import opened Allocator

  /** Where a search stops: at a slot holding the key, or where reading failed. */
  datatype SearchResult = Found(pos: nat) | Stopped(pos: nat)

  /**
   * kvstore_advance at `pos`: the position just past the slot there, whether
   * it is free or used, or None when no slot reads there.
   */
  function Step(read: Reader, b: seq<byte>, pos: nat): (r: Option<nat>)
    ensures r.Some? <==> read(b, pos).Some?
    ensures r.Some? ==> r.value == pos + read(b, pos).value.Size() >= pos + SlotSize(0, 0)
  {
    match read(b, pos)
    case None => None
    case Some(s) => Some(pos + s.Size())
  }

  /**
   * The loop of kvstore_search_next from `pos`: read the slot there with a
   * key buffer of MAX_KEY_SIZE bytes, stop with success when its key equals
   * `key`, stop with failure when the read fails (also for a stored key
   * longer than the buffer), and otherwise advance by one slot. The store
   * reads with `Decode`, which never finds a slot at or past the end of the
   * backend, so the first test only makes the end of the walk explicit.
   */
  function SearchFrom(read: Reader, b: seq<byte>, pos: nat, key: seq<byte>): (r: SearchResult)
    decreases |b| - pos
    ensures pos <= r.pos
    ensures r.Found? ==> r.pos < |b| && |key| <= MAX_KEY_SIZE
    ensures r.Found? ==> read(b, r.pos).Some? && read(b, r.pos).value.key == key
  {
    if pos >= |b| then Stopped(pos)
    else match read(b, pos)
      case None => Stopped(pos)
      case Some(s) =>
        if |s.key| > MAX_KEY_SIZE then Stopped(pos)
        else if s.key == key then Found(pos)
        else SearchFrom(read, b, pos + s.Size(), key)
  }

  /** Decoding never finds a slot at or past the end of the backend. */
  lemma DecodePastEnd(b: seq<byte>, pos: nat)
    requires pos >= |b|
    ensures Decode(b, pos).None?
  {
  }

  /** Every key of the list fits the cursor's key buffer. */
  predicate KeysFit(slots: seq<Slot>) {
    forall j :: 0 <= j < |slots| ==> |slots[j].key| <= MAX_KEY_SIZE
  }

  /** Index of the first slot of a list whose key is `key`, if any. */
  function KeyIndex(slots: seq<Slot>, key: seq<byte>): (r: Option<nat>)
    ensures r.Some? ==> r.value < |slots| && slots[r.value].key == key
    ensures forall j :: 0 <= j < |slots| && (r.None? || j < r.value) ==> slots[j].key != key
  {
    if slots == [] then None
    else if slots[0].key == key then Some(0)
    else match KeyIndex(slots[1..], key)
      case None => None
      case Some(i) => Some(i + 1)
  }

  /**
   * Along a run whose keys all fit the cursor, the search stops at the offset
   * of the first slot holding the key; when none does, it walks the whole run
   * and continues after it.
   */
  lemma {:induction false} SearchAlongRun(read: Reader, b: seq<byte>, pos: nat, slots: seq<Slot>, key: seq<byte>)
    requires Run(read, b, pos, slots) && KeysFit(slots) && pos + TotalSize(slots) <= |b|
    ensures KeyIndex(slots, key).Some? ==>
              SearchFrom(read, b, pos, key) == Found(Offset(pos, slots, KeyIndex(slots, key).value))
    ensures KeyIndex(slots, key).None? ==>
              SearchFrom(read, b, pos, key) == SearchFrom(read, b, pos + TotalSize(slots), key)
    decreases |slots|
  {
    if slots != [] {
      var s, n := slots[0], slots[0].Size();
      assert read(b, pos) == Some(s) && pos < |b|;
      assert |s.key| <= MAX_KEY_SIZE;
      if s.key == key {
        assert KeyIndex(slots, key) == Some(0);
        assert SearchFrom(read, b, pos, key) == Found(pos);
        assert Offset(pos, slots, 0) == pos by {
          assert slots[..0] == [];
        }
      } else {
        var rest := slots[1..];
        SearchSkips(read, b, pos, key, s, pos + n);
        assert SearchFrom(read, b, pos, key) == SearchFrom(read, b, pos + n, key);
        SearchAlongRun(read, b, pos + n, rest, key);
        if KeyIndex(rest, key).Some? {
          var i := KeyIndex(rest, key).value;
          assert KeyIndex(slots, key) == Some(i + 1);
          OffsetAfterFirst(pos, slots, i);
        } else {
          assert KeyIndex(slots, key) == None;
          assert pos + TotalSize(slots) == pos + n + TotalSize(rest);
        }
      }
    }
  }

  /** Offsets in a list are offsets in its tail, shifted by the first slot. */
  lemma OffsetAfterFirst(pos: nat, slots: seq<Slot>, i: nat)
    requires i < |slots| - 1
    ensures Offset(pos, slots, i + 1) == Offset(pos + slots[0].Size(), slots[1..], i)
  {
    assert slots[..i + 1] == [slots[0]] + slots[1..][..i];
  }

  /**
   * On a chain whose keys all fit the cursor, a search from offset 0 finds
   * the first slot holding the key, and otherwise fails at the end of the
   * backend: kvstore_search reports a missing key as Failed.
   */
  lemma SearchOnChain(read: Reader, b: seq<byte>, slots: seq<Slot>, key: seq<byte>)
    requires Run(read, b, 0, slots) && TotalSize(slots) == |b| && KeysFit(slots)
    ensures SearchFrom(read, b, 0, key) == match KeyIndex(slots, key)
                                          case Some(i) => Found(Offset(0, slots, i))
                                          case None => Stopped(|b|)
  {
    SearchAlongRun(read, b, 0, slots, key);
  }

  /**
   * A search that found a slot finds it again when restarted at the same
   * position: search_next does not advance past a match by itself.
   */
  lemma SearchAgainStable(read: Reader, b: seq<byte>, pos: nat, key: seq<byte>)
    requires SearchFrom(read, b, pos, key).Found?
    ensures var q := SearchFrom(read, b, pos, key).pos;
            SearchFrom(read, b, q, key) == Found(q)
  {
  }

  /** The search moves past a slot whose key differs, to the offset `next` just after it. */
  lemma SearchSkips(read: Reader, b: seq<byte>, pos: nat, key: seq<byte>, s: Slot, next: nat)
    requires pos < |b| && read(b, pos) == Some(s)
    requires |s.key| <= MAX_KEY_SIZE && s.key != key
    requires next == pos + s.Size()
    ensures SearchFrom(read, b, pos, key) == SearchFrom(read, b, next, key)
  {
  }

  /**
   * What one read_slot of kvstore_search_next's loop (a key buffer of
   * MAX_KEY_SIZE bytes, no value buffer) tells about the search from that
   * offset: a failed read stops it there, and a key of the right length
   * with the right bytes is found there.
   */
  lemma SearchStep(b: seq<byte>, pos: nat, key: seq<byte>, st: Status, keySize: nat, valueSize: nat,
                   keyBytes: Option<seq<byte>>, valueBytes: Option<seq<byte>>)
    requires ReadOutcome(st, keySize, valueSize, keyBytes, valueBytes)
          == ReadSlotSpec(b, pos, true, MAX_KEY_SIZE, false, 0)
    ensures st != Ok ==> SearchFrom(Decode, b, pos, key) == Stopped(pos)
    ensures st == Ok ==> pos + SlotSize(keySize, valueSize) <= |b| && keyBytes.Some?
                         && Step(Decode, b, pos) == Some(pos + SlotSize(keySize, valueSize))
    ensures st == Ok && keySize == |key| && keyBytes.value == key ==> SearchFrom(Decode, b, pos, key) == Found(pos)
  {
    ReadSlotMatchesDecode(b, pos, true, MAX_KEY_SIZE, false, 0);
    if pos >= |b| {
      DecodePastEnd(b, pos);
    }
  }

  /** A key of another length, or of the same length with other bytes, moves the search to `next`, just past it. */
  lemma SearchStepOver(b: seq<byte>, pos: nat, key: seq<byte>, st: Status, keySize: nat, valueSize: nat,
                       keyBytes: Option<seq<byte>>, valueBytes: Option<seq<byte>>, next: nat)
    requires ReadOutcome(st, keySize, valueSize, keyBytes, valueBytes)
          == ReadSlotSpec(b, pos, true, MAX_KEY_SIZE, false, 0)
    requires st == Ok && (keySize != |key| || keyBytes.value != key)
    requires next == pos + SlotSize(keySize, valueSize)
    ensures SearchFrom(Decode, b, pos, key) == SearchFrom(Decode, b, next, key)
  {
    ReadSlotMatchesDecode(b, pos, true, MAX_KEY_SIZE, false, 0);
    SearchSkips(Decode, b, pos, key, Decode(b, pos).value, next);
  }

  /**
   * kvstore_advance steps over exactly one slot of a run, free or used: from
   * slot `i` it lands on slot `i + 1`, even when that slot is free.
   */
  lemma AdvanceWalksRun(read: Reader, b: seq<byte>, pos: nat, slots: seq<Slot>, i: nat)
    requires Run(read, b, pos, slots) && i < |slots|
    ensures Step(read, b, Offset(pos, slots, i)) == Some(Offset(pos, slots, i + 1))
  {
    RunAt(read, b, pos, slots, i);
  }

  /**
   * kvstore_advance from a used slot followed by a free slot lands on the free
   * slot, not on the next non-empty one.
   */
  lemma AdvanceLandsOnFree(read: Reader, b: seq<byte>, pos: nat, slots: seq<Slot>, i: nat)
    requires Run(read, b, pos, slots) && i + 1 < |slots| && slots[i + 1].IsFree()
    ensures var q := Step(read, b, Offset(pos, slots, i));
            q.Some? && read(b, q.value) == Some(slots[i + 1]) && read(b, q.value).value.IsFree()
  {
    RunAt(read, b, pos, slots, i);
    RunAt(read, b, pos, slots, i + 1);
  }

  /** The first slot with the key is the one appended after slots that all lack it. */
  lemma {:induction false} KeyIndexAppended(pre: seq<Slot>, s: Slot, key: seq<byte>)
    requires forall j :: 0 <= j < |pre| ==> pre[j].key != key
    requires s.key == key
    ensures KeyIndex(pre + [s], key) == Some(|pre|)
    decreases |pre|
  {
    if pre == [] {
      assert pre + [s] == [s];
    } else {
      assert (pre + [s])[1..] == pre[1..] + [s];
      KeyIndexAppended(pre[1..], s, key);
    }
  }

  /**
   * A search from offset 0 finds a slot holding the key that is read in `r`
   * right after a run that `r` still reads as `b` did, when no slot of that
   * run holds the key.
   */
  lemma FoundAfterRun(read: Reader, b: seq<byte>, r: seq<byte>, pre: seq<Slot>, s: Slot, key: seq<byte>)
    requires Run(read, b, 0, pre) && SameInside(read, b, r, 0, TotalSize(pre))
    requires read(r, TotalSize(pre)) == Some(s) && TotalSize(pre) + s.Size() <= |r|
    requires KeysFit(pre) && s.key == key && |key| <= MAX_KEY_SIZE
    requires forall j :: 0 <= j < |pre| ==> pre[j].key != key
    ensures SearchFrom(read, r, 0, key) == Found(TotalSize(pre))
  {
    RunThenSlot(read, b, r, pre, s);
    KeyIndexAppended(pre, s, key);
    assert (pre + [s])[..|pre|] == pre;
    SearchAlongRun(read, r, 0, pre + [s], key);
  }

  /**
   * Put then search: on a chain whose keys fit the cursor and that does not
   * hold the key yet, a kvstore_put that finds a free slot returns Ok, and a
   * search for the key then finds the new record where that free slot began.
   */
  lemma PutThenSearch(b: seq<byte>, slots: seq<Slot>, key: seq<byte>, value: seq<byte>)
    requires IsChain(b, slots) && KeysFit(slots) && ValidArgs(key, value)
    requires KeyIndex(slots, key).None? && FirstFit(slots, SlotSize(|key|, |value|)).Some?
    ensures var r, i := PutSpec(b, key, value), FirstFit(slots, SlotSize(|key|, |value|)).value;
            r.status == Ok && SearchFrom(Decode, r.bytes, 0, key) == Found(Offset(0, slots, i))
  {
    var need := SlotSize(|key|, |value|);
    var i := FirstFit(slots, need).value;
    ScanFirstFit(Decode, b, 0, slots, need);
    assert PutSpec(b, key, value) == WriteOutcome(Ok, SplitWrite(b, Offset(0, slots, i), key, value, slots[i]));
    SplitThenSearch(b, slots, i, key, value);
  }

  /**
   * Put then read back: on a chain whose keys fit the cursor and that does
   * not hold the key yet, a kvstore_put that finds a free slot returns Ok,
   * a search for the key succeeds, and at the cursor kvstore_get_kv with
   * large enough buffers returns exactly the stored key and value, and
   * kvstore_get exactly the stored value.
   */
  lemma PutThenRead(b: seq<byte>, slots: seq<Slot>, key: seq<byte>, value: seq<byte>, keyCap: nat, valueCap: nat)
    requires IsChain(b, slots) && KeysFit(slots) && ValidArgs(key, value)
    requires KeyIndex(slots, key).None? && FirstFit(slots, SlotSize(|key|, |value|)).Some?
    requires |key| <= keyCap && |value| <= valueCap
    ensures var r := PutSpec(b, key, value);
            var f := SearchFrom(Decode, r.bytes, 0, key);
            && r.status == Ok && f.Found?
            && ReadSlotSpec(r.bytes, f.pos, true, keyCap, true, valueCap)
               == ReadOutcome(Ok, |key|, |value|, Some(key), Some(value))
            && ReadSlotSpec(r.bytes, f.pos, false, 0, true, valueCap)
               == ReadOutcome(Ok, |key|, |value|, None, Some(value))
  {
    var i := FirstFit(slots, SlotSize(|key|, |value|)).value;
    var p := Offset(0, slots, i);
    PutThenSearch(b, slots, key, value);
    PutAtFirstFit(b, slots, key, value, i);
    SplitOnChain(b, slots, i, key, value);
    ReadSlotMatchesDecode(PutSpec(b, key, value).bytes, p, true, keyCap, true, valueCap);
    ReadSlotMatchesDecode(PutSpec(b, key, value).bytes, p, false, 0, true, valueCap);
  }

  /** After the split of slot `i` of a chain that lacks the key, a search finds the new record at its offset. */
  lemma SplitThenSearch(b: seq<byte>, slots: seq<Slot>, i: nat, key: seq<byte>, value: seq<byte>)
    requires IsChain(b, slots) && KeysFit(slots) && ValidArgs(key, value) && i < |slots|
    requires KeyIndex(slots, key).None? && Fits(slots[i], SlotSize(|key|, |value|))
    ensures var p := Offset(0, slots, i);
            SearchFrom(Decode, SplitWrite(b, p, key, value, slots[i]), 0, key) == Found(p)
  {
    var p, free := Offset(0, slots, i), slots[i];
    SplitOnChain(b, slots, i, key, value);
    SearchAfterRewrite(b, SplitWrite(b, p, key, value, free), slots, i, Slot(key, value));
  }

  /** The split of slot `i` of a chain keeps the bytes before it and stores the new record there. */
  lemma SplitOnChain(b: seq<byte>, slots: seq<Slot>, i: nat, key: seq<byte>, value: seq<byte>)
    requires IsChain(b, slots) && ValidArgs(key, value) && i < |slots|
    requires Fits(slots[i], SlotSize(|key|, |value|))
    ensures var p := Offset(0, slots, i);
            var r := SplitWrite(b, p, key, value, slots[i]);
            && p + SlotSize(|key|, |value|) <= |b|
            && r[..p] == b[..p] && Decode(r, p) == Some(Slot(key, value))
  {
    var p, free := Offset(0, slots, i), slots[i];
    RunAt(Decode, b, 0, slots, i);
    DecodedWellFormed(b, p);
    SplitKeepsOutside(b, p, key, value, free);
    SplitStoresSlot(b, p, key, value, free);
  }

  /**
   * A backend `r` that reads like the chain `b` before the offset of slot
   * `i` and holds a slot with the key there is searched up to that slot,
   * when no earlier slot holds the key.
   */
  lemma SearchAfterRewrite(b: seq<byte>, r: seq<byte>, slots: seq<Slot>, i: nat, s: Slot)
    requires IsChain(b, slots) && KeysFit(slots) && i < |slots| && |r| == |b|
    requires KeyIndex(slots, s.key).None? && |s.key| <= MAX_KEY_SIZE
    requires Offset(0, slots, i) + s.Size() <= |b|
    requires r[..Offset(0, slots, i)] == b[..Offset(0, slots, i)]
    requires Decode(r, Offset(0, slots, i)) == Some(s)
    ensures SearchFrom(Decode, r, 0, s.key) == Found(Offset(0, slots, i))
  {
    var p := Offset(0, slots, i);
    RunAround(Decode, b, slots, i);
    assert b[0..p] == b[..p] && r[0..p] == r[..p];
    DecodeSameInside(b, r, 0, p);
    FoundAfterRun(Decode, b, r, slots[..i], s, s.key);
  }
}
