/**
 * kvstore_put and kvstore_prepare as functions of the backend contents: a
 * first-fit scan over the slot chain, then a split of the chosen free slot
 * into the new record and a free remainder.
 */
module Allocator {
  import opened KvTypes
  import opened SlotCodec
  import opened SlotChain

  /** A slot the scan of kvstore_put stops at: free, with room for the new slot and a free slot. */
  predicate Fits(s: Slot, need: nat) {
    s.IsFree() && s.Size() >= need + SlotSize(0, 0)
  }

  /** Where the allocation scan stops. */
  datatype ScanResult =
    | Split(pos: nat, free: Slot)  // a free slot that fits, at `pos`
    | ScanFailed                   // a slot failed to decode
    | ScanEnd(pos: nat)            // the scan ran off the end of the backend

  /**
   * The scan loop of kvstore_put from `pos`: read the slot there, skip it
   * when it is used or too small, stop at the first one that fits. The store
   * reads with `Decode`.
   */
  function Scan(read: Reader, b: seq<byte>, pos: nat, need: nat): (r: ScanResult)
    decreases |b| - pos
    ensures r.ScanEnd? ==> pos <= r.pos && |b| <= r.pos
    ensures r.Split? ==> pos <= r.pos < |b| && read(b, r.pos) == Some(r.free) && Fits(r.free, need)
  {
    if pos >= |b| then ScanEnd(pos)
    else match read(b, pos)
      case None => ScanFailed
      case Some(s) => if Fits(s, need) then Split(pos, s) else Scan(read, b, pos + s.Size(), need)
  }

  /** Index of the first slot of a list that fits, if any. */
  function FirstFit(slots: seq<Slot>, need: nat): (r: Option<nat>)
    ensures r.Some? ==> r.value < |slots| && Fits(slots[r.value], need)
    ensures forall j :: 0 <= j < |slots| && (r.None? || j < r.value) ==> !Fits(slots[j], need)
  {
    if slots == [] then None
    else if Fits(slots[0], need) then Some(0)
    else match FirstFit(slots[1..], need)
      case None => None
      case Some(i) => Some(i + 1)
  }

  /**
   * On a chain the scan never fails: it stops at the offset of the first slot
   * that fits, or at the end of the backend when none does.
   */
  lemma {:induction false} ScanFirstFit(read: Reader, b: seq<byte>, pos: nat, slots: seq<Slot>, need: nat)
    requires Run(read, b, pos, slots) && pos + TotalSize(slots) == |b|
    ensures Scan(read, b, pos, need) == match FirstFit(slots, need)
                                  case None => ScanEnd(|b|)
                                  case Some(i) => Split(Offset(pos, slots, i), slots[i])
    decreases |slots|
  {
    if slots == [] {
      assert Scan(read, b, pos, need) == ScanEnd(pos);
    } else {
      var s, n := slots[0], slots[0].Size();
      assert read(b, pos) == Some(s);
      assert pos < |b|;
      if Fits(s, need) {
        assert FirstFit(slots, need) == Some(0);
        assert Offset(pos, slots, 0) == pos by {
          assert slots[..0] == [];
        }
      } else {
        assert Scan(read, b, pos, need) == Scan(read, b, pos + n, need);
        ScanFirstFit(read, b, pos + n, slots[1..], need);
        match FirstFit(slots[1..], need) {
          case None =>
            assert FirstFit(slots, need) == None;
          case Some(i) =>
            assert FirstFit(slots, need) == Some(i + 1);
            assert slots[..i + 1] == [s] + slots[1..][..i];
            assert Offset(pos, slots, i + 1) == Offset(pos + n, slots[1..], i);
        }
      }
    }
  }

  /** The scan moves past a slot that does not fit, to the offset `next` just after it. */
  lemma ScanSkips(read: Reader, b: seq<byte>, pos: nat, need: nat, s: Slot, next: nat)
    requires pos < |b| && read(b, pos) == Some(s) && !Fits(s, need)
    requires next == pos + s.Size()
    ensures Scan(read, b, pos, need) == Scan(read, b, next, need)
  {
  }

  /** kvstore_put's argument check: a non-empty key of at most 16 bytes and a non-empty value. */
  predicate ValidArgs(key: seq<byte>, value: seq<byte>) {
    0 < |key| <= MAX_KEY_SIZE && 0 < |value|
  }

  /**
   * kvstore_put: check the arguments, scan for the first free slot that fits,
   * write the new slot at its start and a free slot over the remainder, and
   * ignore what both writes return. A scan that runs off the end falls back to
   * a write at the end, whose failure is reported as NotFound.
   */
  ghost function PutSpec(b: seq<byte>, key: seq<byte>, value: seq<byte>): (r: WriteOutcome)
    ensures |r.bytes| == |b|
  {
    if !ValidArgs(key, value) then WriteOutcome(BadArg, b)
    else
      var need := SlotSize(|key|, |value|);
      match Scan(Decode, b, 0, need)
      case ScanFailed => WriteOutcome(Failed, b)
      case ScanEnd(pos) =>
        var w := WriteSlotSpec(b, pos, Some(key), |key|, Some(value), |value|);
        if w.status != Ok then WriteOutcome(NotFound, b) else WriteOutcome(Ok, w.bytes)
      case Split(pos, free) => WriteOutcome(Ok, SplitWrite(b, pos, key, value, free))
  }

  /**
   * The two writes of a split, with their results ignored: the new slot at
   * `pos`, then a free-slot marker over what is left of `free`.
   */
  ghost function SplitWrite(b: seq<byte>, pos: nat, key: seq<byte>, value: seq<byte>, free: Slot): (r: seq<byte>)
    requires free.Size() >= SlotSize(|key|, |value|) + SlotSize(0, 0)
    ensures |r| == |b|
  {
    var first := WriteSlotSpec(b, pos, Some(key), |key|, Some(value), |value|);
    var q, rest := pos + SlotSize(|key|, |value|), ValueSize(free.Size() - SlotSize(|key|, |value|), 0);
    WriteSlotSpec(first.bytes, q, None, 0, None, rest).bytes
  }

  /**
   * The two writes of a split, spelled out: the new slot `b1` at `pos`, then
   * a free-slot marker with `rest` bytes of padding at `q`, which is refused
   * when nothing is left over.
   */
  lemma SplitFirstWrite(b: seq<byte>, pos: nat, key: seq<byte>, value: seq<byte>, free: Slot)
    returns (b1: seq<byte>, q: nat, rest: nat)
    requires pos + free.Size() <= |b| && Fits(free, SlotSize(|key|, |value|)) && ValidArgs(key, value)
    ensures q == pos + SlotSize(|key|, |value|) && q + SlotSize(0, rest) == pos + free.Size()
    ensures b1 == WriteImage(b, pos, Some(key), |key|, Some(value), |value|)
    ensures SplitWrite(b, pos, key, value, free) == if rest == 0 then b1 else WriteImage(b1, q, None, 0, None, rest)
  {
    q, rest := pos + SlotSize(|key|, |value|), ValueSize(free.Size() - SlotSize(|key|, |value|), 0);
    b1 := WriteImage(b, pos, Some(key), |key|, Some(value), |value|);
    SplitWriteIs(b, pos, key, value, free, b1, q, rest);
  }

  /** Two writes, the second inside the region the first one left alone or wrote, change nothing outside both. */
  lemma StackedFrame(b: seq<byte>, b1: seq<byte>, r: seq<byte>, pos: nat, mid: nat, end: nat)
    requires pos <= mid <= end <= |b| == |b1| == |r|
    requires b1[..pos] == b[..pos] && b1[mid..] == b[mid..]
    requires r[..mid] == b1[..mid] && r[end..] == b1[end..]
    ensures r[..pos] == b[..pos] && r[end..] == b[end..]
  {
    assert r[..pos] == r[..mid][..pos];
    assert b1[..pos] == b1[..mid][..pos];
    assert b1[end..] == b1[mid..][end - mid..];
    assert b[end..] == b[mid..][end - mid..];
  }

  /** A suffix of a region two backends share is shared as well. */
  lemma TailOfFrame(b: seq<byte>, b1: seq<byte>, mid: nat, end: nat)
    requires mid <= end <= |b| == |b1| && b1[mid..] == b[mid..]
    ensures b1[end..] == b[end..]
  {
    assert b1[end..] == b1[mid..][end - mid..];
    assert b[end..] == b[mid..][end - mid..];
  }

  /** A split of the free slot `free` stored at `pos` writes only inside it. */
  lemma SplitKeepsOutside(b: seq<byte>, pos: nat, key: seq<byte>, value: seq<byte>, free: Slot)
    requires pos + free.Size() <= |b| && Fits(free, SlotSize(|key|, |value|)) && ValidArgs(key, value)
    ensures var r, end := SplitWrite(b, pos, key, value, free), pos + free.Size();
            r[..pos] == b[..pos] && r[end..] == b[end..]
  {
    var b1, q, rest := SplitFirstWrite(b, pos, key, value, free);
    WriteImageFrame(b, pos, Some(key), |key|, Some(value), |value|);
    if rest == 0 {
      TailOfFrame(b, b1, q, pos + free.Size());
    } else {
      SecondWriteFrame(b, b1, pos, q, rest);
    }
  }

  /** The free-slot marker written after the new slot keeps the bytes outside the old free slot. */
  lemma SecondWriteFrame(b: seq<byte>, b1: seq<byte>, pos: nat, q: nat, rest: nat)
    requires pos <= q && q + SlotSize(0, rest) <= |b| == |b1|
    requires b1[..pos] == b[..pos] && b1[q..] == b[q..]
    ensures var r := WriteImage(b1, q, None, 0, None, rest);
            r[..pos] == b[..pos] && r[q + SlotSize(0, rest)..] == b[q + SlotSize(0, rest)..]
  {
    WriteImageFrame(b1, q, None, 0, None, rest);
    StackedFrame(b, b1, WriteImage(b1, q, None, 0, None, rest), pos, q, q + SlotSize(0, rest));
  }

  /** After a split the new slot decodes at the position of the free slot it replaced. */
  lemma SplitStoresSlot(b: seq<byte>, pos: nat, key: seq<byte>, value: seq<byte>, free: Slot)
    requires pos + free.Size() <= |b| && Fits(free, SlotSize(|key|, |value|)) && ValidArgs(key, value)
    requires Slot(key, value).Encodable()
    ensures Decode(SplitWrite(b, pos, key, value, free), pos) == Some(Slot(key, value))
  {
    var b1, q, rest := SplitFirstWrite(b, pos, key, value, free);
    WriteDecodes(b, pos, key, value);
    if rest != 0 {
      WriteImageFrame(b1, q, None, 0, None, rest);
      SlotLocal(b1, WriteImage(b1, q, None, 0, None, rest), 0, q, pos, Slot(key, value));
    }
  }

  /**
   * When more than 12 bytes remain, a free slot follows the new one, and its
   * padding is what is left of the old padding.
   */
  lemma SplitRemainder(b: seq<byte>, pos: nat, key: seq<byte>, value: seq<byte>, free: Slot, next: nat, rem: Slot)
    requires pos + free.Size() <= |b| && Fits(free, SlotSize(|key|, |value|)) && ValidArgs(key, value)
    requires free.Encodable() && free.value == b[pos + SlotSize(0, 0)..pos + free.Size()]
    requires free.Size() > SlotSize(|key|, |value|) + SlotSize(0, 0)
    requires next == pos + SlotSize(|key|, |value|) && rem == Slot([], free.value[SlotSize(|key|, |value|)..])
    ensures Decode(SplitWrite(b, pos, key, value, free), next) == Some(rem)
  {
    var b1, q, rest := SplitFirstWrite(b, pos, key, value, free);
    assert 0 < rest < FIELD_MODULUS && q == next;
    WriteImageFrame(b, pos, Some(key), |key|, Some(value), |value|);
    RemainderPadding(b, b1, pos, SlotSize(|key|, |value|), next, rest, pos + free.Size(), free.value);
    FreeWriteDecodes(b1, next, rest);
    var w := WriteImage(b1, next, None, 0, None, rest);
    assert SplitWrite(b, pos, key, value, free) == w;
    assert Decode(w, next) == Some(Slot([], b1[next + 12..next + 12 + rest]));
  }

  /** The padding of the free remainder is the tail of the old free slot's padding. */
  lemma RemainderPadding(b: seq<byte>, b1: seq<byte>, pos: nat, need: nat, q: nat, rest: nat, end: nat, padding: seq<byte>)
    requires q == pos + need && q + SlotSize(0, rest) == end <= |b| == |b1|
    requires b1[q..] == b[q..]
    requires padding == b[pos + SlotSize(0, 0)..end]
    ensures b1[q + 12..q + 12 + rest] == padding[need..]
  {
    SubSlice(b1, b, q, |b|, q + 12, end);
  }

  /**
   * When exactly 12 bytes remain, the free-slot write gets a zero value size
   * and is refused: only the new slot is written, and the 12 bytes after it
   * keep their old contents.
   */
  lemma SplitExactFit(b: seq<byte>, pos: nat, key: seq<byte>, value: seq<byte>, free: Slot)
    requires pos + free.Size() <= |b| && Fits(free, SlotSize(|key|, |value|)) && ValidArgs(key, value)
    requires free.Size() == SlotSize(|key|, |value|) + SlotSize(0, 0)
    ensures var r, need := SplitWrite(b, pos, key, value, free), SlotSize(|key|, |value|);
            && r[..pos] == b[..pos] && r[pos + need..] == b[pos + need..]
            && (Slot(key, value).Encodable() ==> Decode(r, pos) == Some(Slot(key, value)))
  {
    var b1, q, rest := SplitFirstWrite(b, pos, key, value, free);
    assert rest == 0;
    WriteImageFrame(b, pos, Some(key), |key|, Some(value), |value|);
    if Slot(key, value).Encodable() {
      WriteDecodes(b, pos, key, value);
    }
  }

  /**
   * What kvstore_put returns: BadArg exactly for bad arguments, Failed exactly
   * when the scan hits a slot that does not decode, NotFound exactly when the
   * scan runs off the end (the fallback write can never succeed), and Ok
   * otherwise. Nothing is written unless it returns Ok.
   */
  lemma PutStatus(b: seq<byte>, key: seq<byte>, value: seq<byte>)
    ensures var r, scan := PutSpec(b, key, value), Scan(Decode, b, 0, SlotSize(|key|, |value|));
            && (r.status == BadArg <==> !ValidArgs(key, value))
            && (r.status == Failed <==> ValidArgs(key, value) && scan.ScanFailed?)
            && (r.status == NotFound <==> ValidArgs(key, value) && scan.ScanEnd?)
            && (r.status == Ok <==> ValidArgs(key, value) && scan.Split?)
            && (r.status != Ok ==> r.bytes == b)
  {
  }

  /** On a chain, kvstore_put succeeds exactly when some free slot fits and returns NotFound otherwise. */
  lemma PutOnChain(b: seq<byte>, slots: seq<Slot>, key: seq<byte>, value: seq<byte>)
    requires IsChain(b, slots) && ValidArgs(key, value)
    ensures var r := PutSpec(b, key, value);
            && (r.status == Ok <==> FirstFit(slots, SlotSize(|key|, |value|)).Some?)
            && (r.status == NotFound <==> FirstFit(slots, SlotSize(|key|, |value|)).None?)
            && (r.status == NotFound ==> r.bytes == b)
  {
    ScanFirstFit(Decode, b, 0, slots, SlotSize(|key|, |value|));
    PutStatus(b, key, value);
  }

  /**
   * Splitting slot `i` of a chain, when more than 12 bytes are left over,
   * gives the chain with that slot replaced by the new slot and a free slot
   * holding the rest of its padding: the chain stays gapless and keeps its
   * total size.
   */
  lemma SplitChain(b: seq<byte>, slots: seq<Slot>, i: nat, key: seq<byte>, value: seq<byte>)
    requires IsChain(b, slots) && i < |slots| && ValidArgs(key, value)
    requires Fits(slots[i], SlotSize(|key|, |value|))
    requires slots[i].Size() > SlotSize(|key|, |value|) + SlotSize(0, 0)
    ensures var need := SlotSize(|key|, |value|);
            IsChain(SplitWrite(b, Offset(0, slots, i), key, value, slots[i]),
                    slots[..i] + [Slot(key, value), Slot([], slots[i].value[need..])] + slots[i + 1..])
  {
    var p, free := Offset(0, slots, i), slots[i];
    var q, rem := p + SlotSize(|key|, |value|), Slot([], free.value[SlotSize(|key|, |value|)..]);
    SlotOfChain(b, slots, i);
    SplitLeavesTwo(b, p, key, value, free, q, rem);
    TwoSlotsReplace(b, SplitWrite(b, p, key, value, free), slots, i, Slot(key, value), q, rem);
  }

  /** Slot `i` of a chain lies inside the backend and is stored there as its encoding. */
  lemma SlotOfChain(b: seq<byte>, slots: seq<Slot>, i: nat)
    requires IsChain(b, slots) && i < |slots|
    ensures var p := Offset(0, slots, i);
            && p + slots[i].Size() <= |b| && slots[i].Encodable()
            && slots[i].key == b[p + 8..p + 8 + |slots[i].key|]
            && slots[i].value == b[p + SlotSize(0, 0) + |slots[i].key|..p + slots[i].Size()]
  {
    RunAt(Decode, b, 0, slots, i);
    DecodedWellFormed(b, Offset(0, slots, i));
  }

  /**
   * A split of the free slot `free` stored at `pos`, with more than 12 bytes
   * left over, writes only inside it and leaves the new slot followed by a
   * free slot holding the rest of the padding.
   */
  lemma SplitLeavesTwo(b: seq<byte>, pos: nat, key: seq<byte>, value: seq<byte>, free: Slot, next: nat, rem: Slot)
    requires pos + free.Size() <= |b| && Fits(free, SlotSize(|key|, |value|)) && ValidArgs(key, value)
    requires free.Encodable() && free.value == b[pos + SlotSize(0, 0)..pos + free.Size()]
    requires free.Size() > SlotSize(|key|, |value|) + SlotSize(0, 0)
    requires next == pos + SlotSize(|key|, |value|) && rem == Slot([], free.value[SlotSize(|key|, |value|)..])
    ensures var r, end := SplitWrite(b, pos, key, value, free), pos + free.Size();
            && r[..pos] == b[..pos] && r[end..] == b[end..]
            && Decode(r, pos) == Some(Slot(key, value))
            && Decode(r, next) == Some(rem)
  {
    SplitKeepsOutside(b, pos, key, value, free);
    SplitStoresSlot(b, pos, key, value, free);
    SplitRemainder(b, pos, key, value, free, next, rem);
  }

  /** Slot `i` of a chain overwritten in place by two slots that together take its room. */
  lemma TwoSlotsReplace(b: seq<byte>, r: seq<byte>, slots: seq<Slot>, i: nat, x: Slot, next: nat, y: Slot)
    requires IsChain(b, slots) && i < |slots| && |r| == |b|
    requires Offset(0, slots, i) + slots[i].Size() <= |b|
    requires r[..Offset(0, slots, i)] == b[..Offset(0, slots, i)]
    requires r[Offset(0, slots, i) + slots[i].Size()..] == b[Offset(0, slots, i) + slots[i].Size()..]
    requires Decode(r, Offset(0, slots, i)) == Some(x)
    requires next == Offset(0, slots, i) + x.Size() && Decode(r, next) == Some(y)
    requires x.Size() + y.Size() == slots[i].Size()
    ensures IsChain(r, slots[..i] + [x, y] + slots[i + 1..])
  {
    RunOfTwo(Decode, r, Offset(0, slots, i), x, next, y);
    ChainReplace(b, r, slots, i, [x, y]);
  }

  /**
   * On a chain, kvstore_put with a free slot that fits and leaves more than
   * 12 bytes over returns Ok and leaves a chain: the slots before and after
   * are unchanged, the free slot becomes the new record followed by a free
   * slot over the rest.
   */
  lemma PutSplitChain(b: seq<byte>, slots: seq<Slot>, key: seq<byte>, value: seq<byte>, i: nat)
    requires IsChain(b, slots) && ValidArgs(key, value)
    requires FirstFit(slots, SlotSize(|key|, |value|)) == Some(i)
    requires slots[i].Size() > SlotSize(|key|, |value|) + SlotSize(0, 0)
    ensures var r := PutSpec(b, key, value);
            && r.status == Ok
            && IsChain(r.bytes, slots[..i] + [Slot(key, value), Slot([], slots[i].value[SlotSize(|key|, |value|)..])]
                                + slots[i + 1..])
  {
    PutAtFirstFit(b, slots, key, value, i);
    SplitChain(b, slots, i, key, value);
  }

  /**
   * On a chain, kvstore_put with a free slot that fits with exactly 12 bytes
   * to spare returns Ok, writes the new record and nothing else: the refused
   * second write leaves the 12 stale bytes after it, so unless they happen
   * to start with the magic header the backend no longer holds any chain.
   */
  lemma PutExactFit(b: seq<byte>, slots: seq<Slot>, key: seq<byte>, value: seq<byte>, i: nat)
    requires IsChain(b, slots) && ValidArgs(key, value)
    requires FirstFit(slots, SlotSize(|key|, |value|)) == Some(i)
    requires slots[i].Size() == SlotSize(|key|, |value|) + SlotSize(0, 0)
    ensures var r := PutSpec(b, key, value);
            && r.status == Ok
            && Offset(0, slots, i) + SlotSize(|key|, |value|) + SlotSize(0, 0) <= |b|
            && Decode(r.bytes, Offset(0, slots, i)) == Some(Slot(key, value))
            && r.bytes[..Offset(0, slots, i)] == b[..Offset(0, slots, i)]
            && r.bytes[Offset(0, slots, i) + SlotSize(|key|, |value|)..] == b[Offset(0, slots, i) + SlotSize(|key|, |value|)..]
            && (!HeaderAt(b, Offset(0, slots, i) + SlotSize(|key|, |value|)) ==> NoChain(r.bytes))
  {
    PutAtFirstFit(b, slots, key, value, i);
    ExactFitOnChain(b, slots, i, key, value);
    if !HeaderAt(b, Offset(0, slots, i) + SlotSize(|key|, |value|)) {
      ExactFitBreaksChain(b, slots, i, key, value);
    }
  }

  /** On a chain with a free slot that fits, kvstore_put splits the first such slot. */
  lemma PutAtFirstFit(b: seq<byte>, slots: seq<Slot>, key: seq<byte>, value: seq<byte>, i: nat)
    requires IsChain(b, slots) && ValidArgs(key, value)
    requires FirstFit(slots, SlotSize(|key|, |value|)) == Some(i)
    ensures i < |slots| && Fits(slots[i], SlotSize(|key|, |value|))
    ensures PutSpec(b, key, value) == WriteOutcome(Ok, SplitWrite(b, Offset(0, slots, i), key, value, slots[i]))
  {
    ScanFirstFit(Decode, b, 0, slots, SlotSize(|key|, |value|));
    PutSplitsAt(b, key, value, Offset(0, slots, i), slots[i]);
  }

  /** The exact-fit split of slot `i` of a chain writes the new slot there and nothing else. */
  lemma ExactFitOnChain(b: seq<byte>, slots: seq<Slot>, i: nat, key: seq<byte>, value: seq<byte>)
    requires IsChain(b, slots) && i < |slots| && ValidArgs(key, value)
    requires Fits(slots[i], SlotSize(|key|, |value|))
    requires slots[i].Size() == SlotSize(|key|, |value|) + SlotSize(0, 0)
    ensures var need, p := SlotSize(|key|, |value|), Offset(0, slots, i);
            var r := SplitWrite(b, p, key, value, slots[i]);
            && p + need + SlotSize(0, 0) <= |b|
            && Decode(r, p) == Some(Slot(key, value))
            && r[..p] == b[..p] && r[p + need..] == b[p + need..]
  {
    var p, free := Offset(0, slots, i), slots[i];
    RunAt(Decode, b, 0, slots, i);
    DecodedWellFormed(b, p);
    SplitExactFit(b, p, key, value, free);
  }

  /** After the exact-fit split of slot `i`, no chain is left unless the stale bytes start with the magic header. */
  lemma ExactFitBreaksChain(b: seq<byte>, slots: seq<Slot>, i: nat, key: seq<byte>, value: seq<byte>)
    requires IsChain(b, slots) && i < |slots| && ValidArgs(key, value)
    requires Fits(slots[i], SlotSize(|key|, |value|))
    requires slots[i].Size() == SlotSize(|key|, |value|) + SlotSize(0, 0)
    requires !HeaderAt(b, Offset(0, slots, i) + SlotSize(|key|, |value|))
    ensures NoChain(SplitWrite(b, Offset(0, slots, i), key, value, slots[i]))
  {
    ExactFitOnChain(b, slots, i, key, value);
    StaleBytesBreakChain(b, SplitWrite(b, Offset(0, slots, i), key, value, slots[i]), slots, i, Slot(key, value),
                         Offset(0, slots, i) + SlotSize(|key|, |value|));
  }

  /**
   * Slot `i` of a chain overwritten by a shorter slot, with the bytes after
   * the new slot left as they were, leaves no chain at all unless those
   * bytes start with the magic header.
   */
  lemma StaleBytesBreakChain(b: seq<byte>, r: seq<byte>, slots: seq<Slot>, i: nat, s: Slot, next: nat)
    requires IsChain(b, slots) && i < |slots| && |r| == |b|
    requires next == Offset(0, slots, i) + s.Size() && next < |b|
    requires r[..Offset(0, slots, i)] == b[..Offset(0, slots, i)]
    requires r[next..] == b[next..]
    requires Decode(r, Offset(0, slots, i)) == Some(s)
    requires !HeaderAt(b, next)
    ensures NoChain(r)
  {
    var p := Offset(0, slots, i);
    RunAround(Decode, b, slots, i);
    assert b[0..p] == b[..p] && r[0..p] == r[..p];
    DecodeSameInside(b, r, 0, p);
    RunThenSlot(Decode, b, r, slots[..i], s);
    forall c | IsChain(r, c)
      ensures false
    {
      RunPassesThrough(Decode, r, slots[..i] + [s], c);
      DecodedWellFormed(r, next);
    }
  }

  /**
   * kvstore_prepare: write a free slot whose padding covers the rest of the
   * backend, at offset 0; the result of that write is ignored and Ok is
   * reported.
   */
  ghost function PrepareSpec(b: seq<byte>): (r: WriteOutcome)
    requires |b| >= SlotSize(0, 0)
    ensures r.status == Ok && |r.bytes| == |b|
  {
    WriteOutcome(Ok, WriteSlotSpec(b, 0, None, 0, None, ValueSize(|b|, 0)).bytes)
  }

  /**
   * On a backend larger than 12 bytes, kvstore_prepare leaves a chain of one
   * free slot covering the whole backend, whose padding is the old contents.
   */
  lemma PrepareFormats(b: seq<byte>)
    requires SlotSize(0, 0) < |b| < SlotSize(0, FIELD_MODULUS)
    ensures IsChain(PrepareSpec(b).bytes, [Slot([], b[SlotSize(0, 0)..])])
  {
    var vs := ValueSize(|b|, 0);
    FreeWriteDecodes(b, 0, vs);
    var r := WriteImage(b, 0, None, 0, None, vs);
    assert PrepareSpec(b).bytes == r;
    assert b[0 + 12..0 + 12 + vs] == b[12..];
    RunOfOne(Decode, r, 0, Slot([], b[12..]));
  }

  /**
   * On a backend of exactly 12 bytes the free-slot write gets a zero value
   * size and is refused, yet kvstore_prepare reports Ok with nothing written.
   */
  lemma PrepareTwelve(b: seq<byte>)
    requires |b| == SlotSize(0, 0)
    ensures WriteSlotSpec(b, 0, None, 0, None, ValueSize(|b|, 0)).status == BadArg
    ensures PrepareSpec(b) == WriteOutcome(Ok, b)
  {
  }

  /**
   * The two writes of kvstore_put at the free slot the scan stopped at are
   * what PutSpec describes.
   */
  lemma PutSplits(b: seq<byte>, key: seq<byte>, value: seq<byte>, pos: nat, free: Slot,
                  first: seq<byte>, q: nat, rest: nat, second: seq<byte>)
    requires ValidArgs(key, value)
    requires Scan(Decode, b, 0, SlotSize(|key|, |value|)) == Split(pos, free)
    requires first == WriteSlotSpec(b, pos, Some(key), |key|, Some(value), |value|).bytes
    requires q == pos + SlotSize(|key|, |value|)
    requires rest == ValueSize(free.Size() - SlotSize(|key|, |value|), 0)
    requires second == WriteSlotSpec(first, q, None, 0, None, rest).bytes
    ensures PutSpec(b, key, value) == WriteOutcome(Ok, second)
  {
    PutSplitsAt(b, key, value, pos, free);
    SplitWriteIs(b, pos, key, value, free, first, q, rest);
  }

  /** The two writes that make up a split, with the first one's image and the second one's offset and size given. */
  lemma SplitWriteIs(b: seq<byte>, pos: nat, key: seq<byte>, value: seq<byte>, free: Slot,
                     first: seq<byte>, q: nat, rest: nat)
    requires free.Size() >= SlotSize(|key|, |value|) + SlotSize(0, 0)
    requires first == WriteSlotSpec(b, pos, Some(key), |key|, Some(value), |value|).bytes
    requires q == pos + SlotSize(|key|, |value|)
    requires rest == ValueSize(free.Size() - SlotSize(|key|, |value|), 0)
    ensures SplitWrite(b, pos, key, value, free) == WriteSlotSpec(first, q, None, 0, None, rest).bytes
  {
  }

  /** When the scan stops at a free slot that fits, kvstore_put's outcome is the split there. */
  lemma PutSplitsAt(b: seq<byte>, key: seq<byte>, value: seq<byte>, pos: nat, free: Slot)
    requires ValidArgs(key, value)
    requires Scan(Decode, b, 0, SlotSize(|key|, |value|)) == Split(pos, free)
    ensures PutSpec(b, key, value) == WriteOutcome(Ok, SplitWrite(b, pos, key, value, free))
  {
  }

  /**
   * What one read_slot of kvstore_put's loop (no buffers supplied) tells
   * about the scan from that offset: a failed read stops it, and a free slot
   * large enough is where it stops.
   */
  lemma ScanStep(b: seq<byte>, pos: nat, need: nat, st: Status, keySize: nat, valueSize: nat,
                 keyBytes: Option<seq<byte>>, valueBytes: Option<seq<byte>>)
    requires pos < |b|
    requires ReadOutcome(st, keySize, valueSize, keyBytes, valueBytes) == ReadSlotSpec(b, pos, false, 0, false, 0)
    ensures st != Ok ==> Scan(Decode, b, pos, need) == ScanFailed
    ensures st == Ok && keySize == 0 && SlotSize(keySize, valueSize) >= need + SlotSize(0, 0) ==>
              var r := Scan(Decode, b, pos, need);
              r.Split? && r.pos == pos && r.free.Size() == SlotSize(keySize, valueSize)
  {
    ReadSlotMatchesDecode(b, pos, false, 0, false, 0);
  }

  /** A used slot, or a free one too small, read at `pos` moves the scan to `next`, just past it. */
  lemma ScanStepOver(b: seq<byte>, pos: nat, need: nat, st: Status, keySize: nat, valueSize: nat,
                     keyBytes: Option<seq<byte>>, valueBytes: Option<seq<byte>>, next: nat)
    requires pos < |b|
    requires ReadOutcome(st, keySize, valueSize, keyBytes, valueBytes) == ReadSlotSpec(b, pos, false, 0, false, 0)
    requires st == Ok && (keySize > 0 || SlotSize(keySize, valueSize) < need + SlotSize(0, 0))
    requires next == pos + SlotSize(keySize, valueSize)
    ensures Scan(Decode, b, pos, need) == Scan(Decode, b, next, need)
  {
    ReadSlotMatchesDecode(b, pos, false, 0, false, 0);
    ScanSkips(Decode, b, pos, need, Decode(b, pos).value, next);
  }

  /** When the scan runs off the end, kvstore_put's outcome is that of its one write. */
  lemma PutRunsOff(b: seq<byte>, key: seq<byte>, value: seq<byte>, pos: nat, w: WriteOutcome)
    requires ValidArgs(key, value)
    requires Scan(Decode, b, 0, SlotSize(|key|, |value|)) == ScanEnd(pos)
    requires w == WriteSlotSpec(b, pos, Some(key), |key|, Some(value), |value|)
    ensures PutSpec(b, key, value) == if w.status != Ok then WriteOutcome(NotFound, b) else WriteOutcome(Ok, w.bytes)
  {
  }
}
