/**
 * The backend as a chain of slots laid back to back from offset 0 with no
 * gaps, the last one ending exactly at the backend size.
 *
 * The facts about lists of slots are stated for any slot reader; the store
 * itself always reads with `Decode`.
 */
module SlotChain {
  import opened KvTypes
  import opened SlotCodec

  /** Reads the slot stored at a position of the backend, if there is one. */
  type Reader = (seq<byte>, nat) -> Option<Slot>

  /** Sum of the sizes of a list of slots. */
  function TotalSize(slots: seq<Slot>): nat {
    if slots == [] then 0 else slots[0].Size() + TotalSize(slots[1..])
  }

  /** Offset of slot `i` of a run that starts at `pos`. */
  function Offset(pos: nat, slots: seq<Slot>, i: nat): nat
    requires i <= |slots|
  {
    pos + TotalSize(slots[..i])
  }

  /** `read` finds `slots` one after the other from `pos` on (not necessarily up to the end). */
  ghost predicate Run(read: Reader, b: seq<byte>, pos: nat, slots: seq<Slot>)
    decreases |slots|
  {
    slots == [] || (read(b, pos) == Some(slots[0]) && Run(read, b, pos + slots[0].Size(), slots[1..]))
  }

  /** The whole backend is the gapless chain `slots`. */
  ghost predicate IsChain(b: seq<byte>, slots: seq<Slot>) {
    Run(Decode, b, 0, slots) && TotalSize(slots) == |b|
  }

  /** No gapless chain of slots covers the backend: it is not a store any more. */
  ghost predicate NoChain(b: seq<byte>) {
    forall slots :: !IsChain(b, slots)
  }

  /** Sizes add up over concatenation. */
  lemma {:induction false} TotalSizeAppend(a: seq<Slot>, c: seq<Slot>)
    ensures TotalSize(a + c) == TotalSize(a) + TotalSize(c)
  {
    if a == [] {
      assert a + c == c;
    } else {
      assert (a + c)[1..] == a[1..] + c;
      TotalSizeAppend(a[1..], c);
    }
  }

  /** A run of `a + c` is a run of `a` followed by a run of `c`. */
  lemma {:induction false} RunAppend(read: Reader, b: seq<byte>, pos: nat, a: seq<Slot>, c: seq<Slot>)
    ensures Run(read, b, pos, a + c) <==> Run(read, b, pos, a) && Run(read, b, pos + TotalSize(a), c)
    decreases |a|
  {
    if a == [] {
      assert a + c == c;
    } else {
      assert (a + c)[0] == a[0];
      assert (a + c)[1..] == a[1..] + c;
      RunAppend(read, b, pos + a[0].Size(), a[1..], c);
    }
  }

  /**
   * Reading is deterministic, so a run is a prefix of every run from the
   * same position that reaches at least as far.
   */
  lemma {:induction false} RunPrefix(read: Reader, b: seq<byte>, pos: nat, a: seq<Slot>, c: seq<Slot>)
    requires Run(read, b, pos, a) && Run(read, b, pos, c)
    requires TotalSize(a) <= TotalSize(c)
    ensures |a| <= |c| && a == c[..|a|]
    decreases |a|
  {
    if a != [] {
      RunPrefix(read, b, pos + a[0].Size(), a[1..], c[1..]);
      assert a == [a[0]] + a[1..];
      assert c[..|a|] == [c[0]] + c[1..][..|a| - 1];
    }
  }

  /** A backend holds at most one chain. */
  lemma ChainUnique(b: seq<byte>, a: seq<Slot>, c: seq<Slot>)
    requires IsChain(b, a) && IsChain(b, c)
    ensures a == c
  {
    RunPrefix(Decode, b, 0, a, c);
    RunPrefix(Decode, b, 0, c, a);
  }

  /**
   * The slot `i` of a run is read at its offset, and what follows it is a
   * run from the end of that slot.
   */
  lemma RunAt(read: Reader, b: seq<byte>, pos: nat, slots: seq<Slot>, i: nat)
    requires Run(read, b, pos, slots) && i < |slots|
    ensures read(b, Offset(pos, slots, i)) == Some(slots[i])
    ensures Run(read, b, Offset(pos, slots, i) + slots[i].Size(), slots[i + 1..])
    ensures Offset(pos, slots, i + 1) == Offset(pos, slots, i) + slots[i].Size()
  {
    var a, c := slots[..i], slots[i..];
    assert slots == a + c;
    RunSplit(read, b, pos, a, c);
    assert c[1..] == slots[i + 1..];
    assert slots[..i + 1] == a + [slots[i]];
    TotalSizeAppend(a, [slots[i]]);
  }

  /** A run depends only on what `read` sees at the slots' offsets. */
  lemma {:induction false} RunTransfer(read: Reader, b: seq<byte>, c: seq<byte>, pos: nat, slots: seq<Slot>)
    requires Run(read, b, pos, slots)
    requires forall i :: 0 <= i < |slots| ==> read(c, Offset(pos, slots, i)) == read(b, Offset(pos, slots, i))
    ensures Run(read, c, pos, slots)
    decreases |slots|
  {
    if slots != [] {
      var n := slots[0].Size();
      assert Offset(pos, slots, 0) == pos by {
        assert slots[..0] == [];
      }
      var q, rest := pos + n, slots[1..];
      forall i | 0 <= i < |rest|
        ensures read(c, Offset(q, rest, i)) == read(b, Offset(q, rest, i))
      {
        assert slots[..i + 1] == [slots[0]] + rest[..i];
        assert Offset(q, rest, i) == Offset(pos, slots, i + 1);
      }
      RunTransfer(read, b, c, q, rest);
    }
  }

  /** Every slot of a list lies inside the bytes the list covers. */
  lemma SlotInside(pos: nat, slots: seq<Slot>, i: nat)
    requires i < |slots|
    ensures pos <= Offset(pos, slots, i)
    ensures Offset(pos, slots, i) + slots[i].Size() <= pos + TotalSize(slots)
  {
    var a, c := slots[..i], slots[i..];
    assert slots == a + c;
    TotalSizeAppend(a, c);
    assert TotalSize(c) == slots[i].Size() + TotalSize(c[1..]);
  }

  /** Every slot `read` finds inside `[lo, hi)` of `b` is found the same in `c`. */
  ghost predicate SameInside(read: Reader, b: seq<byte>, c: seq<byte>, lo: nat, hi: nat) {
    forall q :: lo <= q && read(b, q).Some? && q + read(b, q).value.Size() <= hi ==> read(c, q) == read(b, q)
  }

  /** Decoding sees only the bytes of the slot itself. */
  lemma DecodeSameInside(b: seq<byte>, c: seq<byte>, lo: nat, hi: nat)
    requires lo <= hi <= |b| && hi <= |c| && b[lo..hi] == c[lo..hi]
    ensures SameInside(Decode, b, c, lo, hi)
  {
    forall q | lo <= q && Decode(b, q).Some? && q + Decode(b, q).value.Size() <= hi
      ensures Decode(c, q) == Decode(b, q)
    {
      SlotLocal(b, c, lo, hi, q, Decode(b, q).value);
    }
  }

  /** A run survives any change outside the bytes it covers. */
  lemma RunLocal(read: Reader, b: seq<byte>, c: seq<byte>, pos: nat, slots: seq<Slot>)
    requires Run(read, b, pos, slots)
    requires SameInside(read, b, c, pos, pos + TotalSize(slots))
    ensures Run(read, c, pos, slots)
  {
    forall i | 0 <= i < |slots|
      ensures read(c, Offset(pos, slots, i)) == read(b, Offset(pos, slots, i))
    {
      SlotInside(pos, slots, i);
      RunAt(read, b, pos, slots, i);
    }
    RunTransfer(read, b, c, pos, slots);
  }

  /** A slot read at `pos` is a run on its own. */
  lemma RunOfOne(read: Reader, b: seq<byte>, pos: nat, x: Slot)
    requires read(b, pos) == Some(x)
    ensures Run(read, b, pos, [x]) && TotalSize([x]) == x.Size()
  {
    assert [x][1..] == [];
  }

  /** Two slots read one after the other form a run. */
  lemma RunOfTwo(read: Reader, b: seq<byte>, pos: nat, x: Slot, next: nat, y: Slot)
    requires read(b, pos) == Some(x) && next == pos + x.Size() && read(b, next) == Some(y)
    ensures Run(read, b, pos, [x, y]) && TotalSize([x, y]) == x.Size() + y.Size()
  {
    assert [x, y][1..] == [y];
    assert [y][1..] == [];
    assert TotalSize([y]) == y.Size();
  }

  /** A run splits around its slot `i` into a run before it and a run after it. */
  lemma RunAround(read: Reader, b: seq<byte>, slots: seq<Slot>, i: nat)
    requires Run(read, b, 0, slots) && i < |slots|
    ensures var p := Offset(0, slots, i);
            && Run(read, b, 0, slots[..i]) && TotalSize(slots[..i]) == p
            && Run(read, b, p + slots[i].Size(), slots[i + 1..])
            && p + slots[i].Size() + TotalSize(slots[i + 1..]) == TotalSize(slots)
  {
    var pre, post := slots[..i], slots[i + 1..];
    RunAt(read, b, 0, slots, i);
    assert slots == pre + slots[i..];
    RunSplit(read, b, 0, pre, slots[i..]);
    assert slots == pre + [slots[i]] + post;
    TotalSizeAppend(pre + [slots[i]], post);
    TotalSizeAppend(pre, [slots[i]]);
  }

  /**
   * Replacing slot `i` of a run by slots `mid` of the same total size that
   * `read` finds in `r` at its offset, where `r` reads the same as `b`
   * before and after that slot, gives a run in `r` of the same total size.
   */
  lemma RunReplace(read: Reader, b: seq<byte>, r: seq<byte>, slots: seq<Slot>, i: nat, mid: seq<Slot>)
    requires Run(read, b, 0, slots) && i < |slots|
    requires SameInside(read, b, r, 0, Offset(0, slots, i))
    requires SameInside(read, b, r, Offset(0, slots, i) + slots[i].Size(), TotalSize(slots))
    requires Run(read, r, Offset(0, slots, i), mid) && TotalSize(mid) == slots[i].Size()
    ensures Run(read, r, 0, slots[..i] + mid + slots[i + 1..])
    ensures TotalSize(slots[..i] + mid + slots[i + 1..]) == TotalSize(slots)
  {
    RunAround(read, b, slots, i);
    RunLocal(read, b, r, 0, slots[..i]);
    RunLocal(read, b, r, Offset(0, slots, i) + slots[i].Size(), slots[i + 1..]);
    JoinRuns(read, r, slots[..i], mid, slots[i + 1..]);
  }

  /** Three runs laid back to back are one run. */
  lemma JoinRuns(read: Reader, r: seq<byte>, pre: seq<Slot>, mid: seq<Slot>, post: seq<Slot>)
    requires Run(read, r, 0, pre)
    requires Run(read, r, TotalSize(pre), mid)
    requires Run(read, r, TotalSize(pre) + TotalSize(mid), post)
    ensures Run(read, r, 0, pre + mid + post)
    ensures TotalSize(pre + mid + post) == TotalSize(pre) + TotalSize(mid) + TotalSize(post)
  {
    var tail := mid + post;
    RunJoin(read, r, TotalSize(pre), mid, post);
    RunJoin(read, r, 0, pre, tail);
    assert pre + mid + post == pre + tail;
    TotalSizeAppend(pre, tail);
    TotalSizeAppend(mid, post);
  }

  /** Two runs laid back to back are one run. */
  lemma RunJoin(read: Reader, b: seq<byte>, pos: nat, a: seq<Slot>, c: seq<Slot>)
    requires Run(read, b, pos, a) && Run(read, b, pos + TotalSize(a), c)
    ensures Run(read, b, pos, a + c)
  {
    RunAppend(read, b, pos, a, c);
  }

  /** A run of `a + c` starts with a run of `a`, followed by a run of `c`. */
  lemma RunSplit(read: Reader, b: seq<byte>, pos: nat, a: seq<Slot>, c: seq<Slot>)
    requires Run(read, b, pos, a + c)
    ensures Run(read, b, pos, a) && Run(read, b, pos + TotalSize(a), c)
  {
    RunAppend(read, b, pos, a, c);
  }

  /**
   * Rewriting the bytes of slot `i` of a chain so that they hold a run of
   * slots `mid` of the same total size, and nothing outside them, gives the
   * chain with slot `i` replaced by `mid`.
   */
  lemma ChainReplace(b: seq<byte>, r: seq<byte>, slots: seq<Slot>, i: nat, mid: seq<Slot>)
    requires IsChain(b, slots) && i < |slots| && |r| == |b|
    requires Offset(0, slots, i) + slots[i].Size() <= |b|
    requires r[..Offset(0, slots, i)] == b[..Offset(0, slots, i)]
    requires r[Offset(0, slots, i) + slots[i].Size()..] == b[Offset(0, slots, i) + slots[i].Size()..]
    requires Run(Decode, r, Offset(0, slots, i), mid) && TotalSize(mid) == slots[i].Size()
    ensures IsChain(r, slots[..i] + mid + slots[i + 1..])
  {
    var p := Offset(0, slots, i);
    var end := p + slots[i].Size();
    assert b[0..p] == b[..p] && r[0..p] == r[..p];
    DecodeSameInside(b, r, 0, p);
    assert b[end..|b|] == b[end..] && r[end..|b|] == r[end..];
    DecodeSameInside(b, r, end, |b|);
    RunReplace(Decode, b, r, slots, i, mid);
  }

  /**
   * Every run from the same position that reaches further than `a` passes
   * through the end of `a`: `read` finds a slot there.
   */
  lemma RunPassesThrough(read: Reader, b: seq<byte>, a: seq<Slot>, c: seq<Slot>)
    requires Run(read, b, 0, a) && Run(read, b, 0, c) && TotalSize(a) < TotalSize(c)
    ensures read(b, TotalSize(a)).Some?
  {
    RunPrefix(read, b, 0, a, c);
    assert a != c;
    RunAt(read, b, 0, c, |a|);
  }

  /**
   * A run from offset 0 followed by one more slot `s` that `read` finds in
   * `r` is a run in `r` when `r` reads the same as `b` up to that slot.
   */
  lemma RunThenSlot(read: Reader, b: seq<byte>, r: seq<byte>, pre: seq<Slot>, s: Slot)
    requires Run(read, b, 0, pre) && SameInside(read, b, r, 0, TotalSize(pre))
    requires read(r, TotalSize(pre)) == Some(s)
    ensures Run(read, r, 0, pre + [s]) && TotalSize(pre + [s]) == TotalSize(pre) + s.Size()
  {
    RunLocal(read, b, r, 0, pre);
    assert [s][1..] == [];
    RunJoin(read, r, 0, pre, [s]);
    TotalSizeAppend(pre, [s]);
  }
}
