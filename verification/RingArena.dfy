/** The byte arena of apps/vcar_sys_ringqueue/vcar_sys_ringqueue.c: where the payloads of the
    queued items lie, and what one round of the `CHECK_MEM` loop does to them. */
module RingArena {
  import opened Bytes

  /** A 32-bit reader mask, as the set of the positions of its set bits. */
  type Mask = set<nat>

  /** `VCAR_SYS_RingQueueItemInfo`; `data` is an offset into the arena, negative before first use. */
  datatype Item = Item(mask: Mask, valid: bool, header: seq<Byte>, data: int, dataLen: int)

  /** The live items, oldest first, and the write window `[wrPos, wrEnd)`. The first `split` items
      are left over from before the last wrap and lie above the window. */
  datatype Arena = Arena(size: nat, blocks: seq<Item>, split: nat, wrPos: int, wrEnd: int)

  /** The blocks follow each other without gaps from `lo` to `hi`, none of them empty. */
  ghost predicate Chain(bs: seq<Item>, lo: int, hi: int) {
    if bs == [] then lo == hi
    else bs[0].data == lo && 0 < bs[0].dataLen && Chain(bs[1..], lo + bs[0].dataLen, hi)
  }

  function End(b: Item): int {
    b.data + b.dataLen
  }

  lemma {:induction false} ChainBounds(bs: seq<Item>, lo: int, hi: int)
    requires Chain(bs, lo, hi)
    ensures lo <= hi && (bs != [] ==> lo < hi && End(bs[|bs| - 1]) == hi)
    ensures forall i :: 0 <= i < |bs| ==> lo <= bs[i].data < End(bs[i]) <= hi
    ensures forall i, j :: 0 <= i < j < |bs| ==> End(bs[i]) <= bs[j].data
    decreases bs
  {
    if bs != [] {
      ChainBounds(bs[1..], lo + bs[0].dataLen, hi);
      assert forall i :: 1 <= i < |bs| ==> bs[i] == bs[1..][i - 1];
    }
  }

  lemma {:induction false} ChainAppend(bs: seq<Item>, lo: int, hi: int, b: Item)
    requires Chain(bs, lo, hi) && b.data == hi && 0 < b.dataLen
    ensures Chain(bs + [b], lo, End(b))
    decreases bs
  {
    if bs == [] {
      assert (bs + [b])[1..] == [];
    } else {
      ChainAppend(bs[1..], lo + bs[0].dataLen, hi, b);
      assert (bs + [b])[1..] == bs[1..] + [b];
    }
  }

  lemma {:induction false} ChainTail(bs: seq<Item>, lo: int, hi: int)
    requires Chain(bs, lo, hi) && bs != []
    ensures Chain(bs[1..], End(bs[0]), hi)
    ensures |bs| > 1 ==> bs[1].data == End(bs[0])
  {
    if |bs| > 1 {
      assert bs[1..][0] == bs[1];
    }
  }

  /** Live blocks never overlap and never leave the arena. */
  ghost predicate Separate(a: Arena) {
    && (forall i :: 0 <= i < |a.blocks| ==> 0 <= a.blocks[i].data < End(a.blocks[i]) <= a.size)
    && (forall i, j :: 0 <= i < j < |a.blocks| ==>
          End(a.blocks[i]) <= a.blocks[j].data || End(a.blocks[j]) <= a.blocks[i].data)
  }

  /** The write window holds no byte of a live block. */
  ghost predicate WindowFree(a: Arena) {
    forall i :: 0 <= i < |a.blocks| ==> End(a.blocks[i]) <= a.wrPos || a.wrEnd <= a.blocks[i].data
  }

  /** Not wrapped, the blocks end at the write position; wrapped, the old ones lie above the window and the
      recent ones go from the start of the arena up to the write position. */
  ghost predicate Layout(a: Arena) {
    && a.split <= |a.blocks| && 0 <= a.wrPos <= a.wrEnd <= a.size
    && if a.split == 0 then
         a.blocks != [] ==> 0 <= a.blocks[0].data && Chain(a.blocks, a.blocks[0].data, a.wrPos)
       else
         var e := End(a.blocks[a.split - 1]);
         && Chain(a.blocks[..a.split], a.blocks[0].data, e) && Chain(a.blocks[a.split..], 0, a.wrPos)
         && a.wrEnd <= a.blocks[0].data && e <= a.size
  }

  lemma {:induction false} LayoutSeparate(a: Arena)
    requires Layout(a)
    ensures Separate(a) && WindowFree(a)
  {
    if a.split > 0 {
      WrappedSeparate(a);
    } else if a.blocks != [] {
      ChainBounds(a.blocks, a.blocks[0].data, a.wrPos);
    }
  }

  lemma {:induction false} BlockInBounds(a: Arena, k: nat)
    requires Layout(a) && k < |a.blocks|
    ensures 0 <= a.blocks[k].data < End(a.blocks[k]) <= a.size
  {
    LayoutSeparate(a);
  }

  lemma {:induction false} WrappedSeparate(a: Arena)
    requires Layout(a) && a.split > 0
    ensures Separate(a) && WindowFree(a)
  {
    var o, n, s := a.blocks[..a.split], a.blocks[a.split..], a.split;
    ChainBounds(o, a.blocks[0].data, End(a.blocks[s - 1]));
    ChainBounds(n, 0, a.wrPos);
    forall i | 0 <= i < |a.blocks|
      ensures 0 <= a.blocks[i].data < End(a.blocks[i]) <= a.size
      ensures if i < s then a.wrEnd <= a.blocks[i].data else End(a.blocks[i]) <= a.wrPos
    {
      assert a.blocks[i] == if i < s then o[i] else n[i - s];
    }
    forall i, j | 0 <= i < j < |a.blocks|
      ensures End(a.blocks[i]) <= a.blocks[j].data || End(a.blocks[j]) <= a.blocks[i].data
    {
      if j < s {
        assert a.blocks[i] == o[i] && a.blocks[j] == o[j];
      } else if i >= s {
        assert a.blocks[i] == n[i - s] && a.blocks[j] == n[j - s];
      }
    }
  }

  // ----- what a round does -----

  /** `moveItemHeader`: the oldest item goes. */
  function Evicted(a: Arena): Arena
    requires a.blocks != []
  {
    a.(blocks := a.blocks[1..], split := if a.split == 0 then 0 else a.split - 1)
  }

  /** The oldest item goes and the window grows up to its end. */
  function Reclaimed(a: Arena): Arena
    requires a.blocks != []
  {
    Evicted(a).(wrEnd := End(a.blocks[0]))
  }

  /** The window jumps to the start of the arena; all remaining items are old. */
  function Wrapped(a: Arena): Arena
    requires a.blocks != []
  {
    a.(blocks := a.blocks[1..], split := |a.blocks| - 1, wrPos := 0, wrEnd := End(a.blocks[0]))
  }

  /** `setItemTail` */
  function Appended(a: Arena, b: Item): Arena {
    a.(blocks := a.blocks + [b], wrPos := a.wrPos + b.dataLen)
  }

  lemma {:induction false} EvictedLayout(a: Arena)
    requires Layout(a) && a.blocks != []
    ensures Layout(Evicted(a))
  {
    var b := Evicted(a);
    if a.split == 0 {
      ChainBounds(a.blocks, a.blocks[0].data, a.wrPos);
      assert b.blocks != [] ==> b.blocks[0] == a.blocks[1] && Chain(b.blocks, End(a.blocks[0]), a.wrPos);
    } else {
      var o := a.blocks[..a.split];
      ChainBounds(o, a.blocks[0].data, End(a.blocks[a.split - 1]));
      ChainTail(o, a.blocks[0].data, End(a.blocks[a.split - 1]));
      assert b.blocks[..b.split] == o[1..] && b.blocks[b.split..] == a.blocks[a.split..];
      if b.split == 0 {
        assert b.blocks == a.blocks[a.split..];
      } else {
        assert b.blocks[0] == o[1] && b.blocks[b.split - 1] == a.blocks[a.split - 1];
      }
    }
  }

  /** Reclaiming inside the old part. */
  lemma {:induction false} ReclaimedLayout(a: Arena)
    requires Layout(a) && a.split > 0
    ensures Layout(Reclaimed(a))
  {
    var b := Reclaimed(a);
    var o, n := a.blocks[..a.split], a.blocks[a.split..];
    ChainBounds(o, a.blocks[0].data, End(a.blocks[a.split - 1]));
    ChainBounds(n, 0, a.wrPos);
    ChainTail(o, a.blocks[0].data, End(a.blocks[a.split - 1]));
    assert o[0] == a.blocks[0];
    assert b.blocks[..b.split] == o[1..] && b.blocks[b.split..] == n;
    if b.split == 0 {
      assert b.blocks == n;
    } else {
      assert b.blocks[0] == o[1] && b.blocks[b.split - 1] == a.blocks[a.split - 1];
    }
  }

  lemma {:induction false} WrappedLayout(a: Arena)
    requires Layout(a) && a.split == 0 && a.blocks != []
    ensures Layout(Wrapped(a))
  {
    var b := Wrapped(a);
    ChainBounds(a.blocks, a.blocks[0].data, a.wrPos);
    ChainTail(a.blocks, a.blocks[0].data, a.wrPos);
    assert b.blocks[..b.split] == a.blocks[1..] && b.blocks[b.split..] == [];
    if b.blocks != [] {
      assert b.blocks[0] == a.blocks[1];
      assert End(b.blocks[|b.blocks| - 1]) == a.wrPos;
    }
  }

  lemma {:induction false} AppendedLayout(a: Arena, b: Item)
    requires Layout(a) && b.data == a.wrPos && 0 < b.dataLen <= a.wrEnd - a.wrPos
    ensures Layout(Appended(a, b))
  {
    var c := Appended(a, b);
    if a.split == 0 {
      if a.blocks == [] {
        assert c.blocks == [b] && b == c.blocks[0] && c.blocks[1..] == [];
      } else {
        ChainAppend(a.blocks, a.blocks[0].data, a.wrPos, b);
      }
    } else {
      ChainAppend(a.blocks[a.split..], 0, a.wrPos, b);
      assert c.blocks[..a.split] == a.blocks[..a.split];
      assert c.blocks[a.split..] == a.blocks[a.split..] + [b];
    }
  }

  /** The test `wrPos > head->data` tells the two layouts apart. */
  lemma {:induction false} WhichLayout(a: Arena)
    requires Layout(a) && a.blocks != []
    ensures a.wrPos > a.blocks[0].data <==> a.split == 0
  {
    if a.split == 0 {
      ChainBounds(a.blocks, a.blocks[0].data, a.wrPos);
    }
  }

  // ----- what can be written -----

  /** Room for `len` bytes can be made without going past the newest item: it ends high enough, or there is
      enough behind it. */
  ghost predicate CanTake(a: Arena, len: int) {
    if a.blocks == [] then len <= a.wrEnd - a.wrPos
    else len <= End(a.blocks[|a.blocks| - 1]) || (a.wrPos > 0 && len <= a.size - a.wrPos)
  }

  /** A reader pins one of the items. */
  ghost predicate Pins(a: Arena) {
    exists i :: 0 <= i < |a.blocks| && a.blocks[i].mask != {}
  }

  /** The old items reach past the middle of the arena. */
  ghost predicate Roomy(a: Arena) {
    a.split > 0 && a.split <= |a.blocks| ==> a.size < 2 * End(a.blocks[a.split - 1])
  }

  /** A write of `len` bytes comes to an end before the items do; it is sound if it gets its room. */
  ghost predicate Fit(a: Arena, len: int, sound: bool) {
    (CanTake(a, len) || Pins(a)) && (sound ==> CanTake(a, len) && Roomy(a))
  }

  /** In a roomy arena there is always room for half of it. */
  lemma {:induction false} HalfFits(a: Arena, len: int)
    requires Layout(a) && Roomy(a) && 2 * len <= a.size && (a.blocks == [] ==> a.wrEnd - a.wrPos == a.size)
    ensures CanTake(a, len)
  {
    if a.blocks != [] {
      NewestEnds(a);
    }
  }

  /** The newest item ends at the write position, or everything is old. */
  lemma {:induction false} NewestEnds(a: Arena)
    requires Layout(a) && a.blocks != []
    ensures var b := a.blocks[|a.blocks| - 1];
      && 0 <= b.data < End(b) && (if a.wrPos == 0 then a.split == |a.blocks| else End(b) == a.wrPos)
  {
    if a.split == 0 {
      ChainBounds(a.blocks, a.blocks[0].data, a.wrPos);
    } else if a.split < |a.blocks| {
      var recent := a.blocks[a.split..];
      ChainBounds(recent, 0, a.wrPos);
      assert recent[|recent| - 1] == a.blocks[|a.blocks| - 1];
    } else {
      BlockInBounds(a, |a.blocks| - 1);
      assert a.blocks[a.split..] == [];
    }
  }

  /** The other items stay pinned when an item goes that nobody pins. */
  lemma {:induction false} PinsLeft(a: Arena, b: Arena)
    requires a.blocks != [] && a.blocks[0].mask == {} && b.blocks == a.blocks[1..] && Pins(a)
    ensures Pins(b)
  {
    var i :| 0 <= i < |a.blocks| && a.blocks[i].mask != {};
    assert b.blocks[i - 1] == a.blocks[i];
  }

  lemma {:induction false} EvictedFit(a: Arena, len: int, sound: bool)
    requires Layout(a) && |a.blocks| > 1 && a.blocks[0].mask == {} && Fit(a, len, sound)
    ensures Fit(Evicted(a), len, sound)
  {
    if Pins(a) {
      PinsLeft(a, Evicted(a));
    }
  }

  lemma {:induction false} AppendedRoomy(a: Arena, b: Item)
    requires a.split <= |a.blocks|
    ensures Roomy(a) ==> Roomy(Appended(a, b))
  {
  }

  lemma {:induction false} ReclaimedFit(a: Arena, len: int, sound: bool)
    requires Layout(a) && a.split > 0 && a.blocks[0].mask == {} && Fit(a, len, sound)
    ensures Fit(Reclaimed(a), len, sound)
  {
    NewestEnds(a);
    if Pins(a) {
      PinsLeft(a, Reclaimed(a));
    }
  }

  /** Wrapping is sound: there is room only if the write position is past the middle. */
  lemma {:induction false} WrappedFit(a: Arena, len: int, sound: bool)
    requires Layout(a) && a.split == 0 && a.blocks != [] && a.blocks[0].mask == {} && Fit(a, len, sound)
    requires a.size - a.wrPos < len
    ensures Fit(Wrapped(a), len, sound)
  {
    NewestEnds(a);
    if Pins(a) {
      PinsLeft(a, Wrapped(a));
    }
  }
}
