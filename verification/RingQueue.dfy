/** The overwriting ring queue of apps/vcar_sys_ringqueue/vcar_sys_ringqueue.c.
    A predicate compared with `true` in a contract is proved as one fact, not conjunct by conjunct. */
module RingQueue {
  import opened Basics
  import opened Bytes
  import opened RingArena
  import opened RingSpec
  import RingRound

  function EntryOf(b: Item, m: seq<Byte>): Entry {
    Entry(if 0 <= b.data <= End(b) <= |m| then m[b.data..End(b)] else [], b.header, b.mask)
  }

  function Entries(bs: seq<Item>, m: seq<Byte>): seq<Entry> {
    seq(|bs|, i requires 0 <= i < |bs| => EntryOf(bs[i], m))
  }

  /** `memcpy` into the arena. */
  method CopyInto(mem: array<Byte>, at: nat, bytes: seq<Byte>)
    requires at + |bytes| <= mem.Length
    modifies mem
    ensures mem[at..at + |bytes|] == bytes
    ensures mem[..at] == old(mem[..at]) && mem[at + |bytes|..] == old(mem[at + |bytes|..])
  {
    for i := 0 to |bytes|
      invariant mem[at..at + i] == bytes[..i]
      invariant mem[..at] == old(mem[..at]) && mem[at + |bytes|..] == old(mem[at + |bytes|..])
    {
      mem[at + i] := bytes[i];
      assert mem[at..at + i + 1] == mem[at..at + i] + [bytes[i]];
    }
  }

  lemma {:induction false} SliceAway(m: seq<Byte>, m': seq<Byte>, at: nat, n: nat, lo: nat, hi: nat)
    requires |m| == |m'| && at + n <= |m| && lo <= hi <= |m|
    requires m[..at] == m'[..at] && m[at + n..] == m'[at + n..]
    requires hi <= at || at + n <= lo
    ensures m[lo..hi] == m'[lo..hi]
  {
    forall i | lo <= i < hi ensures m[i] == m'[i] {
      if i < at {
        assert m[..at][i] == m'[..at][i];
      } else {
        assert m[at + n..][i - at - n] == m'[at + n..][i - at - n];
      }
    }
  }

  /** A copy into the window changes no live entry. */
  lemma {:induction false} EntriesKept(a: Arena, m: seq<Byte>, m': seq<Byte>, n: nat)
    requires Layout(a) && |m| == |m'| == a.size && n <= a.wrEnd - a.wrPos
    requires m[..a.wrPos] == m'[..a.wrPos] && m[a.wrPos + n..] == m'[a.wrPos + n..]
    ensures Entries(a.blocks, m) == Entries(a.blocks, m')
  {
    LayoutSeparate(a);
    forall i | 0 <= i < |a.blocks| ensures EntryOf(a.blocks[i], m) == EntryOf(a.blocks[i], m') {
      SliceAway(m, m', a.wrPos, n, a.blocks[i].data, End(a.blocks[i]));
    }
  }

  /** Storing a block at the write position keeps all live entries and adds the new one. */
  lemma {:induction false} EntriesStored(a: Arena, b: Item, m: seq<Byte>, m': seq<Byte>)
    requires Layout(a) && b.data == a.wrPos && 0 < b.dataLen <= a.wrEnd - a.wrPos
    requires |m| == |m'| == a.size && m[..b.data] == m'[..b.data] && m[End(b)..] == m'[End(b)..]
    ensures Layout(Appended(a, b))
    ensures Entries(a.blocks + [b], m') == Entries(a.blocks, m) + [Entry(m'[b.data..End(b)], b.header, b.mask)]
  {
    AppendedLayout(a, b);
    EntriesKept(a, m, m', b.dataLen);
    assert Entries(a.blocks + [b], m') == Entries(a.blocks, m') + [EntryOf(b, m')];
  }

  lemma {:induction false} EntriesTail(bs: seq<Item>, m: seq<Byte>)
    requires bs != []
    ensures Entries(bs[1..], m) == Entries(bs, m)[1..]
  {
  }

  /** A method returns what a round says and leaves the fields so. */
  ghost predicate Does(o: RingRound.Outcome, ret: int, now: RingRound.Fields) {
    match o
    case Accept(f) => ret == OK && now == f
    case Full(f) => ret == ERR_FULL && now == f
    case Retry(f) => ret == ERR_AGAIN && now == f
  }

  lemma {:induction false} LeavesInArena(f: RingRound.Fields, r: RingRound.Request, memSize: nat, ret: int,
      now: RingRound.Fields)
    requires RingRound.InRange(f) && RingRound.InArena(f.items, memSize) == true && 0 <= r.len
    requires RingRound.Free(f) == f.wrEnd - f.wrPos && f.wrEnd <= memSize
    requires Does(RingRound.Round(f, r, memSize), ret, now) == true
    ensures RingRound.InArena(now.items, memSize) == true
  {
    RingRound.RoundInArena(f, r, memSize);
  }

  /** All slots are taken and the oldest item is pinned. */
  ghost predicate Blocked(f: RingRound.Fields) {
    RingRound.InRange(f) && NextSlot(f.tail, |f.items|) == f.head && f.items[f.head].mask != {}
  }

  /** There is a free slot, if need be made by dropping the oldest item. */
  ghost predicate SlotMade(f: RingRound.Fields, g: RingRound.Fields) {
    && RingRound.InRange(f) && RingRound.InRange(g) && !Blocked(f)
    && g == if NextSlot(f.tail, |f.items|) == f.head then RingRound.Moved(f) else f
  }

  /** A round ends at the slots, or it is what its second half is. */
  lemma {:induction false} WholeRound(f: RingRound.Fields, g: RingRound.Fields, r: RingRound.Request, memSize: nat,
      fits: bool, ret: int, now: RingRound.Fields)
    requires SlotMade(f, g) == true && fits == (RingRound.Free(f) >= r.len)
    requires Does(if fits then RingRound.Accept(RingRound.Stored(g, r)) else RingRound.Widened(g, memSize), ret, now)
    ensures Does(RingRound.Round(f, r, memSize), ret, now) == true
  {
  }

  lemma {:induction false} BlockedRound(f: RingRound.Fields, r: RingRound.Request, memSize: nat)
    requires Blocked(f) == true
    ensures Does(RingRound.Round(f, r, memSize), ERR_FULL, f) == true
  {
  }

  /** The oldest entry goes, which is that of an item nobody pins. */
  lemma {:induction false} DropOne(q: Queue, b: Item)
    requires q.entries != [] && q.entries[0].mask == b.mask == {}
    ensures Dropped(q, q.(evicted := q.evicted + 1, entries := q.entries[1..]), 1)
  {
  }

  /** Head, tail and the `n` item slots hold exactly `blocks`, the first of which is number `evicted`. */
  ghost predicate SlotsHold(items: seq<Item>, head: nat, tail: nat, evicted: nat, n: nat, blocks: seq<Item>) {
    && 2 <= n == |items| && |blocks| < n
    && head == Slot(evicted, n) && tail == Slot(evicted + |blocks|, n)
    && (forall i :: evicted <= i < evicted + |blocks| ==>
        items[Slot(i, n)] == blocks[i - evicted] && items[Slot(i, n)].valid)
    && (forall i :: evicted + |blocks| <= i < evicted + n ==> !items[Slot(i, n)].valid)
  }

  /** The first block goes: its slot becomes invalid and the head moves on. */
  lemma {:induction false} SlotsMoved(items: seq<Item>, head: nat, tail: nat, evicted: nat, n: nat, blocks: seq<Item>)
    requires SlotsHold(items, head, tail, evicted, n, blocks) && blocks != []
    ensures SlotsHold(items[head := items[head].(valid := false)], NextSlot(head, n), tail, evicted + 1, n, blocks[1..])
  {
    SlotNext(evicted, n);
    OthersDiffer(evicted, evicted, n);
  }

  class RingQueue {
    const queueSize: nat
    const mem: array<Byte>
    var items: seq<Item>
    var head: nat
    var tail: nat
    var wrPos: int
    var wrEnd: int
    var userMask: Mask
    ghost var evicted: nat
    ghost var arena: Arena
    ghost var queue: Queue  // what callers see

    ghost predicate Slots(blocks: seq<Item>)
      reads `items, `head, `tail, `evicted
    {
      SlotsHold(items, head, tail, evicted, queueSize, blocks)
    }

    ghost function Now(): RingRound.Fields
      reads `items, `head, `tail, `wrPos, `wrEnd
    {
      RingRound.Fields(items, head, tail, wrPos, wrEnd)
    }

    ghost predicate Tied()
      reads this, mem
    {
      && Slots(arena.blocks) && arena.size == mem.Length < 0x8000_0000 &&
          wrPos == arena.wrPos && wrEnd == arena.wrEnd
      && queue == Queue(queueSize, evicted, Entries(arena.blocks, mem[..]), userMask)
    }

    ghost predicate Valid()
      reads this, mem
    {
      && Tied() && Layout(arena) && RingRound.InArena(items, mem.Length)
      && (arena.blocks == [] ==> wrPos == 0 && wrEnd == mem.Length)
    }

    /** `VCAR_SYS_RingQueueCreat` with sizes it accepts. */
    constructor (memSize: nat, slots: nat, mask: Mask)
      requires 0 < memSize < 0x8000_0000 && 1 < slots
      ensures Valid() && Roomy(arena) && fresh(mem) && mem.Length == memSize && queueSize == slots
      ensures queue == Queue(slots, 0, [], mask)
    {
      queueSize := slots;
      mem := new Byte[memSize];
      items := seq(slots, _ => Item({}, false, [], -1, 0));
      head, tail, wrPos, wrEnd := 0, 0, 0, memSize;
      userMask := mask;
      evicted, arena := 0, Arena(memSize, [], 0, 0, memSize);
      queue := Queue(slots, 0, [], mask);
    }

    /** `isItemHeaderClean` */
    function HeaderClean(): bool
      requires head < |items|
      reads this
    {
      items[head].mask == {}
    }

    /** `moveItemHeader` */
    method MoveItemHeader(ghost blocks: seq<Item>)
      requires Slots(blocks) && blocks != []
      modifies `items, `head, `evicted
      ensures Slots(blocks[1..]) == true && evicted == old(evicted) + 1
      ensures Now() == RingRound.Moved(old(Now()))
    {
      SlotsMoved(items, head, tail, evicted, queueSize, blocks);
      items := items[head := items[head].(valid := false)];
      head := NextSlot(head, queueSize);
      evicted := evicted + 1;
    }

    /** Room among the slots: the oldest item goes. */
    method DropHead()
      requires Tied() && Layout(arena) && arena.blocks != [] && items[head].mask == {}
      modifies `items, `head, `evicted, `queue, `arena
      ensures Tied() == true && Layout(arena) == true && arena == Evicted(old(arena))
      ensures Now() == RingRound.Moved(old(Now()))
      ensures Dropped(old(queue), queue, 1) == true
    {
      EvictedLayout(arena);
      EntriesTail(arena.blocks, mem[..]);
      DropOne(queue, items[head]);
      MoveItemHeader(arena.blocks);
      arena := Evicted(arena);
      queue := queue.(evicted := evicted, entries := queue.entries[1..]);
    }

    /** Room in the arena, wrapped: the oldest item goes and the window grows. */
    method ReclaimHead()
      requires Tied() && Layout(arena) && arena.split > 0 && items[head].mask == {}
      modifies `items, `head, `evicted, `queue, `arena, `wrEnd
      ensures Tied() == true && Layout(arena) == true && arena == Reclaimed(old(arena))
      ensures Now() == RingRound.Moved(old(Now())).(wrEnd := End(old(items[head])))
      ensures Dropped(old(queue), queue, 1) == true
    {
      ReclaimedLayout(arena);
      EntriesTail(arena.blocks, mem[..]);
      DropOne(queue, items[head]);
      wrEnd := End(items[head]);
      MoveItemHeader(arena.blocks);
      arena := Reclaimed(arena);
      queue := queue.(evicted := evicted, entries := queue.entries[1..]);
    }

    /** Room in the arena, not wrapped: the oldest item goes and writing starts over. */
    method WrapAround()
      requires Tied() && Layout(arena) && arena.split == 0 && arena.blocks != [] && items[head].mask == {}
      modifies `items, `head, `evicted, `queue, `arena, `wrEnd, `wrPos
      ensures Tied() == true && Layout(arena) == true && arena == Wrapped(old(arena))
      ensures Now() == RingRound.Moved(old(Now())).(wrEnd := End(old(items[head])), wrPos := 0)
      ensures Dropped(old(queue), queue, 1) == true
    {
      WrappedLayout(arena);
      EntriesTail(arena.blocks, mem[..]);
      DropOne(queue, items[head]);
      wrEnd := End(items[head]);
      MoveItemHeader(arena.blocks);
      wrPos := 0;
      arena := Wrapped(arena);
      queue := queue.(evicted := evicted, entries := queue.entries[1..]);
    }

    /** The slot half of `setItemTail`. */
    method FillTail(b: Item, ghost blocks: seq<Item>)
      requires Slots(blocks) && |blocks| + 1 < queueSize && b.valid
      modifies `items, `tail
      ensures Slots(blocks + [b]) && items == old(items)[old(tail) := b] && tail == NextSlot(old(tail), queueSize)
    {
      ghost var t := evicted + |blocks|;
      OthersDiffer(evicted, t, queueSize);
      SlotNext(t, queueSize);
      items := items[tail := b];
      tail := NextSlot(tail, queueSize);
    }

    /** `setItemTail` */
    method SetItemTail(data: seq<Byte>, header: seq<Byte>)
      requires Tied() && Layout(arena) && |arena.blocks| + 1 < queueSize && 0 < |data| <= wrEnd - wrPos
      modifies `items, `tail, `wrPos, `arena, `queue, mem
      ensures Tied() == true && Layout(arena) == true
      ensures arena == Appended(old(arena), Item(userMask, true, header, old(wrPos), |data|))
      ensures queue == old(queue).(entries := old(queue).entries + [Entry(data, header, userMask)])
      ensures Now() == RingRound.Stored(old(Now()), RingRound.Request(|data|, userMask, header))
    {
      ghost var m, a := mem[..], arena;
      var b := Item(userMask, true, header, wrPos, |data|);
      CopyInto(mem, wrPos, data);
      EntriesStored(a, b, m, mem[..]);
      wrPos := wrPos + |data|;
      arena := Appended(a, b);
      assert mem[..][b.data..End(b)] == data;
      queue := queue.(entries := queue.entries + [Entry(data, header, userMask)]);
      FillTail(b, a.blocks);
    }

    /** The inputs that `VCAR_SYS_RingQueueWrite` turns down at once. */
    static predicate BadInput(data: Option<seq<Byte>>, dataLen: int, header: Option<seq<Byte>>, headerLen: int) {
      data.None? || dataLen < 0 || (header.Some? && headerLen > MAX_HEADER_LEN)
    }

    static function HeaderBytes(header: Option<seq<Byte>>, headerLen: int): seq<Byte>
      requires header.Some? ==> headerLen <= |header.value|
    {
      if header.Some? && headerLen > 0 then header.value[..headerLen] else []
    }

    /** `VCAR_SYS_RingQueueWrite` */
    method Write(data: Option<seq<Byte>>, dataLen: int, header: Option<seq<Byte>>, headerLen: int)
      returns (ret: int)
      requires Valid() && 3 <= queueSize
      requires data.Some? ==> dataLen <= |data.value|
      requires header.Some? ==> headerLen <= |header.value|
      requires !BadInput(data, dataLen, header, headerLen) ==> 0 < dataLen && (CanTake(arena, dataLen) || Pins(arena))
      modifies this, mem
      ensures Valid()
      ensures ret == ERR_INPUT <==> BadInput(data, dataLen, header, headerLen)
      ensures ret == ERR_INPUT || ret == OK || ret == ERR_FULL
      ensures ret == ERR_INPUT ==> queue == old(queue)
      ensures ret == OK ==> Wrote(old(queue), queue, data.value[..dataLen], HeaderBytes(header, headerLen))
      ensures ret == ERR_FULL ==> Refused(old(queue), queue)
      ensures old(Roomy(arena)) && (ret != ERR_INPUT ==> CanTake(old(arena), dataLen)) ==> Roomy(arena)
    {
      if data.None? || dataLen < 0 || (header.Some? && headerLen > MAX_HEADER_LEN) {
        return ERR_INPUT;
      }
      ret := Store(data.value[..dataLen], HeaderBytes(header, headerLen), CanTake(arena, dataLen) && Roomy(arena));
    }

    /** The `CHECK_MEM` loop: rounds until the item is in or the queue is full. */
    method Store(data: seq<Byte>, header: seq<Byte>, ghost sound: bool) returns (ret: int)
      requires Ready(|data|, sound) == true && RingRound.InArena(items, mem.Length) == true
      modifies this, mem
      ensures Valid() == true && (ret == OK || ret == ERR_FULL) && (sound ==> Roomy(arena) == true)
      ensures ret == OK ==> Wrote(old(queue), queue, data, header) == true
      ensures ret == ERR_FULL ==> Refused(old(queue), queue) == true
    {
      ghost var q, k: nat := queue, 0;
      while true
        invariant Ready(|data|, sound) == true && Dropped(q, queue, k) == true
        invariant RingRound.InArena(items, mem.Length) == true
        decreases |arena.blocks|, if wrEnd == mem.Length then 0 else 1
      {
        ret, k := OnceMore(data, header, sound, q, k);
        if ret != ERR_AGAIN {
          return;
        }
      }
    }

    /** One round as part of a write to what was the queue `q`, of which `k` entries have gone so far. */
    method OnceMore(data: seq<Byte>, header: seq<Byte>, ghost sound: bool, ghost q: Queue, ghost k: nat)
      returns (ret: int, ghost k': nat)
      requires Ready(|data|, sound) == true && Dropped(q, queue, k) == true
      requires RingRound.InArena(items, mem.Length) == true
      modifies this, mem
      ensures RingRound.InArena(items, mem.Length) == true
      ensures ret == OK || ret == ERR_FULL || ret == ERR_AGAIN
      ensures ret != ERR_AGAIN ==> Valid() == true && (sound ==> Roomy(arena) == true)
      ensures ret == OK ==> Wrote(q, queue, data, header) == true
      ensures ret == ERR_FULL ==> Refused(q, queue) == true
      ensures ret == ERR_AGAIN ==> Ready(|data|, sound) == true && Dropped(q, queue, k') == true
      ensures ret == ERR_AGAIN ==> Progress(|old(arena).blocks|, old(wrEnd)) == true
    {
      ghost var m, l, d := queue, 0, queue;
      WindowExact(|data|, sound);
      ghost var f, r := Now(), RingRound.Request(|data|, userMask, header);
      ret, l, d := Round(data, header, sound);
      LeavesInArena(f, r, mem.Length, ret, Now());
      k' := k + l;
      DroppedTwice(q, m, d, k, l);
      if ret == OK {
        WroteAfter(q, d, queue, k', data, header);
      } else if ret == ERR_FULL {
        RefusedAfter(q, queue, k');
      }
    }

    /** What holds at `CHECK_MEM`: the loop will come to an end before the items do. */
    ghost predicate Ready(dataLen: int, sound: bool)
      reads this, mem
    {
      Tied() && Layout(arena) && 3 <= queueSize && 0 < dataLen && Fit(arena, dataLen, sound)
    }

    /** A reader pins the oldest entry. */
    ghost predicate Pinned()
      reads this
    {
      arena.blocks != [] && queue.entries != [] && queue.entries[0].mask != {}
    }

    /** Another round comes with fewer than `blocks` blocks, or with the window opened up to the end. */
    ghost predicate Progress(blocks: nat, end: int)
      reads this
    {
      |arena.blocks| < blocks || (|arena.blocks| == blocks && end != mem.Length == wrEnd)
    }

    /** A round has ended with the item stored behind `m`, with the queue full, or with another round to come. */
    ghost predicate Ended(ret: int, data: seq<Byte>, header: seq<Byte>, m: Queue, sound: bool)
      reads this, mem
    {
      && (ret == OK || ret == ERR_FULL || ret == ERR_AGAIN)
      && (ret == OK ==>
          && Tied() && Layout(arena) && arena.blocks != [] && (sound ==> Roomy(arena))
          && queue == m.(entries := m.entries + [Entry(data, header, m.userMask)]))
      && (ret != OK ==> Ready(|data|, sound) && queue == m)
      && (ret == ERR_FULL ==> Pinned())
    }

    /** One round from `CHECK_MEM`; `ERR_AGAIN` stands for the `goto`. An accepted item is put behind
        `m`, what was left of the queue by then. */
    method Round(data: seq<Byte>, header: seq<Byte>, ghost sound: bool)
      returns (ret: int, ghost k: nat, ghost m: Queue)
      requires Ready(|data|, sound) == true
      modifies this, mem
      ensures Does(RingRound.Round(old(Now()), RingRound.Request(|data|, old(userMask), header), mem.Length), ret,
          Now()) == true
      ensures Dropped(old(queue), m, k) == true
      ensures Ended(ret, data, header, m, sound) == true
      ensures ret == ERR_AGAIN ==> Progress(|old(arena).blocks|, old(wrEnd)) == true
    {
      WindowExact(|data|, sound);
      var fits := RingRound.Int32(wrEnd - wrPos) >= |data|;
      ghost var q := queue;
      ghost var f, r := Now(), RingRound.Request(|data|, userMask, header);
      var full;
      full, k := CheckSlots(|data|, sound);
      m := queue;
      if full {
        BlockedRound(f, r, mem.Length);
        return ERR_FULL, k, m;
      }
      ghost var g, l, d := Now(), 0, m;
      ret, l, d := Place(data, header, fits, sound);
      WholeRound(f, g, r, mem.Length, fits, ret, Now());
      DroppedTwice(q, m, d, k, l);
      k, m := k + l, d;
    }

    /** The window is small enough for `freeMemSize`. */
    lemma {:induction false} WindowExact(dataLen: int, sound: bool)
      requires Ready(dataLen, sound) == true
      ensures RingRound.Free(Now()) == wrEnd - wrPos && wrEnd <= mem.Length && RingRound.InRange(Now())
    {
    }

    /** The rest of a round once there is a free slot. */
    method Place(data: seq<Byte>, header: seq<Byte>, fits: bool, ghost sound: bool)
      returns (ret: int, ghost l: nat, ghost d: Queue)
      requires Ready(|data|, sound) == true && |arena.blocks| + 1 < queueSize && fits == (wrEnd - wrPos >= |data|)
      modifies this, mem
      ensures Dropped(old(queue), d, l) == true
      ensures Does(if fits then RingRound.Accept(RingRound.Stored(old(Now()),
          RingRound.Request(|data|, old(userMask), header)))
                   else RingRound.Widened(old(Now()), mem.Length), ret, Now()) == true
      ensures Ended(ret, data, header, d, sound) == true
      ensures ret == ERR_AGAIN ==> Progress(|old(arena).blocks|, old(wrEnd)) == true
    {
      l, d := 0, queue;
      if fits {
        AppendedRoomy(arena, Item(userMask, true, header, wrPos, |data|));
        SetItemTail(data, header);
        return OK, l, d;
      }
      ret, l := MakeRoom(|data|, sound);
      d := queue;
    }

    /** The first half of a round: the last free slot may have to be made by dropping the oldest item. */
    method CheckSlots(ghost dataLen: int, ghost sound: bool) returns (full: bool, ghost k: nat)
      requires Ready(dataLen, sound)
      modifies `items, `head, `evicted, `queue, `arena
      ensures Ready(dataLen, sound) == true && Dropped(old(queue), queue, k) == true
      ensures full ==> Blocked(old(Now())) == true && Now() == old(Now()) && Pinned() == true
      ensures !full ==> SlotMade(old(Now()), Now()) == true
      ensures !full ==> |arena.blocks| + 1 < queueSize && |arena.blocks| <= |old(arena).blocks|
      ensures old(arena).blocks != [] ==> arena.blocks != []
    {
      full, k := false, 0;
      FullSlots();
      if NextSlot(tail, queueSize) == head {
        if !HeaderClean() {
          return true, 0;
        }
        EvictedFit(arena, dataLen, sound);
        DropHead();
        k := 1;
      }
    }

    /** The second half of a round: the window is too small. */
    method MakeRoom(dataLen: int, ghost sound: bool) returns (ret: int, ghost k: nat)
      requires Ready(dataLen, sound) == true && arena.blocks != [] && wrEnd - wrPos < dataLen
      modifies `items, `head, `evicted, `queue, `arena, `wrEnd, `wrPos
      ensures Ready(dataLen, sound) == true && Dropped(old(queue), queue, k) == true
      ensures Does(RingRound.Widened(old(Now()), mem.Length), ret, Now()) == true
      ensures ret == ERR_FULL || ret == ERR_AGAIN
      ensures ret == ERR_FULL ==> Pinned() == true
      ensures ret == ERR_AGAIN ==> Progress(|old(arena).blocks|, old(wrEnd)) == true
    {
      WhichLayout(arena);
      if wrPos > items[head].data {
        if wrEnd != mem.Length {
          wrEnd := mem.Length;
          arena := arena.(wrEnd := mem.Length);
          return ERR_AGAIN, 0;
        }
        if !HeaderClean() {
          return ERR_FULL, 0;
        }
        WrappedFit(arena, dataLen, sound);
        WrapAround();
      } else {
        if !HeaderClean() {
          return ERR_FULL, 0;
        }
        ReclaimedFit(arena, dataLen, sound);
        ReclaimHead();
      }
      return ERR_AGAIN, 1;
    }

    static lemma RefusedAfter(q: Queue, q': Queue, k: nat)
      requires Dropped(q, q', k) == true && q'.entries != [] && q'.entries[0].mask != {}
      ensures Refused(q, q') == true
    {
    }

    static lemma WroteAfter(q: Queue, d: Queue, q': Queue, k: nat, data: seq<Byte>, header: seq<Byte>)
      requires Dropped(q, d, k) == true && q' == d.(entries := d.entries + [Entry(data, header, d.userMask)])
      ensures Wrote(q, q', data, header) == true
    {
    }

    /** The tail has caught up with the head exactly when all slots but one are taken. */
    lemma FullSlots()
      requires Slots(arena.blocks)
      ensures NextSlot(tail, queueSize) == head <==> |arena.blocks| == queueSize - 1
    {
      var t := evicted + |arena.blocks|;
      SlotNext(t, queueSize);
      SlotNext(evicted, queueSize);
      if |arena.blocks| < queueSize - 1 {
        SlotsDiffer(evicted, t + 1, queueSize);
      }
    }

    /** `VCAR_SYS_RingQueueSetMask` */
    method SetMask(mask: Mask)
      requires Valid()
      modifies `userMask, `queue
      ensures Valid() == true && queue == old(queue).(userMask := old(queue).userMask + mask)
    {
      userMask := userMask + mask;
      queue := queue.(userMask := userMask);
    }

    /** `VCAR_SYS_RingQueueClearMask` */
    method ClearUserMask(mask: Mask)
      requires Valid()
      modifies `userMask, `queue
      ensures Valid() == true && queue == old(queue).(userMask := old(queue).userMask - mask)
    {
      userMask := userMask - mask;
      queue := queue.(userMask := userMask);
    }

    /** Every queue meets the premise of `RingRound.ReturnsExactly`. */
    lemma {:induction false} WriteReturnsExactly(r: RingRound.Request)
      requires Valid()
      ensures RingRound.InRange(Now())
      ensures RingRound.Returns(Now(), r, mem.Length) <==>
        RingRound.Room(Now(), r.len, mem.Length) || exists i :: RingRound.PinnedAt(Now(), i)
    {
      RingRound.ReturnsExactly(Now(), r, mem.Length);
    }

    /** `_VCAR_SYS_RingQueueRead`; a `ringIndex` of 0 is `None`, any other one names a slot. */
    method Read(index: Option<nat>, mask: Mask, dataLen: nat, headerLen: int, fromHead: bool)
      returns (ret: int, index': Option<nat>, data: seq<Byte>, header: seq<Byte>)
      requires Valid() && (index.Some? ==> index.value < queueSize)
      modifies `items, `arena, `queue
      ensures Valid() == true && queue == AfterRead(old(queue), StartSlot(old(queue), index, fromHead), mask)
      ensures Roomy(old(arena)) ==> Roomy(arena)
      ensures Returned(ReadAt(old(queue), StartSlot(old(queue), index, fromHead)), ret, data, header, dataLen,
          headerLen)
        == true
      ensures index' == NextIndex(ReadAt(old(queue), StartSlot(old(queue), index, fromHead)), index)
    {
      StartsAt(index, fromHead);
      var slot := match index
        case Some(s) => s
        case None => if fromHead then head else PrevSlot(tail, queueSize);
      ret, data, header := ReadSlot(slot, mask, dataLen, headerLen);
      index' := if ret == OK then Some(NextSlot(slot, queueSize)) else index;
    }

    /** Where a read starts. */
    lemma {:induction false} StartsAt(index: Option<nat>, fromHead: bool)
      requires Valid() && (index.Some? ==> index.value < queueSize)
      ensures WellFormed(queue) && queue.slots == queueSize && StartSlot(queue, index, fromHead) < queueSize
      ensures index.None? ==> StartSlot(queue, index, fromHead) == if fromHead then head else PrevSlot(tail, queueSize)
      ensures var r := ReadAt(queue, StartSlot(queue, index, fromHead));
        r.ReadOk? ==> r.nextSlot == NextSlot(StartSlot(queue, index, fromHead), queueSize)
    {
    }

    /** Where a reader goes on. */
    static ghost function NextIndex(r: ReadResult, index: Option<nat>): Option<nat> {
      if r.ReadOk? then Some(r.nextSlot) else index
    }

    /** What a reader gets for each outcome. */
    static ghost predicate Returned(r: ReadResult, ret: int, data: seq<Byte>, header: seq<Byte>, dataLen: int,
        headerLen: int) {
      match r
      case Again => ret == ERR_AGAIN
      case Invalid => ret == ERR_INVALID
      case ReadOk(e, _) => ret == OK && data == Prefix(e.data, dataLen) && header == Prefix(e.header, headerLen)
    }

    method ReadSlot(slot: nat, mask: Mask, dataLen: nat, headerLen: int)
      returns (ret: int, data: seq<Byte>, header: seq<Byte>)
      requires Valid() && slot < queueSize
      modifies `items, `arena, `queue
      ensures Valid() == true && queue == AfterRead(old(queue), slot, mask) && (Roomy(old(arena)) ==> Roomy(arena))
      ensures Returned(ReadAt(old(queue), slot), ret, data, header, dataLen, headerLen) == true
    {
      data, header := [], [];
      if slot == tail {
        return ERR_AGAIN, data, header;
      }
      ghost var k := SlotEntry(slot);
      if !items[slot].valid {
        return ERR_INVALID, data, header;
      }
      data, header := CopyItem(slot, k, dataLen, headerLen);
      ClearMask(k, slot, mask);
      return OK, data, header;
    }

    /** What the specification says about a slot other than the tail. */
    lemma {:induction false} SlotEntry(slot: nat) returns (k: nat)
      requires Valid() && slot < queueSize && slot != tail
      ensures k < queueSize && slot == Slot(evicted + k, queueSize) && k == Position(queue, slot)
      ensures items[slot].valid <==> k < |arena.blocks|
      ensures |arena.blocks| == |queue.entries|
      ensures ReadAt(queue, slot) == if k < |queue.entries| then ReadOk(queue.entries[k],
          NextSlot(slot, queueSize)) else Invalid
    {
      k := Position(queue, slot);
      PositionInverse(queue, slot);
      SlotContents(slot, k);
    }

    /** Copying out as much of an item as the caller has room for. */
    method CopyItem(slot: nat, ghost k: nat, dataLen: nat, headerLen: int) returns (data: seq<Byte>, header: seq<Byte>)
      requires Valid() && k < |arena.blocks| && k < queueSize && slot < queueSize
      requires slot == Slot(evicted + k, queueSize) && slot != tail && k < |queue.entries|
      ensures data == Prefix(queue.entries[k].data, dataLen) && header == Prefix(queue.entries[k].header, headerLen)
    {
      SlotContents(slot, k);
      var item := items[slot];
      data := mem[item.data..item.data + if dataLen > item.dataLen then item.dataLen else dataLen];
      assert data == Prefix(mem[item.data..End(item)], dataLen);
      header := [];
      if headerLen > 0 {
        header := item.header[..if headerLen > |item.header| then |item.header| else headerLen];
      }
    }

    /** Slots other than the tail hold live entries or are marked invalid. */
    lemma {:induction false} SlotContents(slot: nat, k: nat)
      requires Valid() && k < queueSize && slot == Slot(evicted + k, queueSize) && slot != tail
      ensures items[slot].valid <==> k < |arena.blocks|
      ensures k < |arena.blocks| ==>
        && items[slot] == arena.blocks[k] && 0 <= items[slot].data < End(items[slot]) <= mem.Length
        && queue.entries[k] == Entry(mem[items[slot].data..End(items[slot])], items[slot].header, items[slot].mask)
    {
      if k < |arena.blocks| {
        BlockInBounds(arena, k);
        assert items[slot] == arena.blocks[evicted + k - evicted];
        assert queue.entries[k] == EntryOf(arena.blocks[k], mem[..]);
        assert mem[..][items[slot].data..End(items[slot])] == mem[items[slot].data..End(items[slot])];
      }
    }

    /** Taking the reader's bits out of the mask of the entry at position `k`. */
    method ClearMask(ghost k: nat, slot: nat, mask: Mask)
      requires Valid() && k < |arena.blocks| && slot == Slot(evicted + k, queueSize)
      modifies `items, `arena, `queue
      ensures Valid() == true && (Roomy(old(arena)) ==> Roomy(arena))
      ensures queue == old(queue).(entries := old(queue).entries[k := RingSpec.Cleared(old(queue).entries[k], mask)])
    {
      ghost var b := arena.blocks[k];
      MaskLayout(arena, k, b.mask - mask);
      EntriesMasked(arena.blocks, k, b.mask - mask, mem[..]);
      assert items[slot] == b by {
        assert b == arena.blocks[evicted + k - evicted];
      }
      arena := arena.(blocks := arena.blocks[k := b.(mask := b.mask - mask)]);
      queue := queue.(entries := queue.entries[k := RingSpec.Cleared(queue.entries[k], mask)]);
      if items[slot].mask * mask != {} {
        UpdateSlot(k, slot, items[slot].(mask := items[slot].mask - mask), old(arena).blocks);
      } else {
        MaskDisjoint(b.mask, mask);
        assert arena.blocks == old(arena).blocks;
      }
    }

    method UpdateSlot(ghost k: nat, slot: nat, b: Item, ghost blocks: seq<Item>)
      requires Slots(blocks) && k < |blocks| && slot == Slot(evicted + k, queueSize) && b.valid
      modifies `items
      ensures Slots(blocks[k := b]) && items == old(items)[slot := b]
    {
      OthersDiffer(evicted, evicted + k, queueSize);
      items := items[slot := b];
    }
  }

  lemma {:induction false} MaskDisjoint(a: Mask, b: Mask)
    requires a * b == {}
    ensures a - b == a
  {
    forall x | x in a ensures x !in b {
      assert x in b ==> x in a * b;
    }
  }

  lemma {:induction false} EntriesMasked(bs: seq<Item>, k: nat, mask: Mask, m: seq<Byte>)
    requires k < |bs|
    ensures Entries(bs[k := bs[k].(mask := mask)], m) == Entries(bs, m)[k := Entries(bs, m)[k].(mask := mask)]
  {
  }

  function Prefix(s: seq<Byte>, n: int): seq<Byte> {
    if n <= 0 then [] else if n > |s| then s else s[..n]
  }

  /** Masks play no part in the layout. */
  lemma {:induction false} MaskLayout(a: Arena, k: nat, m: Mask)
    requires Layout(a) && k < |a.blocks|
    ensures Layout(a.(blocks := a.blocks[k := a.blocks[k].(mask := m)]))
  {
    var b := a.(blocks := a.blocks[k := a.blocks[k].(mask := m)]);
    if a.split == 0 {
      MaskChain(a.blocks, k, m, a.blocks[0].data, a.wrPos);
    } else {
      var o, n := a.blocks[..a.split], a.blocks[a.split..];
      if k < a.split {
        MaskChain(o, k, m, a.blocks[0].data, End(a.blocks[a.split - 1]));
        assert b.blocks[..a.split] == o[k := o[k].(mask := m)] && b.blocks[a.split..] == n;
      } else {
        MaskChain(n, k - a.split, m, 0, a.wrPos);
        assert b.blocks[..a.split] == o && b.blocks[a.split..] == n[k - a.split := n[k - a.split].(mask := m)];
      }
    }
  }

  lemma {:induction false} MaskChain(bs: seq<Item>, k: nat, m: Mask, lo: int, hi: int)
    requires Chain(bs, lo, hi) && k < |bs|
    ensures Chain(bs[k := bs[k].(mask := m)], lo, hi)
    decreases bs
  {
    var cs := bs[k := bs[k].(mask := m)];
    if k == 0 {
      assert cs[1..] == bs[1..];
    } else {
      MaskChain(bs[1..], k - 1, m, lo + bs[0].dataLen, hi);
      assert cs[1..] == bs[1..][k - 1 := bs[k].(mask := m)];
    }
  }
}
