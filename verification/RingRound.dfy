/** The `CHECK_MEM` loop as it stands, round by round, on any contents of the fields whatsoever. */
module RingRound {
  import opened Bytes
  import opened RingArena
  import opened RingSpec

  datatype Fields = Fields(items: seq<Item>, head: nat, tail: nat, wrPos: int, wrEnd: int)

  /** What is to be written: the length of the data, and what goes into the item beside it. */
  datatype Request = Request(len: int, mask: Mask, header: seq<Byte>)

  datatype Outcome = Accept(f: Fields) | Full(f: Fields) | Retry(f: Fields)

  /** The value of an `int32_t` that `x` is assigned to. */
  function Int32(x: int): (r: int)
    ensures -0x8000_0000 <= r < 0x8000_0000
    ensures -0x8000_0000 <= x < 0x8000_0000 ==> r == x
    ensures (x - r) % 0x1_0000_0000 == 0
  {
    (x + 0x8000_0000) % 0x1_0000_0000 - 0x8000_0000
  }

  /** `freeMemSize` */
  function Free(f: Fields): int {
    Int32(f.wrEnd - f.wrPos)
  }

  predicate InRange(f: Fields) {
    f.head < |f.items| && f.tail < |f.items|
  }

  /** `moveItemHeader` */
  function Moved(f: Fields): Fields
    requires InRange(f)
  {
    f.(items := f.items[f.head := f.items[f.head].(valid := false)], head := NextSlot(f.head, |f.items|))
  }

  /** `setItemTail` */
  function Stored(f: Fields, r: Request): Fields
    requires InRange(f)
  {
    f.(items := f.items[f.tail := Item(r.mask, true, r.header, f.wrPos, r.len)], tail := NextSlot(f.tail, |f.items|),
        wrPos := f.wrPos + r.len)
  }

  function Round(f: Fields, r: Request, memSize: nat): Outcome
    requires InRange(f)
  {
    var full := NextSlot(f.tail, |f.items|) == f.head;
    if full && f.items[f.head].mask != {} then Full(f)
    else
      var g := if full then Moved(f) else f;
      if Free(f) >= r.len then Accept(Stored(g, r)) else Widened(g, memSize)
  }

  function Widened(f: Fields, memSize: nat): Outcome
    requires InRange(f)
  {
    var h := f.items[f.head];
    if f.wrPos > h.data && f.wrEnd != memSize then Retry(f.(wrEnd := memSize))
    else if h.mask != {} then Full(f)
    else if f.wrPos > h.data then Retry(Moved(f).(wrEnd := End(h), wrPos := 0))
    else Retry(Moved(f).(wrEnd := End(h)))
  }

  lemma {:induction false} RoundInRange(f: Fields, r: Request, memSize: nat)
    requires InRange(f)
    ensures InRange(Round(f, r, memSize).f)
  {
  }

  /** After at most `k` rounds: `Retry` as long as every one of them asked for another. */
  function After(f: Fields, r: Request, memSize: nat, k: nat): (o: Outcome)
    requires InRange(f)
    ensures o.Retry? ==> InRange(o.f)
  {
    if k == 0 then Retry(f)
    else
      match After(f, r, memSize, k - 1)
      case Retry(g) => RoundInRange(g, r, memSize); Round(g, r, memSize)
      case o => o
  }

  ghost predicate Returns(f: Fields, r: Request, memSize: nat)
    requires InRange(f)
  {
    exists k: nat :: !After(f, r, memSize, k).Retry?
  }

  // ----- no reader pins anything -----

  /** No item, live or stale, reaches past the end of the arena. */
  ghost predicate InArena(items: seq<Item>, memSize: nat) {
    forall i :: 0 <= i < |items| ==> items[i].dataLen >= 0 && End(items[i]) <= memSize
  }

  /** A round that stores only what fits keeps it so. */
  lemma {:induction false} RoundInArena(f: Fields, r: Request, memSize: nat)
    requires InRange(f) && InArena(f.items, memSize) && 0 <= r.len
    requires Free(f) == f.wrEnd - f.wrPos && f.wrEnd <= memSize
    ensures InArena(Round(f, r, memSize).f.items, memSize)
  {
  }

  ghost predicate Bounded(f: Fields, memSize: nat) {
    && InRange(f) && 2 <= |f.items| && 0 <= f.wrPos <= memSize < 0x8000_0000 && f.wrEnd <= memSize
    && InArena(f.items, memSize)
  }

  /** A reader pins the item in slot `i`. */
  predicate PinnedAt(f: Fields, i: nat) {
    i < |f.items| && f.items[i].mask != {}
  }

  ghost predicate Unpinned(f: Fields, memSize: nat) {
    Bounded(f, memSize) && forall i :: 0 <= i < |f.items| ==> f.items[i].mask == {}
  }

  /** The slots as they were, but for the marks of validity. */
  ghost predicate SameSlots(f: Fields, g: Fields) {
    && |g.items| == |f.items| && g.tail == f.tail
    && forall i :: 0 <= i < |f.items| ==> g.items[i] == f.items[i].(valid := g.items[i].valid)
  }

  /** A slot whose item, live or stale, ends too low for the write. */
  predicate Low(b: Item, len: int) {
    0 <= b.data && End(b) < len
  }

  /** A slot whose pointer lies outside the arena, so far that the 32 bits left of the difference pass for room. */
  predicate Stray(b: Item, len: int) {
    b.data < 0 && Int32(End(b)) >= len
  }

  /** A slot that the loop looks at: it passes over the one behind the tail. */
  predicate Seen(f: Fields, i: nat)
    requires InRange(f)
  {
    i < |f.items| && i != NextSlot(f.tail, |f.items|)
  }

  /** Writing starts at 0, or some item that the loop looks at lies below the write position: the loop can open
      the window up to the end of the arena and start over from there. */
  ghost predicate CanWrap(f: Fields)
    requires InRange(f)
  {
    f.wrPos == 0 || exists p: nat :: Seen(f, p) && f.items[p].data < f.wrPos
  }

  /** A slot whose item lies above the write position and leaves room below its end. */
  predicate Above(b: Item, wrPos: int, len: int) {
    wrPos <= b.data && End(b) - wrPos >= len
  }

  /** The guard under which a write without pinned items gets room. */
  ghost predicate Room(f: Fields, len: int, memSize: nat)
    requires InRange(f)
  {
    || Free(f) >= len
    || (exists i: nat :: Seen(f, i) && Stray(f.items[i], len))
    || if CanWrap(f) then
         && len <= memSize
         && ((f.wrPos > 0 && memSize - f.wrPos >= len) || exists i: nat :: Seen(f, i) && !Low(f.items[i], len))
       else
         exists i: nat :: Seen(f, i) && Above(f.items[i], f.wrPos, len)
  }

  /** One round that finds the window too small moves on to the slot it looks at. */
  lemma {:induction false} NextRound(f: Fields, r: Request, memSize: nat) returns (g: Fields, h: nat)
    requires Unpinned(f, memSize) && Free(f) < r.len
    ensures Round(f, r, memSize) == Retry(g) && Unpinned(g, memSize) && SameSlots(f, g) && Seen(f, h)
    ensures h == if f.head == NextSlot(f.tail, |f.items|) then NextSlot(f.head, |f.items|) else f.head
    ensures f.wrPos > f.items[h].data && f.wrEnd != memSize ==>
      g.wrEnd == memSize && g.wrPos == f.wrPos && g.head == h
    ensures !(f.wrPos > f.items[h].data && f.wrEnd != memSize) ==>
      && g.wrEnd == End(f.items[h]) && g.head == NextSlot(h, |f.items|)
      && g.wrPos == if f.wrPos > f.items[h].data then 0 else f.wrPos
  {
    h := if f.head == NextSlot(f.tail, |f.items|) then NextSlot(f.head, |f.items|) else f.head;
    g := Round(f, r, memSize).f;
  }

  lemma {:induction false} RoomAgain(f: Fields, g: Fields, len: int, memSize: nat)
    requires InRange(f) && InRange(g) && SameSlots(f, g)
    ensures forall i: nat :: Seen(f, i) <==> Seen(g, i)
    ensures forall i: nat :: Seen(f, i) ==> (Low(f.items[i], len) <==> Low(g.items[i], len))
    ensures forall i: nat :: Seen(f, i) ==> (Stray(f.items[i], len) <==> Stray(g.items[i], len))
    ensures forall i: nat :: Seen(f, i) ==> g.items[i].data == f.items[i].data && End(g.items[i]) == End(f.items[i])
  {
  }

  lemma {:induction false} WrapsAgain(f: Fields, r: Request, memSize: nat, g: Fields, h: nat)
    requires Unpinned(f, memSize) && InRange(g) && SameSlots(f, g) && Seen(f, h)
    requires g.wrPos == if f.wrPos > f.items[h].data && f.wrEnd == memSize then 0 else f.wrPos
    ensures CanWrap(f) <==> CanWrap(g)
    ensures !CanWrap(f) ==> f.wrPos <= f.items[h].data
  {
    RoomAgain(f, g, r.len, memSize);
    if p: nat :| Seen(f, p) && f.items[p].data < f.wrPos {
      assert Seen(g, p) && g.items[p].data == f.items[p].data;
    }
  }

  /** Without room a round asks for another one, and there is no room then either. */
  lemma {:induction false} NoRoomNoReturn(f: Fields, r: Request, memSize: nat)
    requires Unpinned(f, memSize) && !Room(f, r.len, memSize)
    ensures var o := Round(f, r, memSize); o.Retry? && Unpinned(o.f, memSize) && !Room(o.f, r.len, memSize)
  {
    var g, h := NextRound(f, r, memSize);
    RoomAgain(f, g, r.len, memSize);
    WrapsAgain(f, r, memSize, g, h);
    assert CanWrap(f) && r.len <= memSize ==> Low(f.items[h], r.len);
    assert !Stray(f.items[h], r.len) && (!CanWrap(f) ==> !Above(f.items[h], f.wrPos, r.len));
  }

  lemma {:induction false} NeverReturns(f: Fields, r: Request, memSize: nat, k: nat)
    requires Unpinned(f, memSize) && !Room(f, r.len, memSize)
    ensures var o := After(f, r, memSize, k); o.Retry? && Unpinned(o.f, memSize) && !Room(o.f, r.len, memSize)
  {
    if k > 0 {
      NeverReturns(f, r, memSize, k - 1);
      NoRoomNoReturn(After(f, r, memSize, k - 1).f, r, memSize);
    }
  }

  /** The steps from slot `a` on to slot `b`. */
  function Distance(a: nat, b: nat, n: nat): (d: nat)
    requires a < n && b < n
    ensures d < n && (d == 0 <==> a == b)
  {
    if a <= b then b - a else b + n - a
  }

  lemma {:induction false} Closer(a: nat, b: nat, n: nat)
    requires a < n && b < n && a != b
    ensures Distance(NextSlot(a, n), b, n) == Distance(a, b, n) - 1
  {
  }

  /** A round more at the front. */
  lemma {:induction false} AfterFirst(f: Fields, r: Request, memSize: nat, g: Fields, k: nat)
    requires InRange(f) && Round(f, r, memSize) == Retry(g) && InRange(g)
    ensures After(f, r, memSize, k + 1) == After(g, r, memSize, k)
  {
    if k > 0 {
      AfterFirst(f, r, memSize, g, k - 1);
    }
  }

  lemma {:induction false} LaterReturns(f: Fields, r: Request, memSize: nat, g: Fields)
    requires InRange(f) && Round(f, r, memSize) == Retry(g) && InRange(g) && Returns(g, r, memSize)
    ensures Returns(f, r, memSize)
  {
    var k: nat :| !After(g, r, memSize, k).Retry?;
    AfterFirst(f, r, memSize, g, k);
    assert !After(f, r, memSize, k + 1).Retry?;
  }

  lemma {:induction false} FitsReturns(f: Fields, r: Request, memSize: nat)
    requires Unpinned(f, memSize) && Free(f) >= r.len
    ensures Returns(f, r, memSize)
  {
    assert After(f, r, memSize, 0) == Retry(f);
    assert !After(f, r, memSize, 1).Retry?;
  }

  /** Writing from the start of the arena: the loop comes to the slot `i`, which makes room. */
  lemma {:induction false} FromStart(f: Fields, r: Request, memSize: nat, i: nat)
    requires Unpinned(f, memSize) && f.wrPos == 0 && r.len <= memSize && Seen(f, i) && !Low(f.items[i], r.len)
    ensures Returns(f, r, memSize)
    decreases Distance(f.head, i, |f.items|), if f.wrEnd == memSize then 0 else 1
  {
    if Free(f) >= r.len {
      FitsReturns(f, r, memSize);
    } else {
      var n := |f.items|;
      var g, h := NextRound(f, r, memSize);
      RoomAgain(f, g, r.len, memSize);
      if f.head != h {
        Closer(f.head, i, n);
      }
      if h == i || f.items[h].data < 0 {
        FitsReturns(g, r, memSize);
      } else {
        Closer(h, i, n);
        FromStart(g, r, memSize, i);
      }
      LaterReturns(f, r, memSize, g);
    }
  }

  /** Writing from further up: the loop comes to the slot `p`, whose item lies below the write position. */
  lemma {:induction false} FromMiddle(f: Fields, r: Request, memSize: nat, p: nat)
    requires Unpinned(f, memSize) && f.wrPos > 0 && r.len <= memSize && Seen(f, p) && f.items[p].data < f.wrPos
    requires Room(f, r.len, memSize)
    ensures Returns(f, r, memSize)
    decreases Distance(f.head, p, |f.items|), if f.wrEnd == memSize then 0 else 1
  {
    if Free(f) >= r.len {
      FitsReturns(f, r, memSize);
    } else {
      var n := |f.items|;
      var g, h := NextRound(f, r, memSize);
      RoomAgain(f, g, r.len, memSize);
      if f.head != h {
        Closer(f.head, p, n);
      }
      if g.wrPos == 0 {
        var i: nat :| Seen(f, i) && !Low(f.items[i], r.len);
        FromStart(g, r, memSize, i);
      } else {
        if f.items[h].data >= f.wrPos {
          Closer(h, p, n);
        }
        FromMiddle(g, r, memSize, p);
      }
      LaterReturns(f, r, memSize, g);
    }
  }

  /** The loop comes to the slot `i`, whose pointer is taken for room. */
  lemma {:induction false} FromStray(f: Fields, r: Request, memSize: nat, i: nat)
    requires Unpinned(f, memSize) && Seen(f, i) && Stray(f.items[i], r.len)
    ensures Returns(f, r, memSize)
    decreases Distance(f.head, i, |f.items|), if f.wrEnd == memSize then 0 else 1
  {
    if Free(f) >= r.len {
      FitsReturns(f, r, memSize);
    } else {
      var n := |f.items|;
      var g, h := NextRound(f, r, memSize);
      RoomAgain(f, g, r.len, memSize);
      if f.head != h {
        Closer(f.head, i, n);
      }
      if h == i && f.wrEnd == memSize {
        FitsReturns(g, r, memSize);
      } else {
        if h != i {
          Closer(h, i, n);
        }
        FromStray(g, r, memSize, i);
      }
      LaterReturns(f, r, memSize, g);
    }
  }

  /** All items lie above the write position: the loop comes to the slot `i`, which leaves room below its end. */
  lemma {:induction false} FromBelow(f: Fields, r: Request, memSize: nat, i: nat)
    requires Unpinned(f, memSize) && !CanWrap(f) && Seen(f, i) && Above(f.items[i], f.wrPos, r.len)
    ensures Returns(f, r, memSize)
    decreases Distance(f.head, i, |f.items|)
  {
    if Free(f) >= r.len {
      FitsReturns(f, r, memSize);
    } else {
      var n := |f.items|;
      var g, h := NextRound(f, r, memSize);
      RoomAgain(f, g, r.len, memSize);
      WrapsAgain(f, r, memSize, g, h);
      if f.head != h {
        Closer(f.head, i, n);
      }
      if h == i {
        FitsReturns(g, r, memSize);
      } else {
        Closer(h, i, n);
        FromBelow(g, r, memSize, i);
      }
      LaterReturns(f, r, memSize, g);
    }
  }

  lemma {:induction false} UnpinnedReturnsExactly(f: Fields, r: Request, memSize: nat)
    requires Unpinned(f, memSize)
    ensures Returns(f, r, memSize) <==> Room(f, r.len, memSize)
  {
    if !Room(f, r.len, memSize) {
      forall k: nat ensures After(f, r, memSize, k).Retry? {
        NeverReturns(f, r, memSize, k);
      }
    } else if Free(f) >= r.len {
      FitsReturns(f, r, memSize);
    } else if i: nat :| Seen(f, i) && Stray(f.items[i], r.len) {
      FromStray(f, r, memSize, i);
    } else if !CanWrap(f) {
      var i: nat :| Seen(f, i) && Above(f.items[i], f.wrPos, r.len);
      FromBelow(f, r, memSize, i);
    } else if f.wrPos > 0 {
      var p: nat :| Seen(f, p) && f.items[p].data < f.wrPos;
      FromMiddle(f, r, memSize, p);
    } else {
      var i: nat :| Seen(f, i) && !Low(f.items[i], r.len);
      FromStart(f, r, memSize, i);
    }
  }

  // ----- some reader pins an item -----

  /** One round that asks for another has not passed the pinned slot `i`, and has come closer to it or opened
      the window up to the end. */
  lemma {:induction false} TowardsPin(f: Fields, r: Request, memSize: nat, i: nat)
    requires InRange(f) && 2 <= |f.items| && PinnedAt(f, i) && Round(f, r, memSize).Retry?
    ensures var g, n := Round(f, r, memSize).f, |f.items|;
      && InRange(g) && |g.items| == n && PinnedAt(g, i)
      && (|| Distance(g.head, i, n) < Distance(f.head, i, n)
          || (Distance(g.head, i, n) == Distance(f.head, i, n) && f.wrEnd != memSize == g.wrEnd))
  {
    var n := |f.items|;
    if f.head != i {
      Closer(f.head, i, n);
      if NextSlot(f.head, n) != i {
        Closer(NextSlot(f.head, n), i, n);
      }
    }
  }

  /** The loop comes to a pinned slot at the latest, and gives up there. */
  lemma {:induction false} PinnedReturns(f: Fields, r: Request, memSize: nat, i: nat)
    requires InRange(f) && 2 <= |f.items| && PinnedAt(f, i)
    ensures Returns(f, r, memSize)
    decreases Distance(f.head, i, |f.items|), if f.wrEnd == memSize then 0 else 1
  {
    var o := Round(f, r, memSize);
    if o.Retry? {
      TowardsPin(f, r, memSize, i);
      PinnedReturns(o.f, r, memSize, i);
      LaterReturns(f, r, memSize, o.f);
    } else {
      OneRound(f, r, memSize, o);
    }
  }

  /** A write returns exactly when there is room for it or a reader pins an item. */
  lemma {:induction false} ReturnsExactly(f: Fields, r: Request, memSize: nat)
    requires Bounded(f, memSize)
    ensures Returns(f, r, memSize) <==> Room(f, r.len, memSize) || exists i :: PinnedAt(f, i)
  {
    if i :| PinnedAt(f, i) {
      PinnedReturns(f, r, memSize, i);
    } else {
      forall i | 0 <= i < |f.items| ensures f.items[i].mask == {} {
        assert !PinnedAt(f, i);
      }
      UnpinnedReturnsExactly(f, r, memSize);
    }
  }

  /** The fields of a new queue; `unused` is where the data pointer of an unused slot lies as seen from the arena. */
  function Fresh(slots: nat, memSize: nat, unused: int): Fields {
    Fields(seq(slots, _ => Item({}, false, [], unused, 0)), 0, 0, 0, memSize)
  }

  /** A new queue takes every item up to the size of its arena, and a larger one exactly when the 32 bits of the
      distance to the unused pointer happen to be that large. */
  lemma {:induction false} FreshTakes(slots: nat, memSize: nat, unused: int, r: Request)
    requires 2 <= slots && 0 < memSize < 0x8000_0000 && unused < 0
    ensures Returns(Fresh(slots, memSize, unused), r, memSize) <==> r.len <= memSize || Int32(unused) >= r.len
  {
    var f := Fresh(slots, memSize, unused);
    ReturnsExactly(f, r, memSize);
    assert Seen(f, 0) && !PinnedAt(f, 0);
  }

  /** In an arena of 4, three writes of 3 bytes lead from a new queue to one on which a write of 4 bytes,
      which the new queue takes, never returns. */
  lemma {:induction false} FullSizeCanHang(unused: int)
    requires unused < 0
    ensures var three, four := Request(3, {}, []), Request(4, {}, []);
      exists f1, f2, f3 ::
        && After(Fresh(3, 4, unused), three, 4, 1) == Accept(f1) && InRange(f1) && After(f1, three, 4, 2) == Accept(f2)
        && InRange(f2) && After(f2, three, 4, 3) == Accept(f3) && InRange(f3)
        && Returns(Fresh(3, 4, unused), four, 4) && !Returns(f3, four, 4)
  {
    var three, four := Request(3, {}, []), Request(4, {}, []);
    var never, gone, live := Item({}, false, [], unused, 0), Item({}, false, [], 0, 3), Item({}, true, [], 0, 3);
    var f1 := Fields([live, never, never], 0, 1, 3, 4);
    FirstWrite(f1, never, live, three);
    var f2 := Fields([gone, live, never], 1, 2, 3, 3);
    SecondWrite(f1, f2, never, gone, live, three);
    var f3 := Fields([gone, gone, live], 2, 0, 3, 3);
    ThirdWrite(f2, f3, never, gone, live, three);
    FreshTakes(3, 4, unused, four);
    NoRoomForFour(f3, four, gone, live);
  }

  lemma {:induction false} FirstWrite(f1: Fields, never: Item, live: Item, r: Request)
    requires never == Item({}, false, [], never.data, 0) && live == Item({}, true, [], 0, 3) && r == Request(3, {}, [])
    requires f1 == Fields([live, never, never], 0, 1, 3, 4)
    ensures After(Fresh(3, 4, never.data), r, 4, 1) == Accept(f1)
  {
    var f0 := Fields([never, never, never], 0, 0, 0, 4);
    assert Fresh(3, 4, never.data) == f0;
    OneRound(f0, r, 4, Accept(f1));
  }

  lemma {:induction false} SecondWrite(f1: Fields, f2: Fields, never: Item, gone: Item, live: Item, r: Request)
    requires gone == Item({}, false, [], 0, 3) && live == Item({}, true, [], 0, 3) && r == Request(3, {}, [])
    requires f1 == Fields([live, never, never], 0, 1, 3, 4) && f2 == Fields([gone, live, never], 1, 2, 3, 3)
    ensures After(f1, r, 4, 2) == Accept(f2)
  {
    var g := Fields([gone, never, never], 1, 1, 0, 3);
    assert Free(f1) == 1;
    OneRound(f1, r, 4, Retry(g));
    assert Free(g) == 3;
    TwoRounds(f1, r, 4, g, Accept(f2));
  }

  lemma {:induction false} ThirdWrite(f2: Fields, f3: Fields, never: Item, gone: Item, live: Item, r: Request)
    requires gone == Item({}, false, [], 0, 3) && live == Item({}, true, [], 0, 3) && r == Request(3, {}, [])
    requires f2 == Fields([gone, live, never], 1, 2, 3, 3) && f3 == Fields([gone, gone, live], 2, 0, 3, 3)
    ensures After(f2, r, 4, 3) == Accept(f3)
  {
    var g, h := f2.(wrEnd := 4), Fields([gone, gone, never], 2, 2, 0, 3);
    assert Free(f2) == 0;
    OneRound(f2, r, 4, Retry(g));
    assert Free(g) == 1;
    TwoRounds(f2, r, 4, g, Retry(h));
    assert Free(h) == 3;
    ThreeRounds(f2, r, 4, h, Accept(f3));
  }

  lemma {:induction false} NoRoomForFour(f: Fields, r: Request, gone: Item, live: Item)
    requires gone == Item({}, false, [], 0, 3) && live == Item({}, true, [], 0, 3)
    requires f == Fields([gone, gone, live], 2, 0, 3, 3) && r.len == 4
    ensures !Returns(f, r, 4)
  {
    assert Unpinned(f, 4) && Seen(f, 2);
    UnpinnedReturnsExactly(f, r, 4);
  }

  lemma {:induction false} OneRound(f: Fields, r: Request, memSize: nat, o: Outcome)
    requires InRange(f) && Round(f, r, memSize) == o
    ensures After(f, r, memSize, 1) == o
  {
    assert After(f, r, memSize, 0) == Retry(f);
  }

  lemma {:induction false} TwoRounds(f: Fields, r: Request, memSize: nat, g: Fields, o: Outcome)
    requires InRange(f) && InRange(g) && After(f, r, memSize, 1) == Retry(g) && Round(g, r, memSize) == o
    ensures After(f, r, memSize, 2) == o
  {
  }

  lemma {:induction false} ThreeRounds(f: Fields, r: Request, memSize: nat, g: Fields, o: Outcome)
    requires InRange(f) && InRange(g) && After(f, r, memSize, 2) == Retry(g) && Round(g, r, memSize) == o
    ensures After(f, r, memSize, 3) == o
  {
  }
}
