/** What callers see: a bounded queue of entries, each pinned by the readers in its mask.
    A predicate compared with `true` in a contract is proved as one fact, not conjunct by conjunct. */
module RingSpec {
  import opened Basics
  import opened Bytes
  import opened RingArena

  datatype Entry = Entry(data: seq<Byte>, header: seq<Byte>, mask: Mask)

  /** `evicted` counts the entries dropped so far; the entry at position k is number `evicted + k`
      of all entries ever written and sits in slot `(evicted + k) % slots`. */
  datatype Queue = Queue(slots: nat, evicted: nat, entries: seq<Entry>, userMask: Mask)

  const OK := 0
  const ERR_INPUT := -1
  const ERR_FULL := -2
  const ERR_AGAIN := -3
  const ERR_INVALID := -4
  const MAX_HEADER_LEN := 128

  predicate WellFormed(q: Queue) {
    2 <= q.slots && |q.entries| < q.slots
  }

  /** The slot of entry number `i` in a ring of `n`: `i` reduced modulo `n`. */
  function Slot(i: nat, n: nat): (s: nat)
    requires 0 < n
    ensures s < n
  {
    if i < n then i else Slot(i - n, n)
  }

  /** The `next` and `prev` links of the ring that `VCAR_SYS_RingQueueCreat` builds. */
  function NextSlot(s: nat, n: nat): (t: nat)
    requires s < n
    ensures t < n && PrevSlot(t, n) == s
  {
    if s == n - 1 then 0 else s + 1
  }

  function PrevSlot(s: nat, n: nat): (t: nat)
    requires s < n
    ensures t < n
  {
    if s == 0 then n - 1 else s - 1
  }

  lemma {:induction false} SlotNext(i: nat, n: nat)
    requires 0 < n
    ensures Slot(i + 1, n) == NextSlot(Slot(i, n), n)
    ensures Slot(i + n, n) == Slot(i, n)
  {
    if i >= n {
      SlotNext(i - n, n);
    }
  }

  /** Numbers less than `n` apart have different slots. */
  lemma {:induction false} SlotsDiffer(i: nat, j: nat, n: nat)
    requires i < j < i + n
    ensures Slot(i, n) != Slot(j, n)
  {
    if i >= n {
      SlotsDiffer(i - n, j - n, n);
    }
  }

  lemma {:induction false} OthersDiffer(base: nat, t: nat, n: nat)
    requires base <= t < base + n
    ensures forall i :: base <= i < base + n && i != t ==> Slot(i, n) != Slot(t, n)
  {
    forall i | base <= i < base + n && i != t ensures Slot(i, n) != Slot(t, n) {
      if i < t {
        SlotsDiffer(i, t, n);
      } else {
        SlotsDiffer(t, i, n);
      }
    }
  }

  /** Dropping the first `k` entries, all of them read by every reader. */
  ghost predicate Dropped(q: Queue, q': Queue, k: nat) {
    && k <= |q.entries| && (forall i :: 0 <= i < k ==> q.entries[i].mask == {})
    && q' == q.(evicted := q.evicted + k, entries := q.entries[k..])
  }

  /** A successful write: some read entries go from the front, the new one comes at the end. */
  ghost predicate Wrote(q: Queue, q': Queue, data: seq<Byte>, header: seq<Byte>) {
    exists k: nat, m: Queue :: Dropped(q, m, k) && q' == m.(entries := m.entries + [Entry(data, header, q.userMask)])
  }

  /** A refused write: some read entries may still have gone, up to one that a reader pins. */
  ghost predicate Refused(q: Queue, q': Queue) {
    (exists k: nat :: Dropped(q, q', k)) && q'.entries != [] && q'.entries[0].mask != {}
  }

  lemma {:induction false} DroppedTwice(q: Queue, m: Queue, q': Queue, k: nat, l: nat)
    requires Dropped(q, m, k) == true && Dropped(m, q', l) == true
    ensures Dropped(q, q', k + l)
  {
    forall i | 0 <= i < k + l ensures q.entries[i].mask == {} {
      if i >= k {
        assert q.entries[i] == m.entries[i - k];
      }
    }
    assert q.entries[k..][l..] == q.entries[k + l..];
  }

  // ----- reading -----

  datatype ReadResult = ReadOk(entry: Entry, nextSlot: nat) | Again | Invalid

  function HeadSlot(q: Queue): nat
    requires WellFormed(q)
  {
    Slot(q.evicted, q.slots)
  }

  function TailSlot(q: Queue): nat
    requires WellFormed(q)
  {
    Slot(q.evicted + |q.entries|, q.slots)
  }

  /** The position of a slot counted from the head: below `|entries|` the entry there is live. */
  function Position(q: Queue, slot: nat): (k: nat)
    requires WellFormed(q) && slot < q.slots
  {
    var h := HeadSlot(q);
    if h <= slot then slot - h else slot + q.slots - h
  }

  lemma {:induction false} SlotAhead(i: nat, k: nat, n: nat)
    requires k < n
    ensures Slot(i + k, n) == if Slot(i, n) + k < n then Slot(i, n) + k else Slot(i, n) + k - n
  {
    if i >= n {
      SlotAhead(i - n, k, n);
    }
  }

  /** `Position` is the inverse of `Slot` within one turn of the ring. */
  lemma {:induction false} PositionInverse(q: Queue, slot: nat)
    requires WellFormed(q) && slot < q.slots
    ensures Position(q, slot) < q.slots && Slot(q.evicted + Position(q, slot), q.slots) == slot
  {
    SlotAhead(q.evicted, Position(q, slot), q.slots);
  }

  lemma {:induction false} PositionUnique(q: Queue, k: nat)
    requires WellFormed(q) && k < q.slots
    ensures Position(q, Slot(q.evicted + k, q.slots)) == k
  {
    SlotAhead(q.evicted, k, q.slots);
  }

  function StartSlot(q: Queue, index: Option<nat>, fromHead: bool): nat
    requires WellFormed(q)
  {
    match index
    case Some(s) => s
    case None => if fromHead then HeadSlot(q) else PrevSlot(TailSlot(q), q.slots)
  }

  function ReadAt(q: Queue, slot: nat): (r: ReadResult)
    requires WellFormed(q) && slot < q.slots
  {
    var k := Position(q, slot);
    if slot == TailSlot(q) then Again
    else if k < |q.entries| then ReadOk(q.entries[k], NextSlot(slot, q.slots))
    else Invalid
  }

  function Cleared(e: Entry, mask: Mask): Entry {
    e.(mask := e.mask - mask)
  }

  function AfterRead(q: Queue, slot: nat, mask: Mask): Queue
    requires WellFormed(q) && slot < q.slots
  {
    if ReadAt(q, slot).ReadOk? then
      var k := Position(q, slot);
      q.(entries := q.entries[k := Cleared(q.entries[k], mask)])
    else q
  }
}
