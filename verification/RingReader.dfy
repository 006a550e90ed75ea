/** The steps of `RingDelivery` are what the calls of `RingQueue` do, so a reader that calls them is given
    every item once, in order. */
module RingReader {
  import opened Basics
  import opened Bytes
  import opened RingArena
  import opened RingSpec
  import opened RingDelivery
  import Q = RingQueue

  lemma {:induction false} ValidWellFormed(q: Q.RingQueue)
    requires q.Valid()
    ensures WellFormed(q.queue)
  {
  }

  /** A write is a step of the run. */
  method Write(q: Q.RingQueue, data: seq<Byte>, header: seq<Byte>, bit: nat, ghost s: State)
    returns (ret: int, ghost s': State)
    requires q.Valid() && 3 <= q.queueSize && s.q == q.queue && 0 < |data|
    requires CanTake(q.arena, |data|) || Pins(q.arena)
    requires |header| <= MAX_HEADER_LEN
    modifies q, q.mem
    ensures q.Valid() && s'.q == q.queue
    ensures ret == OK || ret == ERR_FULL
    ensures ret == OK ==> Step(bit, s, RingDelivery.Write(data, header), s')
    ensures ret == ERR_FULL ==> Step(bit, s, RefusedWrite, s')
    ensures Roomy(old(q.arena)) && CanTake(old(q.arena), |data|) ==> Roomy(q.arena)
  {
    ValidWellFormed(q);
    ret := q.Write(Some(data), |data|, Some(header), |header|);
    ValidWellFormed(q);
    assert data[..|data|] == data && header[..|header|] == header;
    s' := s.(q := q.queue);
    if ret == OK {
      s' := s'.(written := s.written + [Payload(data, header)]);
    }
  }

  /** Somebody else's read, with a mask that leaves the reader's bit alone. */
  method OtherRead(q: Q.RingQueue, slot: nat, mask: Mask, dataLen: nat, headerLen: int, bit: nat, ghost s: State)
    returns (ret: int, ghost s': State)
    requires q.Valid() && s.q == q.queue && slot < q.queueSize && bit !in mask
    modifies q
    ensures q.Valid() && s'.q == q.queue && Step(bit, s, RingDelivery.OtherRead(slot, mask), s')
    ensures Roomy(old(q.arena)) ==> Roomy(q.arena)
  {
    ValidWellFormed(q);
    var index, data, header;
    ret, index, data, header := q.Read(Some(slot), mask, dataLen, headerLen, true);
    ValidWellFormed(q);
    s' := s.(q := q.queue);
  }

  /** The reader's own read from where it stands: the next item, cut to the room there is, or
      `ERR_AGAIN` when everything written has been read. Never `ERR_INVALID`. */
  method ReadNext(q: Q.RingQueue, index: Option<nat>, mask: Mask, dataLen: nat, headerLen: int, bit: nat,
      ghost s: State)
    returns (ret: int, index': Option<nat>, data: seq<Byte>, header: seq<Byte>, ghost s': State)
    requires q.Valid() && s.q == q.queue && s.next == index && Inv(bit, s)
    modifies q
    ensures q.Valid() && s'.q == q.queue && s'.next == index' && Step(bit, s, OwnRead(mask), s') && Inv(bit, s')
    ensures Roomy(old(q.arena)) ==> Roomy(q.arena)
    ensures |s.got| == |s.written| ==> ret == ERR_AGAIN && s'.got == s.got
    ensures |s.got| < |s.written| ==> ret == OK && s'.got == s.got + [s.written[|s.got|]]
    ensures |s.got| < |s.written| ==> data == Q.Prefix(s.written[|s.got|].data, dataLen)
    ensures |s.got| < |s.written| ==> header == Q.Prefix(s.written[|s.got|].header, headerLen)
  {
    OwnReadOutcome(bit, s);
    ret, index', data, header := q.Read(index, mask, dataLen, headerLen, true);
    ValidWellFormed(q);
    s' := s.(q := q.queue, next := index');
    if |s.got| < |s.written| {
      s' := s'.(got := s.got + [s.written[|s.got|]]);
    }
    StepKeeps(bit, s, OwnRead(mask), s');
  }
}
