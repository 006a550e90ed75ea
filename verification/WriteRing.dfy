/** The write ring between callers of `multiplex_io_write` and the epoll thread
    (apps/sysbus/lib_src/multiplex_io.c). */
module WriteRing {
  import opened Bytes

  const MIO_RB_BUF_SIZE := 1024 * 1024

  /** The cell `j` places after index `x` in a ring of `size`; an index may be equal to `size`. */
  function Cell(size: nat, x: nat, j: nat): nat {
    if x + j < size then x + j else x + j - size
  }

  /** `multiplex_io_rb_get_data_size` */
  function Len(size: nat, r: nat, w: nat): int {
    if r <= w then w - r else size - r + w
  }

  function FreeSize(size: nat, r: nat, w: nat): int {
    if r <= w then size - 1 - (w - r) else r - w - 1
  }

  /** Indices the ring can hold: at most `size - 1` bytes, and the write index leaves 0 for good. */
  predicate Indices(size: nat, r: nat, w: nat) {
    0 < size && r <= size && w <= size && 0 <= Len(size, r, w) <= size - 1 && (w == 0 ==> r == 0)
  }

  /** The first `n` unread bytes. */
  function View(mem: seq<Byte>, r: nat, n: nat): (v: seq<Byte>)
    requires r <= |mem| && n < |mem|
    ensures |v| == n
  {
    seq(n, j requires 0 <= j < n => mem[Cell(|mem|, r, j)])
  }

  lemma {:induction false} EmptyWhenEqual(size: nat, r: nat, w: nat)
    requires Indices(size, r, w)
    ensures Len(size, r, w) == 0 <==> r == w
    ensures FreeSize(size, r, w) == size - 1 - Len(size, r, w)
  {
  }

  /** Reading `k` bytes without passing the end of the array. */
  lemma {:induction false} Advanced(mem: seq<Byte>, r: nat, w: nat, k: nat)
    requires Indices(|mem|, r, w) && k <= Len(|mem|, r, w) && r + k <= |mem|
    ensures Indices(|mem|, r + k, w) && Len(|mem|, r + k, w) == Len(|mem|, r, w) - k
    ensures View(mem, r, Len(|mem|, r, w)) == mem[r..r + k] + View(mem, r + k, Len(|mem|, r + k, w))
  {
  }

  /** The index `size` stands for the same place as 0. */
  lemma {:induction false} Rewound(mem: seq<Byte>, w: nat)
    requires Indices(|mem|, |mem|, w) && w < |mem|
    ensures Indices(|mem|, 0, w) && Len(|mem|, 0, w) == Len(|mem|, |mem|, w)
    ensures View(mem, 0, Len(|mem|, 0, w)) == View(mem, |mem|, Len(|mem|, |mem|, w))
  {
  }

  /** The write index after `len` more bytes. */
  function NewIndex(size: nat, w: nat, len: nat): nat {
    if w + len <= size then w + len else w + len - size
  }

  /** Bytes placed in the cells after the write index extend the view. */
  lemma {:induction false} Published(mem: seq<Byte>, r: nat, w: nat, bytes: seq<Byte>)
    requires Indices(|mem|, r, w) && 0 < |bytes| <= FreeSize(|mem|, r, w)
    requires forall j :: 0 <= j < |bytes| ==> mem[Cell(|mem|, w, j)] == bytes[j]
    ensures Indices(|mem|, r, NewIndex(|mem|, w, |bytes|))
    ensures Len(|mem|, r, NewIndex(|mem|, w, |bytes|)) == Len(|mem|, r, w) + |bytes|
    ensures View(mem, r, Len(|mem|, r, w) + |bytes|) == View(mem, r, Len(|mem|, r, w)) + bytes
  {
    var n, l := |mem|, Len(|mem|, r, w);
    forall j | 0 <= j < |bytes| ensures Cell(n, r, l + j) == Cell(n, w, j) {
    }
  }

  /** A free cell is not in view. */
  lemma {:induction false} CopyUnseen(mem: seq<Byte>, r: nat, w: nat, j: nat, b: Byte)
    requires Indices(|mem|, r, w) && j < FreeSize(|mem|, r, w)
    ensures Cell(|mem|, w, j) < |mem|
    ensures View(mem[Cell(|mem|, w, j) := b], r, Len(|mem|, r, w)) == View(mem, r, Len(|mem|, r, w))
  {
    var n := |mem|;
    assert forall i :: 0 <= i < Len(n, r, w) ==> Cell(n, r, i) != Cell(n, w, j);
  }

  lemma {:induction false} CellsDiffer(size: nat, w: nat, i: nat, j: nat)
    requires w <= size && i < j < size
    ensures Cell(size, w, i) != Cell(size, w, j)
  {
  }

  /** The array once the first `n` bytes have been put into the cells from index `w` on. */
  function Filled(mem: seq<Byte>, w: nat, bytes: seq<Byte>, n: nat): (r: seq<Byte>)
    requires n <= |bytes| && w <= |mem| && |bytes| < |mem|
    ensures |r| == |mem|
  {
    if n == 0 then mem else Filled(mem, w, bytes, n - 1)[Cell(|mem|, w, n - 1) := bytes[n - 1]]
  }

  lemma {:induction false} FilledAt(mem: seq<Byte>, w: nat, bytes: seq<Byte>, n: nat)
    requires n <= |bytes| && w <= |mem| && |bytes| < |mem|
    ensures forall j :: 0 <= j < n ==> Filled(mem, w, bytes, n)[Cell(|mem|, w, j)] == bytes[j]
    ensures forall i :: 0 <= i < |mem| && !(w <= i < w + n) && !(i + |mem| < w + n) ==>
        Filled(mem, w, bytes, n)[i] == mem[i]
  {
    if n > 0 {
      FilledAt(mem, w, bytes, n - 1);
      forall j | 0 <= j < n - 1 ensures Cell(|mem|, w, j) != Cell(|mem|, w, n - 1) {
        CellsDiffer(|mem|, w, j, n - 1);
      }
    }
  }

  /** There is only one such array. */
  lemma {:induction false} FilledExactly(m: seq<Byte>, m': seq<Byte>, w: nat, bytes: seq<Byte>)
    requires |m| == |m'| && w <= |m| && |bytes| < |m|
    requires forall j :: 0 <= j < |bytes| ==> m'[Cell(|m|, w, j)] == bytes[j]
    requires forall i :: 0 <= i < |m| && !(w <= i < w + |bytes|) && !(i + |m| < w + |bytes|) ==> m'[i] == m[i]
    ensures m' == Filled(m, w, bytes, |bytes|)
  {
    FilledAt(m, w, bytes, |bytes|);
    forall i | 0 <= i < |m| ensures m'[i] == Filled(m, w, bytes, |bytes|)[i] {
      if w <= i < w + |bytes| {
        assert Cell(|m|, w, i - w) == i;
      } else if i + |m| < w + |bytes| {
        assert Cell(|m|, w, i + |m| - w) == i;
      }
    }
  }

  class MioRb {
    var rIdx: nat
    var wIdx: nat
    const data: array<Byte>

    ghost predicate Valid()
      reads this
    {
      Indices(data.Length, rIdx, wIdx)
    }

    ghost function Contents(): seq<Byte>
      requires Valid()
      reads this, data
    {
      View(data[..], rIdx, Len(data.Length, rIdx, wIdx))
    }

    constructor ()
      ensures Valid() && Contents() == [] && fresh(data) && data.Length == MIO_RB_BUF_SIZE
    {
      data := new Byte[MIO_RB_BUF_SIZE];
      rIdx, wIdx := 0, 0;
    }

    /** `memcpy` to a stretch of the ring that is not in view. */
    method Copy(at: nat, bytes: seq<Byte>)
      requires at + |bytes| <= data.Length
      modifies data
      ensures forall i :: 0 <= i < |bytes| ==> data[at + i] == bytes[i]
      ensures forall i :: 0 <= i < data.Length && !(at <= i < at + |bytes|) ==> data[i] == old(data[i])
    {
      for i := 0 to |bytes|
        invariant forall j :: 0 <= j < i ==> data[at + j] == bytes[j]
        invariant forall j :: 0 <= j < data.Length && !(at <= j < at + |bytes|) ==> data[j] == old(data[j])
      {
        data[at + i] := bytes[i];
      }
    }

    /** `multiplex_io_rb_write_data`: all of `bytes` or nothing. */
    method WriteData(bytes: seq<Byte>) returns (ret: nat)
      requires Valid()
      modifies this, data
      ensures Valid() && rIdx == old(rIdx)
      ensures ret == if |bytes| <= data.Length - 1 - |old(Contents())| then |bytes| else 0
      ensures Contents() == if |bytes| <= data.Length - 1 - |old(Contents())| then old(Contents()) + bytes
          else old(Contents())
      ensures |bytes| <= FreeSize(data.Length, rIdx, old(wIdx)) ==> wIdx == NewIndex(data.Length, old(wIdx), |bytes|)
      ensures |bytes| <= FreeSize(data.Length, rIdx, old(wIdx)) ==>
        data[..] == Filled(old(data[..]), old(wIdx), bytes, |bytes|)
      ensures |bytes| > FreeSize(data.Length, rIdx, old(wIdx)) ==> wIdx == old(wIdx) && data[..] == old(data[..])
    {
      var size, r, w, len := data.Length, rIdx, wIdx, |bytes|;
      var freeSize, tmp;
      if r <= w {
        freeSize := size - 1 - (w - r);
        tmp := size - w;
      } else {
        freeSize := r - w - 1;
        tmp := freeSize;
      }
      if freeSize < len {
        return 0;
      }
      ghost var m := data[..];
      if tmp >= len {
        Copy(w, bytes);
        w := w + len;
      } else {
        Copy(w, bytes[..tmp]);
        Copy(0, bytes[tmp..]);
        w := len - tmp;
      }
      Stored(m, data[..], r, wIdx, bytes);
      FilledExactly(m, data[..], wIdx, bytes);
      wIdx := w;
      ret := len;
    }

    /** `multiplex_io_rb_get_data_size` */
    method GetDataSize() returns (n: nat)
      requires Valid()
      ensures n == |Contents()|
    {
      var r, w := rIdx, wIdx;
      if r <= w {
        n := w - r;
      } else {
        n := data.Length - r + w;
      }
    }
  }

  lemma {:induction false} Stored(m: seq<Byte>, m': seq<Byte>, r: nat, w: nat, bytes: seq<Byte>)
    requires |m| == |m'| && Indices(|m|, r, w) && |bytes| <= FreeSize(|m|, r, w)
    requires forall j :: 0 <= j < |bytes| ==> m'[Cell(|m|, w, j)] == bytes[j]
    requires forall i :: 0 <= i < |m| && !(w <= i < w + |bytes|) && !(i + |m| < w + |bytes|) ==> m'[i] == m[i]
    ensures Indices(|m|, r, NewIndex(|m|, w, |bytes|))
    ensures View(m', r, Len(|m|, r, NewIndex(|m|, w, |bytes|))) == View(m, r, Len(|m|, r, w)) + bytes
  {
    var n, l := |m|, Len(|m|, r, w);
    assert View(m', r, l) == View(m, r, l);
    if bytes != [] {
      Published(m', r, w, bytes);
    }
  }
}
