/**
 Ring indices.  The size is a power of two and the source masks with `size - 1`;
 here the mask is the remainder, and MaskIsRemainder is why that is the same.
 */
module RingIndex {
  import opened Division
  import opened MinMax

  function Next(idx: nat, size: nat): (r: nat)
    requires 0 < size
    ensures r < size
  {
    (idx + 1) % size
  }

  /** Advancing the wrapped index is advancing the count. */
  lemma NextOf(x: int, m: nat)
    requires 0 < m
    ensures Next(x % m, m) == (x + 1) % m
  {
    var q, r := x / m, x % m;
    assert x == q * m + r;
    if r + 1 < m {
      QuotientIs(r + 1, m, 0, r + 1);
      QuotientIs(x + 1, m, q, r + 1);
    } else {
      QuotientIs(r + 1, m, 1, 0);
      assert (q + 1) * m == q * m + m;
      QuotientIs(x + 1, m, q + 1, 0);
    }
  }

  /** An index at most one lap ahead, brought back into the ring. */
  function Wrap(x: nat, size: nat): (r: nat)
    requires x < 2 * size
    ensures r < size
  {
    if x < size then x else x - size
  }

  lemma WrapIsMod(x: nat, size: nat)
    requires x < 2 * size
    ensures Wrap(x, size) == x % size
  {
    QuotientIs(x, size, if x < size then 0 else 1, Wrap(x, size));
  }

  lemma WrapNext(x: nat, size: nat)
    requires x + 1 < 2 * size
    ensures Next(Wrap(x, size), size) == Wrap(x + 1, size)
  {
    WrapIsMod(x, size);
    NextOf(x, size);
    WrapIsMod(x + 1, size);
  }

  /** Less than a lap apart, equal indices mean equal counts. */
  lemma OneLap(rd: nat, j: nat, k: nat, size: nat)
    requires rd < size && j < size && k < size
    ensures Wrap(rd + j, size) == Wrap(rd + k, size) <==> j == k
  {
  }

  /** The slot of the j-th buffer posted after `p` buffers from slot `h` on. */
  function SlotOf(h: nat, p: nat, j: nat, size: nat): (slot: nat)
    requires 0 < size
  {
    (h + p + j) % size
  }

  /** Why the descriptor step must come before the refill.  With `p` buffers posted from slot
      `h` on and `m` of them popped, a refill of `k` writes slot `h` again exactly when the
      buffers of before and the new ones together are more than a lap. */
  lemma RefillReusesHead(h: nat, p: nat, m: nat, k: nat, size: nat)
    requires h < size && 0 < p < size && m <= p && p - m + k < size
    ensures (exists j :: 0 <= j < k && SlotOf(h, p, j, size) == h) <==> size < p + k
  {
    if size < p + k {
      QuotientIs(h + p + (size - p), size, 1, h);
      assert SlotOf(h, p, size - p, size) == h;
    } else {
      forall j | 0 <= j < k ensures SlotOf(h, p, j, size) != h {
        var x := h + p + j;
        QuotientIs(x, size, if x < size then 0 else 1, if x < size then x else x - size);
      }
    }
  }

  /** The masked index difference is the number of steps between the indices. */
  lemma Distance(rd: nat, n: nat, size: nat)
    requires rd < size && n < size
    ensures (Wrap(rd + n, size) - rd) % size == n
  {
    if rd + n < size {
      QuotientIs(n, size, 0, n);
    } else {
      QuotientIs(n - size, size, -1, n);
    }
  }

  /** For the sizes a ring can have (RingSize), masking with `size - 1` is the remainder. */
  lemma MaskIsRemainder(x: bv32)
    ensures x & 127 == x % 128 && x & 255 == x % 256 && x & 511 == x % 512
    ensures x & 1023 == x % 1024 && x & 2047 == x % 2048
  {
  }

  /*--- sizing ---*/

  const HTT_RX_RING_SIZE_MIN: nat := 128
  const HTT_RX_RING_SIZE_MAX: nat := 2048
  const HTT_RX_AVG_FRM_BYTES: nat := 1000
  const HTT_RX_HOST_LATENCY_MAX_MS: nat := 20
  const HTT_RX_HOST_LATENCY_WORST_LIKELY_MS: nat := 10

  /** adf_os_get_pwr2, counting up from the power of two `p`. */
  function Pwr2AtLeast(v: nat, p: nat): (r: nat)
    requires 0 < p
    ensures v <= r && p <= r && (p < v ==> r < 2 * v)
    decreases v - p
  {
    if v <= p then p else Pwr2AtLeast(v, 2 * p)
  }

  /** htt_rx_ring_size, for a configured throughput in Mbps */
  function RingSize(mbps: nat): (size: nat)
    ensures size == 128 || size == 256 || size == 512 || size == 1024 || size == 2048
  {
    var frames := mbps * 1000 / (8 * HTT_RX_AVG_FRM_BYTES) * HTT_RX_HOST_LATENCY_MAX_MS;
    var size := if frames < HTT_RX_RING_SIZE_MIN then HTT_RX_RING_SIZE_MIN
                else if frames > HTT_RX_RING_SIZE_MAX then HTT_RX_RING_SIZE_MAX else frames;
    assert Pwr2AtLeast(size, 1) == Pwr2AtLeast(size, 2) == Pwr2AtLeast(size, 4) == Pwr2AtLeast(size, 8)
        == Pwr2AtLeast(size, 16) == Pwr2AtLeast(size, 32) == Pwr2AtLeast(size, 64) == Pwr2AtLeast(size, 128);
    assert Pwr2AtLeast(size, 256) == if size <= 256 then 256 else if size <= 512 then 512
           else Pwr2AtLeast(size, 1024);
    Pwr2AtLeast(size, 1)
  }

  /** htt_rx_ring_fill_level */
  function FillLevel(mbps: nat): (level: nat)
    ensures level < RingSize(mbps)
  {
    var level := mbps * 1000 / (8 * HTT_RX_AVG_FRM_BYTES) * HTT_RX_HOST_LATENCY_WORST_LIKELY_MS;
    if level >= RingSize(mbps) then RingSize(mbps) - 1 else level
  }

  /** The least ring, between the two limits, with room for 20 ms of frames. */
  lemma RingSizeIsLeast(mbps: nat)
    ensures var size, frames := RingSize(mbps), mbps / 8 * 20;
      && (frames <= size || size == 2048)
      && (size < 2 * frames || size == 128)
  {
    assert mbps * 1000 / 8000 == mbps / 8;
    var size := if mbps / 8 * 20 < 128 then 128 else if mbps / 8 * 20 > 2048 then 2048 else mbps / 8 * 20;
    assert RingSize(mbps) == Pwr2AtLeast(size, 1);
    Doubles(size);
  }

  lemma Doubles(size: nat)
    requires 128 <= size <= 2048
    ensures Pwr2AtLeast(size, 1) == Pwr2AtLeast(size, 128)
    ensures size == 128 ==> Pwr2AtLeast(size, 1) == 128
  {
    assert Pwr2AtLeast(size, 1) == Pwr2AtLeast(size, 2) == Pwr2AtLeast(size, 4) == Pwr2AtLeast(size, 8)
        == Pwr2AtLeast(size, 16) == Pwr2AtLeast(size, 32) == Pwr2AtLeast(size, 64) == Pwr2AtLeast(size, 128);
  }

  /** The frames of 10 ms, or one less than the ring holds. */
  lemma FillLevelIs(mbps: nat)
    ensures FillLevel(mbps) == Min(mbps / 8 * 10, RingSize(mbps) - 1)
  {
    assert mbps * 1000 / 8000 == mbps / 8;
  }

  /** The level is cut short only by the largest ring; below that the ring has room to spare. */
  lemma LevelIsUncutBelowMax(mbps: nat)
    ensures RingSize(mbps) < 2048 ==>
              FillLevel(mbps) == mbps / 8 * 10 && 2 * FillLevel(mbps) <= RingSize(mbps)
    ensures FillLevel(mbps) == RingSize(mbps) - 1 <==> mbps / 8 >= 205
  {
    var q := mbps / 8;
    assert mbps * 1000 / 8000 == q;
  }
}
