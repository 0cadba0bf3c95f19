/**
 Network buffers (`adf_nbuf_t`, a Linux `sk_buff`).  The bytes between the data
 pointer and the tail are one sequence, so `adf_nbuf_len` is its length.
 */
module Nbufs {

  type Byte = b: nat | b < 0x100

  /** A 32-bit physical address. */
  type Paddr = a: nat | a < 0x1_0000_0000

  /** The fields of the hardware rx descriptor that the rx path reads; the MAC
      has written them before the buffer is popped. */
  datatype RxDesc = RxDesc(chained: nat, last: bool, msduLen: nat, lenErr: bool)

  class Nbuf {
    var next: Nbuf?            // skb->next: both the MSDU list and the extension list
    var data: seq<Byte>        // from the data pointer to the tail
    var fwDesc: Byte           // fw_desc.u.val of the rx descriptor
    const rxDesc: RxDesc       // attention, frag_info, msdu_start and msdu_end words
    const dma: seq<Byte>       // the whole mapped buffer as the MAC left it
    const hdrStatus: seq<Byte> // rx_hdr_status of the rx descriptor

    constructor (rxDesc: RxDesc, dma: seq<Byte>, hdrStatus: seq<Byte>)
      ensures next == null && data == []
      ensures this.rxDesc == rxDesc && this.dma == dma && this.hdrStatus == hdrStatus
    {
      next, data, fwDesc := null, [], 0;
      this.rxDesc, this.dma, this.hdrStatus := rxDesc, dma, hdrStatus;
    }
  }

  /** A buffer posted to the MAC under its physical address. */
  datatype Posting = Posting(paddr: Paddr, buf: Nbuf)

  function Bufs(s: seq<Posting>): (r: seq<Nbuf>)
    ensures |r| == |s|
    ensures forall i :: 0 <= i < |s| ==> r[i] == s[i].buf
  {
    seq(|s|, i requires 0 <= i < |s| => s[i].buf)
  }

  /** What the allocator and the DMA mapping do in one iteration of the refill loop; `entryOk` says
      whether the heap would give a hash entry, where one is needed. */
  datatype Supply =
    | NoBuffer
    | MapFailed(unmapped: Nbuf)
    | Mapped(posting: Posting, entryOk: bool)

  ghost predicate Distinct<T>(s: seq<T>) {
    forall i, j :: 0 <= i < j < |s| ==> s[i] != s[j]
  }

  /** `s` is linked in this order, with `after` behind it. */
  ghost predicate Chained(s: seq<Nbuf>, after: Nbuf?)
    reads (set b | b in s)`next
  {
    forall j {:trigger s[j].next} :: 0 <= j < |s| ==>
      s[j].next == if j + 1 < |s| then s[j + 1] else after
  }

  /*--- skb byte operations ---*/

  const HTT_RX_BUF_SIZE: nat := 1920

  /** skb_pull: does nothing when there are fewer than `n` bytes. */
  function PullHead(data: seq<Byte>, n: nat): (r: seq<Byte>) {
    if n <= |data| then data[n..] else data
  }

  /** adf_nbuf_trim_tail: skb_trim to `len - size`.  The new length is unsigned, so a
      `size` above the length asks for more than there is, and a negative one too:
      skb_trim then leaves the buffer alone. */
  function TrimTail(data: seq<Byte>, size: int): (r: seq<Byte>) {
    if 0 <= |data| - size < |data| then data[..|data| - size] else data
  }

  /** A received buffer's bytes after set_pktlen, pull_head and trim_tail.  `desc` is
      RX_STD_DESC_SIZE, which is also the reservation since it is above 32. */
  function Payload(dma: seq<Byte>, desc: nat, msduLen: nat): (r: seq<Byte>) {
    TrimTail(PullHead(dma, desc), HTT_RX_BUF_SIZE - (desc + msduLen))
  }

  /** For every reported length the buffer ends up holding the bytes after the rx
      descriptor, cut to that length when it fits. */
  lemma PayloadIsMsdu(dma: seq<Byte>, desc: nat, msduLen: nat)
    requires |dma| == 1920 && desc <= 1920
    ensures Payload(dma, desc, msduLen) ==
            if desc + msduLen <= 1920 then dma[desc..desc + msduLen] else dma[desc..]
  {
    assert |PullHead(dma, desc)| == HTT_RX_BUF_SIZE - desc;
    if desc + msduLen <= HTT_RX_BUF_SIZE {
      assert dma[desc..][..msduLen] == dma[desc..desc + msduLen];
    }
  }
}
