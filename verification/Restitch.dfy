/**
 Rebuilding an MPDU from its decapsulated MSDUs (decap branch of
 htt_rx_restitch_mpdu_from_msdus), when allocations and tail extensions succeed.
 */
module Restitch {
  import opened Nbufs

  /** Bytes missing to a multiple of four. */
  function PadTo4(len: nat): (n: nat)
    ensures n < 4 && (len + n) % 4 == 0
  {
    var r := len % 4;
    if r == 0 then 0 else 4 - r
  }

  /** One MSDU as it goes back on the air: the header bytes saved in its rx descriptor, its
      payload, and whatever the three bytes behind the payload happen to hold. */
  datatype Sub = Sub(hdr: seq<Byte>, body: seq<Byte>, junk: seq<Byte>) {
    ghost predicate Valid(llc: nat) {
      |hdr| == llc && |junk| == 3
    }

    function PadLen(): (n: nat)
      ensures n < 4 && (|hdr| + |body| + n) % 4 == 0
    {
      PadTo4(|hdr| + |body|)
    }

    /** The filler up to the next subframe; its bytes are not written by anyone. */
    function Pad(): (p: seq<Byte>)
      requires |junk| == 3
      ensures |p| == PadLen()
    {
      junk[..PadLen()]
    }
  }

  ghost predicate AllValid(subs: seq<Sub>, llc: nat) {
    forall i :: 0 <= i < |subs| ==> subs[i].Valid(llc)
  }

  /** The filler in front of subframe `i`. */
  function PadBefore(subs: seq<Sub>, i: nat): (p: seq<Byte>)
    requires i <= |subs| && forall j :: 0 <= j < |subs| ==> |subs[j].junk| == 3
    ensures |p| < 4
  {
    if i == 0 then [] else subs[i - 1].Pad()
  }

  /** What follows the 802.11 header on the air, up to the end of the i-th payload. */
  function Air(subs: seq<Sub>, i: nat): (r: seq<Byte>)
    requires i <= |subs| && forall j :: 0 <= j < |subs| ==> |subs[j].junk| == 3
  {
    if i == 0 then [] else Air(subs, i - 1) + PadBefore(subs, i - 1) + subs[i - 1].hdr + subs[i - 1].body
  }

  /** Where subframe `i` starts, counted from the end of the 802.11 header. */
  function Offset(subs: seq<Sub>, i: nat): (n: nat)
    requires i < |subs| && forall j :: 0 <= j < |subs| ==> |subs[j].junk| == 3
  {
    |Air(subs, i)| + |PadBefore(subs, i)|
  }

  lemma AirLength(subs: seq<Sub>, i: nat)
    requires i < |subs| && forall j :: 0 <= j < |subs| ==> |subs[j].junk| == 3
    ensures |Air(subs, i + 1)| == Offset(subs, i) + (|subs[i].hdr| + |subs[i].body|)
  {
  }

  /** Every subframe starts on a 4-byte boundary relative to the first. */
  lemma {:induction false} SubframesAligned(subs: seq<Sub>, i: nat)
    requires i < |subs| && forall j :: 0 <= j < |subs| ==> |subs[j].junk| == 3
    ensures Offset(subs, i) % 4 == 0 && (i == 0 ==> Offset(subs, i) == 0)
  {
    if i > 0 {
      hide Air, PadTo4;
      SubframesAligned(subs, i - 1);
      AirLength(subs, i - 1);
      Mod4Sum(Offset(subs, i - 1), |subs[i - 1].hdr| + |subs[i - 1].body| + subs[i - 1].PadLen());
    }
  }

  /** It is the next one behind the subframe before; the last subframe ends the frame. */
  lemma NextBoundary(subs: seq<Sub>, i: nat)
    requires i < |subs| && forall j :: 0 <= j < |subs| ==> |subs[j].junk| == 3
    ensures var end := Offset(subs, i) + |subs[i].hdr| + |subs[i].body|;
      if i + 1 < |subs| then Offset(subs, i + 1) % 4 == 0 && end <= Offset(subs, i + 1) < end + 4
      else |Air(subs, |subs|)| == end
  {
    hide Air, PadTo4;
    AirLength(subs, i);
    if i + 1 < |subs| {
      SubframesAligned(subs, i + 1);
    }
  }

  lemma Mod4Sum(a: nat, b: nat)
    requires a % 4 == 0 && b % 4 == 0
    ensures (a + b) % 4 == 0
  {
  }

  lemma {:induction false} AirGrows(subs: seq<Sub>, i: nat, n: nat)
    requires i <= n <= |subs| && forall j :: 0 <= j < |subs| ==> |subs[j].junk| == 3
    ensures Air(subs, i) <= Air(subs, n)
    decreases n
  {
    if i < n {
      AirGrows(subs, i, n - 1);
      var s := subs[n - 1];
      Assoc4(Air(subs, n - 1), PadBefore(subs, n - 1), s.hdr, s.body);
    }
  }

  lemma Assoc4(a: seq<Byte>, b: seq<Byte>, c: seq<Byte>, d: seq<Byte>)
    ensures a + b + c + d == a + (b + c + d) && a + b + c + d == (a + b) + (c + d)
  {
  }

  lemma AirNext(subs: seq<Sub>, i: nat)
    requires i < |subs| && forall j :: 0 <= j < |subs| ==> |subs[j].junk| == 3
    ensures Air(subs, i + 1) == Air(subs, i) + PadBefore(subs, i) + subs[i].hdr + subs[i].body
    ensures Offset(subs, i) == |Air(subs, i)| + |PadBefore(subs, i)|
  {
  }

  /** Each subframe can be read back at its offset: header, then payload. */
  lemma SubframeAt(subs: seq<Sub>, i: nat)
    requires i < |subs| && forall j :: 0 <= j < |subs| ==> |subs[j].junk| == 3
    ensures var o, s, a := Offset(subs, i), subs[i], Air(subs, |subs|);
      o + |s.hdr| + |s.body| <= |a| && a[o..o + |s.hdr| + |s.body|] == s.hdr + s.body
  {
    hide Sub.PadLen, PadTo4, Offset;
    var s := subs[i];
    AirGrows(subs, i + 1, |subs|);
    AirNext(subs, i);
    hide Air, PadBefore;
    Assoc4(Air(subs, i), PadBefore(subs, i), s.hdr, s.body);
    Middle(Air(subs, i) + PadBefore(subs, i), s.hdr + s.body, Air(subs, |subs|));
  }

  lemma Middle(a: seq<Byte>, b: seq<Byte>, whole: seq<Byte>)
    requires a + b <= whole
    ensures |a| + |b| <= |whole| && whole[|a|..|a| + |b|] == b
  {
    assert whole[..|a + b|] == a + b;
    assert whole[|a|..|a| + |b|] == whole[..|a + b|][|a|..];
  }

  /*--- fragments ---*/

  function Flat(frags: seq<seq<Byte>>): (r: seq<Byte>) {
    if frags == [] then [] else Flat(frags[..|frags| - 1]) + frags[|frags| - 1]
  }

  lemma FlatSnoc(frags: seq<seq<Byte>>, x: seq<Byte>)
    ensures Flat(frags + [x]) == Flat(frags) + x
  {
    assert (frags + [x])[..|frags|] == frags;
  }

  lemma Assoc(a: seq<Byte>, b: seq<Byte>, c: seq<Byte>)
    ensures a + (b + c) == a + b + c
  {
  }

  lemma FlatExtend(front: seq<seq<Byte>>, last: seq<Byte>, tail: seq<Byte>, next: seq<Byte>)
    ensures Flat(front + [last + tail] + [next]) == Flat(front + [last]) + tail + next
  {
    hide Flat;
    FlatSnoc(front + [last + tail], next);
    FlatSnoc(front, last + tail);
    FlatSnoc(front, last);
    Assoc(Flat(front), last, tail);
  }

  lemma FlatOne(x: seq<Byte>)
    ensures Flat([x]) == x
  {
    assert [x][..0] == [];
  }

  function U32(x: int): (r: nat)
    ensures r < 0x1_0000_0000
  {
    x % 0x1_0000_0000
  }

  /*--- the 802.11 header in the rx descriptor status ---*/

  const RX_HTT_HDR_STATUS_LEN: nat := 64

  /** sizeof(struct ieee80211_frame), a fourth address between access points, and QoS control */
  function WifiHdrLen(status: seq<Byte>): (n: nat)
    requires |status| == RX_HTT_HDR_STATUS_LEN
    ensures n == 24 || n == 26 || n == 30 || n == 32
  {
    24 + (if status[1] % 4 == 3 then 6 else 0) + (if HasQos(status) then 2 else 0)
  }

  predicate HasQos(status: seq<Byte>)
    requires |status| == RX_HTT_HDR_STATUS_LEN
  {
    status[0] / 0x80 % 2 == 1
  }

  predicate IsAmsdu(status: seq<Byte>)
    requires |status| == RX_HTT_HDR_STATUS_LEN
  {
    HasQos(status) && status[24 + if status[1] % 4 == 3 then 6 else 0] / 0x80 % 2 == 1
  }

  /** Bytes of per-MSDU header: LLC/SNAP, with an A-MSDU subframe header in front if it is one. */
  function LlcLen(status: seq<Byte>): (n: nat)
    requires |status| == RX_HTT_HDR_STATUS_LEN
    ensures n == 8 || n == 22
  {
    if IsAmsdu(status) then 14 + 8 else 8
  }

  /** In the first status the MSDU header comes after the 802.11 header and a 2-byte pad that
      brings it to a 4-byte boundary; in the others it comes first. */
  function MsduHdr(status: seq<Byte>, first: bool, llc: nat): (h: seq<Byte>)
    requires |status| == RX_HTT_HDR_STATUS_LEN && llc <= 22
    ensures |h| == llc
  {
    var w := WifiHdrLen(status);
    var o := if !first then 0 else if w % 4 != 0 then w + 2 else w;
    status[o..o + llc]
  }

  const DECAP_HDR: nat := 14

  /*--- the stitching loop ---*/

  function SubOf(status: seq<Byte>, data: seq<Byte>, junk: seq<Byte>, first: bool, llc: nat): (s: Sub)
    requires |status| == RX_HTT_HDR_STATUS_LEN && llc <= 22 && DECAP_HDR <= |data|
  {
    Sub(MsduHdr(status, first, llc), data[DECAP_HDR..], junk)
  }

  /** An MSDU list and its contents: descriptor statuses of the right size, a decap header in
      front of every payload.  `junk` is what the tail room behind each payload holds. */
  ghost predicate Input(orig: seq<Nbuf>, datas: seq<seq<Byte>>, junk: seq<seq<Byte>>) {
    && orig != [] && |datas| == |orig| == |junk|
    && (forall i :: 0 <= i < |orig| ==> |orig[i].hdrStatus| == RX_HTT_HDR_STATUS_LEN)
    && (forall i :: 0 <= i < |datas| ==> DECAP_HDR <= |datas[i]|)
    && (forall i :: 0 <= i < |junk| ==> |junk[i]| == 3)
  }

  /** The MSDU list as subframes. */
  ghost function Subs(orig: seq<Nbuf>, datas: seq<seq<Byte>>, junk: seq<seq<Byte>>): (subs: seq<Sub>)
    requires Input(orig, datas, junk)
    ensures |subs| == |orig| && AllValid(subs, LlcLen(orig[0].hdrStatus))
    ensures forall j :: 0 <= j < |subs| ==> |subs[j].junk| == 3
  {
    var llc := LlcLen(orig[0].hdrStatus);
    seq(|orig|, i requires 0 <= i < |orig| => SubOf(orig[i].hdrStatus, datas[i], junk[i], i == 0, llc))
  }

  /** The contents of the fragment buffers. */
  ghost predicate Holding(frags: seq<Nbuf>, bytes: seq<seq<Byte>>)
    reads (set b | b in frags)`data
  {
    |frags| == |bytes| && forall j :: 0 <= j < |frags| ==> frags[j].data == bytes[j]
  }

  /** The subframes by the bits of the first status.  The 802.11 header takes `w` bytes there, and
      the first MSDU header follows from the next multiple of four on; in every other status the
      MSDU header comes first.  It has 8 bytes, or 22 in an A-MSDU.  A payload lacks the 14 bytes
      of its decap header. */
  lemma SubsAre(orig: seq<Nbuf>, datas: seq<seq<Byte>>, junk: seq<seq<Byte>>)
    requires Input(orig, datas, junk)
    ensures var st := orig[0].hdrStatus;
      var addr4, qos := if st[1] % 4 == 3 then 6 else 0, st[0] / 128 % 2 == 1;
      var w := 24 + addr4 + if qos then 2 else 0;
      var llc := if qos && st[24 + addr4] / 128 % 2 == 1 then 22 else 8;
      && WifiHdrLen(st) == w
      && (forall o :: w <= o < w + 4 && o % 4 == 0 ==> Subs(orig, datas, junk)[0].hdr == st[o..o + llc])
      && forall i :: 0 < i < |orig| ==> Subs(orig, datas, junk)[i].hdr == orig[i].hdrStatus[..llc]
    ensures forall i :: 0 <= i < |orig| ==> Subs(orig, datas, junk)[i].body == datas[i][14..]
  {
  }

  /** One iteration on the byte side. */
  lemma AirStep(subs: seq<Sub>, i: nat, llc: nat, bytes: seq<seq<Byte>>)
    requires AllValid(subs, llc) && i < |subs| && |bytes| == i
    requires forall j :: 0 <= j < |subs| ==> |subs[j].junk| == 3
    requires i > 0 ==> subs[0].hdr + Flat(bytes) == Air(subs, i)
    ensures subs[0].hdr + Flat(Grown(bytes, PadBefore(subs, i) + subs[i].hdr, subs[i].body)) == Air(subs, i + 1)
    ensures |Air(subs, i + 1)| == |Air(subs, i)| + |PadBefore(subs, i)| + llc + |subs[i].body|
  {
    hide PadTo4, Sub.PadLen, Sub.Pad;
    var p, h, b, hdr0 := PadBefore(subs, i), subs[i].hdr, subs[i].body, subs[0].hdr;
    if i == 0 {
      FlatOne(b);
      assert Air(subs, 1) == [] + [] + h + b;
    } else {
      var front, last := bytes[..i - 1], bytes[i - 1];
      assert bytes == front + [last];
      FlatExtend(front, last, p + h, b);
      Assoc(hdr0, Flat(bytes) + (p + h), b);
      Assoc(hdr0, Flat(bytes), p + h);
      Assoc(hdr0 + Flat(bytes), p, h);
    }
  }

  lemma U32Add(a: int, b: int)
    ensures U32(U32(a) + b) == U32(a + b)
  {
  }

  /** adf_nbuf_clone, or the stand-in that returns the buffer itself.  skb_clone clears `next`. */
  method CloneNbuf(b: Nbuf, cloneNotReqd: bool) returns (r: Nbuf)
    ensures cloneNotReqd ==> r == b
    ensures !cloneNotReqd ==> fresh(r) && r.next == null && r.data == b.data
  {
    if cloneNotReqd {
      r := b;
    } else {
      r := new Nbuf(b.rxDesc, b.dma, b.hdrStatus);
      r.data := b.data;
    }
  }

  /** The MSDU list itself: still linked, and its buffers from number `from` on untouched. */
  ghost predicate Originals(orig: seq<Nbuf>, datas: seq<seq<Byte>>, from: nat)
    reads (set b | b in orig)`data, (set b | b in orig)`next
  {
    && |datas| == |orig| && Distinct(orig) && Chained(orig, null)
    && forall j :: from <= j < |orig| ==> orig[j].data == datas[j]
  }

  /** The fragment buffers so far: copies, or the first ones of the list itself. */
  ghost predicate Frags(frags: seq<Nbuf>, bytes: seq<seq<Byte>>, mpdu: Nbuf, orig: seq<Nbuf>, noClone: bool)
    reads (set b | b in frags)`data, (set b | b in frags)`next
  {
    && Holding(frags, bytes) && Distinct(frags) && mpdu !in frags && mpdu !in orig
    && (if noClone then |frags| <= |orig| && frags == orig[..|frags|]
        else Chained(frags, null) && forall b :: b in frags ==> b !in orig)
  }

  /** The bytes after `tail` went behind the last buffer and `body` became a new one. */
  function Grown(bytes: seq<seq<Byte>>, tail: seq<Byte>, body: seq<Byte>): (r: seq<seq<Byte>>)
    ensures |r| == |bytes| + 1
  {
    if bytes == [] then [body]
    else bytes[..|bytes| - 1] + [bytes[|bytes| - 1] + tail] + [body]
  }

  lemma OneChained(b: Nbuf)
    ensures b.next == null ==> Chained([] + [b], null)
  {
  }

  /** adf_nbuf_set_next_ext from the previous fragment; in the mode without clones the link is there already. */
  method SetLink(prev: Nbuf, msdu: Nbuf, ghost frags: seq<Nbuf>, ghost orig: seq<Nbuf>,
                 ghost datas: seq<seq<Byte>>, ghost from: nat, ghost noClone: bool)
    requires frags != [] && prev == frags[|frags| - 1] && Distinct(frags) && Originals(orig, datas, from)
    requires if noClone then |frags| < |orig| && msdu == orig[|frags|] && frags == orig[..|frags|]
             else msdu.next == null && msdu !in frags && prev !in orig && Chained(frags, null)
    modifies prev`next
    ensures Originals(orig, datas, from)
    ensures !noClone ==> Chained(frags + [msdu], null)
  {
    prev.next := msdu;
  }

  lemma NewFrag(frags: seq<Nbuf>, msdu: Nbuf, orig: seq<Nbuf>, datas: seq<seq<Byte>>, noClone: bool)
    requires |frags| < |orig| && Originals(orig, datas, if noClone then |frags| else 0) && Distinct(frags)
    requires if noClone then msdu == orig[|frags|] && frags == orig[..|frags|] else msdu !in frags
    ensures msdu !in frags && Distinct(frags + [msdu])
    ensures noClone ==> frags + [msdu] == orig[..|frags| + 1]
    ensures noClone ==> forall j :: |frags| < j < |orig| ==> orig[j] != msdu && orig[j] !in frags
  {
  }

  /** The byte work: the tail of the previous buffer, the decap header of the new one. */
  method SetBytes(prev: Nbuf, msdu: Nbuf, tail: seq<Byte>, ghost frags: seq<Nbuf>, ghost bytes: seq<seq<Byte>>,
                  ghost orig: seq<Nbuf>, ghost datas: seq<seq<Byte>>, ghost noClone: bool)
    requires Holding(frags, bytes) && Distinct(frags) && msdu !in frags && prev != msdu
    requires frags != [] ==> prev == frags[|frags| - 1]
    requires frags == [] ==> prev !in orig
    requires |frags| < |orig| && Originals(orig, datas, if noClone then |frags| else 0)
    requires if noClone then forall j :: |frags| < j < |orig| ==> orig[j] != msdu && orig[j] !in frags
             else msdu !in orig && forall b :: b in frags ==> b !in orig
    modifies prev`data, msdu`data
    ensures Holding(frags + [msdu], Grown(bytes, tail, PullHead(old(msdu.data), DECAP_HDR)))
    ensures Originals(orig, datas, if noClone then |frags| + 1 else 0)
    ensures prev.data == old(prev.data) + tail && msdu.data == PullHead(old(msdu.data), DECAP_HDR)
  {
    hide Chained, PullHead;
    prev.data := prev.data + tail;
    msdu.data := PullHead(msdu.data, DECAP_HDR);
  }

  /** The buffer work of one iteration: link the new fragment, extend the one before it. */
  method Attach(ghost mpdu: Nbuf, prev: Nbuf, msdu: Nbuf, isFirst: bool, tail: seq<Byte>, ghost frags: seq<Nbuf>,
                ghost bytes: seq<seq<Byte>>, ghost orig: seq<Nbuf>, ghost datas: seq<seq<Byte>>, ghost noClone: bool)
    requires isFirst == (frags == []) && |frags| < |orig|
    requires Frags(frags, bytes, mpdu, orig, noClone) && prev == (if frags == [] then mpdu else frags[|frags| - 1])
    requires Originals(orig, datas, if noClone then |frags| else 0) && msdu != mpdu
    requires if noClone then msdu == orig[|frags|] else msdu !in orig && msdu !in frags && msdu.next == null
    modifies prev`next, prev`data, msdu`data
    ensures Frags(frags + [msdu], Grown(bytes, tail, PullHead(old(msdu.data), DECAP_HDR)), mpdu, orig, noClone)
    ensures Originals(orig, datas, if noClone then |frags| + 1 else 0)
    ensures mpdu.data == if frags == [] then old(mpdu.data) + tail else old(mpdu.data)
    ensures msdu.data == PullHead(old(msdu.data), DECAP_HDR)
  {
    hide Chained, Holding, Originals, Grown;
    NewFrag(frags, msdu, orig, datas, noClone);
    if !isFirst {
      SetLink(prev, msdu, frags, orig, datas, if noClone then |frags| else 0, noClone);
    } else {
      OneChained(msdu);
    }
    SetBytes(prev, msdu, tail, frags, bytes, orig, datas, noClone);
  }

  lemma NoFrags(mpdu: Nbuf, orig: seq<Nbuf>, datas: seq<seq<Byte>>, noClone: bool)
    requires Originals(orig, datas, 0) && mpdu !in orig
    ensures Frags([], [], mpdu, orig, noClone)
  {
  }

  /** The stitching loop, starting from an MPDU buffer that holds the 802.11 header. */
  method Stitch(mpdu: Nbuf, head: Nbuf, noClone: bool, junk: seq<seq<Byte>>,
                ghost orig: seq<Nbuf>, ghost datas: seq<seq<Byte>>)
    returns (frag: Nbuf, sumLen: nat, ghost frags: seq<Nbuf>, ghost bytes: seq<seq<Byte>>)
    requires Input(orig, datas, junk) && head == orig[0] && Originals(orig, datas, 0) && mpdu !in orig
    modifies mpdu, set b | b in orig
    ensures Frags(frags, bytes, mpdu, orig, noClone) && |frags| == |orig| && frag == frags[0]
    ensures Originals(orig, datas, if noClone then |orig| else 0)
    ensures mpdu.data == old(mpdu.data) + Subs(orig, datas, junk)[0].hdr
    ensures Subs(orig, datas, junk)[0].hdr + Flat(bytes) == Air(Subs(orig, datas, junk), |orig|)
    ensures sumLen == U32(|Flat(bytes)|) && bytes == FragBytes(Subs(orig, datas, junk), |orig|)
    ensures !noClone ==> forall b :: b in frags ==> fresh(b)
  {
    hide Frags, Originals, Flat, Air, U32, Grown, Chained, AllValid, MsduHdr, Subs, LlcLen, PullHead,
         Progress, PadBefore, PadTo4, FragBytes, Holding, Distinct, WifiHdrLen, SubOf;
    var llc := LlcLen(head.hdrStatus);
    ghost var subs := Subs(orig, datas, junk);
    var i, cur: Nbuf?, prev, pad: nat := 0, head, mpdu, 0;
    frag, frags, bytes, sumLen := head, [], [], U32(0 - llc);
    NoFrags(mpdu, orig, datas, noClone);
    ProgressStart(subs, llc);
    while cur != null
      invariant i <= |orig| && cur == (if i < |orig| then orig[i] else null)
      invariant |frags| == |bytes| == i && prev == (if i == 0 then mpdu else frags[i - 1])
      invariant i > 0 ==> frag == frags[0]
      invariant mpdu.data == old(mpdu.data) + if i == 0 then [] else subs[0].hdr
      invariant Progress(subs, i, llc, bytes, sumLen, pad)
      invariant Originals(orig, datas, if noClone then i else 0)
      invariant Frags(frags, bytes, mpdu, orig, noClone)
      invariant !noClone ==> forall b :: b in frags ==> fresh(b)
      invariant prev == mpdu || (if noClone then prev in orig else fresh(prev))
      decreases |orig| - i
    {
      OriginalAt(orig, datas, if noClone then i else 0, i);
      SubAt(orig, datas, junk, i);
      var msdu := CloneNbuf(cur, noClone);
      if i == 0 {
        frag := msdu;
      }
      var hdr := MsduHdr(cur.hdrStatus, i == 0, llc);
      ProgressPad(subs, i, llc, bytes, sumLen, pad);
      var filler := if i == 0 then [] else junk[i - 1][..pad];
      Attach(mpdu, prev, msdu, i == 0, filler + hdr, frags, bytes, orig, datas, noClone);
      ProgressStep(subs, i, llc, bytes, sumLen, pad);
      sumLen := U32(sumLen + (llc + |msdu.data| + pad));
      pad := PadTo4(llc + |msdu.data|);
      bytes := Grown(bytes, filler + hdr, msdu.data);
      frags := frags + [msdu];
      OriginalAt(orig, datas, if noClone then i + 1 else 0, i);
      prev, cur, i := msdu, cur.next, i + 1;
    }
    ProgressEnd(subs, llc, bytes, sumLen, pad);
  }

  /** What the fragment buffers hold after `i` MSDUs. */
  function FragBytes(subs: seq<Sub>, i: nat): (r: seq<seq<Byte>>)
    requires i <= |subs| && forall j :: 0 <= j < |subs| ==> |subs[j].junk| == 3
    ensures |r| == i
  {
    if i == 0 then [] else
    Grown(FragBytes(subs, i - 1), PadBefore(subs, i - 1) + subs[i - 1].hdr, subs[i - 1].body)
  }

  /** Fragment `k` holds the payload of MSDU `k`, and behind it the filler and header of the next one. */
  lemma {:induction false} FragIs(subs: seq<Sub>, n: nat, k: nat)
    requires k < n <= |subs| && forall j :: 0 <= j < |subs| ==> |subs[j].junk| == 3
    ensures FragBytes(subs, n)[k] ==
            if k + 1 < n then subs[k].body + (subs[k].Pad() + subs[k + 1].hdr) else subs[k].body
  {
    hide Sub.Pad;
    if k < n - 1 {
      FragIs(subs, n - 1, k);
    }
  }

  /** When the first fragment alone is as good as all of them. */
  lemma FirstIsAllIff(subs: seq<Sub>, llc: nat, bytes: seq<seq<Byte>>)
    requires subs != [] && AllValid(subs, llc) && 0 < llc
    requires forall j :: 0 <= j < |subs| ==> |subs[j].junk| == 3
    requires bytes == FragBytes(subs, |subs|) && subs[0].hdr + Flat(bytes) == Air(subs, |subs|)
    ensures Flat(bytes) == bytes[0] <==> |subs| == 1 || (|subs| == 2 && subs[1].body == [])
  {
    var n := |subs|;
    assert |Flat(bytes)| == |Air(subs, n)| - llc;
    if n == 1 {
      FlatOne(bytes[0]);
    } else {
      FragIs(subs, n, 0);
      AirLength(subs, 0);
      AirLength(subs, 1);
      assert |Air(subs, 0)| == 0;
      assert |Air(subs, 2)| == llc + |bytes[0]| + |subs[1].body|;
      if n == 2 {
        FlatSnoc([bytes[0]], bytes[1]);
        FlatOne(bytes[0]);
        assert bytes == [bytes[0]] + [bytes[1]];
        assert bytes[1] == subs[1].body;
      } else {
        AirGrows(subs, 3, n);
        AirLength(subs, 2);
      }
    }
  }

  /** Bytes and counters after `i` MSDUs.  The running length starts below zero, as an unsigned. */
  ghost predicate Progress(subs: seq<Sub>, i: nat, llc: nat, bytes: seq<seq<Byte>>, sumLen: nat, pad: nat) {
    && i <= |subs| && |bytes| == i && AllValid(subs, llc)
    && (forall j :: 0 <= j < |subs| ==> |subs[j].junk| == 3)
    && bytes == FragBytes(subs, i)
    && (i > 0 ==> subs[0].hdr + Flat(bytes) == Air(subs, i))
    && sumLen == U32(|Air(subs, i)| - llc)
    && (i < |subs| ==> pad == |PadBefore(subs, i)|)
  }

  lemma ProgressStart(subs: seq<Sub>, llc: nat)
    requires AllValid(subs, llc)
    requires forall j :: 0 <= j < |subs| ==> |subs[j].junk| == 3
    ensures Progress(subs, 0, llc, [], U32(0 - llc), 0)
  {
  }

  lemma ProgressPad(subs: seq<Sub>, i: nat, llc: nat, bytes: seq<seq<Byte>>, sumLen: nat, pad: nat)
    requires Progress(subs, i, llc, bytes, sumLen, pad) && i < |subs|
    ensures forall j :: 0 <= j < |subs| ==> |subs[j].junk| == 3
    ensures pad == |PadBefore(subs, i)| < 4
  {
  }

  lemma ProgressStep(subs: seq<Sub>, i: nat, llc: nat, bytes: seq<seq<Byte>>, sumLen: nat, pad: nat)
    requires Progress(subs, i, llc, bytes, sumLen, pad) && i < |subs|
    requires forall j :: 0 <= j < |subs| ==> |subs[j].junk| == 3
    ensures Progress(subs, i + 1, llc, Grown(bytes, PadBefore(subs, i) + subs[i].hdr, subs[i].body),
                     U32(sumLen + (llc + |subs[i].body| + pad)), PadTo4(llc + |subs[i].body|))
  {
    AirStep(subs, i, llc, bytes);
    U32Add(|Air(subs, i)| - llc, llc + |subs[i].body| + pad);
  }

  lemma ProgressEnd(subs: seq<Sub>, llc: nat, bytes: seq<seq<Byte>>, sumLen: nat, pad: nat)
    requires Progress(subs, |subs|, llc, bytes, sumLen, pad) && subs != []
    ensures forall j :: 0 <= j < |subs| ==> |subs[j].junk| == 3
    ensures subs[0].hdr + Flat(bytes) == Air(subs, |subs|) && sumLen == U32(|Flat(bytes)|)
    ensures bytes == FragBytes(subs, |subs|)
  {
    hide Flat, Air;
    assert |subs[0].hdr + Flat(bytes)| == llc + |Flat(bytes)|;
  }

  lemma SubAt(orig: seq<Nbuf>, datas: seq<seq<Byte>>, junk: seq<seq<Byte>>, i: nat)
    requires Input(orig, datas, junk) && i < |orig|
    ensures var llc, subs := LlcLen(orig[0].hdrStatus), Subs(orig, datas, junk);
      && subs[i].hdr == MsduHdr(orig[i].hdrStatus, i == 0, llc)
      && subs[i].body == PullHead(datas[i], DECAP_HDR)
      && PadBefore(subs, i) == (if i == 0 then [] else junk[i - 1][..|PadBefore(subs, i)|])
  {
  }

  lemma OriginalAt(orig: seq<Nbuf>, datas: seq<seq<Byte>>, from: nat, i: nat)
    requires Originals(orig, datas, from) && i < |orig|
    ensures from <= i ==> orig[i].data == datas[i]
    ensures orig[i].next == if i + 1 < |orig| then orig[i + 1] else null
  {
  }

  /** The final loop of the mode without clones: clear every `next` of the MSDU list. */
  method Unlink(head: Nbuf, ghost orig: seq<Nbuf>)
    requires orig != [] && head == orig[0] && Distinct(orig) && Chained(orig, null)
    modifies (set b | b in orig)`next
    ensures forall b :: b in orig ==> b.next == null
  {
    var m: Nbuf? := head;
    ghost var k := 0;
    while m != null
      invariant k <= |orig| && m == (if k < |orig| then orig[k] else null)
      invariant forall j {:trigger orig[j].next} :: 0 <= j < |orig| ==>
        orig[j].next == if j < k || j + 1 == |orig| then null else orig[j + 1]
      decreases |orig| - k
    {
      var o := m;
      m := m.next;
      o.next := null;
      k := k + 1;
    }
    assert forall j :: 0 <= j < |orig| ==> orig[j].next == null;
  }

  /** htt_rx_restitch_mpdu_from_msdus, decap branch.  The MPDU buffer and the fragments hold
      the 802.11 header and every subframe in order, and `sumLen` is their length, in both
      modes.  With clones the fragment list has them all.  Without, `next` is the one link that
      both the MSDU list and the fragment list use, and the final loop cuts it. */
  method Restitch(head: Nbuf, noClone: bool, junk: seq<seq<Byte>>, ghost orig: seq<Nbuf>, ghost datas: seq<seq<Byte>>)
    returns (mpdu: Nbuf, frag: Nbuf, sumLen: nat, ghost frags: seq<Nbuf>, ghost bytes: seq<seq<Byte>>)
    requires Input(orig, datas, junk) && head == orig[0] && Originals(orig, datas, 0)
    modifies set b | b in orig
    ensures fresh(mpdu) && |frags| == |orig| && frag == frags[0] && Holding(frags, bytes)
    ensures mpdu.data + Flat(bytes) ==
            head.hdrStatus[..WifiHdrLen(head.hdrStatus)] + Air(Subs(orig, datas, junk), |orig|)
    ensures sumLen == |Flat(bytes)| % 0x1_0000_0000
    ensures bytes == FragBytes(Subs(orig, datas, junk), |orig|)
    // which bytes of the statuses these are: 802.11 header, boundary, MSDU header
    ensures var st := orig[0].hdrStatus;
      var addr4, qos := if st[1] % 4 == 3 then 6 else 0, st[0] / 128 % 2 == 1;
      var w := 24 + addr4 + if qos then 2 else 0;
      var llc := if qos && st[24 + addr4] / 128 % 2 == 1 then 22 else 8;
      && (forall o :: w <= o < w + 4 && o % 4 == 0 ==> mpdu.data == st[..w] + st[o..o + llc])
      && (forall i :: 0 < i < |orig| ==> Subs(orig, datas, junk)[i].hdr == orig[i].hdrStatus[..llc])
    ensures forall i :: 0 <= i < |orig| ==> Subs(orig, datas, junk)[i].body == datas[i][14..]
    ensures !noClone ==> Chained(frags, null) && Originals(orig, datas, 0)
    ensures noClone ==> frags == orig && Chained([frag], null)
    // what a reader of the fragment list finds is all of it, except in the mode without clones
    // when there is a second MSDU (other than one with nothing behind its decap header)
    ensures noClone ==>
      (Flat(bytes) == frag.data <==> |orig| == 1 || (|orig| == 2 && |datas[1]| == DECAP_HDR))
  {
    hide Flat, Air, Grown, AllValid, MsduHdr, Subs, LlcLen, FragBytes, WifiHdrLen, Frags, Originals,
         Holding, Chained;
    var status := head.hdrStatus;
    ghost var subs := Subs(orig, datas, junk);
    OriginalAt(orig, datas, 0, 0);
    SubsAre(orig, datas, junk);
    var wifiHdr := status[..WifiHdrLen(status)];
    mpdu := new Nbuf(head.rxDesc, [], []);
    mpdu.data := wifiHdr;
    frag, sumLen, frags, bytes := Stitch(mpdu, head, noClone, junk, orig, datas);
    Assoc(wifiHdr, subs[0].hdr, Flat(bytes));
    FirstIsAll(orig, datas, junk, bytes);
    FragsFacts(frags, bytes, mpdu, orig, noClone);
    assert noClone ==> Distinct(orig) && Chained(orig, null) by { ListFacts(orig, datas, |orig|, noClone); }
    if noClone {
      Unlink(head, orig);
      FragsHead(frags, bytes);
    } else {
      FragsHead(frags, bytes);
    }
  }

  lemma FragsFacts(frags: seq<Nbuf>, bytes: seq<seq<Byte>>, mpdu: Nbuf, orig: seq<Nbuf>, noClone: bool)
    requires Frags(frags, bytes, mpdu, orig, noClone) && |frags| == |orig|
    ensures Holding(frags, bytes)
    ensures if noClone then frags == orig else Chained(frags, null)
  {
  }

  lemma ListFacts(orig: seq<Nbuf>, datas: seq<seq<Byte>>, from: nat, noClone: bool)
    requires Originals(orig, datas, if noClone then from else 0)
    ensures Distinct(orig) && Chained(orig, null)
  {
  }

  lemma FragsHead(frags: seq<Nbuf>, bytes: seq<seq<Byte>>)
    requires Holding(frags, bytes) && frags != []
    ensures frags[0].data == bytes[0] && (frags[0].next == null ==> Chained([frags[0]], null))
  {
  }

  lemma FirstIsAll(orig: seq<Nbuf>, datas: seq<seq<Byte>>, junk: seq<seq<Byte>>, bytes: seq<seq<Byte>>)
    requires Input(orig, datas, junk)
    requires bytes == FragBytes(Subs(orig, datas, junk), |orig|)
    requires Subs(orig, datas, junk)[0].hdr + Flat(bytes) == Air(Subs(orig, datas, junk), |orig|)
    ensures Flat(bytes) == bytes[0] <==> |orig| == 1 || (|orig| == 2 && |datas[1]| == DECAP_HDR)
  {
    hide Flat, Air, FragBytes, Subs;
    if |orig| > 1 {
      SubAt(orig, datas, junk, 1);
      assert |PullHead(datas[1], DECAP_HDR)| == |datas[1]| - DECAP_HDR;
    }
    FirstIsAllIff(Subs(orig, datas, junk), LlcLen(orig[0].hdrStatus), bytes);
  }
}
