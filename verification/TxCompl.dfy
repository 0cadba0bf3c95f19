/**
 Tx completion indications list 16-bit MSDU IDs, two to a 32-bit word.  When the words are
 byte-swapped on their way to the host, the two IDs of each word change places.
 */
module TxCompl {

  type Id = n: nat | n < 0x10000

  const HTT_TX_COMPL_INV_MSDU_ID: Id := 0xffff

  /** The target fills the last word up with `pad`. */
  function Padded(ids: seq<Id>, pad: Id): (r: seq<Id>)
    ensures |r| % 2 == 0 && ids <= r
  {
    if |ids| % 2 == 0 then ids else ids + [pad]
  }

  /** Changes the places of the two IDs of each word. */
  function PairSwapped(s: seq<Id>): (r: seq<Id>)
    requires |s| % 2 == 0
    ensures |r| == |s|
    decreases |s|
  {
    if s == [] then [] else PairSwapped(s[..|s| - 2]) + [s[|s| - 1], s[|s| - 2]]
  }

  lemma {:induction false} PairSwappedAt(s: seq<Id>, i: nat)
    requires |s| % 2 == 0 && i < |s|
    ensures PairSwapped(s)[i] == s[if i % 2 == 0 then i + 1 else i - 1]
    decreases |s|
  {
    if i < |s| - 2 {
      PairSwappedAt(s[..|s| - 2], i);
    }
  }

  function Uploaded(ids: seq<Id>, pad: Id, swapped: bool): (r: seq<Id>)
    ensures |r| == |Padded(ids, pad)|
  {
    if swapped then PairSwapped(Padded(ids, pad)) else Padded(ids, pad)
  }

  function FixedUp(payload: seq<Id>, num: nat): (r: seq<Id>)
    requires num + num % 2 <= |payload|
    ensures |r| == |payload|
  {
    if num % 2 == 1 && payload[num] != HTT_TX_COMPL_INV_MSDU_ID then payload[num - 1 := payload[num]] else payload
  }

  /** The step of htt_t2h_msg_handler before the completion handlers run. */
  method FixUp(payload: array<Id>, num: nat)
    requires num + num % 2 <= payload.Length
    modifies payload
    ensures payload[..] == FixedUp(old(payload[..]), num)
    ensures num % 2 == 1 && old(payload[num]) != 0xffff ==>
              payload[..] == old(payload[..])[num - 1 := old(payload[num])]
    ensures num % 2 == 0 || old(payload[num]) == 0xffff ==> payload[..] == old(payload[..])
  {
    if num % 2 == 1 {
      if payload[num] != HTT_TX_COMPL_INV_MSDU_ID {
        payload[num - 1] := payload[num];
      }
    }
  }

  /** htt_tx_compl_desc_id, for every ID of the message. */
  method DescIds(payload: array<Id>, num: nat) returns (ids: seq<Id>)
    requires num <= payload.Length
    ensures ids == payload[..num]
  {
    ids := [];
    for i := 0 to num
      invariant ids == payload[..i]
    {
      ids := ids + [payload[i]];
    }
  }

  lemma {:induction false} SwapKeepsIds(s: seq<Id>)
    requires |s| % 2 == 0
    ensures multiset(PairSwapped(s)) == multiset(s)
    decreases |s|
  {
    if s != [] {
      var front := s[..|s| - 2];
      SwapKeepsIds(front);
      assert s == front + [s[|s| - 2], s[|s| - 1]];
    }
  }

  /** Where the last of an odd number of IDs is expected: it, or the padding. */
  function LastRead(last: Id, pad: Id, swapped: bool): Id {
    if swapped then (if last != HTT_TX_COMPL_INV_MSDU_ID then last else pad)
    else if pad != HTT_TX_COMPL_INV_MSDU_ID then pad else last
  }

  lemma EvenShape(ids: seq<Id>, pad: Id, swapped: bool)
    requires |ids| % 2 == 0
    ensures FixedUp(Uploaded(ids, pad, swapped), |ids|)[..|ids|] == if swapped then PairSwapped(ids) else ids
  {
  }

  lemma OddShape(ids: seq<Id>, pad: Id, swapped: bool)
    requires |ids| % 2 == 1
    ensures FixedUp(Uploaded(ids, pad, swapped), |ids|)[..|ids|]
         == (if swapped then PairSwapped(ids[..|ids| - 1]) else ids[..|ids| - 1])
            + [LastRead(ids[|ids| - 1], pad, swapped)]
  {
    var n := |ids|;
    var front, last := ids[..n - 1], ids[n - 1];
    assert Padded(ids, pad)[..n - 1] == front;
    var base := if swapped then PairSwapped(front) else front;
    assert Uploaded(ids, pad, swapped) == base + if swapped then [pad, last] else [last, pad];
  }

  /** The IDs read are the IDs sent, in some order, exactly when the padding does no harm. */
  lemma FixUpIff(ids: seq<Id>, pad: Id, swapped: bool)
    ensures multiset(FixedUp(Uploaded(ids, pad, swapped), |ids|)[..|ids|]) == multiset(ids)
       <==> || |ids| % 2 == 0
            || pad == 0xffff
            || (if swapped then ids[|ids| - 1] != 0xffff else pad == ids[|ids| - 1])
  {
    hide FixedUp, Uploaded, PairSwapped, Padded;
    var n := |ids|;
    if n % 2 == 0 {
      EvenShape(ids, pad, swapped);
      SwapKeepsIds(ids);
    } else {
      var front, last := ids[..n - 1], ids[n - 1];
      OddShape(ids, pad, swapped);
      SwapKeepsIds(front);
      var base := if swapped then PairSwapped(front) else front;
      AddOne(base, LastRead(last, pad, swapped));
      AddOne(front, last);
      assert ids == front + [last];
      SameRest(multiset(front), LastRead(last, pad, swapped), last);
    }
  }

  lemma AddOne(s: seq<Id>, x: Id)
    ensures multiset(s + [x]) == multiset(s) + multiset{x}
  {
  }

  lemma SameRest(m: multiset<Id>, a: Id, b: Id)
    ensures m + multiset{a} == m + multiset{b} <==> a == b
  {
    assert (m + multiset{a})[b] == m[b] + if a == b then 1 else 0;
  }

  /** As the target pads with the invalid ID, it makes no difference what the IDs are. */
  lemma InvalidPadIsEnough(ids: seq<Id>, swapped: bool)
    ensures multiset(FixedUp(Uploaded(ids, 0xffff, swapped), |ids|)[..|ids|]) == multiset(ids)
  {
    FixUpIff(ids, 0xffff, swapped);
  }

  /** With an even number of IDs, swapping twice is no swap. */
  lemma {:induction false} SwapTwice(s: seq<Id>)
    requires |s| % 2 == 0
    ensures PairSwapped(PairSwapped(s)) == s
    decreases |s|
  {
    if s != [] {
      var front := s[..|s| - 2];
      SwapTwice(front);
      assert PairSwapped(s)[..|s| - 2] == PairSwapped(front);
    }
  }
}
