/**
 The tx-queue-group elements that may follow a tx credit update message: two words each, with
 a bit that says whether another one comes.
 */
module TxqGroup {

  type Word = bv32

  // HTT_CHECK_SET_VAL and the HTT_TXQ_GROUP_*_S / _M pairs

  function Get(info: Word, mask: Word, shift: bv5): Word { (info & mask) >> shift }

  function Set(info: Word, val: Word, shift: bv5): Word { info | (val << shift) }

  predicate CheckSetVal(val: Word, mask: Word, shift: bv5) { val & !(mask >> shift) == 0 }

  const COUNT_M: Word := 0x00003fff
  const SIGN_M: Word := 0x00004000
  const ABS_M: Word := 0x00008000
  const ID_M: Word := 0x00ff0000
  const EXT_M: Word := 0x80000000
  const AC_MASK_M: Word := 0x0000ffff
  const VDEV_ID_MASK_M: Word := 0xffff0000
  const TXQ_GRP_M: Word := 0x00008000

  /** The fields of struct htt_txq_group, without the extension bit. */
  datatype Elem = Elem(count: Word, sign: Word, absolute: Word, id: Word, acMask: Word, vdevIdMask: Word)

  predicate Checked(e: Elem) {
    && CheckSetVal(e.count, COUNT_M, 0) && CheckSetVal(e.sign, SIGN_M, 14)
    && CheckSetVal(e.absolute, ABS_M, 15) && CheckSetVal(e.id, ID_M, 16)
    && CheckSetVal(e.acMask, AC_MASK_M, 0) && CheckSetVal(e.vdevIdMask, VDEV_ID_MASK_M, 16)
  }

  /** The SET macros, in any order, on a zeroed word. */
  function First(e: Elem, ext: Word): Word {
    Set(Set(Set(Set(Set(0, e.count, 0), e.sign, 14), e.absolute, 15), e.id, 16), ext, 31)
  }

  function Second(e: Elem): Word {
    Set(Set(0, e.acMask, 0), e.vdevIdMask, 16)
  }

  /** What ol_txrx_update_tx_queue_groups is called with. */
  datatype Update = Update(id: Word, credit: int, absolute: Word, vdevIdMask: Word, acMask: Word)

  function Meaning(e: Elem): Update {
    Update(e.id, (if e.sign != 0 then -1 else 1) * (e.count as int), e.absolute, e.vdevIdMask, e.acMask)
  }

  function Parse(first: Word, second: Word): Update {
    Update(Get(first, ID_M, 16),
           (if Get(first, SIGN_M, 14) != 0 then -1 else 1) * (Get(first, COUNT_M, 0) as int),
           Get(first, ABS_M, 15),
           Get(second, VDEV_ID_MASK_M, 16),
           Get(second, AC_MASK_M, 0))
  }

  /** Which bits of a word the GET macros read. */
  lemma FieldBits(w: Word)
    ensures Get(w, ID_M, 16) == (w >> 16) & 0xff
    ensures Get(w, ABS_M, 15) == (w >> 15) & 1
    ensures Get(w, SIGN_M, 14) == (w >> 14) & 1
    ensures Get(w, COUNT_M, 0) == w & 0x3fff
    ensures Get(w, VDEV_ID_MASK_M, 16) == w >> 16
    ensures Get(w, AC_MASK_M, 0) == w & 0xffff
  {
  }

  /** What an element says, by the bits of its two words. */
  lemma ParseIs(first: Word, second: Word)
    ensures var u := Parse(first, second);
      && u.id == (first >> 16) & 0xff && u.absolute == (first >> 15) & 1
      && u.credit == (if (first >> 14) & 1 != 0 then -1 else 1) * ((first & 0x3fff) as int)
      && u.vdevIdMask == second >> 16 && u.acMask == second & 0xffff
  {
    hide Get;
    FieldBits(first);
    FieldBits(second);
  }

  lemma FirstFields(e: Elem, ext: Word)
    requires Checked(e) && ext <= 1
    ensures Get(First(e, ext), COUNT_M, 0) == e.count
    ensures Get(First(e, ext), SIGN_M, 14) == e.sign
    ensures Get(First(e, ext), ABS_M, 15) == e.absolute
    ensures Get(First(e, ext), ID_M, 16) == e.id
    ensures Get(First(e, ext), EXT_M, 31) == ext
  {
  }

  lemma SecondFields(e: Elem)
    requires Checked(e)
    ensures Get(Second(e), VDEV_ID_MASK_M, 16) == e.vdevIdMask
    ensures Get(Second(e), AC_MASK_M, 0) == e.acMask
  {
  }

  /** A whole message: its first word, and two words for each element. */
  function Encode(head: Word, es: seq<Elem>): (msg: seq<Word>)
    ensures |msg| == 1 + 2 * |es|
  {
    seq(1 + 2 * |es|, j requires 0 <= j < 1 + 2 * |es| =>
      if j == 0 then Set(head, if es == [] then 0 else 1, 15)
      else if j % 2 == 1 then First(es[j / 2], if j / 2 + 1 < |es| then 1 else 0)
      else Second(es[j / 2 - 1]))
  }

  predicate Grouped(msg: seq<Word>): (b: bool)
    requires msg != []
    ensures b <==> (msg[0] >> 15) & 1 == 1
  {
    Get(msg[0], TXQ_GRP_M, 15) != 0
  }

  predicate More(msg: seq<Word>, i: nat): (b: bool)
    requires 1 + 2 * i < |msg|
    ensures b <==> msg[1 + 2 * i] >= 0x8000_0000
  {
    Get(msg[1 + 2 * i], EXT_M, 31) != 0
  }

  /** The message holds `n` elements, chained by their extension bits. */
  ghost predicate Holds(msg: seq<Word>, n: nat) {
    && 1 + 2 * n <= |msg|
    && Grouped(msg) == (0 < n)
    && forall i: nat :: i < n ==> More(msg, i) == (i + 1 < n)
  }

  function Decoded(msg: seq<Word>, n: nat): (us: seq<Update>)
    requires 1 + 2 * n <= |msg|
    ensures |us| == n
    ensures forall i :: 0 <= i < n ==> us[i] == Parse(msg[1 + 2 * i], msg[2 + 2 * i])
  {
    if n == 0 then [] else Decoded(msg, n - 1) + [Parse(msg[2 * n - 1], msg[2 * n])]
  }

  const HTT_TX_GROUP_INDEX_OFFSET: nat := 2

  method GroupCreditProcess(msg: seq<Word>, ghost n: nat) returns (updates: seq<Update>)
    requires n <= 128 && Holds(msg, n)
    ensures updates == Decoded(msg, n)
  {
    updates := [];
    var groupOffset := 0;    // u_int8_t
    ghost var i := 0;
    var more := Get(msg[0], TXQ_GRP_M, 15);
    while more != 0
      invariant i <= n && groupOffset == 2 * i % 256
      invariant (more != 0) == (i < n)
      invariant updates == Decoded(msg, i)
      decreases n - i
    {
      assert More(msg, i) == (i + 1 < n);
      updates := updates + [Parse(msg[1 + groupOffset], msg[2 + groupOffset])];
      more := Get(msg[1 + groupOffset], EXT_M, 31);
      groupOffset := (groupOffset + HTT_TX_GROUP_INDEX_OFFSET) % 256;
      i := i + 1;
    }
  }

  ghost predicate AllChecked(es: seq<Elem>) { forall i :: 0 <= i < |es| ==> Checked(es[i]) }

  /** What is encoded is what is decoded, element by element and in order. */
  lemma RoundTrip(head: Word, es: seq<Elem>)
    requires AllChecked(es) && head & TXQ_GRP_M == 0
    ensures Holds(Encode(head, es), |es|)
    ensures forall i :: 0 <= i < |es| ==> Decoded(Encode(head, es), |es|)[i] == Meaning(es[i])
  {
    var msg := Encode(head, es);
    hide Encode, First, Second, Get, Set, Decoded, Checked;
    EncodedWords(head, es);
    HeadField(head, if es == [] then 0 else 1);
    forall i: nat | i < |es|
      ensures More(msg, i) == (i + 1 < |es|) && Parse(msg[1 + 2 * i], msg[2 + 2 * i]) == Meaning(es[i]) {
      FirstFields(es[i], if i + 1 < |es| then 1 else 0);
      SecondFields(es[i]);
    }
  }

  lemma EncodedWords(head: Word, es: seq<Elem>)
    ensures var msg := Encode(head, es);
            && msg[0] == Set(head, if es == [] then 0 else 1, 15)
            && forall i :: 0 <= i < |es| ==>
                 && msg[1 + 2 * i] == First(es[i], if i + 1 < |es| then 1 else 0)
                 && msg[2 + 2 * i] == Second(es[i])
  {
    hide First, Second, Set;
    forall i | 0 <= i < |es|
      ensures Encode(head, es)[1 + 2 * i] == First(es[i], if i + 1 < |es| then 1 else 0)
      ensures Encode(head, es)[2 + 2 * i] == Second(es[i]) {
      assert (1 + 2 * i) % 2 == 1 && (1 + 2 * i) / 2 == i && (2 + 2 * i) % 2 == 0 && (2 + 2 * i) / 2 - 1 == i;
    }
  }

  lemma HeadField(head: Word, grouped: Word)
    requires head & TXQ_GRP_M == 0 && grouped <= 1
    ensures Get(Set(head, grouped, 15), TXQ_GRP_M, 15) == grouped
  {
  }

  // ---- how far the 8-bit offset reaches ----

  /** After `k` rounds: whether there is another one, and the offset it starts from. */
  function Rounds(msg: seq<Word>, k: nat): (r: (bool, nat))
    requires 257 <= |msg|
    ensures r.1 < 256 && r.1 % 2 == 0
  {
    if k == 0 then (Grouped(msg), 0)
    else
      var (more, offset) := Rounds(msg, k - 1);
      if more then (More(msg, offset / 2), (offset + HTT_TX_GROUP_INDEX_OFFSET) % 256) else (false, offset)
  }

  /** The loop ends exactly when one of the first 128 elements is the last. */
  lemma EndsIff(msg: seq<Word>)
    requires 257 <= |msg| && Grouped(msg)
    ensures (exists k :: !Rounds(msg, k).0) <==> exists i: nat :: i < 128 && !More(msg, i)
  {
    if i: nat :| i < 128 && !More(msg, i) {
      Stops(msg, i);
    }
    if k :| !Rounds(msg, k).0 {
      if forall i: nat :: i < 128 ==> More(msg, i) {
        NeverEnds(msg, k);
      }
    }
  }

  lemma {:induction false} OffsetAt(msg: seq<Word>, k: nat)
    requires 257 <= |msg| && k < 128 && Rounds(msg, k).0
    ensures Rounds(msg, k).1 == 2 * k
  {
    hide More, Grouped;
    if k != 0 {
      OffsetAt(msg, k - 1);
    }
  }

  lemma Stops(msg: seq<Word>, i: nat)
    requires 257 <= |msg| && i < 128 && !More(msg, i)
    ensures !Rounds(msg, i + 1).0
  {
    hide More, Grouped;
    if Rounds(msg, i).0 {
      OffsetAt(msg, i);
    }
  }

  lemma {:induction false} NeverEnds(msg: seq<Word>, k: nat)
    requires 257 <= |msg| && Grouped(msg)
    requires forall i: nat :: i < 128 ==> More(msg, i)
    ensures Rounds(msg, k).0
  {
    if k != 0 {
      NeverEnds(msg, k - 1);
    }
  }

  /** 129 elements are one too many. */
  lemma TooMany(head: Word, es: seq<Elem>, k: nat)
    requires AllChecked(es) && head & TXQ_GRP_M == 0 && 128 < |es|
    ensures Rounds(Encode(head, es), k).0
  {
    RoundTrip(head, es);
    NeverEnds(Encode(head, es), k);
  }
}
