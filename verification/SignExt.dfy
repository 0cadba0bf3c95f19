/** Signed fields inside 32-bit message words, with 32-bit unsigned arithmetic. */
module SignExt {

  type Word = bv32

  /** 2^n */
  function Bit(n: bv5): Word { (1 as Word) << n }

  /** The _M constant of the field from bit `s` to bit `t`. */
  function Mask(s: bv5, t: bv5): Word { (((2 as Word) << t) - 1) & !(Bit(s) - 1) }

  // the HTT_SIGN_BIT_* macros

  function SignBitMask(s: bv5, t: bv5): Word { (Mask(s, t) + Bit(s)) >> 1 }

  function SignBitUnshifted(val: Word, s: bv5, t: bv5): Word { (val & SignBitMask(s, t)) >> s }

  function SignBitExtension(val: Word, s: bv5, t: bv5): Word {
    !(SignBitUnshifted(val, s, t) | (SignBitUnshifted(val, s, t) - 1))
  }

  function SignBitExtensionMask(val: Word, s: bv5, t: bv5): Word {
    SignBitExtension(val, s, t) & !(Mask(s, t) >> s)
  }

  function GetBase(val: Word, s: bv5, t: bv5): Word { (val & Mask(s, t)) >> s }

  function Get(val: Word, s: bv5, t: bv5): Word { GetBase(val, s, t) | SignBitExtensionMask(val, s, t) }

  /** Two's complement: the top bit of the field counts as minus its weight. */
  function SignExtended(val: Word, s: bv5, t: bv5): Word
    requires s <= t
  {
    if val & Bit(t) == 0 then GetBase(val, s, t) else GetBase(val, s, t) - ((2 as Word) << (t - s))
  }

  lemma MaskIsDifference(s: bv5, t: bv5)
    requires s <= t
    ensures Mask(s, t) == ((2 as Word) << t) - Bit(s)
  {
  }

  /** The carry out of the field singles out its top bit, unless it is lost. */
  lemma SignBitMaskIs(s: bv5, t: bv5)
    requires s <= t
    ensures SignBitMask(s, t) == if t < 31 then Bit(t) else 0
  {
    hide Mask;
    MaskIsDifference(s, t);
  }

  lemma SignBitClear(val: Word, s: bv5, t: bv5)
    requires s <= t && val & Bit(t) == 0
    ensures Get(val, s, t) == GetBase(val, s, t)
  {
    hide SignBitMask, GetBase, Mask, Bit;
    SignBitMaskIs(s, t);
  }

  lemma BitDown(val: Word, m: Word, s: bv5, t: bv5)
    requires s <= t && m == Bit(t) && val & Bit(t) != 0
    ensures (val & m) >> s == Bit(t - s)
  {
  }

  lemma UnshiftedIs(val: Word, s: bv5, t: bv5)
    requires s <= t < 31 && val & Bit(t) != 0
    ensures SignBitUnshifted(val, s, t) == Bit(t - s)
  {
    hide SignBitMask;
    SignBitMaskIs(s, t);
    BitDown(val, SignBitMask(s, t), s, t);
  }

  lemma AboveBit(u: Word, k: bv5)
    requires u == Bit(k)
    ensures !(u | (u - 1)) == !(((2 as Word) << k) - 1)
  {
  }

  lemma ExtensionIs(val: Word, s: bv5, t: bv5)
    requires s <= t < 31 && val & Bit(t) != 0
    ensures SignBitExtension(val, s, t) == !(((2 as Word) << (t - s)) - 1)
  {
    hide SignBitUnshifted, Bit;
    UnshiftedIs(val, s, t);
    AboveBit(SignBitUnshifted(val, s, t), t - s);
  }

  lemma MaskDown(s: bv5, t: bv5)
    requires s <= t
    ensures Mask(s, t) >> s == ((2 as Word) << (t - s)) - 1
  {
  }

  lemma StaysWithin(x: Word, m: Word, s: bv5)
    requires x & !m == 0
    ensures (x >> s) & !(m >> s) == 0
  {
  }

  /** The field, shifted down, has no bit where the extension goes. */
  lemma BaseFits(val: Word, s: bv5, t: bv5)
    ensures GetBase(val, s, t) & !(Mask(s, t) >> s) == 0
  {
    hide Mask;
    StaysWithin(val & Mask(s, t), Mask(s, t), s);
  }

  /** Setting the bits from 2^(k+1) up is subtracting 2^(k+1). */
  lemma Join(b: Word, m: Word, k: bv5)
    requires b & !m == 0 && m == ((2 as Word) << k) - 1
    ensures b | !m == b - ((2 as Word) << k)
  {
  }

  lemma ExtensionMaskIs(val: Word, s: bv5, t: bv5)
    requires s <= t < 31 && val & Bit(t) != 0
    ensures SignBitExtensionMask(val, s, t) == !(Mask(s, t) >> s)
  {
    hide Mask, SignBitExtension, Bit;
    ExtensionIs(val, s, t);
    MaskDown(s, t);
  }

  lemma SetIsOr(val: Word, s: bv5, t: bv5)
    requires s <= t < 31 && val & Bit(t) != 0
    ensures Get(val, s, t) == GetBase(val, s, t) | !(Mask(s, t) >> s)
  {
    hide Mask, GetBase, SignBitExtensionMask, Bit;
    ExtensionMaskIs(val, s, t);
  }

  lemma SignBitSet(val: Word, s: bv5, t: bv5)
    requires s <= t < 31 && val & Bit(t) != 0
    ensures Get(val, s, t) == GetBase(val, s, t) - ((2 as Word) << (t - s))
  {
    hide Get, Mask, GetBase, Bit;
    SetIsOr(val, s, t);
    MaskDown(s, t);
    BaseFits(val, s, t);
    Join(GetBase(val, s, t), Mask(s, t) >> s, t - s);
  }

  lemma WholeWord(val: Word)
    ensures Get(val, 0, 31) == val == SignExtended(val, 0, 31)
  {
  }

  /** The macro chain yields the signed value of every field that ends below bit 31. */
  lemma GetIsSignExtended(val: Word, s: bv5, t: bv5)
    requires s <= t && (t < 31 || s == 0)
    ensures Get(val, s, t) == SignExtended(val, s, t)
  {
    hide Get, GetBase, Bit;
    if val & Bit(t) == 0 {
      SignBitClear(val, s, t);
    } else if t < 31 {
      SignBitSet(val, s, t);
    } else {
      WholeWord(val);
    }
  }

  function BitOf(x: Word, k: bv5): Word { (x >> k) & 1 }

  lemma MaskBits(s: bv5, t: bv5, j: bv5)
    requires s <= t
    ensures BitOf(Mask(s, t), j) == if s <= j <= t then 1 else 0
  {
  }

  lemma AndBits(x: Word, m: Word, j: bv5)
    ensures BitOf(x & m, j) == BitOf(x, j) & BitOf(m, j)
  {
  }

  lemma ShiftBits(x: Word, s: bv5, k: bv5)
    ensures BitOf(x >> s, k) == if k <= 31 - s then BitOf(x, s + k) else 0
  {
  }

  lemma OneBit(x: Word, j: bv5)
    ensures BitOf(x, j) & 1 == BitOf(x, j) && BitOf(x, j) & 0 == 0
  {
  }

  lemma BaseAnd(val: Word, s: bv5, t: bv5, k: bv5)
    ensures BitOf(GetBase(val, s, t), k) == if k <= 31 - s then BitOf(val, s + k) & BitOf(Mask(s, t), s + k) else 0
  {
    hide BitOf, Mask;
    ShiftBits(val & Mask(s, t), s, k);
    AndBits(val, Mask(s, t), s + k);
  }

  lemma Places(s: bv5, t: bv5, k: bv5)
    requires s <= t
    ensures k <= 31 - s && s <= s + k <= t <==> k <= t - s
  {
  }

  lemma BaseBits(val: Word, s: bv5, t: bv5, k: bv5)
    requires s <= t
    ensures BitOf(GetBase(val, s, t), k) == if k <= t - s then BitOf(val, s + k) else 0
  {
    hide Mask, BitOf, GetBase;
    BaseAnd(val, s, t, k);
    MaskBits(s, t, s + k);
    OneBit(val, s + k);
    if k <= t - s {
      Places(s, t, k);
    } else {
      Places(s, t, k);
    }
  }

  lemma OrNotBits(g: Word, b: Word, m: Word, d: bv5, k: bv5)
    requires b & !m == 0 && m == ((2 as Word) << d) - 1 && g == b | !m
    ensures BitOf(g, k) == if k <= d then BitOf(b, k) else 1
  {
  }

  lemma SetBits(val: Word, s: bv5, t: bv5, k: bv5)
    requires s <= t < 31 && val & Bit(t) != 0
    ensures BitOf(Get(val, s, t), k) == if k <= t - s then BitOf(GetBase(val, s, t), k) else 1
  {
    hide Get, Mask, GetBase, Bit, BitOf;
    SetIsOr(val, s, t);
    MaskDown(s, t);
    BaseFits(val, s, t);
    OrNotBits(Get(val, s, t), GetBase(val, s, t), Mask(s, t) >> s, t - s, k);
  }

  /** Bit by bit: those of the field, and above it its top bit again and again. */
  lemma GetBits(val: Word, s: bv5, t: bv5, k: bv5)
    requires s <= t && (t < 31 || s == 0)
    ensures BitOf(Get(val, s, t), k) == if k <= t - s then BitOf(val, s + k) else BitOf(val, t)
  {
    hide Get, GetBase, Mask, BitOf, Bit;
    BaseBits(val, s, t, k);
    TopBit(val, t);
    if val & Bit(t) == 0 {
      SignBitClear(val, s, t);
    } else if t < 31 {
      SetBits(val, s, t, k);
    } else {
      WholeWord(val);
    }
  }

  lemma TopBit(val: Word, t: bv5)
    ensures BitOf(val, t) == if val & Bit(t) == 0 then 0 else 1
  {
  }

  /** In a field that ends at bit 31 the carry that singles out the sign bit is lost. */
  lemma SignBitLostIff(val: Word, s: bv5)
    requires s != 0
    ensures Get(val, s, 31) == GetBase(val, s, 31)
    ensures Get(val, s, 31) == SignExtended(val, s, 31) <==> val & 0x8000_0000 == 0
  {
  }

  // ---- the transmit power field, bits 0 to 7 ----

  const PWR_M: Word := 0x0000_00ff

  function PwrGet(info: Word): Word { Get(info, 0, 7) }

  function PwrSet(info: Word, val: Word): Word { info | (val & PWR_M) }

  /** -128 to 127 as 32-bit words. */
  predicate IsPower(val: Word) { val <= 0x7f || 0xffff_ff80 <= val }

  lemma PwrGetIs(info: Word)
    ensures PwrGet(info) == if info & 0x80 == 0 then info & 0x7f else info | 0xffff_ff80
  {
  }

  /** What is set is what is read, exactly for powers whose bits cover what was there before. */
  lemma PwrRoundTripIff(info: Word, val: Word)
    ensures PwrGet(PwrSet(info, val)) == val <==> IsPower(val) && info & PWR_M & !val == 0
    ensures PwrSet(info, val) & !PWR_M == info & !PWR_M
    ensures info & PWR_M == 0 && IsPower(val) ==> PwrGet(PwrSet(info, val)) == val
  {
    hide PwrGet;
    PwrGetIs(PwrSet(info, val));
  }
}
