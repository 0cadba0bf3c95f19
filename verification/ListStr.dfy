/** Number lists in firmware statistics: printed with commas into a buffer of limited space. */
module ListStr {
  import opened Nbufs

  // ---- decimals, and lists of them ----

  function Digit(d: nat): (c: char)
    requires d < 10
    ensures '0' <= c <= '9' && c as int == '0' as int + d
  {
    ('0' as int + d) as char
  }

  function Decimal(n: nat): (s: string)
    ensures s != "" && forall c <- s :: '0' <= c <= '9'
    ensures s[|s| - 1] as int == '0' as int + n % 10
    ensures n < 10 ==> |s| == 1
    ensures 0 < n ==> s[0] != '0'
  {
    if n < 10 then [Digit(n)] else Decimal(n / 10) + [Digit(n % 10)]
  }

  function Value(s: string): int {
    if s == "" then 0 else 10 * Value(s[..|s| - 1]) + (s[|s| - 1] as int - '0' as int)
  }

  lemma {:induction false} ValueOfDecimal(n: nat)
    ensures Value(Decimal(n)) == n
  {
    if 10 <= n {
      ValueOfDecimal(n / 10);
      assert Decimal(n)[..|Decimal(n)| - 1] == Decimal(n / 10);
    } else {
      assert Decimal(n)[..0] == "";
    }
  }

  /** The first `m` numbers, each with its comma. */
  function Text(vals: seq<nat>, m: nat): (s: string)
    requires m <= |vals|
    ensures m <= |s|
    ensures m == 0 ==> s == ""
    ensures 0 < m ==> s != "" && s[|s| - 1] == ','
  {
    if m == 0 then "" else Text(vals, m - 1) + Decimal(vals[m - 1]) + ","
  }

  lemma TextNext(vals: seq<nat>, m: nat)
    requires m <= |vals|
    ensures Text(vals, 0) == "" && Joined(vals, 0) == ""
    ensures m < |vals| ==> Text(vals, m + 1) == Text(vals, m) + (Decimal(vals[m]) + ",")
    ensures 0 < m ==> Joined(vals, m) == Text(vals, m)[..|Text(vals, m)| - 1]
    ensures m < |vals| ==> Joined(vals, m + 1) == Text(vals, m) + Decimal(vals[m])
  {
  }

  /** The same without the last comma. */
  function Joined(vals: seq<nat>, m: nat): string
    requires m <= |vals|
  {
    if m == 0 then "" else Text(vals, m - 1) + Decimal(vals[m - 1])
  }

  function LastComma(s: string): (j: int)
    ensures -1 <= j < |s| && (j >= 0 ==> s[j] == ',')
  {
    if s == "" || s[|s| - 1] == ',' then |s| - 1 else LastComma(s[..|s| - 1])
  }

  function Split(s: string): seq<string>
    decreases |s|
  {
    var j := LastComma(s);
    if j < 0 then [s] else Split(s[..j]) + [s[j + 1..]]
  }

  lemma {:induction false} LastCommaIs(a: string, b: string)
    requires ',' !in b && (a == "" || a[|a| - 1] == ',')
    ensures LastComma(a + b) == |a| - 1
    decreases |b|
  {
    if b == "" {
      assert a + b == a;
    } else {
      assert (a + b)[..|a + b| - 1] == a + b[..|b| - 1];
      LastCommaIs(a, b[..|b| - 1]);
    }
  }

  function Numbers(ss: seq<string>): (ns: seq<int>)
    ensures |ns| == |ss| && forall i :: 0 <= i < |ss| ==> ns[i] == Value(ss[i])
  {
    seq(|ss|, i requires 0 <= i < |ss| => Value(ss[i]))
  }

  lemma NumbersMore(ss: seq<string>, s: string)
    ensures Numbers(ss + [s]) == Numbers(ss) + [Value(s)] && Numbers([]) == []
  {
  }

  /** The piece behind the last comma. */
  lemma SplitLast(front: string, last: string)
    requires ',' !in last && (front == "" || front[|front| - 1] == ',')
    ensures Split(front + last) == if front == "" then [last] else Split(front[..|front| - 1]) + [last]
  {
    hide LastComma;
    LastCommaIs(front, last);
    var s := front + last;
    assert s[|front|..] == last;
    if front == "" {
      assert s == last;
    } else {
      assert s[..|front| - 1] == front[..|front| - 1];
    }
  }

  /** One more number in front of the end of the string. */
  lemma SplitMore(vals: seq<nat>, m: nat)
    requires m < |vals|
    ensures Numbers(Split(Joined(vals, m + 1)))
         == (if m == 0 then [] else Numbers(Split(Joined(vals, m)))) + [vals[m]]
  {
    hide Text, Joined, Decimal, LastComma, Split, Value, Numbers;
    var front, last := Text(vals, m), Decimal(vals[m]);
    TextNext(vals, m);
    SplitLast(front, last);
    ValueOfDecimal(vals[m]);
    if m == 0 {
      NumbersMore([], last);
      assert [] + [last] == [last];
    } else {
      NumbersMore(Split(front[..|front| - 1]), last);
    }
  }

  /** Splitting what was printed at the commas gives the numbers back. */
  lemma {:induction false} SplitGivesBack(vals: seq<nat>, m: nat)
    requires 0 < m <= |vals|
    ensures Numbers(Split(Joined(vals, m))) == vals[..m]
  {
    hide Joined, Split, Numbers;
    SplitMore(vals, m - 1);
    if 1 < m {
      SplitGivesBack(vals, m - 1);
    }
    assert vals[..m] == vals[..m - 1] + [vals[m - 1]];
  }

  // ---- the printer ----

  /** `m` numbers are printed: as many as come before a zero, are asked for, and leave room. */
  predicate Longest(vals: seq<nat>, maxElems: int, space: int, m: nat) {
    && m <= |vals|
    && (m == 0 || m <= maxElems)
    && (forall i :: 0 <= i < m ==> vals[i] != 0)
    && |Text(vals, m)| < space
    && (m < maxElems && m < |vals| ==> vals[m] == 0 || space <= |Text(vals, m + 1)|)
  }

  lemma {:induction false} TextGrows(vals: seq<nat>, m: nat, n: nat)
    requires m <= n <= |vals|
    ensures |Text(vals, m)| <= |Text(vals, n)|
    decreases n
  {
    if m < n {
      TextGrows(vals, m, n - 1);
    }
  }

  /** No longer prefix will do, and no other number of elements is meant. */
  lemma LongestIsUnique(vals: seq<nat>, maxElems: int, space: int, m: nat, n: nat)
    requires maxElems <= |vals| && Longest(vals, maxElems, space, m)
    requires n <= |vals| && (n == 0 || n <= maxElems)
    requires (forall i :: 0 <= i < n ==> vals[i] != 0) && |Text(vals, n)| < space
    ensures n <= m
    ensures Longest(vals, maxElems, space, n) ==> n == m
  {
    if m < n {
      TextGrows(vals, m + 1, n);
    } else if n < m {
      TextGrows(vals, n + 1, m);
    }
  }

  /** C99 snprintf: what does not fit is cut off, the result is the uncut length. */
  method SnPrint(buf: array<char>, at: nat, size: nat, text: string) returns (bytes: int)
    requires at + size <= buf.Length
    modifies buf
    ensures bytes == |text|
    ensures forall i :: 0 <= i < at || at + size <= i < buf.Length ==> buf[i] == old(buf[i])
    ensures 0 < size ==>
              var n := if |text| < size then |text| else size - 1;
              buf[at..at + n] == text[..n] && buf[at + n] == '\0'
  {
    if size == 0 {
      return |text|;
    }
    var n := if |text| < size then |text| else size - 1;
    for i := 0 to n
      invariant buf[at..at + i] == text[..i]
      invariant forall j :: 0 <= j < at || at + size <= j < buf.Length ==> buf[j] == old(buf[j])
    {
      buf[at + i] := text[i];
    }
    buf[at + n] := '\0';
    bytes := |text|;
  }

  /** htt_make_u8_list_str and htt_make_u16_list_str; `vals` is what their reader yields.  Without
      any space the terminator is written all the same. */
  method MakeListStr(vals: seq<nat>, buffer: array<char>, size: nat, maxElems: int) returns (ghost m: nat)
    requires size <= buffer.Length && 0 < buffer.Length && maxElems <= |vals|
    modifies buffer
    ensures 0 < size ==> Longest(vals, maxElems, size, m)
    ensures m <= |vals| && var s := Joined(vals, m); |s| < buffer.Length && buffer[..|s|] == s && buffer[|s|] == '\0'
    ensures 0 < size ==> |Joined(vals, m)| < size
    ensures size == 0 ==> m == 0
    ensures forall i :: size <= i < buffer.Length && 0 < i ==> buffer[i] == old(buffer[i])
  {
    hide Decimal, Text, Joined;
    var space: int, left, at, i := size, maxElems, 0, 0;
    m := 0;
    TextNext(vals, 0);
    while 0 < left
      invariant m <= |vals| && i == m && left == maxElems - m && (m == 0 || m <= maxElems)
      invariant forall j :: 0 <= j < m ==> vals[j] != 0
      invariant at == |Text(vals, m)| && space == size - at && (0 < size ==> 0 < space)
      invariant size == 0 ==> m == 0
      invariant buffer[..at] == Text(vals, m)
      invariant forall j :: size <= j < buffer.Length ==> buffer[j] == old(buffer[j])
    {
      TextNext(vals, m);
      left := left - 1;
      var val := vals[i];
      if val == 0 {
        break;
      }
      ghost var before := buffer[..at];
      var bytes := SnPrint(buffer, at, space, Decimal(val) + ",");
      assert buffer[..at] == before;
      space := space - bytes;
      if 0 < space {
        at := at + bytes;
        m := m + 1;
      } else {
        break;
      }
      i := i + 1;
    }
    if at == 0 {
      buffer[at] := '\0';
    } else {
      TextNext(vals, m);
      assert buffer[..at - 1] == Joined(vals, m);
      buffer[at - 1] := '\0';
    }
  }

  // ---- reading uploaded words on a big-endian host ----

  /** HTT_ENDIAN_BYTE_IDX_SWAP */
  function SwapIdx(i: nat): (r: nat)
    ensures r / 4 == i / 4 && r % 4 == 3 - i % 4
  {
    i / 4 * 4 + (3 - i % 4)
  }

  /** The upload reverses the bytes of each 32-bit word. */
  function Uploaded(orig: seq<Byte>): (mem: seq<Byte>)
    requires |orig| % 4 == 0
    ensures |mem| == |orig|
    ensures forall i :: 0 <= i < |mem| ==> mem[i] == orig[i / 4 * 4 + (3 - i % 4)]
  {
    seq(|orig|, i requires 0 <= i < |orig| => orig[SwapIdx(i)])
  }

  function Read8(mem: seq<Byte>, p: nat): Byte
    requires |mem| % 4 == 0 && p < |mem|
  {
    match p % 4
    case 0 => mem[p + 3]
    case 1 => mem[p + 1]
    case 2 => mem[p - 1]
    case _ => mem[p - 3]
  }

  /** The 16-bit integer at index `p` of the halfwords, as a big-endian host loads it. */
  function Load16(mem: seq<Byte>, p: nat): nat
    requires 2 * p + 1 < |mem|
  {
    0x100 * (mem[2 * p] as int) + mem[2 * p + 1] as int
  }

  function Read16(mem: seq<Byte>, p: nat): nat
    requires |mem| % 4 == 0 && 2 * p < |mem|
  {
    if p % 2 == 1 then Load16(mem, p - 1) else Load16(mem, p + 1)
  }

  lemma Read8UndoesUpload(orig: seq<Byte>, p: nat)
    requires |orig| % 4 == 0 && p < |orig|
    ensures Read8(Uploaded(orig), p) == orig[p]
  {
    SwapIdxIs(p / 4, 3 - p % 4);
    assert p == 4 * (p / 4) + p % 4;
  }

  /** The target is little-endian. */
  lemma Read16UndoesUpload(orig: seq<Byte>, p: nat)
    requires |orig| % 4 == 0 && 2 * p < |orig|
    ensures Read16(Uploaded(orig), p) == orig[2 * p] as int + 0x100 * (orig[2 * p + 1] as int)
  {
    hide SwapIdx;
    var q := if p % 2 == 1 then p - 1 else p + 1;
    SwapInWord(p / 2, p % 2);
    assert Uploaded(orig)[2 * q] == orig[SwapIdx(2 * q)];
    assert Uploaded(orig)[2 * q + 1] == orig[SwapIdx(2 * q + 1)];
  }

  lemma SwapInWord(word: nat, half: nat)
    requires half < 2
    ensures SwapIdx(4 * word + 2 * (1 - half)) == 4 * word + 2 * half + 1
    ensures SwapIdx(4 * word + 2 * (1 - half) + 1) == 4 * word + 2 * half
  {
    SwapIdxIs(word, 2 * (1 - half));
    SwapIdxIs(word, 2 * (1 - half) + 1);
  }

  lemma SwapIdxIs(word: nat, k: nat)
    requires k < 4
    ensures SwapIdx(4 * word + k) == 4 * word + (3 - k)
  {
    assert (4 * word + k) / 4 == word && (4 * word + k) % 4 == k;
  }
}
