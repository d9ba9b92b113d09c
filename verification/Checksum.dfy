/**
 The one's-complement arithmetic of Internet checksums (RFC 1071 section 1) and
 the incremental update of RFC 1624 section 3 that the data plane performs when
 it replaces a 32-bit address.
 */
module Checksum {
  import opened Bytes

  /** One end-around carry. */
  function Carry(n: nat): nat {
    n / 0x1_0000 + n % 0x1_0000
  }

  /** Carries added back until the sum fits 16 bits. */
  function Fold(n: nat): (r: u16)
    ensures r == 0 <==> n == 0
  {
    if n < 0x1_0000 then n else Fold(Carry(n))
  }

  /** How many times 0xffff is cast out of `n` by folding it. */
  ghost function CastOut(n: nat): (k: nat)
    ensures n == Fold(n) + 0xffff * k
  {
    if n < 0x1_0000 then 0 else n / 0x1_0000 + CastOut(Carry(n))
  }

  /** The sum of the 16-bit words of `s`, an odd last byte padded with zero. */
  function WordSum(s: seq<byte>): nat {
    if |s| == 0 then 0
    else if |s| == 1 then s[0] * 0x100
    else Be16(s, 0) + WordSum(s[2..])
  }

  /** The checksum a sender computes from scratch. */
  function Full(s: seq<byte>): u16 {
    0xffff - Fold(WordSum(s))
  }

  /** The test a receiver makes: data and checksum add up to all ones. */
  predicate Valid(sum: nat) {
    Fold(sum) == 0xffff
  }

  /** The data plane's update of `check` when a 32-bit field changes, two carries included. */
  function Update(check: u16, oldVal: u32, newVal: u32): u16 {
    0xffff - Carry(Carry(Delta(check, oldVal, newVal)))
  }

  /** The five-term sum of RFC 1624 equation 3, before any carry. */
  function Delta(check: u16, oldVal: u32, newVal: u32): nat {
    (0xffff - check)
    + (0xffff - oldVal / 0x1_0000) + (0xffff - oldVal % 0x1_0000)
    + newVal / 0x1_0000 + newVal % 0x1_0000
  }

  /** The sum of the two halves of a 32-bit field. */
  function Halves(v: u32): nat {
    v / 0x1_0000 + v % 0x1_0000
  }

  /** Up to eight words, two carries always suffice. */
  lemma TwoCarries(n: nat)
    requires n <= 8 * 0xffff
    ensures Carry(Carry(n)) == Fold(n) <= 0xffff
  {
    assert Carry(n) < 0x1_0008;
    assert Carry(n) >= 0x1_0000 ==> Carry(Carry(n)) < 0x1_0000;
  }

  lemma UpdateFolds(check: u16, oldVal: u32, newVal: u32)
    ensures Update(check, oldVal, newVal) == 0xffff - Fold(Delta(check, oldVal, newVal))
  {
    TwoCarries(Delta(check, oldVal, newVal));
  }

  /** Sums that differ by a multiple of 0xffff, neither of them zero, fold to the same word. */
  lemma FoldUnique(m: nat, n: nat, k: int)
    requires m == n + 0xffff * k && m > 0 && n > 0
    ensures Fold(m) == Fold(n)
  {
    hide Fold, CastOut;
    var i, j := CastOut(m), CastOut(n);
    assert Fold(m) - Fold(n) == 0xffff * (k - i + j);
  }

  /** A receiver accepts exactly the nonzero multiples of 0xffff. */
  lemma ValidIff(sum: nat)
    ensures Valid(sum) <==> sum % 0xffff == 0 && sum > 0
  {
    hide Fold, CastOut;
    var k := CastOut(sum);
  }

  /** Sums that differ by a multiple of 0xffff, neither of them zero, are accepted alike. */
  lemma ValidAlike(m: nat, n: nat, k: int)
    requires m == n + 0xffff * k && m > 0 && n > 0
    ensures Valid(m) <==> Valid(n)
  {
    FoldUnique(m, n, k);
  }

  lemma {:induction false} WordSumConcat(a: seq<byte>, b: seq<byte>)
    requires |a| % 2 == 0
    ensures WordSum(a + b) == WordSum(a) + WordSum(b)
  {
    if |a| == 0 {
      assert a + b == b;
    } else {
      assert (a + b)[2..] == a[2..] + b;
      WordSumConcat(a[2..], b);
    }
  }

  lemma WordSum32(s: seq<byte>)
    requires |s| == 4
    ensures WordSum(s) == Halves(Be32(s, 0))
  {
    assert s[2..][2..] == [];
    assert WordSum(s[2..]) == Be16(s, 2);
    SplitWords(Be16(s, 0), Be16(s, 2));
  }

  lemma WordSum16(s: seq<byte>)
    requires |s| == 2
    ensures WordSum(s) == Be16(s, 0)
  {
  }

  lemma CutTwice(f: seq<byte>, o: nat, e: nat)
    requires o <= e <= |f|
    ensures f == f[..o] + f[o..e] + f[e..]
  {
  }

  lemma WordSumConcat3(a: seq<byte>, b: seq<byte>, c: seq<byte>)
    requires |a| % 2 == 0 && |b| % 2 == 0
    ensures WordSum(a + b + c) == WordSum(a) + WordSum(b) + WordSum(c)
  {
    hide WordSum;
    WordSumConcat(a + b, c);
    WordSumConcat(a, b);
  }

  /** Overwriting whole words exchanges their contribution to the sum. */
  lemma WordSumPatch(f: seq<byte>, o: nat, s: seq<byte>)
    requires o + |s| <= |f| && o % 2 == 0 && |s| % 2 == 0
    ensures WordSum(Patch(f, o, s)) + WordSum(f[o..o + |s|]) == WordSum(f) + WordSum(s)
  {
    hide WordSum;
    var e := o + |s|;
    CutTwice(f, o, e);
    WordSumConcat3(f[..o], f[o..e], f[e..]);
    WordSumConcat3(f[..o], s, f[e..]);
  }

  lemma {:induction false} WordSumZero(s: seq<byte>)
    ensures WordSum(s) == 0 <==> forall i :: 0 <= i < |s| ==> s[i] == 0
  {
    if |s| >= 2 {
      WordSumZero(s[2..]);
      assert forall i :: 2 <= i < |s| ==> s[i] == s[2..][i - 2];
    }
  }

  /** The arithmetic of RFC 1624 equation 3 on a sum that contains the field. */
  lemma DeltaFolds(sum: nat, oldHalves: nat, newHalves: nat)
    requires oldHalves <= sum && oldHalves <= 2 * 0xffff
    ensures var delta: nat := Fold(sum) + 2 * 0xffff - oldHalves + newHalves;
            Fold(delta) == Fold(sum - oldHalves + newHalves) <==> sum - oldHalves + newHalves != 0
  {
    hide Fold, CastOut;
    var delta: nat := Fold(sum) + 2 * 0xffff - oldHalves + newHalves;
    var changed := sum - oldHalves + newHalves;
    if changed != 0 {
      FoldUnique(delta, changed, 2 - CastOut(sum));
    }
  }

  /**
   The incremental update refines recomputation: when `check` is the checksum of
   `data`, updating it for a new 32-bit value at any even offset gives, bit for
   bit, the checksum of the changed data - exactly unless that data is all zero.
   */
  lemma UpdateRefinesFull(data: seq<byte>, o: nat, newVal: u32)
    requires o + 4 <= |data| && o % 2 == 0
    ensures var changed := Patch(data, o, Enc32(newVal));
            Update(Full(data), Be32(data, o), newVal) == Full(changed)
            <==> exists i :: 0 <= i < |changed| && changed[i] != 0
  {
    hide Fold, WordSum;
    var changed := Patch(data, o, Enc32(newVal));
    var oldVal := Be32(data, o);
    FieldInSum(data, o);
    FieldExchanged(data, o, newVal);
    WordSumZero(changed);
    UpdateFolds(Full(data), oldVal, newVal);
    DeltaFolds(WordSum(data), Halves(oldVal), Halves(newVal));
  }

  /** The sum of `data` includes the halves of each of its 32-bit fields. */
  lemma FieldInSum(data: seq<byte>, o: nat)
    requires o + 4 <= |data| && o % 2 == 0
    ensures WordSum(data) >= Halves(Be32(data, o))
  {
    FieldExchanged(data, o, 0);
  }

  lemma FieldExchanged(data: seq<byte>, o: nat, newVal: u32)
    requires o + 4 <= |data| && o % 2 == 0
    ensures WordSum(Patch(data, o, Enc32(newVal))) == WordSum(data) - Halves(Be32(data, o)) + Halves(newVal)
  {
    WordSumPatch(data, o, Enc32(newVal));
    Be32Bytes(data, o);
    WordSum32(Enc32(Be32(data, o)));
    WordSum32(Enc32(newVal));
  }

  /** Updating for old -> new changes a sum that contains field and checksum by a multiple of 0xffff. */
  lemma UpdateBalances(check: u16, oldVal: u32, newVal: u32) returns (k: int)
    ensures Update(check, oldVal, newVal) + Halves(newVal) == check + Halves(oldVal) + 0xffff * k
  {
    UpdateFolds(check, oldVal, newVal);
    hide Fold, CastOut, Update;
    k := CastOut(Delta(check, oldVal, newVal)) - 2;
  }

  /** A nonzero sum leaves the updated checksum below 0xffff. */
  lemma UpdateBelowOnes(check: u16, oldVal: u32, newVal: u32)
    ensures Update(check, oldVal, newVal) == 0xffff
        <==> check == 0xffff && Halves(oldVal) == 2 * 0xffff && Halves(newVal) == 0
  {
    UpdateFolds(check, oldVal, newVal);
  }

  /** Old -> new -> old restores a checksum exactly when it was not 0xffff. */
  lemma UpdateRoundTrip(check: u16, a: u32, b: u32)
    ensures Update(Update(check, a, b), b, a) == check <==> check != 0xffff
  {
    hide Update;
    var mid := Update(check, a, b);
    var back := Update(mid, b, a);
    var j := UpdateBalances(check, a, b);
    var k := UpdateBalances(mid, b, a);
    assert back == check + 0xffff * (j + k);
    UpdateBelowOnes(check, a, b);
    UpdateBelowOnes(mid, b, a);
  }

  /** When an update reproduces the checksum it started from. */
  lemma UpdateFixedIff(check: u16, a: u32, b: u32)
    ensures Update(check, a, b) == check
        <==> if check == 0xffff then Halves(a) == 2 * 0xffff && Halves(b) == 0
             else Halves(a) % 0xffff == Halves(b) % 0xffff
  {
    hide Update;
    var k := UpdateBalances(check, a, b);
    UpdateBelowOnes(check, a, b);
    assert Update(check, a, b) - check == Halves(a) - Halves(b) + 0xffff * k;
  }

  /** When an update yields zero, the value that UDP reads as "no checksum". */
  lemma UpdateZeroIff(check: u16, a: u32, b: u32)
    ensures Update(check, a, b) == 0 <==> YieldsZero(check, a, b)
  {
    hide Update;
    var k := UpdateBalances(check, a, b);
    UpdateBelowOnes(check, a, b);
    assert Update(check, a, b) == check + Halves(a) - Halves(b) + 0xffff * k;
  }

  predicate YieldsZero(check: u16, a: u32, b: u32) {
    && (check + Halves(a)) % 0xffff == Halves(b) % 0xffff
    && !(check == 0xffff && Halves(a) == 2 * 0xffff && Halves(b) == 0)
  }
}
