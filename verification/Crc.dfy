/**
 The CRC code of package/bcmflash/src/utils.c (crc16_add, crc16) and package/rtlflash/src/flyavr.c
 (crc_ccitt_update, crc_xmodem_update), against bit-serial division by x^16 + x^12 + x^5 + 1.
 */
module Crc {
  /** One step of the division, least significant bit first: the generator reads 0x8408. */
  function ShiftRight(acc: bv16): bv16 {
    if acc & 1 != 0 then (acc >> 1) ^ 0x8408 else acc >> 1
  }

  /** One step of the division, most significant bit first: the generator reads 0x1021. */
  function ShiftLeft(acc: bv16): bv16 {
    if acc & 0x8000 != 0 then (acc << 1) ^ 0x1021 else acc << 1
  }

  function ShiftRights(acc: bv16, n: nat): bv16
    decreases n, acc
  {
    if n == 0 then acc else ShiftRights(ShiftRight(acc), n - 1)
  }

  function ShiftLefts(acc: bv16, n: nat): bv16
    decreases n, acc
  {
    if n == 0 then acc else ShiftLefts(ShiftLeft(acc), n - 1)
  }

  /** Dividing by one more byte, least significant bit first. */
  function ByteRight(acc: bv16, b: bv8): bv16 {
    ShiftRights(acc ^ (b as bv16), 8)
  }

  function ByteLeft(acc: bv16, b: bv8): bv16 {
    ShiftLefts(acc ^ ((b as bv16) << 8), 8)
  }

  /** The remainder of a whole message. */
  function Remainder(acc: bv16, p: seq<bv8>): bv16
    decreases |p|
  {
    if p == [] then acc else Remainder(ByteRight(acc, p[0]), p[1..])
  }

  lemma TwoRights(acc: bv16, n: nat)
    ensures ShiftRights(acc, n + 2) == ShiftRights(ShiftRight(ShiftRight(acc)), n)
  {
    assert ShiftRights(acc, n + 2) == ShiftRights(ShiftRight(acc), n + 1);
  }

  lemma EightRights(acc: bv16)
    ensures ShiftRights(acc, 8) == ShiftRight(ShiftRight(ShiftRight(ShiftRight(
                                   ShiftRight(ShiftRight(ShiftRight(ShiftRight(acc))))))))
  {
    var a2 := ShiftRight(ShiftRight(acc));
    var a4 := ShiftRight(ShiftRight(a2));
    var a6 := ShiftRight(ShiftRight(a4));
    TwoRights(acc, 6);
    TwoRights(a2, 4);
    TwoRights(a4, 2);
    TwoRights(a6, 0);
  }

  /** The swaps and shifts of crc16_add. */
  function Folded(acc: bv16): bv16 {
    var a := (acc >> 8) | (acc << 8);
    var b := a ^ ((a & 0xff00) << 4);
    var c := b ^ ((b >> 8) >> 4);
    c ^ ((c & 0xff00) >> 5)
  }

  /** They do eight steps of the division at once. */
  lemma FoldedIsDivision(acc: bv16)
    ensures Folded(acc) == ShiftRights(acc, 8)
  {
    EightRights(acc);
  }

  /** crc16_add divides by one byte. */
  method Crc16Add(b: bv8, acc0: bv16) returns (acc: bv16)
    ensures acc == ByteRight(acc0, b)
  {
    FoldedIsDivision(acc0 ^ (b as bv16));
    acc := Fold(acc0 ^ (b as bv16));
  }

  /** Its swaps and shifts. */
  method Fold(acc0: bv16) returns (acc: bv16)
    ensures acc == Folded(acc0)
  {
    acc := acc0;
    acc := (acc >> 8) | (acc << 8);
    acc := acc ^ ((acc & 0xff00) << 4);
    acc := acc ^ ((acc >> 8) >> 4);
    acc := acc ^ ((acc & 0xff00) >> 5);
  }

  /** crc16 */
  method Crc16(p: seq<bv8>) returns (result: bv16)
    ensures result == Remainder(0, p)
  {
    result := 0;
    for i := 0 to |p|
      invariant Remainder(0, p) == Remainder(result, p[i..])
    {
      assert p[i..][1..] == p[i + 1..];
      result := Crc16Add(p[i], result);
    }
  }

  /** crc_ccitt_update computes the same. */
  method CrcCcittUpdate(crc: bv16, data: bv8) returns (crc': bv16)
    ensures crc' == ByteRight(crc, data)
  {
    FoldedIsDivision(crc ^ (data as bv16));
    crc' := CcittFold(crc, data);
  }

  /** Its body. */
  method CcittFold(crc: bv16, data0: bv8) returns (crc': bv16)
    ensures crc' == Folded(crc ^ (data0 as bv16))
  {
    var data := data0;
    data := data ^ ((crc & 0xff) as bv8);
    ghost var data1 := data;
    data := data ^ (data << 4);
    CcittJoins(crc, data0, data1, data);
    crc' := Join(crc, data);
  }

  method Join(crc: bv16, data: bv8) returns (crc': bv16)
    ensures crc' == Joined(crc, data)
  {
    crc' := (((data as bv16) << 8) | (crc >> 8)) ^ ((data >> 4) as bv16) ^ ((data as bv16) << 3);
  }

  function Joined(crc: bv16, data: bv8): bv16 {
    (((data as bv16) << 8) | (crc >> 8)) ^ ((data >> 4) as bv16) ^ ((data as bv16) << 3)
  }

  lemma CcittJoins(crc: bv16, data0: bv8, data1: bv8, data: bv8)
    requires data1 == data0 ^ ((crc & 0xff) as bv8) && data == data1 ^ (data1 << 4)
    ensures Joined(crc, data) == Folded(crc ^ (data0 as bv16))
  {
    CcittBits(crc, data0, data1, data);
  }

  lemma CcittBits(crc: bv16, data0: bv8, data1: bv8, data: bv8)
    requires data1 == data0 ^ ((crc & 0xff) as bv8) && data == data1 ^ (data1 << 4)
    ensures (((data as bv16) << 8) | (crc >> 8)) ^ ((data >> 4) as bv16) ^ ((data as bv16) << 3)
         == var s := crc ^ (data0 as bv16);
            var a := (s >> 8) | (s << 8);
            var b := a ^ ((a & 0xff00) << 4);
            var c := b ^ ((b >> 8) >> 4);
            c ^ ((c & 0xff00) >> 5)
  {
  }

  /** crc_xmodem_update */
  method CrcXmodemUpdate(crc0: bv16, data: bv8) returns (crc: bv16)
    ensures crc == ByteLeft(crc0, data)
  {
    crc := crc0 ^ ((data as bv16) << 8);
    ghost var start := crc;
    for i := 0 to 8
      invariant ShiftLefts(start, 8) == ShiftLefts(crc, 8 - i)
    {
      if crc & 0x8000 != 0 {
        crc := (crc << 1) ^ 0x1021;
      } else {
        crc := crc << 1;
      }
    }
  }

  // ---- The two bit orders mirror each other ----

  function Mirror8(b: bv8): bv8 {
    var b1 := ((b & 0x55) << 1) | ((b >> 1) & 0x55);
    var b2 := ((b1 & 0x33) << 2) | ((b1 >> 2) & 0x33);
    (b2 << 4) | (b2 >> 4)
  }

  function Mirror16(w: bv16): bv16 {
    var w1 := ((w & 0x5555) << 1) | ((w >> 1) & 0x5555);
    var w2 := ((w1 & 0x3333) << 2) | ((w1 >> 2) & 0x3333);
    var w4 := ((w2 & 0x0f0f) << 4) | ((w2 >> 4) & 0x0f0f);
    (w4 << 8) | (w4 >> 8)
  }

  lemma MirrorXor(a: bv16, b: bv16)
    ensures Mirror16(a ^ b) == Mirror16(a) ^ Mirror16(b)
  {
  }

  lemma MirrorByte(b: bv8)
    ensures Mirror16(b as bv16) == (Mirror8(b) as bv16) << 8
  {
  }

  lemma MirrorHalf(a: bv16)
    ensures Mirror16(a >> 1) == Mirror16(a) << 1 && (Mirror16(a) & 0x8000 != 0 <==> a & 1 != 0)
    ensures Mirror16(0x8408) == 0x1021
  {
  }

  lemma MirrorShift(acc: bv16)
    ensures Mirror16(ShiftRight(acc)) == ShiftLeft(Mirror16(acc))
  {
    MirrorHalf(acc);
    if acc & 1 != 0 {
      MirrorXor(acc >> 1, 0x8408);
    }
  }

  lemma {:induction false} MirrorShifts(acc: bv16, n: nat)
    ensures Mirror16(ShiftRights(acc, n)) == ShiftLefts(Mirror16(acc), n)
    decreases n
  {
    if n > 0 {
      MirrorShift(acc);
      MirrorShifts(ShiftRight(acc), n - 1);
    }
  }

  /** crc_xmodem_update is crc_ccitt_update on mirrored bits. */
  lemma XmodemMirrorsCcitt(acc: bv16, b: bv8)
    ensures Mirror16(ByteRight(acc, b)) == ByteLeft(Mirror16(acc), Mirror8(b))
  {
    MirrorXor(acc, b as bv16);
    MirrorByte(b);
    MirrorShifts(acc ^ (b as bv16), 8);
  }

  // ---- Errors within two adjacent bytes are always found ----

  lemma ShiftInjective(a: bv16, b: bv16)
    requires ShiftRight(a) == ShiftRight(b)
    ensures a == b
  {
  }

  lemma {:induction false} ShiftsInjective(a: bv16, b: bv16, n: nat)
    requires ShiftRights(a, n) == ShiftRights(b, n)
    ensures a == b
    decreases n
  {
    if n > 0 {
      ShiftsInjective(ShiftRight(a), ShiftRight(b), n - 1);
      ShiftInjective(a, b);
    }
  }

  lemma ByteInjective(a: bv16, b: bv16, x: bv8)
    requires ByteRight(a, x) == ByteRight(b, x)
    ensures a == b
  {
    ShiftsInjective(a ^ (x as bv16), b ^ (x as bv16), 8);
    XorCancel(a, b, x);
  }

  lemma XorCancel(a: bv16, b: bv16, x: bv8)
    requires a ^ (x as bv16) == b ^ (x as bv16)
    ensures a == b
  {
  }

  lemma {:induction false} RemainderInjective(a: bv16, b: bv16, p: seq<bv8>)
    requires Remainder(a, p) == Remainder(b, p)
    ensures a == b
    decreases |p|
  {
    if p != [] {
      RemainderInjective(ByteRight(a, p[0]), ByteRight(b, p[0]), p[1..]);
      ByteInjective(a, b, p[0]);
    }
  }

  lemma SameOut(x: bv16, y: bv16)
    requires (ShiftRight(x) ^ ShiftRight(y)) & 0x8000 == 0
    ensures x & 1 == y & 1
  {
  }

  lemma HalvesDiffer(x: bv16, y: bv16)
    requires x & 1 == y & 1
    ensures x ^ y == ((x >> 1) ^ (y >> 1)) << 1
  {
  }

  lemma XorBoth(a: bv16, b: bv16, c: bv16)
    ensures (a ^ c) ^ (b ^ c) == a ^ b
  {
  }

  /** Undoing one step: while the difference d stays below the top bit, it was just halved. */
  lemma StepBack(x: bv16, y: bv16, d: bv16)
    requires ShiftRight(x) ^ ShiftRight(y) == d && d & 0x8000 == 0
    ensures x ^ y == d << 1
  {
    SameOut(x, y);
    HalvesDiffer(x, y);
    XorBoth(x >> 1, y >> 1, 0x8408);
  }

  function Doubled(d: bv16, n: nat): bv16
    decreases n, d
  {
    if n == 0 then d else Doubled(d, n - 1) << 1
  }

  /** d can be doubled n times without losing a bit. */
  predicate HasRoom(d: bv16, n: nat)
    decreases n, d
  {
    n == 0 || (HasRoom(d, n - 1) && Doubled(d, n - 1) & 0x8000 == 0)
  }

  lemma {:induction false} StepsBack(x: bv16, y: bv16, n: nat, d: bv16)
    requires ShiftRights(x, n) ^ ShiftRights(y, n) == d && HasRoom(d, n)
    ensures x ^ y == Doubled(d, n)
    decreases n
  {
    if n > 0 {
      StepsBack(ShiftRight(x), ShiftRight(y), n - 1, d);
      StepBack(x, y, Doubled(d, n - 1));
    }
  }

  lemma DoubledFits(d: bv16, n: nat, e: bv16)
    requires HasRoom(d, n) && Doubled(d, n) == e && e & 0x8000 == 0
    ensures HasRoom(d, n + 1) && Doubled(d, n + 1) == e << 1
  {
  }

  lemma DoubledTwo(d: bv16, n: nat, e: bv16)
    requires HasRoom(d, n) && Doubled(d, n) == e && e & 0xc000 == 0
    ensures HasRoom(d, n + 2) && Doubled(d, n + 2) == e << 2
  {
    TwoBits(e);
    DoubledFits(d, n, e);
    DoubledFits(d, n + 1, e << 1);
  }

  lemma TwoBits(e: bv16)
    requires e & 0xc000 == 0
    ensures e & 0x8000 == 0 && (e << 1) & 0x8000 == 0 && (e << 1) << 1 == e << 2
  {
  }

  lemma ByteHasRoom(d: bv16)
    requires d & 0xff00 == 0
    ensures HasRoom(d, 8) && Doubled(d, 8) & 0xff == 0
  {
    ByteBits(d);
    DoubledTwo(d, 0, d);
    DoubledTwo(d, 2, d << 2);
    DoubledTwo(d, 4, (d << 2) << 2);
    DoubledTwo(d, 6, ((d << 2) << 2) << 2);
  }

  lemma ByteBits(d: bv16)
    requires d & 0xff00 == 0
    ensures d & 0xc000 == 0 && (d << 2) & 0xc000 == 0 && ((d << 2) << 2) & 0xc000 == 0
    ensures (((d << 2) << 2) << 2) & 0xc000 == 0 && ((((d << 2) << 2) << 2) << 2) & 0xff == 0
  {
  }

  lemma LowByte(acc: bv16, a: bv8, b: bv8, d: bv16)
    requires (acc ^ (a as bv16)) ^ (acc ^ (b as bv16)) == d && d & 0xff == 0
    ensures a == b
  {
  }

  /** Different bytes after the same beginning leave a difference in the upper half. */
  lemma FirstByte(acc: bv16, a: bv8, b: bv8, d: bv16)
    requires ByteRight(acc, a) ^ ByteRight(acc, b) == d && d & 0xff00 == 0
    ensures a == b
  {
    ByteHasRoom(d);
    StepsBack(acc ^ (a as bv16), acc ^ (b as bv16), 8, d);
    LowByte(acc, a, b, Doubled(d, 8));
  }

  lemma SecondByte(x: bv16, y: bv16, a: bv8, b: bv8)
    requires ByteRight(x, a) == ByteRight(y, b)
    ensures (x ^ y) & 0xff00 == 0 && (x == y ==> a == b)
  {
    ShiftsInjective(x ^ (a as bv16), y ^ (b as bv16), 8);
    XorMove(x, y, a, b);
  }

  lemma XorMove(x: bv16, y: bv16, a: bv8, b: bv8)
    requires x ^ (a as bv16) == y ^ (b as bv16)
    ensures (x ^ y) & 0xff00 == 0 && (x == y ==> a == b)
  {
  }

  /** Two bytes after the same beginning are determined by the remainder. */
  lemma TwoBytes(acc: bv16, a0: bv8, a1: bv8, b0: bv8, b1: bv8)
    requires ByteRight(ByteRight(acc, a0), a1) == ByteRight(ByteRight(acc, b0), b1)
    ensures a0 == b0 && a1 == b1
  {
    SecondByte(ByteRight(acc, a0), ByteRight(acc, b0), a1, b1);
    FirstByte(acc, a0, b0, ByteRight(acc, a0) ^ ByteRight(acc, b0));
  }

  lemma {:induction false} RemainderConcat(acc: bv16, p: seq<bv8>, q: seq<bv8>)
    ensures Remainder(acc, p + q) == Remainder(Remainder(acc, p), q)
    decreases |p|
  {
    if p == [] {
      assert p + q == q;
    } else {
      assert (p + q)[1..] == p[1..] + q;
      RemainderConcat(ByteRight(acc, p[0]), p[1..], q);
    }
  }

  lemma BurstInside(p: seq<bv8>, q: seq<bv8>, k: nat)
    requires |p| == |q| && k + 2 <= |p|
    requires p[..k] == q[..k] && p[k + 2..] == q[k + 2..]
    requires Remainder(0, p) == Remainder(0, q)
    ensures p == q
  {
    var head, tail := p[..k], p[k + 2..];
    assert p == head + ([p[k], p[k + 1]] + tail) && q == head + ([q[k], q[k + 1]] + tail);
    var acc := Remainder(0, head);
    RemainderConcat(0, head, [p[k], p[k + 1]] + tail);
    RemainderConcat(0, head, [q[k], q[k + 1]] + tail);
    TwoSteps(acc, p[k], p[k + 1], tail);
    TwoSteps(acc, q[k], q[k + 1], tail);
    RemainderInjective(ByteRight(ByteRight(acc, p[k]), p[k + 1]), ByteRight(ByteRight(acc, q[k]), q[k + 1]), tail);
    TwoBytes(acc, p[k], p[k + 1], q[k], q[k + 1]);
  }

  /** Two messages of the same length that differ at most in two adjacent bytes have the same CRC
      only if they are equal. */
  lemma BurstDetected(p: seq<bv8>, q: seq<bv8>, k: nat)
    requires |p| == |q| && forall i :: 0 <= i < |p| && i != k && i != k + 1 ==> p[i] == q[i]
    requires Remainder(0, p) == Remainder(0, q)
    ensures p == q
  {
    if k + 2 <= |p| {
      BurstInside(p, q, k);
    } else if |p| >= 2 {
      BurstInside(p, q, |p| - 2);
    } else if |p| == 1 {
      assert p[1..] == [] && q[1..] == [];
      TwoBytes(0, p[0], 0, q[0], 0);
    }
  }

  lemma TwoSteps(acc: bv16, a: bv8, b: bv8, tail: seq<bv8>)
    ensures Remainder(acc, [a, b] + tail) == Remainder(ByteRight(ByteRight(acc, a), b), tail)
  {
    var s := [a, b] + tail;
    assert s[1..] == [b] + tail && s[1..][1..] == tail;
  }
}
