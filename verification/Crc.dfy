/** The 16-bit CRC of uffs_crc.c: the table-driven update is bit-serial division by the reflected polynomial
    0x8408, the one of section C.2 of RFC 1662, from the same start value but without the final complement. */
module Crc {

  type Byte = x: bv16 | x < 256 witness 0

  function Xor(a: bv16, b: bv16): bv16 {
    a ^ b
  }

  function High(v: bv16): bv16 {
    v >> 8
  }

  function Low(v: bv16): bv16 {
    v & 0x00FF
  }

  // ----- the table, one line of sixteen entries per value of the high half of the index

  function Pick(k: bv16, e0: bv16, e1: bv16, e2: bv16, e3: bv16, e4: bv16, e5: bv16, e6: bv16, e7: bv16,
                e8: bv16, e9: bv16, e10: bv16, e11: bv16, e12: bv16, e13: bv16, e14: bv16, e15: bv16): bv16 {
    if k == 0 then e0 else if k == 1 then e1 else if k == 2 then e2 else if k == 3 then e3
    else if k == 4 then e4 else if k == 5 then e5 else if k == 6 then e6 else if k == 7 then e7
    else if k == 8 then e8 else if k == 9 then e9 else if k == 10 then e10 else if k == 11 then e11
    else if k == 12 then e12 else if k == 13 then e13 else if k == 14 then e14 else e15
  }

  function Rows0To3(hi: bv16, lo: bv16): bv16 {
    if hi == 0 then Pick(lo, 0x0000, 0x1189, 0x2312, 0x329b, 0x4624, 0x57ad, 0x6536, 0x74bf,
                             0x8c48, 0x9dc1, 0xaf5a, 0xbed3, 0xca6c, 0xdbe5, 0xe97e, 0xf8f7)
    else if hi == 1 then Pick(lo, 0x1081, 0x0108, 0x3393, 0x221a, 0x56a5, 0x472c, 0x75b7, 0x643e,
                                  0x9cc9, 0x8d40, 0xbfdb, 0xae52, 0xdaed, 0xcb64, 0xf9ff, 0xe876)
    else if hi == 2 then Pick(lo, 0x2102, 0x308b, 0x0210, 0x1399, 0x6726, 0x76af, 0x4434, 0x55bd,
                                  0xad4a, 0xbcc3, 0x8e58, 0x9fd1, 0xeb6e, 0xfae7, 0xc87c, 0xd9f5)
    else Pick(lo, 0x3183, 0x200a, 0x1291, 0x0318, 0x77a7, 0x662e, 0x54b5, 0x453c,
                  0xbdcb, 0xac42, 0x9ed9, 0x8f50, 0xfbef, 0xea66, 0xd8fd, 0xc974)
  }

  function Rows4To7(hi: bv16, lo: bv16): bv16 {
    if hi == 4 then Pick(lo, 0x4204, 0x538d, 0x6116, 0x709f, 0x0420, 0x15a9, 0x2732, 0x36bb,
                             0xce4c, 0xdfc5, 0xed5e, 0xfcd7, 0x8868, 0x99e1, 0xab7a, 0xbaf3)
    else if hi == 5 then Pick(lo, 0x5285, 0x430c, 0x7197, 0x601e, 0x14a1, 0x0528, 0x37b3, 0x263a,
                                  0xdecd, 0xcf44, 0xfddf, 0xec56, 0x98e9, 0x8960, 0xbbfb, 0xaa72)
    else if hi == 6 then Pick(lo, 0x6306, 0x728f, 0x4014, 0x519d, 0x2522, 0x34ab, 0x0630, 0x17b9,
                                  0xef4e, 0xfec7, 0xcc5c, 0xddd5, 0xa96a, 0xb8e3, 0x8a78, 0x9bf1)
    else Pick(lo, 0x7387, 0x620e, 0x5095, 0x411c, 0x35a3, 0x242a, 0x16b1, 0x0738,
                  0xffcf, 0xee46, 0xdcdd, 0xcd54, 0xb9eb, 0xa862, 0x9af9, 0x8b70)
  }

  function Rows8To11(hi: bv16, lo: bv16): bv16 {
    if hi == 8 then Pick(lo, 0x8408, 0x9581, 0xa71a, 0xb693, 0xc22c, 0xd3a5, 0xe13e, 0xf0b7,
                             0x0840, 0x19c9, 0x2b52, 0x3adb, 0x4e64, 0x5fed, 0x6d76, 0x7cff)
    else if hi == 9 then Pick(lo, 0x9489, 0x8500, 0xb79b, 0xa612, 0xd2ad, 0xc324, 0xf1bf, 0xe036,
                                  0x18c1, 0x0948, 0x3bd3, 0x2a5a, 0x5ee5, 0x4f6c, 0x7df7, 0x6c7e)
    else if hi == 10 then Pick(lo, 0xa50a, 0xb483, 0x8618, 0x9791, 0xe32e, 0xf2a7, 0xc03c, 0xd1b5,
                                   0x2942, 0x38cb, 0x0a50, 0x1bd9, 0x6f66, 0x7eef, 0x4c74, 0x5dfd)
    else Pick(lo, 0xb58b, 0xa402, 0x9699, 0x8710, 0xf3af, 0xe226, 0xd0bd, 0xc134,
                  0x39c3, 0x284a, 0x1ad1, 0x0b58, 0x7fe7, 0x6e6e, 0x5cf5, 0x4d7c)
  }

  function Rows12To15(hi: bv16, lo: bv16): bv16 {
    if hi == 12 then Pick(lo, 0xc60c, 0xd785, 0xe51e, 0xf497, 0x8028, 0x91a1, 0xa33a, 0xb2b3,
                              0x4a44, 0x5bcd, 0x6956, 0x78df, 0x0c60, 0x1de9, 0x2f72, 0x3efb)
    else if hi == 13 then Pick(lo, 0xd68d, 0xc704, 0xf59f, 0xe416, 0x90a9, 0x8120, 0xb3bb, 0xa232,
                                   0x5ac5, 0x4b4c, 0x79d7, 0x685e, 0x1ce1, 0x0d68, 0x3ff3, 0x2e7a)
    else if hi == 14 then Pick(lo, 0xe70e, 0xf687, 0xc41c, 0xd595, 0xa12a, 0xb0a3, 0x8238, 0x93b1,
                                   0x6b46, 0x7acf, 0x4854, 0x59dd, 0x2d62, 0x3ceb, 0x0e70, 0x1ff9)
    else Pick(lo, 0xf78f, 0xe606, 0xd49d, 0xc514, 0xb1ab, 0xa022, 0x92b9, 0x8330,
                  0x7bc7, 0x6a4e, 0x58d5, 0x495c, 0x3de3, 0x2c6a, 0x1ef1, 0x0f78)
  }

  function Table(i: bv16): bv16 {
    var hi, lo := i >> 4, i & 15;
    if hi < 4 then Rows0To3(hi, lo) else if hi < 8 then Rows4To7(hi, lo)
    else if hi < 12 then Rows8To11(hi, lo) else Rows12To15(hi, lo)
  }

  // ----- bit-serial division

  function Step(v: bv16): bv16 {
    if v & 1 == 1 then (v >> 1) ^ 0x8408 else v >> 1
  }

  function StepN(v: bv16, n: nat): bv16
    decreases n
  {
    if n == 0 then v else StepN(Step(v), n - 1)
  }

  function Step8(v: bv16): bv16 {
    Step(Step(Step(Step(Step(Step(Step(Step(v))))))))
  }

  /** What eight divisions make of a byte. */
  function ShortForm(i: bv16): bv16 {
    var x := (i ^ (i << 4)) & 0xFF;
    (x << 8) ^ (x >> 4) ^ (x << 3)
  }

  lemma {:induction false} Rows0To3Serial(i: bv16)
    requires 0 <= i < 64
    ensures Rows0To3(i >> 4, i & 15) == ShortForm(i)
  {
  }

  lemma {:induction false} Rows4To7Serial(i: bv16)
    requires 64 <= i < 128
    ensures Rows4To7(i >> 4, i & 15) == ShortForm(i)
  {
  }

  lemma {:induction false} Rows8To11Serial(i: bv16)
    requires 128 <= i < 192
    ensures Rows8To11(i >> 4, i & 15) == ShortForm(i)
  {
  }

  lemma {:induction false} Rows12To15Serial(i: bv16)
    requires 192 <= i < 256
    ensures Rows12To15(i >> 4, i & 15) == ShortForm(i)
  {
  }

  lemma {:induction false} ShortFormIsSerial(i: bv16)
    requires i < 256
    ensures Step8(i) == ShortForm(i)
  {
  }

  /** Each table entry is its index, divided eight times. */
  lemma {:induction false} TableIsSerial(i: bv16)
    requires i < 256
    ensures Table(i) == Step8(i)
  {
    hide Rows0To3, Rows4To7, Rows8To11, Rows12To15, Step8, ShortForm;
    ShortFormIsSerial(i);
    if i < 64 {
      Rows0To3Serial(i);
    } else if i < 128 {
      Rows4To7Serial(i);
    } else if i < 192 {
      Rows8To11Serial(i);
    } else {
      Rows12To15Serial(i);
    }
  }

  // ----- the update

  /** One byte: the CRC16 macro. */
  function ByteUpdate(v: bv16, x: Byte): bv16 {
    Xor(High(v), Table(Low(Xor(v, x))))
  }

  /** Bit-serial division of the message, a byte at a time. */
  function Divide(data: seq<Byte>, crc: bv16): bv16
    decreases |data|
  {
    if data == [] then crc else Step8(Xor(Divide(data[..|data| - 1], crc), data[|data| - 1]))
  }

  lemma {:induction false} ByteUpdateIsSerial(v: bv16, x: Byte)
    ensures ByteUpdate(v, x) == Step8(Xor(v, x))
  {
    hide Table, Step8, Xor, High, Low;
    HighAndLow(v, x);
    TableIsSerial(Low(Xor(v, x)));
    HighByteShifts(Xor(v, x));
  }

  lemma {:induction false} HighAndLow(v: bv16, x: Byte)
    ensures Low(Xor(v, x)) < 256 && High(Xor(v, x)) == High(v)
  {
  }

  lemma {:induction false} HighByteShifts(v: bv16)
    ensures Step8(v) == Xor(High(v), Step8(Low(v)))
  {
  }

  method Crc16Update(data: seq<Byte>, crc: bv16) returns (r: bv16)
    ensures r == Divide(data, crc)
  {
    r := crc;
    for i := 0 to |data|
      invariant r == Divide(data[..i], crc)
    {
      ByteUpdateIsSerial(r, data[i]);
      assert data[..i + 1][..i] == data[..i];
      r := ByteUpdate(r, data[i]);
    }
    assert data[..|data|] == data;
  }

  method Crc16Sum(data: seq<Byte>) returns (r: bv16)
    ensures r == Divide(data, 0xFFFF)
  {
    r := Crc16Update(data, 0xFFFF);
  }

  /** The update of a concatenation is the update with the second part from the update with the first. */
  lemma {:induction false} DivideConcat(a: seq<Byte>, b: seq<Byte>, crc: bv16)
    ensures Divide(a + b, crc) == Divide(b, Divide(a, crc))
    decreases |b|
  {
    hide Step8, Xor;
    if b == [] {
      assert a + b == a;
    } else {
      DivideConcat(a, b[..|b| - 1], crc);
      assert (a + b)[..|a + b| - 1] == a + b[..|b| - 1];
    }
  }

  // ----- messages as bits, the lowest bit of a byte first

  function Bit(b: bool): bv16 {
    if b then 1 else 0
  }

  /** Feed bits one by one. */
  function Feed(s: bv16, bits: seq<bool>): bv16
    decreases |bits|
  {
    if bits == [] then s else Feed(Step(Xor(s, Bit(bits[0]))), bits[1..])
  }

  function ByteBits(x: Byte): (bits: seq<bool>)
    ensures |bits| == 8
  {
    [x & 1 != 0, x & 2 != 0, x & 4 != 0, x & 8 != 0, x & 16 != 0, x & 32 != 0, x & 64 != 0, x & 128 != 0]
  }

  function BitsOf(data: seq<Byte>): (bits: seq<bool>)
    ensures |bits| == 8 * |data|
  {
    if data == [] then [] else BitsOf(data[..|data| - 1]) + ByteBits(data[|data| - 1])
  }

  lemma {:induction false} FeedConcat(s: bv16, a: seq<bool>, b: seq<bool>)
    ensures Feed(s, a + b) == Feed(Feed(s, a), b)
    decreases |a|
  {
    hide Step;
    if a == [] {
      assert a + b == b;
    } else {
      FeedConcat(Step(Xor(s, Bit(a[0]))), a[1..], b);
      assert (a + b)[1..] == a[1..] + b;
    }
  }

  /** The bits of a word, the lowest first. */
  function Word(bits: seq<bool>): bv16
    decreases |bits|
  {
    if bits == [] then 0 else Push(Word(bits[1..]), Bit(bits[0]))
  }

  function Push(w: bv16, b: bv16): bv16 {
    b ^ (w << 1)
  }

  predicate Fits(w: bv16, m: bv16) {
    w & m == 0
  }

  /** The bits a word of n bits does not have. */
  function Above(n: nat): bv16
    decreases n
  {
    if n == 0 then 0xFFFF else Push(Above(n - 1), 0)
  }

  lemma {:induction false} WordFits(bits: seq<bool>)
    ensures Fits(Word(bits), Above(|bits|))
    decreases |bits|
  {
    hide Fits, Push, Bit;
    if bits != [] {
      WordFits(bits[1..]);
      PushFits(Word(bits[1..]), Above(|bits| - 1), bits[0]);
    } else {
      ZeroFits(0xFFFF);
    }
  }

  lemma {:induction false} ZeroFits(m: bv16)
    ensures Fits(0, m)
  {
  }

  lemma {:induction false} PushFits(w: bv16, m: bv16, b: bool)
    requires Fits(w, m)
    ensures Fits(Push(w, Bit(b)), Push(m, 0))
  {
  }

  predicate HasTop(m: bv16) {
    m & 0x8000 == 0x8000
  }

  lemma {:induction false} TopBitAbove(n: nat)
    requires n <= 15
    ensures HasTop(Above(n))
  {
    assert Above(1) == 0xFFFE && Above(2) == 0xFFFC;
    assert Above(3) == 0xFFF8 && Above(4) == 0xFFF0;
    assert Above(5) == 0xFFE0 && Above(6) == 0xFFC0;
    assert Above(7) == 0xFF80 && Above(8) == 0xFF00;
    assert Above(9) == 0xFE00 && Above(10) == 0xFC00;
    assert Above(11) == 0xF800 && Above(12) == 0xF000;
    assert Above(13) == 0xE000 && Above(14) == 0xC000;
    assert Above(15) == 0x8000;
  }

  /** Feeding up to sixteen bits is dividing by as many steps once they are all added. */
  lemma {:induction false} FeedIsStepN(s: bv16, bits: seq<bool>)
    requires |bits| <= 16
    ensures Feed(s, bits) == StepN(Xor(s, Word(bits)), |bits|)
    decreases |bits|
  {
    hide Step, Xor, Push, Fits, HasTop, Above, Bit;
    if bits != [] {
      var w := Word(bits[1..]);
      WordFits(bits[1..]);
      TopBitAbove(|bits| - 1);
      StepSplits(s, bits[0], w, Above(|bits| - 1));
      FeedIsStepN(Step(Xor(s, Bit(bits[0]))), bits[1..]);
    } else {
      XorZero(s);
    }
  }

  lemma {:induction false} XorZero(s: bv16)
    ensures Xor(s, 0) == s
  {
  }

  /** A word is consumed bit by bit. */
  lemma {:induction false} StepSplits(s: bv16, b: bool, w: bv16, m: bv16)
    requires Fits(w, m) && HasTop(m)
    ensures Step(Xor(s, Push(w, Bit(b)))) == Xor(Step(Xor(s, Bit(b))), w)
  {
    NoTop(w, m);
    hide Fits, HasTop;
    PushIs(w, Bit(b), s);
    StepEven(Xor(s, Bit(b)), w);
  }

  lemma {:induction false} NoTop(w: bv16, m: bv16)
    requires Fits(w, m) && HasTop(m)
    ensures w & 0x8000 == 0
  {
  }

  lemma {:induction false} PushIs(w: bv16, b: bv16, s: bv16)
    ensures Xor(s, Push(w, b)) == Xor(s, b) ^ (w << 1)
  {
  }

  lemma {:induction false} StepEven(a: bv16, w: bv16)
    requires w & 0x8000 == 0
    ensures Step(a ^ (w << 1)) == Xor(Step(a), w)
  {
  }

  // ----- a step loses nothing

  lemma {:induction false} StepInjective(a: bv16, b: bv16)
    ensures Step(a) == Step(b) ==> a == b
  {
  }

  lemma {:induction false} StepNInjective(a: bv16, b: bv16, n: nat)
    requires a != b
    ensures StepN(a, n) != StepN(b, n)
    decreases n
  {
    if n > 0 {
      StepInjective(a, b);
      StepNInjective(Step(a), Step(b), n - 1);
    }
  }

  lemma {:induction false} FeedInjective(s: bv16, t: bv16, bits: seq<bool>)
    requires s != t
    ensures Feed(s, bits) != Feed(t, bits)
    decreases |bits|
  {
    hide Step, Xor, Bit;
    if bits != [] {
      var b := Bit(bits[0]);
      XorDiffers(b, s, t);
      StepInjective(Xor(s, b), Xor(t, b));
      FeedInjective(Step(Xor(s, b)), Step(Xor(t, b)), bits[1..]);
    }
  }

  lemma {:induction false} WordsDiffer(a: seq<bool>, b: seq<bool>)
    requires |a| == |b| <= 16 && a != b
    ensures Word(a) != Word(b)
    decreases |a|
  {
    hide Fits, Push, HasTop, Above, Bit;
    WordFits(a[1..]);
    WordFits(b[1..]);
    TopBitAbove(|a| - 1);
    if a[1..] != b[1..] {
      WordsDiffer(a[1..], b[1..]);
    } else {
      assert a == [a[0]] + a[1..] && b == [b[0]] + b[1..];
    }
    PushDiffers(a[0], Word(a[1..]), b[0], Word(b[1..]), Above(|a| - 1));
  }

  lemma {:induction false} PushDiffers(a: bool, u: bv16, b: bool, v: bv16, m: bv16)
    requires Fits(u, m) && Fits(v, m) && HasTop(m)
    ensures Push(u, Bit(a)) == Push(v, Bit(b)) ==> a == b && u == v
  {
  }

  /** Feeding the bits of a byte is one update. */
  lemma {:induction false} FeedByte(s: bv16, x: Byte)
    ensures Feed(s, ByteBits(x)) == Step8(Xor(s, x))
  {
    hide Step, ByteBits, Word, Feed, StepN, Step8, Xor;
    var bits := ByteBits(x);
    FeedIsStepN(s, bits);
    WordOfByte(x);
    StepNIsStep8(Xor(s, x));
  }

  lemma {:induction false} StepNIsStep8(v: bv16)
    ensures StepN(v, 8) == Step8(v)
  {
    hide Step;
    var v4 := Step(Step(Step(Step(v))));
    assert StepN(v, 8) == StepN(v4, 4);
    assert StepN(v4, 4) == Step(Step(Step(Step(v4))));
  }

  lemma {:induction false} WordOfByte(x: Byte)
    ensures Word(ByteBits(x)) == x
  {
    hide Push, Bit;
    var b := ByteBits(x);
    WordOfTwo(b, 6);
    WordOfTwo(b, 4);
    WordOfTwo(b, 2);
    WordOfTwo(b, 0);
    assert b[0..] == b;
    assert b[8..] == [];
    JoinBits(x);
  }

  lemma {:induction false} WordOfTwo(bits: seq<bool>, i: nat)
    requires i + 2 <= |bits|
    ensures Word(bits[i..]) == Push(Push(Word(bits[i + 2..]), Bit(bits[i + 1])), Bit(bits[i]))
  {
    hide Push, Bit;
    assert bits[i..][1..] == bits[i + 1..];
    assert bits[i + 1..][1..] == bits[i + 2..];
  }

  lemma {:induction false} JoinBits(x: Byte)
    ensures var b := ByteBits(x);
            x == Push(Push(Push(Push(Push(Push(Push(Push(0, Bit(b[7])), Bit(b[6])), Bit(b[5])), Bit(b[4])),
                                Bit(b[3])), Bit(b[2])), Bit(b[1])), Bit(b[0]))
  {
  }

  lemma {:induction false} DivideIsFeed(data: seq<Byte>, crc: bv16)
    ensures Divide(data, crc) == Feed(crc, BitsOf(data))
    decreases |data|
  {
    hide Step8, ByteBits, Step, Xor;
    if data != [] {
      DivideIsFeed(data[..|data| - 1], crc);
      FeedConcat(crc, BitsOf(data[..|data| - 1]), ByteBits(data[|data| - 1]));
      FeedByte(Divide(data[..|data| - 1], crc), data[|data| - 1]);
    }
  }

  lemma {:induction false} BitsDiffer(a: seq<Byte>, b: seq<Byte>)
    requires |a| == |b| && a != b
    ensures BitsOf(a) != BitsOf(b)
    decreases |a|
  {
    hide ByteBits;
    var n := |a| - 1;
    assert a == a[..n] + [a[n]] && b == b[..n] + [b[n]];
    assert BitsOf(a)[8 * n..] == ByteBits(a[n]) && BitsOf(b)[8 * n..] == ByteBits(b[n]);
    assert BitsOf(a)[..8 * n] == BitsOf(a[..n]) && BitsOf(b)[..8 * n] == BitsOf(b[..n]);
    if a[n] != b[n] {
      ByteBitsDiffer(a[n], b[n]);
    } else {
      BitsDiffer(a[..n], b[..n]);
    }
  }

  lemma {:induction false} ByteBitsDiffer(x: Byte, y: Byte)
    requires x != y
    ensures ByteBits(x) != ByteBits(y)
  {
    WordOfByte(x);
    WordOfByte(y);
  }

  /** The bits agree but for at most sixteen in a row. */
  ghost predicate Burst(a: seq<bool>, b: seq<bool>, from: nat) {
    |a| == |b| && forall i :: 0 <= i < |a| && !(from <= i < from + 16) ==> a[i] == b[i]
  }

  /** Every burst error of at most sixteen bits changes the sum. */
  lemma {:induction false} BurstDetected(a: seq<Byte>, b: seq<Byte>, from: nat)
    requires |a| == |b| && a != b && Burst(BitsOf(a), BitsOf(b), from)
    ensures Divide(a, 0xFFFF) != Divide(b, 0xFFFF)
  {
    hide BitsOf, Step, Divide, Feed;
    BitsDiffer(a, b);
    DivideIsFeed(a, 0xFFFF);
    DivideIsFeed(b, 0xFFFF);
    FeedsDiffer(BitsOf(a), BitsOf(b), from, 0xFFFF);
  }

  lemma {:induction false} FeedsDiffer(a: seq<bool>, b: seq<bool>, from: nat, s: bv16)
    requires a != b && Burst(a, b, from)
    ensures Feed(s, a) != Feed(s, b)
  {
    hide Step, StepN, Word, Feed, Xor;
    var i := if from < |a| then from else |a|;
    var j := if from + 16 < |a| then from + 16 else |a|;
    var p := a[..i];
    assert p == b[..i] && a[j..] == b[j..];
    assert a == p + (a[i..j] + a[j..]) && b == p + (b[i..j] + b[j..]);
    FeedConcat(s, p, a[i..j] + a[j..]);
    FeedConcat(s, p, b[i..j] + b[j..]);
    var t := Feed(s, p);
    FeedConcat(t, a[i..j], a[j..]);
    FeedConcat(t, b[i..j], b[j..]);
    WordsDiffer(a[i..j], b[i..j]);
    FeedIsStepN(t, a[i..j]);
    FeedIsStepN(t, b[i..j]);
    XorDiffers(t, Word(a[i..j]), Word(b[i..j]));
    StepNInjective(Xor(t, Word(a[i..j])), Xor(t, Word(b[i..j])), j - i);
    FeedInjective(Feed(t, a[i..j]), Feed(t, b[i..j]), a[j..]);
  }

  lemma {:induction false} XorDiffers(t: bv16, u: bv16, v: bv16)
    requires u != v
    ensures Xor(t, u) != Xor(t, v) && Xor(u, t) != Xor(v, t)
  {
  }
}
