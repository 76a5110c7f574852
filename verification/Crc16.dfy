/**
 The CRC of binary messages. The firmware shifts the register left over
 bit-reversed input (polynomial 0x8005) and reverses the bits of each register
 byte at the end. The MODBUS over Serial Line Specification (section 6.2.2)
 shifts right (polynomial 0xA001) over the input as it is.
 */
module Crc16 {

  // ---------------------------------------------------------------------------
  // Reversing bits

  function Reverse8(b: bv8): bv8 {
    var b1 := ((b & 0xAA) >> 1) | ((b & 0x55) << 1);
    var b2 := ((b1 & 0xCC) >> 2) | ((b1 & 0x33) << 2);
    (b2 >> 4) | (b2 << 4)
  }

  /** `finish`: the bits of each byte reversed, the bytes left where they are. */
  function ReverseInBytes(c: bv16): bv16 {
    var c1 := ((c & 0xAAAA) >> 1) | ((c & 0x5555) << 1);
    var c2 := ((c1 & 0xCCCC) >> 2) | ((c1 & 0x3333) << 2);
    ((c2 & 0xF0F0) >> 4) | ((c2 & 0x0F0F) << 4)
  }

  function SwapBytes(c: bv16): bv16 {
    (c >> 8) | (c << 8)
  }

  /** All sixteen bits reversed. */
  function Reverse16(c: bv16): bv16 {
    SwapBytes(ReverseInBytes(c))
  }

  lemma SwapBytesTwice(c: bv16)
    ensures SwapBytes(SwapBytes(c)) == c
  {
  }

  // ---------------------------------------------------------------------------
  // The register, one bit and one byte at a time

  function LeftBit(c: bv16): bv16 {
    if c & 0x8000 != 0 then (c << 1) ^ 0x8005 else c << 1
  }

  function RightBit(c: bv16): bv16 {
    if c & 0x0001 != 0 then (c >> 1) ^ 0xA001 else c >> 1
  }

  function LeftBits(c: bv16, n: nat): bv16 {
    if n == 0 then c else LeftBit(LeftBits(c, n - 1))
  }

  function RightBits(c: bv16, n: nat): bv16 {
    if n == 0 then c else RightBit(RightBits(c, n - 1))
  }

  /** An input byte, reversed, at the top of the register. */
  function Spread(b: bv8): bv16 {
    (Reverse8(b) as bv16) << 8
  }

  /** One byte into the firmware's register. */
  function LeftByte(c: bv16, b: bv8): bv16 {
    LeftBits(c ^ Spread(b), 8)
  }

  /** One byte into the register of the specification. */
  function RightByte(c: bv16, b: bv8): bv16 {
    RightBits(c ^ (b as bv16), 8)
  }

  function Left(s: seq<bv8>, c: bv16): bv16 {
    if s == [] then c else LeftByte(Left(s[..|s| - 1], c), s[|s| - 1])
  }

  function Right(s: seq<bv8>, c: bv16): bv16 {
    if s == [] then c else RightByte(Right(s[..|s| - 1], c), s[|s| - 1])
  }

  const INITIAL: bv16 := 0xFFFF

  // ---------------------------------------------------------------------------
  // The two are mirror images

  lemma ReverseXor(c: bv16, d: bv16)
    ensures Reverse16(c ^ d) == Reverse16(c) ^ Reverse16(d)
  {
  }

  lemma ReverseShift(c: bv16)
    ensures Reverse16(c << 1) == Reverse16(c) >> 1
  {
  }

  lemma ReverseTop(c: bv16)
    ensures c & 0x8000 != 0 <==> Reverse16(c) & 0x0001 != 0
  {
  }

  lemma PolynomialMirrored()
    ensures Reverse16(0x8005) == 0xA001
  {
  }

  lemma HighBitMirrored(c: bv16)
    requires c & 0x8000 != 0
    ensures Reverse16((c << 1) ^ 0x8005) == (Reverse16(c) >> 1) ^ 0xA001
  {
    hide Reverse16;
    ReverseShift(c);
    ReverseXor(c << 1, 0x8005);
    PolynomialMirrored();
  }

  lemma BitMirrored(c: bv16)
    ensures Reverse16(LeftBit(c)) == RightBit(Reverse16(c))
  {
    hide Reverse16;
    ReverseTop(c);
    if c & 0x8000 != 0 {
      HighBitMirrored(c);
    } else {
      ReverseShift(c);
    }
  }

  lemma {:induction false} BitsMirrored(c: bv16, n: nat)
    ensures Reverse16(LeftBits(c, n)) == RightBits(Reverse16(c), n)
  {
    if n > 0 {
      BitsMirrored(c, n - 1);
      BitMirrored(LeftBits(c, n - 1));
    }
  }

  lemma InputMirrored(c: bv16, b: bv8)
    ensures Reverse16(c ^ Spread(b)) == Reverse16(c) ^ (b as bv16)
  {
  }

  lemma ByteMirrored(c: bv16, b: bv8)
    ensures Reverse16(LeftByte(c, b)) == RightByte(Reverse16(c), b)
  {
    hide Reverse16, Spread, LeftBits, RightBits;
    InputMirrored(c, b);
    BitsMirrored(c ^ Spread(b), 8);
  }

  lemma {:induction false} Mirrored(s: seq<bv8>, c: bv16)
    ensures Reverse16(Left(s, c)) == Right(s, Reverse16(c))
  {
    hide Reverse16, LeftByte, RightByte;
    if s != [] {
      Mirrored(s[..|s| - 1], c);
      ByteMirrored(Left(s[..|s| - 1], c), s[|s| - 1]);
    }
  }

  /** The firmware's CRC is the CRC of the specification with its bytes swapped. */
  lemma CrcIsModbus(s: seq<bv8>)
    ensures ReverseInBytes(Left(s, INITIAL)) == SwapBytes(Right(s, INITIAL))
  {
    Mirrored(s, INITIAL);
    SwapBytesTwice(ReverseInBytes(Left(s, INITIAL)));
    assert Reverse16(INITIAL) == INITIAL;
  }

  // ---------------------------------------------------------------------------
  // Composition and detection

  lemma {:induction false} Composes(a: seq<bv8>, b: seq<bv8>, c: bv16)
    ensures Left(a + b, c) == Left(b, Left(a, c))
  {
    if b == [] {
      assert a + b == a;
    } else {
      assert (a + b)[..|a + b| - 1] == a + b[..|b| - 1];
      Composes(a, b[..|b| - 1], c);
    }
  }

  /** The bit step backwards. */
  function UndoBit(c: bv16): bv16 {
    if c & 1 != 0 then ((c ^ 0x8005) >> 1) | 0x8000 else c >> 1
  }

  lemma HighBitUndone(c: bv16)
    requires c & 0x8000 != 0
    ensures UndoBit((c << 1) ^ 0x8005) == c
  {
  }

  lemma LowBitUndone(c: bv16)
    requires c & 0x8000 == 0
    ensures UndoBit(c << 1) == c
  {
  }

  lemma BitUndone(c: bv16)
    ensures UndoBit(LeftBit(c)) == c
  {
    hide UndoBit;
    if c & 0x8000 != 0 {
      HighBitUndone(c);
    } else {
      LowBitUndone(c);
    }
  }

  lemma BitRedone(c: bv16)
    ensures LeftBit(UndoBit(c)) == c
  {
  }

  function UndoBits(c: bv16, n: nat): bv16
    decreases n
  {
    if n == 0 then c else UndoBits(UndoBit(c), n - 1)
  }

  lemma {:induction false} BitsUndone(c: bv16, n: nat)
    ensures UndoBits(LeftBits(c, n), n) == c
    ensures LeftBits(UndoBits(c, n), n) == c
    decreases n
  {
    hide LeftBit, UndoBit;
    if n > 0 {
      BitUndone(LeftBits(c, n - 1));
      BitsUndone(c, n - 1);
      BitsUndone(UndoBit(c), n - 1);
      BitRedone(c);
    }
  }

  function UndoByte(c: bv16, b: bv8): bv16 {
    UndoBits(c, 8) ^ Spread(b)
  }

  lemma XorTwice(c: bv16, x: bv16)
    ensures (c ^ x) ^ x == c
  {
  }

  lemma BitsXorUndone(c: bv16, x: bv16)
    ensures UndoBits(LeftBits(c ^ x, 8), 8) ^ x == c
    ensures LeftBits((UndoBits(c, 8) ^ x) ^ x, 8) == c
  {
    hide LeftBits, UndoBits;
    BitsUndone(c ^ x, 8);
    BitsUndone(c, 8);
    XorTwice(c, x);
    XorTwice(UndoBits(c, 8), x);
  }

  lemma ByteUnfolds(c: bv16, b: bv8)
    ensures LeftByte(c, b) == LeftBits(c ^ Spread(b), 8)
    ensures UndoByte(c, b) == UndoBits(c, 8) ^ Spread(b)
  {
  }

  /** Feeding a byte is a bijection of the register. */
  lemma ByteBijective(c: bv16, b: bv8)
    ensures UndoByte(LeftByte(c, b), b) == c
    ensures LeftByte(UndoByte(c, b), b) == c
  {
    hide LeftBits, UndoBits, Spread, LeftByte, UndoByte;
    BitsXorUndone(c, Spread(b));
    ByteUnfolds(c, b);
    ByteUnfolds(LeftByte(c, b), b);
    ByteUnfolds(UndoByte(c, b), b);
  }

  /** Registers that differ stay different over any common rest of the message. */
  lemma {:induction false} DifferenceSurvives(s: seq<bv8>, c: bv16, d: bv16)
    requires c != d
    ensures Left(s, c) != Left(s, d)
  {
    hide LeftByte, UndoByte;
    if s != [] {
      var init, b := s[..|s| - 1], s[|s| - 1];
      DifferenceSurvives(init, c, d);
      ByteBijective(Left(init, c), b);
      ByteBijective(Left(init, d), b);
    }
  }

  function Xor(c: bv16, d: bv16): bv16 {
    c ^ d
  }

  lemma ShiftLinear(c: bv16, d: bv16)
    ensures (c ^ d) << 1 == (c << 1) ^ (d << 1)
    ensures (c ^ d) & 0x8000 == (c & 0x8000) ^ (d & 0x8000)
  {
  }

  lemma BitLinear(c: bv16, d: bv16)
    ensures LeftBit(Xor(c, d)) == Xor(LeftBit(c), LeftBit(d))
  {
    ShiftLinear(c, d);
    TopBit(c);
    TopBit(d);
    XorShuffle(c << 1, d << 1, 0x8005);
    XorShuffle(d << 1, c << 1, 0x8005);
  }

  lemma TopBit(c: bv16)
    ensures c & 0x8000 == 0 || c & 0x8000 == 0x8000
  {
  }

  lemma XorShuffle(a: bv16, b: bv16, x: bv16)
    ensures (a ^ b) ^ x == (a ^ x) ^ b
    ensures (a ^ x) ^ (b ^ x) == a ^ b
    ensures a ^ b == b ^ a
  {
  }

  lemma {:induction false} BitsLinear(c: bv16, d: bv16, n: nat)
    ensures LeftBits(Xor(c, d), n) == Xor(LeftBits(c, n), LeftBits(d, n))
  {
    hide LeftBit, Xor;
    if n > 0 {
      BitsLinear(c, d, n - 1);
      BitLinear(LeftBits(c, n - 1), LeftBits(d, n - 1));
    }
  }

  lemma XorCancels(c: bv16, x: bv16, y: bv16)
    ensures Xor(c ^ x, c ^ y) == Xor(x, y)
  {
  }

  lemma XorIdentity(d: bv16, x: bv16, y: bv16)
    ensures Xor((d ^ y) ^ x, d) == Xor(x, y)
  {
  }

  lemma XorMoves(c: bv16, d: bv16, x: bv16, y: bv16)
    requires c ^ x == d ^ y
    ensures Xor(c, d) == Xor(x, y)
  {
    hide Xor;
    XorTwice(c, x);
    XorIdentity(d, x, y);
  }

  lemma UndoZeros(w: bv16)
    requires w & 0xFF == 0
    ensures UndoBits(w, 8) == w >> 8
  {
  }

  lemma SpreadLow(x: bv8, y: bv8)
    ensures Xor(Spread(x), Spread(y)) & 0xFF == 0
    ensures Xor(Spread(x), Spread(y)) == 0 ==> x == y
  {
  }

  /** Registers that the same byte count leads to from inputs `x` and `x'` differ by the shifted difference. */
  lemma InputDifference(c: bv16, x: bv8, x': bv8)
    ensures Xor(LeftByte(c, x), LeftByte(c, x')) == LeftBits(Xor(Spread(x), Spread(x')), 8)
  {
    hide LeftBits, Spread, LeftByte, Xor;
    ByteUnfolds(c, x);
    ByteUnfolds(c, x');
    BitsLinear(c ^ Spread(x), c ^ Spread(x'), 8);
    LeftBitsXor(c, Spread(x), Spread(x'));
  }

  lemma LeftBitsXor(c: bv16, x: bv16, y: bv16)
    ensures LeftBits(Xor(c ^ x, c ^ y), 8) == LeftBits(Xor(x, y), 8)
  {
    hide LeftBits, Xor;
    XorCancels(c, x, y);
  }

  /** If the second bytes lead to the same register, the first registers differ by the second bytes. */
  lemma RegisterDifference(d: bv16, y: bv8, d': bv16, y': bv8)
    requires LeftByte(d, y) == LeftByte(d', y')
    ensures Xor(d, d') == Xor(Spread(y), Spread(y'))
  {
    hide LeftBits, UndoBits, Spread, LeftByte, Xor;
    ByteUnfolds(d, y);
    ByteUnfolds(d', y');
    BitsUndone(d ^ Spread(y), 8);
    BitsUndone(d' ^ Spread(y'), 8);
    XorMoves(d, d', Spread(y), Spread(y'));
  }

  /** Eight shifts of a difference in the high byte leave the low byte zero only if there is no difference. */
  lemma NoDifference(t: bv16)
    requires t & 0xFF == 0 && LeftBits(t, 8) & 0xFF == 0
    ensures t == 0 && LeftBits(t, 8) == 0
  {
    hide LeftBits;
    BitsUndone(t, 8);
    UndoZeros(LeftBits(t, 8));
    HighAndLow(t, LeftBits(t, 8));
  }

  /** From the same register, two different pairs of bytes lead to different registers. */
  lemma PairInjective(c: bv16, x: bv8, y: bv8, x': bv8, y': bv8)
    requires LeftByte(LeftByte(c, x), y) == LeftByte(LeftByte(c, x'), y')
    ensures x == x' && y == y'
  {
    hide LeftBits, Spread, LeftByte, Xor;
    RegisterDifference(LeftByte(c, x), y, LeftByte(c, x'), y');
    InputDifference(c, x, x');
    SpreadLow(y, y');
    SpreadLow(x, x');
    NoDifference(Xor(Spread(x), Spread(x')));
  }

  lemma HighAndLow(t: bv16, w: bv16)
    requires t & 0xFF == 0 && t == w >> 8
    ensures t == 0
    ensures w & 0xFF == 0 ==> w == 0
  {
  }

  /** The CRC sent after a message. */
  function Crc(s: seq<bv8>): bv16 {
    ReverseInBytes(Left(s, INITIAL))
  }

  lemma FinishInjective(c: bv16, d: bv16)
    requires ReverseInBytes(c) == ReverseInBytes(d)
    ensures c == d
  {
  }

  /** The two messages agree outside the two adjacent bytes at `k`. */
  ghost predicate DifferOnlyAt(s: seq<bv8>, t: seq<bv8>, k: nat) {
    && |s| == |t| && k + 1 < |s|
    && s[..k] == t[..k] && s[k + 2..] == t[k + 2..]
  }

  /** An error confined to two adjacent bytes always changes the CRC. */
  lemma BurstDetected(s: seq<bv8>, t: seq<bv8>, k: nat)
    requires DifferOnlyAt(s, t, k) && s != t
    ensures Crc(s) != Crc(t)
  {
    hide LeftByte, ReverseInBytes;
    var c := Left(s[..k], INITIAL);
    SplitPair(s, k);
    SplitPair(t, k);
    assert s == s[..k] + [s[k], s[k + 1]] + s[k + 2..];
    assert t == t[..k] + [t[k], t[k + 1]] + t[k + 2..];
    assert s[k] != t[k] || s[k + 1] != t[k + 1];
    var d, d' := LeftByte(LeftByte(c, s[k]), s[k + 1]), LeftByte(LeftByte(c, t[k]), t[k + 1]);
    if d == d' {
      PairInjective(c, s[k], s[k + 1], t[k], t[k + 1]);
    }
    DifferenceSurvives(s[k + 2..], d, d');
    if Crc(s) == Crc(t) {
      FinishInjective(Left(s, INITIAL), Left(t, INITIAL));
    }
  }

  lemma SplitPair(s: seq<bv8>, k: nat)
    requires k + 1 < |s|
    ensures Left(s, INITIAL) == Left(s[k + 2..], LeftByte(LeftByte(Left(s[..k], INITIAL), s[k]), s[k + 1]))
  {
    hide LeftByte;
    assert s == s[..k + 2] + s[k + 2..];
    Composes(s[..k + 2], s[k + 2..], INITIAL);
    assert s[..k + 2][..k + 1] == s[..k + 1];
    assert s[..k + 1][..k] == s[..k];
  }

  // ---------------------------------------------------------------------------
  // The two programs

  /** The reversal of an input byte. */
  method ReverseByte(data: bv8) returns (b: bv8)
    ensures b == Reverse8(data)
  {
    b := ((data & 0xAA) >> 1) | ((data & 0x55) << 1);
    b := ((b & 0xCC) >> 2) | ((b & 0x33) << 2);
    b := (b >> 4) | (b << 4);
  }

  /** The body of the bit loop. */
  method ShiftLeft(c: bv16) returns (crc: bv16)
    ensures crc == LeftBit(c)
  {
    crc := c;
    if crc & (1 << 15) != 0 {
      crc := crc << 1;
      crc := crc ^ 0x8005;
    } else {
      crc := crc << 1;
    }
  }

  /** The reversal at the end. */
  method Finish(c: bv16) returns (crc: bv16)
    ensures crc == ReverseInBytes(c)
  {
    crc := ((c & 0xAAAA) >> 1) | ((c & 0x5555) << 1);
    crc := ((crc & 0xCCCC) >> 2) | ((crc & 0x3333) << 2);
    crc := ((crc & 0xF0F0) >> 4) | ((crc & 0x0F0F) << 4);
  }

  /** The firmware's `crc16`; the length is a 16-bit count. */
  method Crc16(data: seq<bv8>, finish: bool, start: bv16) returns (crc: bv16)
    requires |data| < 0x1_0000
    ensures crc == if finish then ReverseInBytes(Left(data, start)) else Left(data, start)
  {
    hide LeftBit, Reverse8, ReverseInBytes;
    crc := start;
    var i := 0;
    while i < |data|
      invariant 0 <= i <= |data| && crc == Left(data[..i], start)
    {
      var b := ReverseByte(data[i]);
      crc := crc ^ ((b as bv16) << 8);
      ghost var c := crc;
      var n := 0;
      while n < 8
        invariant 0 <= n <= 8 && crc == LeftBits(c, n)
      {
        crc := ShiftLeft(crc);
        n := n + 1;
      }
      assert data[..i + 1][..i] == data[..i];
      i := i + 1;
    }
    assert data[..i] == data;
    if finish {
      crc := Finish(crc);
    }
  }

  /** The same number in a JavaScript bit operation, which works on 32 bits. */
  function Wide(c: bv16): bv32 {
    c as bv32
  }

  lemma StartsAllOnes()
    ensures Wide(INITIAL) == 0xffff
  {
  }

  lemma JsReverses(b: bv8)
    ensures var d0 := b as bv32;
      var d1 := ((d0 & 0xAA) >> 1) | (((d0 & 0x55) << 1) & 0xffff);
      var d2 := ((d1 & 0xCC) >> 2) | (((d1 & 0x33) << 2) & 0xffff);
      var d3 := (d2 >> 4) | ((d2 << 4) & 0xffff);
      (d3 << 8) & 0xffff == Wide(Spread(b))
  {
  }

  lemma JsXors(w: bv32, v: bv32, c: bv16, d: bv16)
    requires w == Wide(c) && v == Wide(d)
    ensures w ^ v == Wide(c ^ d)
  {
  }

  /** The bit loop of the simulator's `crc16`, on 32-bit numbers. */
  function JsBit(c: bv32): bv32 {
    if c & (1 << 15) != 0 then ((c << 1) & 0xffff) ^ 0x8005 else (c << 1) & 0xffff
  }

  lemma JsHighBit(c: bv16)
    requires c & 0x8000 != 0
    ensures JsBit(Wide(c)) == Wide(LeftBit(c))
  {
  }

  lemma JsLowBit(c: bv16)
    requires c & 0x8000 == 0
    ensures JsBit(Wide(c)) == Wide(LeftBit(c))
  {
  }

  lemma JsBitAgrees(c: bv16)
    ensures JsBit(Wide(c)) == Wide(LeftBit(c))
  {
    hide JsBit, LeftBit, Wide;
    if c & 0x8000 != 0 {
      JsHighBit(c);
    } else {
      JsLowBit(c);
    }
  }

  method JsShiftLeft(c: bv32) returns (crc: bv32)
    ensures crc == JsBit(c)
  {
    crc := c;
    if crc & (1 << 15) != 0 {
      crc := (crc << 1) & 0xffff;
      crc := crc ^ 0x8005;
    } else {
      crc := (crc << 1) & 0xffff;
    }
  }

  /** The reversal of an input byte in the simulator, moved to the top of the register. */
  method JsSpread(data: bv8) returns (r: bv32)
    ensures r == Wide(Spread(data))
  {
    var d := data as bv32;
    d := ((d & 0xAA) >> 1) | (((d & 0x55) << 1) & 0xffff);
    d := ((d & 0xCC) >> 2) | (((d & 0x33) << 2) & 0xffff);
    d := (d >> 4) | ((d << 4) & 0xffff);
    r := (d << 8) & 0xffff;
    JsReverses(data);
  }

  /** The bit loop over one input byte. */
  method JsBits(start: bv32, ghost c: bv16) returns (crc: bv32)
    requires start == Wide(c)
    ensures crc == Wide(LeftBits(c, 8))
  {
    hide LeftBit, JsBit, Wide;
    crc := start;
    ghost var c16 := c;
    var n := 0;
    while n < 8
      invariant 0 <= n <= 8 && c16 == LeftBits(c, n) && crc == Wide(c16)
    {
      JsBitAgrees(c16);
      crc := JsShiftLeft(crc);
      c16 := LeftBit(c16);
      n := n + 1;
    }
  }

  /** One input byte. */
  method JsByte(start: bv32, data: bv8, ghost c: bv16) returns (crc: bv32)
    requires start == Wide(c)
    ensures crc == Wide(LeftByte(c, data))
  {
    hide LeftBits, Spread, LeftByte, Wide;
    var d := JsSpread(data);
    ghost var e := Spread(data);
    JsXors(start, d, c, e);
    var x := start ^ d;
    crc := JsBits(x, c ^ e);
    ByteUnfolds(c, data);
  }

  /** The simulator's `crc16` computes what the firmware's does without the final reversal. */
  method JsCrc16(data: seq<bv8>) returns (crc: bv32)
    ensures crc == Wide(Left(data, INITIAL))
  {
    StartsAllOnes();
    hide LeftByte, Wide;
    crc := 0xffff;
    var j := 0;
    while j < |data|
      invariant 0 <= j <= |data| && crc == Wide(Left(data[..j], INITIAL))
    {
      crc := JsByte(crc, data[j], Left(data[..j], INITIAL));
      assert data[..j + 1][..j] == data[..j];
      j := j + 1;
    }
    assert data[..j] == data;
  }
}
