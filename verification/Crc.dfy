/** The CRC over a disk image (disk_backend.cpp) and the changes it is sure to see. The bit
    operations have names, so that only the small lemmas about them look inside. */
module Crc {

  const POLY: bv32 := 0xEDB8_8320

  function Xor(x: bv32, y: bv32): bv32 {
    x ^ y
  }

  function Extend(b: bv8): bv32 {
    b as bv32
  }

  function UpByte(x: bv32): bv32 {
    x << 8
  }

  function Half(x: bv32): bv32 {
    x >> 1
  }

  predicate Odd(x: bv32) {
    x & 1 == 1
  }

  /** One bit of the division by the polynomial. */
  function OneBit(crc: bv32): bv32 {
    if Odd(crc) then Xor(Half(crc), POLY) else Half(crc)
  }

  function Bits(crc: bv32, n: nat): bv32
    decreases n
  {
    if n == 0 then crc else Bits(OneBit(crc), n - 1)
  }

  function CrcByte(crc: bv32, data: bv8): bv32 {
    Bits(Xor(crc, Extend(data)), 8)
  }

  function Fold(crc: bv32, data: seq<bv8>): bv32
    decreases |data|
  {
    if data == [] then crc else Fold(CrcByte(crc, data[0]), data[1..])
  }

  /** `crc32`. */
  method Crc32(crc: bv32, data: bv8) returns (r: bv32)
    ensures r == CrcByte(crc, data)
  {
    hide Xor, Extend, Half, Odd;
    r := Xor(crc, Extend(data));
    var i := 8;
    while i > 0
      invariant 0 <= i <= 8
      invariant Bits(r, i) == CrcByte(crc, data)
    {
      if Odd(r) {
        r := Xor(Half(r), POLY);
      } else {
        r := Half(r);
      }
      i := i - 1;
    }
  }

  /** The loop of `crc_over_data` over the bytes of one buffer. */
  method CrcOver(crc: bv32, data: seq<bv8>) returns (r: bv32)
    ensures r == Fold(crc, data)
  {
    hide CrcByte;
    r := crc;
    for i := 0 to |data|
      invariant Fold(r, data[i..]) == Fold(crc, data)
    {
      assert data[i..][1..] == data[i + 1..];
      r := Crc32(r, data[i]);
    }
  }

  /** The customary test: the CRC of the nine digits, complemented, is CBF43926. */
  lemma CheckValue()
    ensures Fold(0xFFFF_FFFF, [0x31, 0x32, 0x33, 0x34, 0x35, 0x36, 0x37, 0x38, 0x39]) == 0x340B_C6D9
  {
    assert CrcByte(0xFFFF_FFFF, 0x31) == 0x7C23_1048;
    assert CrcByte(0x7C23_1048, 0x32) == 0xB0AC_BB32;
    assert CrcByte(0xB0AC_BB32, 0x33) == 0x77B7_9C2D;
    assert CrcByte(0x77B7_9C2D, 0x34) == 0x641C_1F5C;
    assert CrcByte(0x641C_1F5C, 0x35) == 0x340A_C5E3;
    assert CrcByte(0x340A_C5E3, 0x36) == 0xF68D_2C9E;
    assert CrcByte(0xF68D_2C9E, 0x37) == 0xAFFC_9660;
    assert CrcByte(0xAFFC_9660, 0x38) == 0x651F_2550;
    assert CrcByte(0x651F_2550, 0x39) == 0x340B_C6D9;
  }

  // --- The bit operations ---

  lemma XorAssociates(x: bv32, y: bv32, z: bv32)
    ensures Xor(Xor(x, y), z) == Xor(x, Xor(y, z))
  {
  }

  lemma XorCommutes(x: bv32, y: bv32)
    ensures Xor(x, y) == Xor(y, x)
  {
  }

  lemma XorCancels(x: bv32, z: bv32)
    ensures Xor(Xor(x, z), z) == x
  {
  }

  lemma XorPairs(a: bv32, b: bv32, p: bv32)
    ensures Xor(Xor(a, p), Xor(b, p)) == Xor(a, b)
  {
    hide Xor;
    XorAssociates(a, p, Xor(b, p));
    XorCommutes(p, Xor(b, p));
    XorCancels(b, p);
  }

  lemma XorSwaps(a: bv32, b: bv32, p: bv32)
    ensures Xor(Xor(a, p), b) == Xor(Xor(a, b), p)
  {
    hide Xor;
    XorAssociates(a, p, b);
    XorCommutes(p, b);
    XorAssociates(a, b, p);
  }

  lemma HalfLinear(x: bv32, y: bv32)
    ensures Half(Xor(x, y)) == Xor(Half(x), Half(y))
  {
  }

  lemma OddLinear(x: bv32, y: bv32)
    ensures Odd(Xor(x, y)) <==> Odd(x) != Odd(y)
  {
  }

  lemma OneBitLinear(x: bv32, y: bv32)
    ensures OneBit(Xor(x, y)) == Xor(OneBit(x), OneBit(y))
  {
    hide Xor, Half, Odd;
    var a, b := Half(x), Half(y);
    HalfLinear(x, y);
    OddLinear(x, y);
    XorPairs(a, b, POLY);
    XorSwaps(a, b, POLY);
    XorAssociates(a, b, POLY);
  }

  /** The polynomial's top bit is set, and a halved word's is not. */
  lemma BranchShows(x: bv32, y: bv32)
    ensures Xor(Half(x), POLY) != Half(y)
  {
  }

  lemma HalfAndParity(x: bv32, y: bv32)
    requires Half(x) == Half(y) && Odd(x) == Odd(y)
    ensures x == y
  {
  }

  lemma OneBitInjective(x: bv32, y: bv32)
    requires OneBit(x) == OneBit(y)
    ensures x == y
  {
    hide Xor, Half, Odd;
    BranchShows(x, y);
    BranchShows(y, x);
    XorCancels(Half(x), POLY);
    XorCancels(Half(y), POLY);
    HalfAndParity(x, y);
  }

  lemma {:induction false} BitsLinear(x: bv32, y: bv32, n: nat)
    ensures Bits(Xor(x, y), n) == Xor(Bits(x, n), Bits(y, n))
    decreases n
  {
    hide OneBit, Xor;
    if n > 0 {
      OneBitLinear(x, y);
      BitsLinear(OneBit(x), OneBit(y), n - 1);
    }
  }

  /** The state update loses nothing. */
  lemma {:induction false} BitsInjective(x: bv32, y: bv32, n: nat)
    requires Bits(x, n) == Bits(y, n)
    ensures x == y
    decreases n
  {
    hide OneBit;
    if n > 0 {
      BitsInjective(OneBit(x), OneBit(y), n - 1);
      OneBitInjective(x, y);
    }
  }

  lemma {:induction false} BitsSum(x: bv32, m: nat, n: nat)
    ensures Bits(x, m + n) == Bits(Bits(x, m), n)
    decreases m
  {
    hide OneBit;
    if m > 0 {
      BitsSum(OneBit(x), m - 1, n);
    }
  }

  lemma CrcByteInjective(c: bv32, d: bv32, data: bv8)
    requires CrcByte(c, data) == CrcByte(d, data)
    ensures c == d
  {
    hide Bits, Xor, Extend;
    BitsInjective(Xor(c, Extend(data)), Xor(d, Extend(data)), 8);
    XorCancels(c, Extend(data));
    XorCancels(d, Extend(data));
  }

  lemma {:induction false} FoldInjective(c: bv32, d: bv32, data: seq<bv8>)
    requires Fold(c, data) == Fold(d, data)
    ensures c == d
    decreases |data|
  {
    hide CrcByte;
    if data != [] {
      FoldInjective(CrcByte(c, data[0]), CrcByte(d, data[0]), data[1..]);
      CrcByteInjective(c, d, data[0]);
    }
  }

  // --- Up to four bytes are one word of the state ---

  function Pack(data: seq<bv8>): bv32
    decreases |data|
  {
    if data == [] then 0 else Xor(Extend(data[0]), UpByte(Pack(data[1..])))
  }

  /** The top `n` bytes are zero. */
  predicate TopClear(x: bv32, n: nat) {
    x & TopMask(n) == 0
  }

  function TopMask(n: nat): bv32 {
    match n
    case 0 => 0
    case 1 => 0xFF00_0000
    case 2 => 0xFFFF_0000
    case 3 => 0xFFFF_FF00
    case _ => 0xFFFF_FFFF
  }

  lemma PackClears(b: bv8, p: bv32)
    ensures p & 0xFFFF_0000 == 0 ==> ((b as bv32) ^ (p << 8)) & 0xFF00_0000 == 0
    ensures p & 0xFFFF_FF00 == 0 ==> ((b as bv32) ^ (p << 8)) & 0xFFFF_0000 == 0
    ensures p & 0xFFFF_FFFF == 0 ==> ((b as bv32) ^ (p << 8)) & 0xFFFF_FF00 == 0
    ensures ((b as bv32) ^ (p << 8)) & 0 == 0
  {
  }

  lemma PackStep(b: bv8, p: bv32, n: nat)
    requires 1 <= n <= 4 && TopClear(p, n)
    ensures TopClear(Xor(Extend(b), UpByte(p)), n - 1)
  {
    PackClears(b, p);
  }

  lemma PackBounded(data: seq<bv8>)
    requires |data| <= 4
    ensures TopClear(Pack(data), 4 - |data|)
    decreases |data|
  {
    hide TopClear, Xor, Extend, UpByte;
    if data == [] {
      assert TopClear(0, 4) by { ZeroClear(); }
    } else {
      PackBounded(data[1..]);
      PackStep(data[0], Pack(data[1..]), 5 - |data|);
    }
  }

  lemma ZeroClear()
    ensures TopClear(0, 4)
  {
  }

  lemma MaskWeakens(x: bv32)
    ensures x & 0xFFFF_0000 == 0 ==> x & 0xFF00_0000 == 0
    ensures x & 0xFFFF_FF00 == 0 ==> x & 0xFF00_0000 == 0
    ensures x & 0xFFFF_FFFF == 0 ==> x & 0xFF00_0000 == 0
  {
  }

  lemma TopClearWeakens(x: bv32, n: nat)
    requires 1 <= n <= 4 && TopClear(x, n)
    ensures TopClear(x, 1)
  {
    MaskWeakens(x);
  }

  lemma Unpack(b: bv8, p: bv32, c: bv8, q: bv32)
    requires TopClear(p, 1) && TopClear(q, 1) && Xor(Extend(b), UpByte(p)) == Xor(Extend(c), UpByte(q))
    ensures b == c && p == q
  {
  }

  lemma {:induction false} PackInjective(s: seq<bv8>, t: seq<bv8>)
    requires |s| == |t| <= 4 && Pack(s) == Pack(t)
    ensures s == t
    decreases |s|
  {
    hide TopClear, Xor, Extend, UpByte;
    if s != [] {
      PackBounded(s[1..]);
      PackBounded(t[1..]);
      TopClearWeakens(Pack(s[1..]), 5 - |s|);
      TopClearWeakens(Pack(t[1..]), 5 - |s|);
      Unpack(s[0], Pack(s[1..]), t[0], Pack(t[1..]));
      PackInjective(s[1..], t[1..]);
      assert s == [s[0]] + s[1..] && t == [t[0]] + t[1..];
    }
  }

  function Double(x: bv32): bv32 {
    x << 1
  }

  function Up(p: bv32, k: nat): bv32
    decreases k
  {
    if k == 0 then p else Up(Double(p), k - 1)
  }

  /** The top `k` bits are zero. */
  predicate Room(p: bv32, k: nat)
    decreases k
  {
    k == 0 || (p & 0x8000_0000 == 0 && Room(Double(p), k - 1))
  }

  lemma DoubleBack(p: bv32)
    requires p & 0x8000_0000 == 0
    ensures !Odd(Double(p)) && Half(Double(p)) == p
  {
  }

  /** Bits that are zero only move right. */
  lemma {:induction false} ShiftsOut(p: bv32, k: nat)
    requires Room(p, k)
    ensures Bits(Up(p, k), k) == p
    decreases k
  {
    hide Double, Odd, Half, Xor;
    if k > 0 {
      DoubleBack(p);
      ShiftsOut(Double(p), k - 1);
      BitsSum(Up(p, k), k - 1, 1);
      assert Bits(Double(p), 1) == Bits(OneBit(Double(p)), 0) == p;
    }
  }

  lemma EightDoubles(p: bv32)
    requires p & 0xFF00_0000 == 0
    ensures p & 0x8000_0000 == 0 && (p << 1) & 0x8000_0000 == 0
    ensures (p << 1 << 1) & 0x8000_0000 == 0 && (p << 1 << 1 << 1) & 0x8000_0000 == 0
    ensures (p << 1 << 1 << 1 << 1) & 0x8000_0000 == 0 && (p << 1 << 1 << 1 << 1 << 1) & 0x8000_0000 == 0
    ensures (p << 1 << 1 << 1 << 1 << 1 << 1) & 0x8000_0000 == 0
    ensures (p << 1 << 1 << 1 << 1 << 1 << 1 << 1) & 0x8000_0000 == 0
    ensures p << 1 << 1 << 1 << 1 << 1 << 1 << 1 << 1 == p << 8
  {
  }

  lemma UpByteRoom(p: bv32)
    requires TopClear(p, 1)
    ensures Room(p, 8) && Up(p, 8) == UpByte(p)
  {
    EightDoubles(p);
    var x1 := Double(p);
    var x2 := Double(x1);
    var x3 := Double(x2);
    var x4 := Double(x3);
    var x5 := Double(x4);
    var x6 := Double(x5);
    var x7 := Double(x6);
    assert Room(x6, 2) && Up(x6, 2) == UpByte(p);
    assert Room(x4, 4) && Up(x4, 4) == UpByte(p);
    assert Room(x2, 6) && Up(x2, 6) == UpByte(p);
  }

  /** Folding at most four bytes is one linear map of the state xor the bytes. */
  lemma {:induction false} FoldIsBits(c: bv32, data: seq<bv8>)
    requires |data| <= 4
    ensures Fold(c, data) == Bits(Xor(c, Pack(data)), 8 * |data|)
    decreases |data|
  {
    hide TopClear, Xor, Extend, UpByte, OneBit, Bits, Up, Room;
    if data == [] {
      BitsNone(c);
    } else {
      var b, p, n := Extend(data[0]), Pack(data[1..]), 8 * |data[1..]|;
      FoldIsBits(CrcByte(c, data[0]), data[1..]);
      PackBounded(data[1..]);
      TopClearWeakens(p, 5 - |data|);
      UpByteRoom(p);
      ShiftsOut(p, 8);
      BitsLinear(Xor(c, b), UpByte(p), 8);
      XorAssociates(c, b, UpByte(p));
      BitsSum(Xor(c, Xor(b, UpByte(p))), 8, n);
      assert Bits(Xor(Bits(Xor(c, b), 8), p), n) == Bits(Bits(Xor(c, Pack(data)), 8), n);
    }
  }

  lemma BitsNone(c: bv32)
    ensures Bits(Xor(c, 0), 0) == c
  {
  }

  lemma {:induction false} FoldAppends(c: bv32, s: seq<bv8>, t: seq<bv8>)
    ensures Fold(c, s + t) == Fold(Fold(c, s), t)
    decreases |s|
  {
    hide CrcByte;
    if s == [] {
      assert s + t == t;
    } else {
      assert (s + t)[1..] == s[1..] + t;
      FoldAppends(CrcByte(c, s[0]), s[1..], t);
    }
  }

  /** Folding is injective in at most four bytes, for any state. */
  lemma FoldSeparates(d: bv32, u: seq<bv8>, v: seq<bv8>)
    requires |u| == |v| <= 4 && Fold(d, u) == Fold(d, v)
    ensures u == v
  {
    hide Fold, Bits, Pack, Xor;
    FoldIsBits(d, u);
    FoldIsBits(d, v);
    BitsInjective(Xor(d, Pack(u)), Xor(d, Pack(v)), 8 * |u|);
    XorCommutes(d, Pack(u));
    XorCommutes(d, Pack(v));
    XorCancels(Pack(u), d);
    XorCancels(Pack(v), d);
    PackInjective(u, v);
  }

  /** Two streams of one length that differ, but only within four consecutive bytes, never
      have the same CRC. */
  lemma BurstDetected(c: bv32, s: seq<bv8>, t: seq<bv8>, from: nat, to: nat)
    requires |s| == |t| && s != t && from <= to <= |s| && to - from <= 4
    requires s[..from] == t[..from] && s[to..] == t[to..]
    ensures Fold(c, s) != Fold(c, t)
  {
    hide Fold;
    var d, u, v := Fold(c, s[..from]), s[from..to], t[from..to];
    assert s == s[..from] + u + s[to..] && t == t[..from] + v + t[to..];
    FoldAppends(c, s[..from] + u, s[to..]);
    FoldAppends(c, s[..from], u);
    FoldAppends(c, t[..from] + v, t[to..]);
    FoldAppends(c, t[..from], v);
    if Fold(c, s) == Fold(c, t) {
      FoldInjective(Fold(d, u), Fold(d, v), s[to..]);
      FoldSeparates(d, u, v);
    }
  }
}
