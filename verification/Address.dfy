/**
 Address blocks of base/hosts.c: the first and last usable address of IPv4 and
 IPv6 CIDR blocks, and IPv4-mapped IPv6 addresses.
 */
module Address {
  import opened Bytes
  import opened Bits

  const V4_SIZE: nat := 0x1_0000_0000

  type addr4 = x: int | 0 <= x < 0x1_0000_0000
  type addr6 = s: seq<byte> | |s| == 16 witness seq(16, _ => 0)

  // ------------------------------------------------------- Numbers as addresses

  /** The k-byte big-endian form of a number. */
  function Encode(n: nat, k: nat): (s: seq<byte>)
    ensures |s| == k
  {
    if k == 0 then [] else Encode(n / 256, k - 1) + [n % 256]
  }

  lemma {:induction false} ValueOfEncode(n: nat, k: nat)
    requires n < Shift(1, k)
    ensures Value(Encode(n, k)) == n
  {
    if k > 0 {
      ValueOfEncode(n / 256, k - 1);
      assert Encode(n, k)[..k - 1] == Encode(n / 256, k - 1);
    }
  }

  lemma {:induction false} EncodeOfValue(s: seq<byte>)
    ensures Encode(Value(s), |s|) == s
  {
    if s != [] {
      EncodeOfValue(s[..|s| - 1]);
      assert s == s[..|s| - 1] + [s[|s| - 1]];
    }
  }

  lemma {:induction false} V4SizeIsShift()
    ensures Shift(1, 4) == V4_SIZE
  {
    assert Shift(1, 4) == 256 * Shift(1, 3) == 65536 * Shift(1, 2);
  }

  // --------------------------------------------------------- IPv6 block bounds

  /** 2^(8q+r) is 2^r followed by q zero bytes. */
  lemma {:induction false} ShiftPow2(r: nat, q: nat)
    ensures Shift(Pow2(r), q) == Pow2(8 * q + r)
  {
    if q > 0 {
      ShiftPow2(r, q - 1);
      Pow2Plus8(8 * (q - 1) + r);
      assert 8 * (q - 1) + r + 8 == 8 * q + r;
    }
  }

  lemma {:induction false} LowBit(z: nat, c: nat, t: nat)
    requires c < 2
    ensures Low(2 * z + c, t + 1) == 2 * Low(z, t) + c
  {
  }

  lemma {:induction false} LowTwoBits(z: nat, c: nat, t: nat)
    requires c < 4
    ensures Low(4 * z + c, t + 2) == 4 * Low(z, t) + c
  {
    hide Low;
    LowBit(z, c / 2, t);
    LowBit(2 * z + c / 2, c % 2, t + 1);
    assert 2 * (2 * z + c / 2) + c % 2 == 4 * z + c;
  }

  lemma {:induction false} LowNibble(z: nat, c: nat, t: nat)
    requires c < 16
    ensures Low(16 * z + c, t + 4) == 16 * Low(z, t) + c
  {
    LowTwoBits(z, c / 4, t);
    LowTwoBits(4 * z + c / 4, c % 4, t + 2);
    assert 4 * (4 * z + c / 4) + c % 4 == 16 * z + c;
  }

  /** The low bits of a number whose last byte is b. */
  lemma {:induction false} LowByte(a: nat, b: byte, t: nat)
    ensures Low(a * 256 + b, t + 8) == 256 * Low(a, t) + b
  {
    LowNibble(a, b / 16, t);
    LowNibble(16 * a + b / 16, b % 16, t + 4);
    assert 16 * (16 * a + b / 16) + b % 16 == a * 256 + b;
  }

  lemma {:induction false} LowOfSum(high: nat, x: nat, r: nat, n: nat)
    requires r <= n && Low(high, n) == 0
    ensures Low(high + x, r) == Low(x, r)
    decreases r
  {
    if r > 0 {
      assert high % 2 == 0;
      assert (high + x) / 2 == high / 2 + x / 2 && (high + x) % 2 == x % 2;
      LowOfSum(high / 2, x / 2, r - 1, n - 1);
    }
  }

  lemma {:induction false} LowOfLastByte(s: seq<byte>, r: nat)
    requires r < 8 && s != []
    ensures Low(Value(s), r) == Low(s[|s| - 1], r)
  {
    var a := Value(s[..|s| - 1]);
    LowByte(a, 0, 0);
    LowOfSum(a * 256, s[|s| - 1], r, 8);
  }

  lemma {:induction false} ValueOfLast(s: seq<byte>)
    requires s != []
    ensures Value(s) == Value(s[..|s| - 1]) * 256 + s[|s| - 1]
  {
  }

  /** One byte more at the end of a number whose low n bits are known. */
  lemma {:induction false} LowOneByteMore(a: nat, b: byte, n: nat, low: nat, q: nat, tail: nat)
    requires Low(a, n) == Shift(low, q) + tail
    ensures Low(a * 256 + b, n + 8) == Shift(low, q + 1) + (tail * 256 + b)
  {
    LowByte(a, b, n);
  }

  lemma {:induction false} NoBytes(s: seq<byte>, a: nat)
    ensures Shift(a, 0) == a && Value(s[|s|..]) == 0
  {
  }

  /** The low 8q + r bits of a byte string are the low r bits of the byte before its
      last q bytes, followed by these. */
  lemma {:induction false} LowOfBytes(s: seq<byte>, q: nat, r: nat)
    requires r < 8 && q < |s|
    ensures Low(Value(s), 8 * q + r) == Shift(Low(s[|s| - 1 - q], r), q) + Value(s[|s| - q..])
    decreases q
  {
    hide Low, Value, Shift;
    if q == 0 {
      LowOfLastByte(s, r);
      NoBytes(s, Low(s[|s| - 1], r));
    } else {
      var t, tail, b := s[..|s| - 1], s[|s| - q..], s[|s| - 1];
      LowOfBytes(t, q - 1, r);
      ValueOfLast(s);
      ValueOfLast(tail);
      assert tail[..q - 1] == t[|t| - (q - 1)..] && t[|t| - q] == s[|s| - 1 - q];
      LowOneByteMore(Value(t), b, 8 * (q - 1) + r, Low(s[|s| - 1 - q], r), q - 1, Value(tail[..q - 1]));
      assert 8 * (q - 1) + r + 8 == 8 * q + r;
    }
  }

  lemma {:induction false} SplitAt(s: seq<byte>, j: nat)
    requires j < |s|
    ensures Value(s) == Shift(Value(s[..j]) * 256 + s[j], |s| - 1 - j) + Value(s[j + 1..])
  {
    ValueSplit(s, j + 1);
    assert s[..j + 1][..j] == s[..j];
  }

  lemma {:induction false} ClearedBytes(s: seq<byte>, t: seq<byte>, q: nat, r: nat)
    requires r < 8 && q < |s| == |t|
    requires var j := |s| - 1 - q;
             && t[..j] == s[..j] && t[j] == MaskByte(s[j], r)
             && forall k :: j < k < |t| ==> t[k] == 0
    ensures Value(t) == Value(s) - Low(Value(s), 8 * q + r)
  {
    hide Value, Low, Shift, MaskByte;
    var j := |s| - 1 - q;
    LowOfBytes(s, q, r);
    SplitAt(s, j);
    SplitAt(t, j);
    ValueZeros(t[j + 1..]);
    ShiftSum(Value(t[..j]) * 256 + t[j], Low(s[j], r), q);
  }

  lemma {:induction false} FillShift(base: nat, r: nat, q: nat)
    ensures Shift(base + Pow2(r) - 1, q) + Shift(1, q) - 1 == Shift(base, q) + Pow2(8 * q + r) - 1
  {
    ShiftSum(base + Pow2(r) - 1, 1, q);
    ShiftSum(base, Pow2(r), q);
    ShiftPow2(r, q);
  }

  lemma {:induction false} FilledBytes(s: seq<byte>, t: seq<byte>, q: nat, r: nat)
    requires r < 8 && q < |s| == |t|
    requires var j := |s| - 1 - q;
             && t[..j] == s[..j] && t[j] == FillByte(s[j], r)
             && forall k :: j < k < |t| ==> t[k] == 255
    ensures Value(t) == Value(s) - Low(Value(s), 8 * q + r) + Pow2(8 * q + r) - 1
  {
    hide Value, Low, Shift;
    var j := |s| - 1 - q;
    LowOfBytes(s, q, r);
    SplitAt(s, j);
    SplitAt(t, j);
    ValueOnes(t[j + 1..]);
    var low := Low(s[j], r);
    var base := Value(s[..j]) * 256 + s[j] - low;
    ShiftSum(base, low, q);
    FillShift(base, r, q);
  }

  lemma {:induction false} OrFits(x: nat, n: nat, r: nat)
    requires r <= n && x < Pow2(n)
    ensures BitOr(x, Pow2(r) - 1) < Pow2(n)
  {
    if x > 0 {
      OrFits(x / 2, n - 1, if r > 0 then r - 1 else 0);
    } else {
      Pow2Monotone(r, n);
    }
  }

  /** A byte and the complement of 2^r - 1. */
  function MaskByte(x: byte, r: nat): (y: byte)
    requires r < 8
    ensures y == x - Low(x, r)
  {
    assert BitAnd(x, BitXor(0xff, Pow2(r) - 1)) == x - Low(x, r) by {
      Pow2Plus8(0);
      XorOnes(8, r);
      AndMask(x, 8, r);
    }
    BitAnd(x, BitXor(0xff, Pow2(r) - 1))
  }

  /** A byte or 2^r - 1. */
  function FillByte(x: byte, r: nat): (y: byte)
    requires r < 8
    ensures y == x - Low(x, r) + Pow2(r) - 1
  {
    assert BitOr(x, Pow2(r) - 1) < 256 by {
      Pow2Plus8(0);
      OrFits(x, 8, r);
    }
    OrOnes(x, r);
    BitOr(x, Pow2(r) - 1)
  }

  /** And with the network mask, byte by byte: clears the low h bits. */
  method ClearLow(a: array<byte>, h: nat)
    requires h < 8 * a.Length
    modifies a
    ensures Value(a[..]) == Value(old(a[..])) - Low(Value(old(a[..])), h)
  {
    var q, r := h / 8, h % 8;
    var i, j := q, a.Length - 1;
    while i > 0
      invariant 0 <= i <= q && j == a.Length - 1 - (q - i)
      invariant a[..j + 1] == old(a[..j + 1])
      invariant forall k :: j < k < a.Length ==> a[k] == 0
    {
      a[j] := 0;
      j := j - 1;
      i := i - 1;
    }
    var x := a[j];
    a[j] := MaskByte(x, r);
    assert x == old(a[..])[j] && a[..][..j] == old(a[..])[..j];
    ClearedBytes(old(a[..]), a[..], q, r);
  }

  /** Or with the host mask, byte by byte: sets the low h bits. */
  method FillLow(a: array<byte>, h: nat)
    requires h < 8 * a.Length
    modifies a
    ensures Value(a[..]) == Value(old(a[..])) - Low(Value(old(a[..])), h) + Pow2(h) - 1
  {
    var q, r := h / 8, h % 8;
    var i, j := q, a.Length - 1;
    while i > 0
      invariant 0 <= i <= q && j == a.Length - 1 - (q - i)
      invariant a[..j + 1] == old(a[..j + 1])
      invariant forall k :: j < k < a.Length ==> a[k] == 255
    {
      a[j] := 0xff;
      j := j - 1;
      i := i - 1;
    }
    var x := a[j];
    a[j] := FillByte(x, r);
    assert x == old(a[..])[j] && a[..][..j] == old(a[..])[..j];
    FilledBytes(old(a[..]), a[..], q, r);
  }

  /** The first address of the block of 2^h addresses that holds v. */
  function BlockStart(v: nat, h: nat): nat {
    v - Low(v, h)
  }

  lemma {:induction false} BlockStartMeaning(v: nat, h: nat)
    ensures BlockStart(v, h) == v / Pow2(h) * Pow2(h)
    ensures BlockStart(v, h) <= v < BlockStart(v, h) + Pow2(h)
  {
    LowIsRemainder(v, h);
    Euclid(v, Pow2(h));
  }

  /** A block lies inside the address space. */
  lemma {:induction false} BlockFits(v: nat, n: nat, h: nat)
    requires v < Pow2(n) && h <= n
    ensures BlockStart(v, h) + Pow2(h) <= Pow2(n)
  {
    OrOnes(v, h);
    OrFits(v, n, h);
  }

  /** The value of the first usable address of an IPv6 block. */
  function FirstValue(v: nat, block: nat): int
    requires 1 <= block <= 128
  {
    if block == 128 then v
    else if block == 127 then BlockStart(v, 1)
    else BlockStart(v, 128 - block) + 1
  }

  /** The value of the last usable address of an IPv6 block. */
  function LastValue(v: nat, block: nat): int
    requires 1 <= block <= 128
  {
    if block == 128 then v
    else if block == 127 then BlockStart(v, 1) + 1
    else BlockStart(v, 128 - block) + Pow2(128 - block) - 2
  }

  /** Where the usable addresses of an IPv6 block of 2^h addresses begin and end: at the
      second and the last but one; a /127 has both addresses and a /128 one. */
  lemma {:induction false} Cidr6Values(v: nat, block: nat)
    requires 1 <= block <= 128
    ensures block <= 126 ==>
              var size := Pow2(128 - block);
              FirstValue(v, block) == v / size * size + 1 && LastValue(v, block) == v / size * size + size - 2
    ensures block == 127 ==> FirstValue(v, block) == v / 2 * 2 && LastValue(v, block) == v / 2 * 2 + 1
    ensures block == 128 ==> FirstValue(v, block) == LastValue(v, block) == v
  {
    hide Pow2, BlockStart;
    SmallPowers();
    BlockStartMeaning(v, 128 - block);
  }

  /** The bytes of the first and last usable address of an IPv6 block. */
  method BlockBytes6(addr: addr6, block: nat) returns (first: array<byte>, last: array<byte>)
    requires 1 <= block <= 128
    ensures fresh(first) && fresh(last) && first != last && first.Length == last.Length == 16
    ensures Value(first[..]) == FirstValue(Value(addr), block)
    ensures Value(last[..]) == LastValue(Value(addr), block)
  {
    hide Value, Low, Pow2;
    first := new byte[16](i requires 0 <= i < 16 => addr[i]);
    last := new byte[16](i requires 0 <= i < 16 => addr[i]);
    assert first[..] == addr && last[..] == addr;
    if block == 128 {
      return;
    }
    var h := 128 - block;
    ClearLow(first, h);
    FillLow(last, h);
    SmallPowers();
    if block == 127 {
      return;
    }
    Pow2Monotone(2, h);
    ValueBound(last[..]);
    Increment(first);
    Decrement(last);
  }

  /** The first and last usable address of an IPv6 block: all of the block but its
      first and last address, except that a /127 has both addresses and a /128 one. */
  method Cidr6BlockIps(addr: addr6, block: nat) returns (first: array<byte>, last: array<byte>)
    requires 1 <= block <= 128
    ensures fresh(first) && fresh(last) && first != last && first.Length == last.Length == 16
    ensures block <= 126 ==>
              var start, size := Value(addr) / Pow2(128 - block) * Pow2(128 - block), Pow2(128 - block);
              Value(first[..]) == start + 1 && Value(last[..]) == start + size - 2
    ensures block == 127 ==>
              Value(first[..]) == Value(addr) / 2 * 2 && Value(last[..]) == Value(addr) / 2 * 2 + 1
    ensures block == 128 ==> first[..] == last[..] == addr
  {
    hide FirstValue, LastValue, Value, Pow2;
    first, last := BlockBytes6(addr, block);
    Cidr6Values(Value(addr), block);
    if block == 128 {
      ValueInjective(first[..], addr);
      ValueInjective(last[..], addr);
    }
  }

  /** The functions that stand for the method have the same values. */
  lemma {:induction false} Cidr6Functions(addr: addr6, block: nat)
    requires 1 <= block <= 128
    ensures block <= 126 ==>
              var start, size := Value(addr) / Pow2(128 - block) * Pow2(128 - block), Pow2(128 - block);
              Value(Cidr6First(addr, block)) == start + 1 && Value(Cidr6Last(addr, block)) == start + size - 2
    ensures block == 127 ==>
              && Value(Cidr6First(addr, block)) == Value(addr) / 2 * 2
              && Value(Cidr6Last(addr, block)) == Value(addr) / 2 * 2 + 1
    ensures block == 128 ==> Cidr6First(addr, block) == Cidr6Last(addr, block) == addr
  {
    hide FirstValue, LastValue, Value, Pow2, Encode;
    Cidr6Values(Value(addr), block);
    if block == 128 {
      ValueInjective(Cidr6First(addr, block), addr);
      ValueInjective(Cidr6Last(addr, block), addr);
    }
  }

  /** All of a block of at least four addresses but its first and last one. */
  lemma {:induction false} InsideBlock(v: nat, n: nat, h: nat)
    requires v < Pow2(n) && 2 <= h <= n
    ensures BlockStart(v, h) + 1 <= BlockStart(v, h) + Pow2(h) - 2 < Pow2(n) - 1
  {
    BlockFits(v, n, h);
    Pow2Monotone(2, h);
  }

  /** The usable addresses of an IPv6 block are a range inside the address space; up
      to /126 it holds all but two of the addresses and ends below the last one. */
  lemma {:induction false} Cidr6Bounds(addr: addr6, block: nat)
    requires 1 <= block <= 128
    ensures var first, last := FirstValue(Value(addr), block), LastValue(Value(addr), block);
            && 0 <= first <= last < Shift(1, |addr|)
            && (block <= 126 ==> last < Shift(1, |addr|) - 1 && last - first + 1 == Pow2(128 - block) - 2)
  {
    ValueBound(addr);
    ShiftOne(|addr|);
    if block == 127 {
      BlockFits(Value(addr), 8 * |addr|, 1);
    } else if block <= 126 {
      InsideBlock(Value(addr), 8 * |addr|, 128 - block);
    }
  }

  function Cidr6First(addr: addr6, block: nat): (r: addr6)
    requires 1 <= block <= 128
    ensures Value(r) == FirstValue(Value(addr), block)
  {
    Cidr6Bounds(addr, block);
    ValueOfEncode(FirstValue(Value(addr), block), 16);
    Encode(FirstValue(Value(addr), block), 16)
  }

  function Cidr6Last(addr: addr6, block: nat): (r: addr6)
    requires 1 <= block <= 128
    ensures Value(r) == LastValue(Value(addr), block)
  {
    Cidr6Bounds(addr, block);
    ValueOfEncode(LastValue(Value(addr), block), 16);
    Encode(LastValue(Value(addr), block), 16)
  }

  // ---------------------------------------------------------- IPv4 block bounds

  /** The network mask of 32 bit arithmetic keeps the block start. */
  lemma {:induction false} NetworkMask(addr: addr4, h: nat)
    requires h <= 31
    ensures Pow2(32) == V4_SIZE && BitAnd(addr, BitXor(0xffff_ffff, Pow2(h) - 1)) == BlockStart(addr, h)
  {
    Pow2OfWord();
    XorOnes(32, h);
    AndMask(addr, 32, h);
  }

  lemma {:induction false} Pow2OfWord()
    ensures Pow2(32) == V4_SIZE
  {
    ShiftOne(4);
    V4SizeIsShift();
  }

  lemma {:induction false} Pow2OfByte()
    ensures Pow2(8) == 256
  {
    Pow2Plus8(0);
  }

  /** No wrap-around happens in the 32 bit arithmetic. */
  lemma {:induction false} Cidr4Arithmetic(addr: addr4, h: nat)
    requires 2 <= h <= 31
    ensures var first := (BitAnd(addr, BitXor(0xffff_ffff, Pow2(h) - 1)) + 1) % V4_SIZE;
            && first == BlockStart(addr, h) + 1
            && (first + Pow2(h) - 3) % V4_SIZE == BlockStart(addr, h) + Pow2(h) - 2
            && 4 <= Pow2(h) && BlockStart(addr, h) + Pow2(h) <= V4_SIZE
  {
    hide BitAnd, BitXor, Pow2, BlockStart;
    NetworkMask(addr, h);
    Pow2Monotone(2, h);
    SmallPowers();
    BlockFits(addr, 32, h);
    BlockNotNegative(addr, h);
  }

  lemma {:induction false} SmallPowers()
    ensures Pow2(1) == 2 && Pow2(2) == 4
  {
  }

  lemma {:induction false} BlockNotNegative(v: nat, h: nat)
    ensures v - Low(v, h) == BlockStart(v, h) >= 0
  {
    BlockStartMeaning(v, h);
  }

  /** The first and last usable address of an IPv4 block, in 32 bit arithmetic. */
  function Cidr4BlockIps(addr: addr4, block: nat): (r: (addr4, addr4))
    requires 1 <= block <= 30
    ensures var h := 32 - block;
            && r.0 == BlockStart(addr, h) + 1
            && r.1 == BlockStart(addr, h) + Pow2(h) - 2
            && r.0 <= r.1 < V4_SIZE - 1
            && r.1 - r.0 + 1 == Pow2(h) - 2
  {
    var size := Pow2(32 - block);
    Cidr4Arithmetic(addr, 32 - block);
    var first := (BitAnd(addr, BitXor(0xffff_ffff, size - 1)) + 1) % V4_SIZE;
    var last := (first + size - 3) % V4_SIZE;
    (first, last)
  }

  lemma {:induction false} LastByteMask(addr: addr4)
    ensures BitAnd(addr, 0xffff_ff00) == addr / 256 * 256 == BlockStart(addr, 8)
  {
    hide BitAnd, Low, Pow2, BlockStart;
    Pow2OfWord();
    Pow2OfByte();
    AndMask(addr, 32, 8);
    BlockNotNegative(addr, 8);
    BlockStartMeaning(addr, 8);
  }

  /** The last address of a short range: the last byte is replaced. */
  function ShortRange4Last(addr: addr4, end: nat): (r: addr4)
    requires end <= 255
    ensures r == BlockStart(addr, 8) + end && r / 256 == addr / 256 && r % 256 == end
  {
    LastByteMask(addr);
    BitAnd(addr, 0xffff_ff00) + end
  }

  /** The last address of a short IPv6 range: the last two bytes are replaced. */
  function ShortRange6Last(addr: addr6, end: nat): (r: addr6)
    requires end <= 0xffff
    ensures Value(r) == BlockStart(Value(addr), 16) + end
  {
    var r := addr[..14] + [end / 256, end % 256];
    assert Value(r) == BlockStart(Value(addr), 16) + end by {
      LastTwoBytes(addr);
      LastTwoBytes(r);
    }
    r
  }

  lemma {:induction false} LastTwoBytes(s: addr6)
    ensures Value(s) == BlockStart(Value(s), 16) + 256 * (s[14] as int) + s[15] as int
    ensures BlockStart(Value(s), 16) == Value(s[..14]) * 65536
  {
    var v, x, y := Value(s[..14]), s[14] as int, s[15] as int;
    assert s[..15][..14] == s[..14];
    assert Value(s) == Value(s[..15]) * 256 + y && Value(s[..15]) == v * 256 + x;
    Pow2Plus8(8);
    Pow2Plus8(0);
    DivModUnique(Value(s), 65536, v, 256 * x + y);
    LowIsRemainder(Value(s), 16);
  }

  // ------------------------------------------------------ IPv4-mapped addresses

  /** The IPv4-mapped form: 80 zero bits, 16 one bits, the address. */
  function Mapped(a: addr4): addr6 {
    seq(10, _ => 0) + [0xff, 0xff] + Encode(a, 4)
  }

  predicate IsMapped(s: addr6) {
    (forall i :: 0 <= i < 10 ==> s[i] == 0) && s[10] == 0xff && s[11] == 0xff
  }

  /** The address in the last four bytes. */
  function Unmapped(s: addr6): (a: addr4)
  {
    V4SizeIsShift();
    ValueBound(s[12..]);
    Value(s[12..])
  }

  lemma {:induction false} MappedRoundTrip(a: addr4, s: addr6)
    ensures IsMapped(Mapped(a)) && Unmapped(Mapped(a)) == a
    ensures IsMapped(s) ==> Mapped(Unmapped(s)) == s
  {
    V4SizeIsShift();
    ValueOfEncode(a, 4);
    assert Mapped(a)[12..] == Encode(a, 4);
    EncodeOfValue(s[12..]);
    if IsMapped(s) {
      assert s == s[..10] + [s[10], s[11]] + s[12..];
      assert s[..10] == seq(10, _ => 0);
    }
  }

  /** The value of the mapped form: all ones in bits 32 to 47, and the IPv4 address below
      (section 2.5.5.2 of RFC 4291). */
  lemma {:induction false} MappedValue(a: addr4)
    ensures Value(Mapped(a)) == 0xffff * V4_SIZE + a
  {
    var s, front: seq<byte> := Mapped(a), seq(10, _ => 0) + [0xff, 0xff];
    V4SizeIsShift();
    ValueOfEncode(a, 4);
    assert s[..12] == front && s[12..] == Encode(a, 4);
    MappedPrefix(front);
    hide Value, Encode, Shift;
    ValueSplit(s, 12);
    ShiftOfMany(0xffff);
  }

  lemma {:induction false} MappedPrefix(front: seq<byte>)
    requires front == seq(10, _ => 0) + [0xff, 0xff]
    ensures Value(front) == 0xffff
  {
    var zeros: seq<byte> := seq(10, _ => 0);
    ValueZeros(zeros);
    assert front[..11] == zeros + [0xff] && front[..11][..10] == zeros;
  }

  lemma {:induction false} ShiftOfMany(n: nat)
    ensures Shift(n, 4) == n * V4_SIZE
  {
    assert Shift(n, 0) == n && Shift(n, 1) == 256 * n && Shift(n, 2) == 65536 * n && Shift(n, 3) == 16777216 * n;
  }

  /** Writes the mapped form of an IPv4 address into a buffer. */
  method Ipv4AsIpv6(ip4: addr4, ip6: array<byte>)
    requires ip6.Length == 16
    modifies ip6
    ensures ip6[..] == Mapped(ip4)
  {
    var b := Encode(ip4, 4);
    for i := 0 to 10
      invariant forall k :: 0 <= k < i ==> ip6[k] == 0
    {
      ip6[i] := 0;
    }
    ip6[10], ip6[11] := 0xff, 0xff;
    ip6[12], ip6[13], ip6[14], ip6[15] := b[0], b[1], b[2], b[3];
  }
}
