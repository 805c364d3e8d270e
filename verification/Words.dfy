/** Fixed-width machine words, the option type and byte-level helpers shared by all components. */
module Words {

  type Byte = b: int | 0 <= b < 0x100
  type U16 = w: int | 0 <= w < 0x1_0000
  type U32 = w: int | 0 <= w < 0x1_0000_0000
  type U64 = w: int | 0 <= w < 0x1_0000_0000_0000_0000

  /** C's `int`. */
  type I32 = w: int | -0x8000_0000 <= w < 0x8000_0000

  const U16_MAX := 0xFFFF
  const U32_MAX := 0xFFFF_FFFF
  const U64_MAX := 0xFFFF_FFFF_FFFF_FFFF

  datatype Option<+T> = None | Some(value: T)

  /** Reduction of an unsigned result to 32 bits, as C arithmetic on `uint32_t` does. */
  function Wrap32(x: int): U32 {
    x % 0x1_0000_0000
  }

  /** Reduction of an unsigned result to 64 bits. */
  function Wrap64(x: int): U64 {
    x % 0x1_0000_0000_0000_0000
  }

  /** `x & ~1U`. */
  function Even(x: nat): nat {
    x - x % 2
  }

  function Min(a: int, b: int): int {
    if a < b then a else b
  }

  function Max(a: int, b: int): int {
    if a > b then a else b
  }

  /** A length cut so that it ends inside `size`, by a test whose sum is taken in 32 bits. */
  function ClipSum(pos: U32, len: U32, size: U32): U32
    requires pos < size
  {
    if Wrap32(pos + len) > size then size - pos else len
  }

  /** Such a test keeps a region inside exactly when its sum fits 32 bits. */
  lemma ClipExact(pos: U32, len: U32, size: U32)
    requires pos < size
    ensures pos + ClipSum(pos, len, size) <= size <==> pos + len <= U32_MAX
    ensures ClipSum(pos, len, size) == if pos + len <= U32_MAX then Min(len, size - pos) else len
  {
    if pos + len > U32_MAX {
      assert Wrap32(pos + len) == pos + len - 0x1_0000_0000;
    } else {
      assert Wrap32(pos + len) == pos + len;
    }
  }

  /** Bitwise or of two non-negative integers, bit by bit. */
  function BitOr(a: nat, b: nat): nat
    decreases a + b
  {
    if a == 0 && b == 0 then 0
    else 2 * BitOr(a / 2, b / 2) + (if a % 2 == 1 || b % 2 == 1 then 1 else 0)
  }

  /** Or-ing with zero changes nothing. */
  lemma {:induction false} BitOrZero(a: nat)
    ensures BitOr(a, 0) == a
  {
    if a != 0 {
      BitOrZero(a / 2);
    }
  }

  /** `(uint8_t)((hi << 4) | lo)`: two nibbles in a byte, with C's truncation when they do not fit. */
  function PackNibbles(hi: Byte, lo: Byte): Byte {
    BitOr(hi * 16, lo) % 0x100
  }

  lemma {:induction false} BitOrShift(a: nat, b: nat)
    ensures BitOr(a * 2, b) == 2 * BitOr(a, b / 2) + b % 2
  {
    assert a * 2 / 2 == a && a * 2 % 2 == 0;
    if a == 0 && b == 0 {
      assert b / 2 == 0 && b % 2 == 0;
    }
  }

  /** A nibble or-ed below a multiple of sixteen is added to it. */
  lemma {:induction false} BitOrNibble(hi: nat, lo: nat)
    requires lo < 16
    ensures BitOr(hi * 16, lo) == hi * 16 + lo
  {
    hide BitOr;
    BitOrShift(hi * 8, lo);
    BitOrShift(hi * 4, lo / 2);
    BitOrShift(hi * 2, lo / 2 / 2);
    BitOrShift(hi, lo / 2 / 2 / 2);
    BitOrZero(hi);
  }

  /** Packing is undone by splitting exactly when both values fit in a nibble. */
  lemma PackNibblesSplits(hi: Byte, lo: Byte)
    ensures PackNibbles(hi, lo) / 16 == hi && PackNibbles(hi, lo) % 16 == lo <==> hi < 16 && lo < 16
  {
    hide BitOr;
    var p := PackNibbles(hi, lo) as int;
    assert p / 16 < 16 && p % 16 < 16;
    if hi < 16 && lo < 16 {
      BitOrNibble(hi, lo);
      assert p == hi * 16 + lo;
    }
  }

  /** Sum of a byte sequence. */
  function Sum(s: seq<Byte>): nat {
    if s == [] then 0 else s[0] + Sum(s[1..])
  }

  lemma {:induction false} SumAppend(s: seq<Byte>, t: seq<Byte>)
    ensures Sum(s + t) == Sum(s) + Sum(t)
  {
    if s == [] {
      assert s + t == t;
    } else {
      assert (s + t)[1..] == s[1..] + t;
      SumAppend(s[1..], t);
    }
  }

  /** Where the parts of a concatenation lie. */
  lemma Parts<T>(a: seq<T>, b: seq<T>, c: seq<T>)
    ensures |a + b + c| == |a| + |b| + |c|
    ensures (a + b + c)[..|a|] == a
    ensures (a + b + c)[|a|..|a| + |b|] == b
    ensures (a + b + c)[|a| + |b|..] == c
    ensures a + b + c == a + (b + c)
  {
  }

  lemma Join<T>(a: seq<T>, b: seq<T>, c: seq<T>)
    ensures a + b + c == a + (b + c)
  {
  }

  lemma Regroup<T>(s: seq<T>, a: seq<T>, b: seq<T>, c: seq<T>, d: seq<T>)
    ensures s + a + b + c + d == s + (a + b + c + d)
    ensures s + a + b + c + d == s + a + (b + c + d)
    ensures s + a + b + c + d == s + (a + b + (c + d))
  {
  }

  /** Big-endian 16-bit encoding (`write16be`, src/jpeg.c). */
  function U16be(w: U16): seq<Byte> {
    [w / 256, w % 256]
  }

  function FromU16be(hi: Byte, lo: Byte): U16 {
    256 * (hi as int) + lo as int
  }
}
