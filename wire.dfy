/**
 * Byte-level building blocks of the wire format: fixed-width integers in
 * native (little-endian) byte order, the 4-byte padding rule shared by
 * spc_write_padded and spc_read_padded, and facts about byte ranges.
 */
module Wire {

  type byte = x: int | 0 <= x < 0x100
  type u32 = x: int | 0 <= x < 0x1_0000_0000
  type u64 = x: int | 0 <= x < 0x1_0000_0000_0000_0000
  type i64 = x: int | -0x8000_0000_0000_0000 <= x < 0x8000_0000_0000_0000

  /** A C string: its bytes up to, not including, the terminating zero. */
  predicate NoZero(s: seq<byte>) {
    forall i | 0 <= i < |s| :: s[i] != 0
  }

  type CString = s: seq<byte> | NoZero(s) witness []

  /**
   * The implicit C conversion of a size_t or uint64_t to uint32_t: the value
   * modulo 2^32, computed by repeated subtraction (Trunc32Mod).
   */
  function Trunc32(x: nat): (r: u32)
    ensures x < 0x1_0000_0000 ==> r == x
    decreases x
  {
    if x < 0x1_0000_0000 then x else Trunc32(x - 0x1_0000_0000)
  }

  lemma {:induction false} Trunc32Mod(x: nat)
    ensures Trunc32(x) == x % 0x1_0000_0000
    decreases x
  {
    if x >= 0x1_0000_0000 {
      Trunc32Mod(x - 0x1_0000_0000);
    }
  }

  // ---------------------------------------------------------------------
  // Fixed-width integers

  /** 256 to the power n: one more than the largest value n bytes hold. */
  function Pow256(n: nat): (r: nat)
    ensures r > 0
  {
    if n == 0 then 1 else 0x100 * Pow256(n - 1)
  }

  /** Byte i of x, counting from the least significant. */
  function Digit(x: nat, i: nat): byte
    decreases i
  {
    if i == 0 then x % 0x100 else Digit(x / 0x100, i - 1)
  }

  /** The n low-order bytes of x, least significant first. */
  function LeBytes(x: nat, n: nat): (r: seq<byte>)
    ensures |r| == n
  {
    seq(n, i requires 0 <= i < n => Digit(x, i))
  }

  /** The unsigned number whose little-endian bytes are the n bytes of b at pos. */
  function LeAt(b: seq<byte>, pos: nat, n: nat): (r: nat)
    requires pos + n <= |b|
    ensures r < Pow256(n)
    decreases n
  {
    if n == 0 then 0 else b[pos] as int + 0x100 * LeAt(b, pos + 1, n - 1)
  }

  /** The bytes after the lowest one are the bytes of x / 256. */
  lemma {:induction false} LeBytesTail(x: nat, n: nat)
    requires n > 0
    ensures LeBytes(x, n) == [x % 0x100] + LeBytes(x / 0x100, n - 1)
  {
    assert LeBytes(x, n)[0] == x % 0x100;
    assert forall i | 0 <= i < n - 1 :: LeBytes(x, n)[1..][i] == LeBytes(x / 0x100, n - 1)[i];
    assert LeBytes(x, n)[1..] == LeBytes(x / 0x100, n - 1);
    assert LeBytes(x, n) == LeBytes(x, n)[..1] + LeBytes(x, n)[1..];
  }

  /** Reading back the n bytes of a number below 256^n gives the number. */
  lemma {:induction false} LeAtBytes(b: seq<byte>, pos: nat, x: nat, n: nat)
    requires x < Pow256(n)
    requires At(b, pos, LeBytes(x, n))
    ensures LeAt(b, pos, n) == x
    decreases n
  {
    if n > 0 {
      var lo: byte := x % 0x100;
      LeBytesTail(x, n);
      AtConcat<byte>(b, pos, [lo], LeBytes(x / 0x100, n - 1));
      AtAll<byte>(b, pos, [lo]);
      assert b[pos + 0] == [lo][0];
      LeAtBytes(b, pos + 1, x / 0x100, n - 1);
    }
  }

  /** The four bytes memcpy copies out of a uint32_t on a little-endian host. */
  function U32Bytes(x: u32): (r: seq<byte>)
    ensures |r| == 4
  {
    LeBytes(x, 4)
  }

  /** The uint32_t that a cast `*(uint32_t*)p` reads at offset pos. */
  function U32At(b: seq<byte>, pos: nat): u32
    requires pos + 4 <= |b|
  {
    assert Pow256(4) == 0x1_0000_0000;
    LeAt(b, pos, 4)
  }

  /** The eight bytes of a uint64_t on a little-endian host. */
  function U64Bytes(x: u64): (r: seq<byte>)
    ensures |r| == 8
  {
    LeBytes(x, 8)
  }

  /** The uint64_t read at offset pos. */
  function U64At(b: seq<byte>, pos: nat): u64
    requires pos + 8 <= |b|
  {
    assert Pow256(8) == 0x1_0000_0000_0000_0000;
    LeAt(b, pos, 8)
  }

  /** The bit pattern of an int64_t, as memcpy copies it into a uint64_t. */
  function I64Bits(i: i64): u64 {
    if i < 0 then i + 0x1_0000_0000_0000_0000 else i
  }

  /** The int64_t whose bit pattern is u. */
  function I64Of(u: u64): i64 {
    if u < 0x8000_0000_0000_0000 then u else u - 0x1_0000_0000_0000_0000
  }

  lemma {:induction false} I64RoundTrip(i: i64)
    ensures I64Of(I64Bits(i)) == i
  {
  }

  // ---------------------------------------------------------------------
  // Padding

  /** The padding that follows a field of n bytes, (4 - n % 4) % 4 (PadLenMod). */
  function PadLen(n: nat): (r: nat)
    ensures r < 4
    decreases n
  {
    if n >= 4 then PadLen(n - 4) else if n == 0 then 0 else 4 - n
  }

  lemma {:induction false} PadLenMod(n: nat)
    ensures PadLen(n) == (4 - n % 4) % 4
    ensures (n + PadLen(n)) % 4 == 0
    decreases n
  {
    if n >= 4 {
      PadLenMod(n - 4);
    }
  }

  /** The number of bytes a padded field of n bytes occupies. */
  function PaddedLen(n: nat): nat {
    n + PadLen(n)
  }

  /** PaddedLen(n) is the smallest multiple of 4 that is at least n. */
  lemma {:induction false} PaddedLenIsLeastMultiple(n: nat, m: nat)
    requires n <= m && m % 4 == 0
    ensures n <= PaddedLen(n) <= m
    ensures PaddedLen(n) % 4 == 0
  {
    PadLenMod(n);
  }

  function Zeros(k: nat): (r: seq<byte>)
    ensures |r| == k
    ensures forall i | 0 <= i < k :: r[i] == 0
  {
    seq(k, _ => 0)
  }

  /** A field followed by its zero padding. */
  function Padded(s: seq<byte>): (r: seq<byte>)
    ensures |r| == PaddedLen(|s|)
  {
    s + Zeros(PadLen(|s|))
  }

  /** The padded field keeps its length a multiple of 4, starts with the field and is zero after it. */
  lemma {:induction false} PaddedFacts(s: seq<byte>)
    ensures |Padded(s)| % 4 == 0
    ensures Padded(s)[..|s|] == s
    ensures forall i | |s| <= i < |Padded(s)| :: Padded(s)[i] == 0
  {
    PadLenMod(|s|);
    assert Padded(s)[..|s|] == s;
  }

  // ---------------------------------------------------------------------
  // Byte ranges

  /**
   * The elements of b from pos on begin with s. Defined by recursion on s
   * (with Agree) so that a proof sees its element-wise meaning, AtAll, only
   * where it asks for it.
   */
  predicate At<T(==)>(b: seq<T>, pos: nat, s: seq<T>)
    decreases |s|, 2
  {
    pos + |s| <= |b| && Agree(b, pos, s)
  }

  predicate Agree<T(==)>(b: seq<T>, pos: nat, s: seq<T>)
    requires pos + |s| <= |b|
    decreases |s|, 1
  {
    |s| == 0 || AgreeFirst(b, pos, s)
  }

  predicate AgreeFirst<T(==)>(b: seq<T>, pos: nat, s: seq<T>)
    requires 0 < |s| && pos + |s| <= |b|
    decreases |s|, 0
  {
    b[pos] == s[0] && At(b, pos + 1, s[1..])
  }

  /** At, element by element. */
  lemma {:induction false} AtAll<T>(b: seq<T>, pos: nat, s: seq<T>)
    ensures At(b, pos, s) <==> pos + |s| <= |b| && forall i | 0 <= i < |s| :: b[pos + i] == s[i]
    decreases |s|
  {
    if |s| > 0 && pos + |s| <= |b| {
      AtAll(b, pos + 1, s[1..]);
      if forall i | 0 <= i < |s| :: b[pos + i] == s[i] {
        assert b[pos + 0] == s[0];
        assert AgreeFirst(b, pos, s) by {
          forall i | 0 <= i < |s| - 1 ensures b[pos + 1 + i] == s[1..][i] {
            assert b[pos + (i + 1)] == s[i + 1];
          }
        }
        assert Agree(b, pos, s);
      }
      if At(b, pos, s) {
        assert Agree(b, pos, s);
        assert AgreeFirst(b, pos, s);
        assert b[pos] == s[0] && At(b, pos + 1, s[1..]);
        forall i | 0 <= i < |s| ensures b[pos + i] == s[i] {
          if i > 0 {
            assert b[pos + 1 + (i - 1)] == s[1..][i - 1];
          }
        }
      }
    }
  }

  /** What is known to be at pos is the slice there. */
  lemma {:induction false} AtIsSlice<T>(b: seq<T>, pos: nat, s: seq<T>)
    requires At(b, pos, s)
    ensures pos + |s| <= |b| && b[pos..pos + |s|] == s
  {
    AtAll(b, pos, s);
    assert forall i | 0 <= i < |s| :: b[pos..pos + |s|][i] == s[i];
  }

  lemma {:induction false} AtConcat<T>(b: seq<T>, pos: nat, s: seq<T>, t: seq<T>)
    ensures At(b, pos, s + t) <==> At(b, pos, s) && At(b, pos + |s|, t)
  {
    AtAll(b, pos, s + t);
    AtAll(b, pos, s);
    AtAll(b, pos + |s|, t);
    if At(b, pos, s) && At(b, pos + |s|, t) {
      forall i | 0 <= i < |s + t| ensures b[pos + i] == (s + t)[i] {
        if i >= |s| {
          assert b[pos + |s| + (i - |s|)] == t[i - |s|];
        }
      }
    }
    if At(b, pos, s + t) {
      forall i | 0 <= i < |s| ensures b[pos + i] == s[i] {
        assert b[pos + i] == (s + t)[i];
      }
      forall i | 0 <= i < |t| ensures b[pos + |s| + i] == t[i] {
        assert b[pos + (|s| + i)] == (s + t)[|s| + i];
      }
    }
  }

  /** The three parts of x + y + z, each at its own offset. */
  lemma {:induction false} AtSplit3<T>(b: seq<T>, pos: nat, x: seq<T>, y: seq<T>, z: seq<T>)
    requires At(b, pos, x + y + z)
    ensures At(b, pos, x) && At(b, pos + |x|, y) && At(b, pos + |x| + |y|, z)
  {
    AtConcat(b, pos, x + y, z);
    AtConcat(b, pos, x, y);
  }

  /** Every sequence sits in itself at 0. */
  lemma {:induction false} AtWhole<T>(s: seq<T>)
    ensures At(s, 0, s)
  {
    AtAll(s, 0, s);
    assert forall i | 0 <= i < |s| :: s[0 + i] == s[i];
  }

  lemma {:induction false} AtU32(b: seq<byte>, pos: nat, x: u32)
    requires At(b, pos, U32Bytes(x))
    ensures U32At(b, pos) == x
  {
    assert Pow256(4) == 0x1_0000_0000;
    LeAtBytes(b, pos, x, 4);
  }

  lemma {:induction false} AtU64(b: seq<byte>, pos: nat, x: u64)
    requires At(b, pos, U64Bytes(x))
    ensures U64At(b, pos) == x
  {
    assert Pow256(8) == 0x1_0000_0000_0000_0000;
    LeAtBytes(b, pos, x, 8);
  }

  /** What spc_write_uint32 stores, a cast reads back. */
  lemma {:induction false} U32RoundTrip(x: u32)
    ensures U32At(U32Bytes(x), 0) == x
  {
    AtWhole(U32Bytes(x));
    AtU32(U32Bytes(x), 0, x);
  }

  lemma {:induction false} U64RoundTrip(x: u64)
    ensures U64At(U64Bytes(x), 0) == x
  {
    AtWhole(U64Bytes(x));
    AtU64(U64Bytes(x), 0, x);
  }
}
