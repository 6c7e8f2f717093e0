/** Unsigned integer widths of the source and their little-endian byte
    encodings (`u64::to_le_bytes` / `u64::from_le_bytes`). */
module LittleEndian {

  /** A `u8`. */
  type Byte = x: int | 0 <= x < 0x100

  /** A `u64`. */
  type U64 = x: int | 0 <= x < 0x1_0000_0000_0000_0000

  /** An `i64`. */
  type I64 = x: int | -0x8000_0000_0000_0000 <= x < 0x8000_0000_0000_0000

  /** A `[u8; 8]`. */
  type Bytes8 = s: seq<Byte> | |s| == 8 witness [0, 0, 0, 0, 0, 0, 0, 0]

  const U64_MODULUS: nat := 0x1_0000_0000_0000_0000

  function Pow256(n: nat): (p: nat)
    ensures p > 0
  {
    if n == 0 then 1 else 256 * Pow256(n - 1)
  }

  lemma Pow256Eight()
    ensures Pow256(8) == U64_MODULUS
  {
  }

  /** The `n` low-order bytes of `x`, least significant first. */
  function ToLe(x: nat, n: nat): (s: seq<Byte>)
    ensures |s| == n
  {
    if n == 0 then [] else [x % 256] + ToLe(x / 256, n - 1)
  }

  /** The number whose little-endian encoding is `s`. */
  function FromLe(s: seq<Byte>): (x: nat)
    ensures x < Pow256(|s|)
  {
    if |s| == 0 then 0
    else
      var rest := FromLe(s[1..]);
      assert rest <= Pow256(|s| - 1) - 1;
      s[0] + 256 * rest
  }

  lemma {:induction false} FromLeToLe(x: nat, n: nat)
    requires x < Pow256(n)
    ensures FromLe(ToLe(x, n)) == x
  {
    if n > 0 {
      FromLeToLe(x / 256, n - 1);
      assert ToLe(x, n)[1..] == ToLe(x / 256, n - 1);
    }
  }

  lemma {:induction false} ToLeFromLe(s: seq<Byte>)
    ensures ToLe(FromLe(s), |s|) == s
  {
    if |s| > 0 {
      ToLeFromLe(s[1..]);
      var rest := FromLe(s[1..]);
      LowByte(s[0], rest);
      assert ToLe(FromLe(s), |s|) == [s[0]] + ToLe(rest, |s| - 1);
      assert s == [s[0]] + s[1..];
    }
  }

  /** The low byte and the remaining bytes of `b + 256 * rest`. */
  lemma LowByte(b: Byte, rest: nat)
    ensures (b + 256 * rest) % 256 == b
    ensures (b + 256 * rest) / 256 == rest
  {
  }

  /** High-order zero bytes add nothing to the value. */
  lemma {:induction false} FromLeZeros(n: nat)
    ensures FromLe(seq(n, _ => 0)) == 0
  {
    if n > 0 {
      FromLeZeros(n - 1);
      assert seq(n, _ => 0)[1..] == seq(n - 1, _ => 0);
    }
  }

  /** `u64::to_le_bytes`: decoding the result gives back `x`. */
  function U64ToLeBytes(x: U64): (b: Bytes8)
    ensures FromLe(b) == x
  {
    Pow256Eight();
    FromLeToLe(x, 8);
    ToLe(x, 8)
  }

  /** `u64::from_le_bytes`: encoding the result gives back `b`. */
  function U64FromLeBytes(b: Bytes8): (x: U64)
    ensures U64ToLeBytes(x) == b
  {
    Pow256Eight();
    ToLeFromLe(b);
    FromLe(b)
  }
}
