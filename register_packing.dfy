/** Register packing of the emitted `into_bytes`: two four-bit registers
    per byte, the first of each pair in the high nibble, and a trailing
    unpaired register in the high nibble of a byte of its own. */
module RegisterPacking {
  import opened LittleEndian
  import opened InstructionArguments

  /** A four-bit value keeps its value as a `u8` bit pattern. */
  lemma NibbleBits(x: nat)
    requires x < 16
    ensures (x as bv8) as int == x && x as bv8 < 16
  {
  }

  /** Shifting a nibble up by four and or-ing in another nibble is
      arithmetic: 16 times the first plus the second. */
  lemma ShiftOrBits(h: bv8, l: bv8)
    requires h < 16 && l < 16
    ensures ((h << 4) | l) as int == 16 * (h as int) + l as int
    ensures (h << 4) as int == 16 * (h as int)
  {
  }

  /** `(h as u8) << 4`: the shift drops any bits above the eighth. */
  function ShiftUp(h: Byte): (b: Byte)
  {
    ((h as bv8) << 4) as int
  }

  /** `(h as u8) << 4 | (l as u8)`. */
  function ShiftOr(h: Byte, l: Byte): (b: Byte)
  {
    (((h as bv8) << 4) | (l as bv8)) as int
  }

  /** On four-bit values the shift and the shift-or are arithmetic:
      16 times the first, plus the second. */
  lemma NibblePack(h: nat, l: nat)
    requires h < 16 && l < 16
    ensures ShiftOr(h, l) == 16 * h + l
    ensures ShiftUp(h) == 16 * h
  {
    NibbleBits(h);
    NibbleBits(l);
    ShiftOrBits(h as bv8, l as bv8);
  }

  /** The byte holding `hi` in its high nibble and `lo` in its low one. */
  function PackPair(hi: Register, lo: Register): (b: Byte)
  {
    16 * Discriminant(hi) + Discriminant(lo)
  }

  /** `PackPair` is the emitted `(hi as u8) << 4 | (lo as u8)` on `u8`. */
  lemma PackPairBits(hi: Register, lo: Register)
    ensures PackPair(hi, lo) == ShiftOr(Discriminant(hi), Discriminant(lo))
  {
    var h, l := Discriminant(hi), Discriminant(lo);
    NibblePack(h, l);
    assert PackPair(hi, lo) == 16 * h + l;
  }

  /** The byte holding `last` in its high nibble and zero in its low one. */
  function PackLast(last: Register): (b: Byte)
  {
    16 * Discriminant(last)
  }

  /** `PackLast` is the emitted `(last as u8) << 4` on `u8`: the low
      nibble is left zero. */
  lemma PackLastBits(last: Register)
    ensures PackLast(last) == ShiftUp(Discriminant(last))
  {
    NibblePack(Discriminant(last), 0);
  }

  /** A byte made of two nibbles gives them back as its quotient and
      remainder by 16. */
  lemma Nibbles(h: nat, l: nat)
    requires h < 16 && l < 16
    ensures (16 * h + l) / 16 == h && (16 * h + l) % 16 == l
  {
  }

  /** The packed register bytes, pairs in order. */
  function PackRegisters(rs: seq<Register>): (bytes: seq<Byte>)
    ensures |bytes| == (|rs| + 1) / 2
  {
    if |rs| == 0 then []
    else if |rs| == 1 then [PackLast(rs[0])]
    else [PackPair(rs[0], rs[1])] + PackRegisters(rs[2..])
  }

  /** Dropping `k` packed bytes is packing without the first `2k`
      registers. */
  lemma {:induction false} PackRegistersDrop(rs: seq<Register>, k: nat)
    requires 2 * k <= |rs|
    ensures PackRegisters(rs)[k..] == PackRegisters(rs[2 * k..])
  {
    if k > 0 {
      var tail := rs[2..];
      PackRegistersDrop(tail, k - 1);
      assert tail[2 * (k - 1)..] == rs[2 * k..];
      assert PackRegisters(rs)[k..] == PackRegisters(tail)[k - 1..];
    }
  }

  /** Byte `k` holds registers `2k` and `2k+1`; if `2k` is the last
      register, its low nibble is zero. */
  lemma PackRegistersAt(rs: seq<Register>, k: nat)
    requires 2 * k < |rs|
    ensures k < |PackRegisters(rs)|
    ensures 2 * k + 1 < |rs| ==> PackRegisters(rs)[k] == PackPair(rs[2 * k], rs[2 * k + 1])
    ensures 2 * k + 1 == |rs| ==> PackRegisters(rs)[k] == PackLast(rs[2 * k])
  {
    PackRegistersDrop(rs, k);
    var rest := rs[2 * k..];
    assert PackRegisters(rs)[k] == PackRegisters(rest)[0];
    assert rest[0] == rs[2 * k];
    if 2 * k + 1 < |rs| {
      assert rest[1] == rs[2 * k + 1];
    }
  }

  /** Packing splits at an even register count: the packed bytes of a
      concatenation are the two packings concatenated. */
  lemma {:induction false} PackConcat(rs: seq<Register>, more: seq<Register>, pairs: nat)
    requires |rs| == 2 * pairs
    ensures PackRegisters(rs + more) == PackRegisters(rs) + PackRegisters(more)
  {
    if pairs == 0 {
      assert rs + more == more;
    } else {
      var tail, whole := rs[2..], rs + more;
      PackConcat(tail, more, pairs - 1);
      DropTwoOfAppend(rs, more);
      calc {
        PackRegisters(whole);
        [PackPair(rs[0], rs[1])] + PackRegisters(tail + more);
        [PackPair(rs[0], rs[1])] + (PackRegisters(tail) + PackRegisters(more));
        ([PackPair(rs[0], rs[1])] + PackRegisters(tail)) + PackRegisters(more);
      }
    }
  }

  /** The first two elements of a concatenation whose left part has at
      least two, and what follows them. */
  lemma DropTwoOfAppend<T>(a: seq<T>, b: seq<T>)
    requires |a| >= 2
    ensures (a + b)[0] == a[0] && (a + b)[1] == a[1]
    ensures (a + b)[2..] == a[2..] + b
  {
  }

  /** Appending a pair after an even number of registers appends one
      packed byte. */
  lemma PackAppendPair(rs: seq<Register>, hi: Register, lo: Register)
    requires |rs| % 2 == 0
    ensures PackRegisters(rs + [hi, lo]) == PackRegisters(rs) + [PackPair(hi, lo)]
  {
    var pairs := |rs| / 2;
    assert |rs| == 2 * pairs;
    PackConcat(rs, [hi, lo], pairs);
    PackOnePair(hi, lo);
  }

  /** Two registers pack into one byte. */
  lemma PackOnePair(hi: Register, lo: Register)
    ensures PackRegisters([hi, lo]) == [PackPair(hi, lo)]
  {
    assert [hi, lo][2..] == [];
  }

  /** Appending one register after an even number of registers appends
      a byte with that register in the high nibble. */
  lemma PackAppendLast(rs: seq<Register>, last: Register)
    requires |rs| % 2 == 0
    ensures PackRegisters(rs + [last]) == PackRegisters(rs) + [PackLast(last)]
  {
    var pairs := |rs| / 2;
    assert |rs| == 2 * pairs;
    PackConcat(rs, [last], pairs);
  }

  /** The nibble reader used only to show that packing loses nothing:
      the first `n` registers held in `bytes`, high nibble first. */
  function UnpackRegisters(bytes: seq<Byte>, n: nat): (rs: seq<Register>)
    requires (n + 1) / 2 <= |bytes|
    ensures |rs| == n
  {
    if n == 0 then []
    else if n == 1 then [RegisterFromU8(bytes[0] / 16)]
    else [RegisterFromU8(bytes[0] / 16), RegisterFromU8(bytes[0] % 16)] + UnpackRegisters(bytes[1..], n - 2)
  }

  /** Reading the nibbles back gives the packed registers. */
  lemma {:induction false} UnpackPackRegisters(rs: seq<Register>)
    ensures UnpackRegisters(PackRegisters(rs), |rs|) == rs
  {
    if |rs| == 1 {
      UnpackLast(rs[0]);
    } else if |rs| >= 2 {
      var tail := rs[2..];
      UnpackPackRegisters(tail);
      var b, packed := PackPair(rs[0], rs[1]), PackRegisters(rs);
      UnpackPair(rs[0], rs[1]);
      assert packed[0] == b && packed[1..] == PackRegisters(tail);
      assert UnpackRegisters(packed, |rs|)
        == [RegisterFromU8(b / 16), RegisterFromU8(b % 16)] + UnpackRegisters(PackRegisters(tail), |tail|);
      assert rs == [rs[0], rs[1]] + tail;
    }
  }

  /** The nibbles of a packed pair are the two registers. */
  lemma UnpackPair(hi: Register, lo: Register)
    ensures RegisterFromU8(PackPair(hi, lo) / 16) == hi
    ensures RegisterFromU8(PackPair(hi, lo) % 16) == lo
  {
    Nibbles(Discriminant(hi), Discriminant(lo));
    RegisterRoundTrip(hi);
    RegisterRoundTrip(lo);
  }

  /** The high nibble of a lone register's byte is that register. */
  lemma UnpackLast(last: Register)
    ensures RegisterFromU8(PackLast(last) / 16) == last
  {
    Nibbles(Discriminant(last), 0);
    RegisterRoundTrip(last);
  }

  /** Packing is injective on register lists of one length. */
  lemma PackRegistersInjective(rs1: seq<Register>, rs2: seq<Register>)
    requires |rs1| == |rs2|
    requires PackRegisters(rs1) == PackRegisters(rs2)
    ensures rs1 == rs2
  {
    UnpackPackRegisters(rs1);
    UnpackPackRegisters(rs2);
  }

  /** Five registers R5, R0, R6, R1, R7 pack to 0b1011_0110,
      0b1100_0111, 0b1101_0000. */
  lemma PackFiveRegistersExample()
    ensures PackRegisters([R5, R0, R6, R1, R7]) == [0xB6, 0xC7, 0xD0]
  {
  }
}
