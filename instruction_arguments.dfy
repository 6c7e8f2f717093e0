/** The three operand kinds of an instruction: `Register`, `Address` and
    `Immediate`, with their bit and byte widths and byte conversions. */
module InstructionArguments {
  import opened LittleEndian

  /** `InstructionArgument::BYTES` as written: `(BIT_SIZE + BIT_SIZE % 8) / 8`.
      It rounds up only when the spare bits number at least four. */
  function ByteSize(bitSize: nat): (n: nat)
    ensures bitSize % 8 == 0 || bitSize % 8 >= 4 ==> n == CeilByteSize(bitSize)
    ensures 0 < bitSize % 8 < 4 ==> n == CeilByteSize(bitSize) - 1
  {
    (bitSize + bitSize % 8) / 8
  }

  /** The least number of whole bytes that hold `bitSize` bits. */
  function CeilByteSize(bitSize: nat): (n: nat)
    ensures bitSize <= 8 * n < bitSize + 8
  {
    (bitSize + 7) / 8
  }

  /** A one-bit argument would get zero bytes from `ByteSize`. */
  lemma ByteSizeIsNotCeiling()
    ensures ByteSize(1) == 0 && CeilByteSize(1) == 1
  {
  }

  const REGISTER_BIT_SIZE: nat := 4
  const ADDRESS_BIT_SIZE: nat := 64
  const IMMEDIATE_BIT_SIZE: nat := 64

  /** Each kind's `BYTES`, by the formula as written. */
  const REGISTER_BYTES: nat := ByteSize(REGISTER_BIT_SIZE)
  const ADDRESS_BYTES: nat := ByteSize(ADDRESS_BIT_SIZE)
  const IMMEDIATE_BYTES: nat := ByteSize(IMMEDIATE_BIT_SIZE)

  /** For the three argument kinds the formula as written gives the
      ceiling: one byte per register, eight per address and immediate. */
  lemma OperandByteSizes()
    ensures REGISTER_BYTES == CeilByteSize(REGISTER_BIT_SIZE) == 1
    ensures ADDRESS_BYTES == CeilByteSize(ADDRESS_BIT_SIZE) == 8
    ensures IMMEDIATE_BYTES == CeilByteSize(IMMEDIATE_BIT_SIZE) == 8
  {
  }

  /** The sixteen registers; `Discriminant` gives the `#[repr(u8)]` value. */
  datatype Register =
    | RSP | RFP | ROU | RFL
    | RRA | RRB
    | R0 | R1 | R2 | R3 | R4 | R5 | R6 | R7 | R8 | R9

  /** `r as u8`: every register fits in four bits. */
  function Discriminant(r: Register): (v: Byte)
    ensures v < 16
  {
    match r
    case RSP => 0  case RFP => 1  case ROU => 2  case RFL => 3
    case RRA => 4  case RRB => 5
    case R0 => 6   case R1 => 7   case R2 => 8   case R3 => 9
    case R4 => 10  case R5 => 11  case R6 => 12  case R7 => 13
    case R8 => 14  case R9 => 15
  }

  /** `From<u8> for Register`. Values 16 and above panic, so the caller
      must supply a four-bit value. */
  function RegisterFromU8(value: Byte): (r: Register)
    requires value < 16
    ensures Discriminant(r) == value
  {
    match value
    case 0 => RSP  case 1 => RFP  case 2 => ROU  case 3 => RFL
    case 4 => RRA  case 5 => RRB
    case 6 => R0   case 7 => R1   case 8 => R2   case 9 => R3
    case 10 => R4  case 11 => R5  case 12 => R6  case 13 => R7
    case 14 => R8  case _ => R9
  }

  /** `Register::from_bits` delegates to `From<u8>`: despite its comment
      the upper four bits are not ignored, a value of 16 or more panics. */
  function RegisterFromBits(indicator: Byte): (r: Register)
    requires indicator < 16
    ensures Discriminant(r) == indicator
  {
    RegisterFromU8(indicator)
  }

  /** Converting a register to its discriminant and back is the identity,
      so distinct registers have distinct discriminants. */
  lemma {:induction false} RegisterRoundTrip(r: Register)
    ensures RegisterFromU8(Discriminant(r)) == r
  {
    match r
    case RSP => case RFP => case ROU => case RFL =>
    case RRA => case RRB =>
    case R0 => case R1 => case R2 => case R3 => case R4 =>
    case R5 => case R6 => case R7 => case R8 => case R9 =>
  }

  lemma DiscriminantInjective(r1: Register, r2: Register)
    ensures Discriminant(r1) == Discriminant(r2) ==> r1 == r2
  {
    RegisterRoundTrip(r1);
    RegisterRoundTrip(r2);
  }

  /** An absolute 64-bit address. */
  datatype Address = Address(absoluteAddress: U64)

  /** `Address::new`. */
  function NewAddress(absoluteAddress: U64): (a: Address)
    ensures AddressToU64(a) == absoluteAddress
  {
    Address(absoluteAddress)
  }

  /** `Into<u64> for Address`. */
  function AddressToU64(a: Address): (x: U64)
    ensures forall b: Address :: b.absoluteAddress == x ==> b == a
  {
    a.absoluteAddress
  }

  /** `Address::new` and `Into<u64>` are inverse to each other. */
  lemma AddressRoundTrip(x: U64, a: Address)
    ensures AddressToU64(NewAddress(x)) == x
    ensures NewAddress(AddressToU64(a)) == a
  {
  }

  /** The eight bytes the encoder emits for an address: its value in
      little-endian order. */
  function AddressIntoBytes(a: Address): (b: Bytes8)
    ensures FromLe(b) == AddressToU64(a)
  {
    U64ToLeBytes(a.absoluteAddress)
  }

  /** `From<[u8; 8]> for Address`: the address whose little-endian
      encoding is `bytes`. */
  function AddressFromBytes(bytes: Bytes8): (a: Address)
    ensures AddressToU64(a) == FromLe(bytes)
    ensures AddressIntoBytes(a) == bytes
  {
    NewAddress(U64FromLeBytes(bytes))
  }

  /** An opaque eight-byte payload. */
  datatype Immediate = Immediate(bytes: Bytes8)

  /** `Immediate::new` and `From<[u8; 8]> for Immediate`: the bytes are
      stored unchanged. */
  function NewImmediate(bytes: Bytes8): (imm: Immediate)
    ensures ImmediateToU64(imm) == FromLe(bytes)
  {
    Immediate(bytes)
  }

  /** `From<i64> for Immediate`: the two's-complement little-endian bytes
      of `n`, so its unsigned value is `n` modulo 2^64. */
  function ImmediateFromI64(n: I64): (imm: Immediate)
    ensures ImmediateToU64(imm) == n % U64_MODULUS
    ensures n >= 0 ==> ImmediateToU64(imm) == n
    ensures n < 0 ==> ImmediateToU64(imm) == n + U64_MODULUS
  {
    NewImmediate(U64ToLeBytes(n % U64_MODULUS))
  }

  /** `From<u8> for Immediate`: zero-extension of one byte. */
  function ImmediateFromU8(n: Byte): (imm: Immediate)
    ensures ImmediateIntoBytes(imm) == [n, 0, 0, 0, 0, 0, 0, 0]
    ensures ImmediateToU64(imm) == n
  {
    var bytes: Bytes8 := [n, 0, 0, 0, 0, 0, 0, 0];
    FromLeZeros(7);
    assert bytes[1..] == seq(7, _ => 0);
    NewImmediate(bytes)
  }

  /** `Into<u64> for Immediate`: `u64::from_le_bytes` of the stored
      bytes, so encoding the value again gives back those bytes. */
  function ImmediateToU64(imm: Immediate): (x: U64)
    ensures U64ToLeBytes(x) == imm.bytes
    ensures x == FromLe(imm.bytes)
  {
    U64FromLeBytes(imm.bytes)
  }

  /** The eight bytes the encoder emits for an immediate: the stored ones. */
  function ImmediateIntoBytes(imm: Immediate): (b: Bytes8)
    ensures FromLe(b) == ImmediateToU64(imm)
  {
    imm.bytes
  }

  /** Building an immediate from bytes and reading them back is lossless
      in both directions. */
  lemma ImmediateRoundTrip(bytes: Bytes8, imm: Immediate)
    ensures ImmediateIntoBytes(NewImmediate(bytes)) == bytes
    ensures NewImmediate(ImmediateIntoBytes(imm)) == imm
  {
  }
}
