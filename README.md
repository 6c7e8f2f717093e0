# VXL instruction set: a verified model

This project models the core of the VXL instruction-set crate. The crate has four parts:

- **Operand value types.** `Register` is sixteen registers in four bits. `Address` is an absolute `u64`. `Immediate` is an opaque eight-byte little-endian payload. The `InstructionArgument::BYTES` formula turns a bit width into a byte width.
- **The instruction codec.** A build script reads one schema row per opcode. `From<Row>` turns each row into an instruction description: mnemonic, opcode number, the field list (`Immediate` × I, then `Register` × R, then `Address` × A) and the operand-order string. The script then emits the `Instruction` enum and its methods. The model follows what that emitted code computes, for an arbitrary schema:
  - the per-opcode operand counts;
  - `from_string` and the `Display` mnemonic;
  - `new`, which builds an instruction from slices of registers, addresses and immediates;
  - `into_bytes`: the opcode, eight bytes per immediate, the registers packed two per byte (high nibble first), then eight bytes per address;
  - the operand-order table `ORDERING_ARRAY`, with its build-time checks, and `get_type_for_index`.
- **The VXL container.** A 51-byte header (magic, version, file size, starting offset, flags, 28-byte checksum, end marker) followed by the program bytes. Bit 0 of the flags picks the checksum algorithm.
- **System-call dispatch.** `execute_call` routes a call number:
  - 0..=14 to the fifteen named handlers;
  - 256 and above to the target-specific hook;
  - 15..=255 to nothing.

## Layout

| file | module | models |
|---|---|---|
| `wrappers.dfy` | `Wrappers` | `Option` and `Result` |
| `little_endian.dfy` | `LittleEndian` | `u8`/`u64`/`i64` ranges, `to_le_bytes`/`from_le_bytes` |
| `instruction_arguments.dfy` | `InstructionArguments` | `src/instruction_arguments.rs` |
| `config.dfy` | `Config` | `build/config.rs` |
| `register_packing.dfy` | `RegisterPacking` | the register nibble packing of the emitted `into_bytes` |
| `instruction_codec.dfy` | `InstructionCodec` | the emitted counts, `from_string`, `Display`, `new`, `into_bytes` |
| `operand_ordering.dfy` | `OperandOrdering` | `ORDERING_ARRAY`, its generation checks, `get_type_for_index` |
| `vxl_file.dfy` | `VxlFile` | `src/vxl_file.rs` |
| `syscall_handler.dfy` | `SyscallHandler` | `src/syscall_handler.rs` |

Modelling choices:

- A schema is a `seq` of instruction descriptions, in table order.
- A value of the emitted enum is `InstructionCodec.Instruction`: the index of its schema entry plus its operands in field order. `WellTyped` says the operands fit that entry's field types.
- Every emitted `match opcode` takes the first arm that matches. So lookups by opcode or mnemonic find the *first* entry with that key, and an unlisted key gives `None`.
- Bytes are integers in `0..256`. A `u64` is an integer in `0..2^64`.
- `From<Row>` uses `opcode.remove(0)`, which panics on an empty mnemonic. `From<u8> for Register` panics for 16 and above. Both panics become preconditions.
- The emitted `into_bytes` binds a variant's fields by position, assuming the order immediates, registers, addresses. That is the only shape `From<Row>` builds (`Config.FromRowFieldsCanonical`). The model selects each kind's operands with a filter. On that shape the operands `new` binds sit at the positions the pattern names: the immediates first, then the registers, then the addresses (`InstructionCodec.BindCanonical`). So the filter and the positional binding pick the same operands.

Where the crate's own comments and its code disagree, the model follows the code:

- `HEADER_SIZE` is documented as "the full size of the header" and set to 50 (src/vxl_file.rs:42-43). The header layout comment puts the end byte at 0x32 (src/vxl_file.rs:20), and serialisation writes 51 bytes.
- `Register::from_bits` is documented as ignoring the upper four bits (src/instruction_arguments.rs:93). It delegates to `From<u8>`, which panics on them.

Other facts a reader of the code might not expect:

- `execute_call` gives no handler to call numbers 15..=255. Call 14 is `terminate_process`.
- Generation checks only each entry's order length and order characters. The build script does not check that opcodes or mnemonics are unique, nor that the kinds in the order string match the counts. Lemmas that need uniqueness state it as a precondition (`UniqueMnemonics`, `UniqueOpcodes`). For mnemonics the compiler enforces it: each mnemonic, with its first character upper-cased, becomes an enum variant name (build/gen_instruction.rs:76-77) and names an `execute_` trait method (build/gen_execute_instruction.rs:135-138). Two entries with equal mnemonics give duplicate names, which rustc rejects. So `UniqueMnemonics` holds for every schema whose generated code compiles (`InstructionCodec.VariantNamesGiveUniqueMnemonics`). Duplicate opcodes give only unreachable match arms, which compile.
- `new` binds its arguments in the order of the entry's field list, not of its order string (build/gen_instruction.rs:238-250). Among the build files modelled, the order string is read only to emit `ORDERING_ARRAY` (build/gen_instruction.rs:387-418), which the emitted `get_type_for_index` reads. The crate's assembly test (tests/assembly_test.rs:5-14) shows `into_assembly` rendering operands in order-string order. `into_assembly` is not among the files modelled; if it reads the table through `get_type_for_index`, the misread of a schema not listed in opcode order (see "## Findings") also affects the assembly text.
- `into_bytes` writes the immediates first, then the registers, then the addresses (build/gen_instruction.rs:306-363). This holds whatever the order string says.

## Model

| member | source | states |
|---|---|---|
| LittleEndian.U64ToLeBytes | src/vxl_file.rs:127-128 | `to_le_bytes`: the eight bytes read back little-endian as the value |
| LittleEndian.U64FromLeBytes | src/instruction_arguments.rs:86-90 | `from_le_bytes`: the value whose little-endian bytes are the input |
| LittleEndian.FromLeToLe | src/instruction_arguments.rs:150-154 | writing a value below 256^n in n little-endian bytes and reading them back gives the value |
| LittleEndian.ToLeFromLe | src/instruction_arguments.rs:150-154 | reading n bytes and writing the value back in n bytes gives the same bytes |
| InstructionArguments.ByteSize | src/instruction_arguments.rs:3 | `BYTES` as written equals the ceiling byte count when the spare bits are 0 or at least 4, and is one less otherwise |
| InstructionArguments.CeilByteSize | src/instruction_arguments.rs:3 | the least number of bytes that hold the bits |
| InstructionArguments.ByteSizeIsNotCeiling | src/instruction_arguments.rs:3 | a 1-bit argument gets 0 bytes from the formula as written, against 1 byte needed |
| InstructionArguments.OperandByteSizes | src/instruction_arguments.rs:99-101 | `BYTES` by the formula as written is 1 for a register (4 bits) and 8 for an address or immediate (64 bits), the ceiling in each case |
| InstructionArguments.Discriminant | src/instruction_arguments.rs:31-58 | every register's `repr(u8)` value is below 16 |
| InstructionArguments.RegisterFromU8 | src/instruction_arguments.rs:103-125 | for v < 16, `Register::from(v)` is the register whose discriminant is v; 16 and above is excluded (the source panics) |
| InstructionArguments.RegisterFromBits | src/instruction_arguments.rs:92-97 | `from_bits` agrees with `From<u8>`, panic included |
| InstructionArguments.RegisterRoundTrip | src/instruction_arguments.rs:103-122 | `Register::from(r as u8) == r` for every register |
| InstructionArguments.DiscriminantInjective | src/instruction_arguments.rs:33-58 | distinct registers have distinct discriminants |
| InstructionArguments.NewAddress | src/instruction_arguments.rs:70-74 | `Address::new(x)` converts back `Into<u64>` as x |
| InstructionArguments.AddressToU64 | src/instruction_arguments.rs:76-80 | `Into<u64>` loses nothing: the only address with that value is the one converted |
| InstructionArguments.AddressRoundTrip | src/instruction_arguments.rs:70-80 | `Address::new` and `Into<u64>` are inverse to each other |
| InstructionArguments.AddressFromBytes | src/instruction_arguments.rs:86-90 | `Address::from(bytes)` has value `from_le_bytes(bytes)`, and its byte form is `bytes` again |
| InstructionArguments.AddressIntoBytes | build/gen_instruction.rs:349-363 | the eight bytes emitted for an address read back little-endian as its value |
| InstructionArguments.NewImmediate | src/instruction_arguments.rs:128-142 | `Immediate::new`/`from(bytes)` stores the bytes: the u64 value is their little-endian reading |
| InstructionArguments.ImmediateFromI64 | src/instruction_arguments.rs:144-148 | `Immediate::from(n: i64)` has u64 value n mod 2^64: n for n ≥ 0, n + 2^64 for n < 0 |
| InstructionArguments.ImmediateFromU8 | src/instruction_arguments.rs:162-166 | `Immediate::from(n: u8)` has bytes `[n,0,0,0,0,0,0,0]` and u64 value n |
| InstructionArguments.ImmediateToU64 | src/instruction_arguments.rs:150-154 | `Into<u64>` is `from_le_bytes` of the stored bytes, and `to_le_bytes` of it gives the bytes back |
| InstructionArguments.ImmediateIntoBytes | build/gen_instruction.rs:306-320 | the eight bytes emitted for an immediate read back as its u64 value |
| InstructionArguments.ImmediateRoundTrip | src/instruction_arguments.rs:128-142 | building an immediate from bytes and taking its bytes are inverse in both directions |
| Config.CountOf | build/gen_instruction.rs:26-30 | the per-type field count never exceeds the number of fields |
| Config.CountOfMultiset | build/gen_instruction.rs:26-30 | the counting loop returns the multiplicity of the type name in the field list |
| Config.FieldsShape | build/config.rs:50-62 | the field list has immediates + registers + addresses entries, and each type's count is that row column |
| Config.UpperChar | build/config.rs:49 | the first character of the variant name: a lower-case ASCII letter becomes its capital, and every other character is kept |
| Config.FromRow | build/config.rs:46-65 | `From<Row>`: mnemonic and opcode number copied; variant name = upper-cased first character + rest, same length; order copied; fields = Immediate×I, Register×R, Address×A |
| Config.FromRowFieldsCanonical | build/config.rs:52-62 | every field list built from a row is in canonical immediate/register/address order |
| RegisterPacking.NibblePack | build/gen_instruction.rs:334-345 | on four-bit values, the `u8` shift `h << 4` is 16·h and `h << 4 \| l` is 16·h + l |
| RegisterPacking.PackPairBits | build/gen_instruction.rs:333-339 | the byte pushed for a pair, `(hi as u8) << 4 \| (lo as u8)`, is 16·hi + lo: high nibble hi, low nibble lo |
| RegisterPacking.PackLastBits | build/gen_instruction.rs:340-345 | the byte pushed for a trailing register, `(last as u8) << 4`, is 16·last: last in the high nibble, a zero low nibble |
| RegisterPacking.PackRegisters | build/gen_instruction.rs:330-347 | R registers pack into ceil(R/2) bytes |
| RegisterPacking.PackRegistersDrop | build/gen_instruction.rs:330-347 | the packed bytes from byte k on are the packing of the registers from 2k on |
| RegisterPacking.PackRegistersAt | build/gen_instruction.rs:330-347 | byte k holds registers 2k and 2k+1, or register 2k alone in the high nibble when it is the last |
| RegisterPacking.PackConcat | build/gen_instruction.rs:330-347 | packing an even number of registers followed by more is the two packings concatenated |
| RegisterPacking.PackAppendPair | build/gen_instruction.rs:334-339 | after an even number of registers, a pair appends exactly one packed byte |
| RegisterPacking.PackAppendLast | build/gen_instruction.rs:340-345 | after an even number of registers, a trailing register appends exactly its own byte |
| RegisterPacking.UnpackPair | build/gen_instruction.rs:333-339 | the high and low nibbles of a packed pair name the two registers again |
| RegisterPacking.UnpackLast | build/gen_instruction.rs:340-345 | the high nibble of a trailing register's byte names that register again |
| RegisterPacking.UnpackPackRegisters | build/gen_instruction.rs:330-347 | reading the high then low nibbles of the packed bytes gives the registers back |
| RegisterPacking.PackRegistersInjective | build/gen_instruction.rs:330-347 | equally long register lists that pack alike are equal |
| RegisterPacking.PackFiveRegistersExample | build/gen_instruction.rs:330-347 | R5 R0 R6 R1 R7 pack to 0xB6 0xC7 0xD0 |
| InstructionCodec.ImmediatesCounted | build/gen_instruction.rs:288-301 | an operand list has as many immediates as `Immediate` fields |
| InstructionCodec.RegistersCounted | build/gen_instruction.rs:288-301 | an operand list has as many registers as `Register` fields |
| InstructionCodec.AddressesCounted | build/gen_instruction.rs:288-301 | an operand list has as many addresses as `Address` fields |
| InstructionCodec.KindCounts | build/gen_instruction.rs:288-301 | the number of operands of each kind is the number of fields of that type |
| InstructionCodec.OperandsDetermined | build/gen_instruction.rs:230-266 | an operand list is determined by its field types and its operands of each kind |
| InstructionCodec.FindOpcode | build/gen_instruction.rs:15-33 | the arm a `match opcode` takes: `None` iff no entry has the opcode, else the first entry that does |
| InstructionCodec.RegisterCount | build/gen_instruction.rs:6-54 | `register_count`: `None` iff the opcode is unlisted, else the number of `Register` fields of its first entry |
| InstructionCodec.AddressCount | build/gen_instruction.rs:6-54 | `address_count`: the same for `Address` fields |
| InstructionCodec.ImmediateCount | build/gen_instruction.rs:6-54 | `immediate_count`: the same for `Immediate` fields |
| InstructionCodec.CountsOfListedRow | build/gen_instruction.rs:18-33 | for a schema built from rows, each accessor returns that row's column |
| InstructionCodec.FromString | build/gen_instruction.rs:163-194 | `from_string`: `None` iff no entry has exactly that mnemonic, else the first such entry's opcode |
| InstructionCodec.Display | build/gen_instruction.rs:95-115 | every variant renders as a mnemonic that `from_string` recognises |
| InstructionCodec.FromStringDisplay | build/gen_instruction.rs:100-115 | with unique mnemonics, `from_string` of an instruction's rendered mnemonic is its opcode |
| InstructionCodec.VariantNamesGiveUniqueMnemonics | build/gen_instruction.rs:76-77 | when every variant name is the mnemonic with its first character upper-cased and variant names are distinct, as a compiling enum needs, mnemonics are distinct |
| InstructionCodec.Bind | build/gen_instruction.rs:229-265 | the emitted constructor call passes one argument per field |
| InstructionCodec.BindKinds | build/gen_instruction.rs:230-266 | the operands `new` binds have the declared field types, in field order |
| InstructionCodec.BindRegisters | build/gen_instruction.rs:238-242 | the register operands `new` binds are the first R registers of the slice, in order |
| InstructionCodec.BindAddresses | build/gen_instruction.rs:243-246 | the address operands are the first A addresses of the slice, in order |
| InstructionCodec.BindImmediates | build/gen_instruction.rs:247-250 | the immediate operands are the first I immediates of the slice, in order |
| InstructionCodec.BindOperands | build/gen_instruction.rs:230-266 | the constructor arguments of `new`: field types as declared; registers/addresses/immediates are the first k of each slice, in order |
| InstructionCodec.BindFields | build/config.rs:50-62 | binding the field list `From<Row>` builds for I, R, A puts immediate p at p, register p at I+p and address p at I+R+p |
| InstructionCodec.BindCanonical | build/gen_instruction.rs:303-369 | on a field list in the shape `From<Row>` builds, operand p is immediate p for p < I, operand I+p is register p, and operand I+R+p is address p: the positions `into_bytes`' match pattern names |
| InstructionCodec.New | build/gen_instruction.rs:214-270 | `new`: `Some` iff the opcode is listed and all three slice lengths equal its counts; the result is the opcode's first entry, well-typed, holding exactly the given slices in order |
| InstructionCodec.ImmediateBytes | build/gen_instruction.rs:306-320 | eight bytes per immediate |
| InstructionCodec.AddressBytes | build/gen_instruction.rs:349-363 | eight bytes per address |
| InstructionCodec.Encoding | build/gen_instruction.rs:279-385 | the bytes `into_bytes` produces: the opcode first, then 8 bytes per immediate, one per pair of registers rounded up, and 8 per address |
| InstructionCodec.PushImmediates | build/gen_instruction.rs:306-320 | the immediate `extend_from_slice` steps append the immediates' bytes in order |
| InstructionCodec.PackStepPair | build/gen_instruction.rs:333-339 | at an odd index i, pushing the pair (i-1, i) extends the packing of the first i-1 registers to the first i+1 |
| InstructionCodec.PackStepLast | build/gen_instruction.rs:340-345 | at the last, even index i, pushing the lone register extends the packing of the first i registers to all of them |
| InstructionCodec.PushedForStep | build/gen_instruction.rs:330-347 | the push for register i extends the packed bytes of the registers written so far |
| InstructionCodec.PushRegisters | build/gen_instruction.rs:330-347 | the register push steps append exactly the packed registers |
| InstructionCodec.PushAddresses | build/gen_instruction.rs:349-363 | the address `extend_from_slice` steps append the addresses' bytes in order |
| InstructionCodec.IntoBytes | build/gen_instruction.rs:279-385 | `into_bytes` is `[opcode]` followed by the immediates' bytes, the packed registers and the addresses' bytes |
| InstructionCodec.EncodingLayout | build/gen_instruction.rs:304-373 | a well-typed instruction encodes in 1 + 8I + ceil(R/2) + 8A bytes, beginning with its opcode |
| InstructionCodec.ImmediateBytesAt | build/gen_instruction.rs:306-320 | bytes 8j to 8j+8 of the immediates' section are the eight bytes of immediate j |
| InstructionCodec.AddressBytesAt | build/gen_instruction.rs:349-363 | bytes 8j to 8j+8 of the addresses' section are the eight bytes of address j |
| InstructionCodec.EncodeNew | build/gen_instruction.rs:214-270 | an instruction from `new` encodes as the opcode, then the given immediates, registers and addresses, each in the given order |
| InstructionCodec.ImmediateBytesInjective | build/gen_instruction.rs:306-320 | distinct immediate lists give distinct bytes |
| InstructionCodec.AddressBytesInjective | build/gen_instruction.rs:349-363 | distinct address lists give distinct bytes |
| InstructionCodec.EncodingInjective | build/gen_instruction.rs:279-385 | with unique opcodes, two well-typed instructions with equal `into_bytes` are equal |
| OperandOrdering.TagOf | build/gen_instruction.rs:402-411 | a tag exists exactly for `r`, `i`, `a`, and is at most 2 |
| OperandOrdering.TagOfInjective | build/gen_instruction.rs:402-411 | distinct order characters get distinct tags |
| OperandOrdering.TagsInjective | build/gen_instruction.rs:401-415 | an entry's table row loses no order information: order strings of known characters with equal tag rows are equal |
| OperandOrdering.OrderingArray | build/gen_instruction.rs:387-418 | the table has one row per schema entry, as long as the entry's field list |
| OperandOrdering.GenerateOrderingArray | build/gen_instruction.rs:387-418 | generation succeeds iff every entry passes the length and symbol checks, producing the table; otherwise it stops at the first failing entry and check |
| OperandOrdering.GetTypeForIndex | build/gen_instruction.rs:420-452 | `get_type_for_index(opcode, index)` is the tag of the order character at `index` of the entry at schema position `opcode` (whatever its opcode), `None` out of range, and at most 2 |
| OperandOrdering.GetTypeForIndexMisreadsReorderedSchema | build/gen_instruction.rs:420-452 | with opcode 1 listed before opcode 0, asking for opcode 0 returns the other entry's register tag |
| OperandOrdering.TypeForIndex | build/gen_instruction.rs:420-452 | corrected lookup: `None` for an unlisted opcode, else the tag at `index` of that opcode's first entry |
| OperandOrdering.GetTypeForIndexAgreesOnDenseSchema | build/gen_instruction.rs:420-452 | when entry k has opcode k, the emitted and corrected lookups agree |
| VxlFile.Accessors | src/vxl_file.rs:53-119 | the accessors return exactly the constructor arguments |
| VxlFile.ChecksumSha3 | src/vxl_file.rs:94-97 | `checksum_sha3` holds iff flag bit 0 is 1 |
| VxlFile.ChecksumSha2 | src/vxl_file.rs:99-102 | `checksum_sha2` holds iff flag bit 0 is 0 |
| VxlFile.ChecksumAlgorithmExclusive | src/vxl_file.rs:94-102 | exactly one of the two holds, and flag bits other than bit 0 do not matter |
| VxlFile.HeaderBytes | src/vxl_file.rs:122-135 | a serialised header is 51 bytes, starting with the magic and ending with 0xaa |
| VxlFile.HeaderLayout | src/vxl_file.rs:123-135 | the 51 serialised bytes hold magic at 0x0, version at 0x4, LE file size at 0x5, LE starting offset at 0xd, flags at 0x15, checksum at 0x16, 0xaa at 0x32 |
| VxlFile.HeaderBytesInjective | src/vxl_file.rs:123-135 | distinct headers serialise differently |
| VxlFile.HeaderSizeOffByOne | src/vxl_file.rs:43 | the serialised header is `HEADER_SIZE` + 1 bytes; byte `HEADER_SIZE` of a file is the end marker, not the first program byte |
| VxlFile.HeaderIntoBytes | src/vxl_file.rs:122-135 | `Into<Vec<u8>>` for a header yields the documented layout |
| VxlFile.FileLayout | src/vxl_file.rs:138-146 | a file serialises as its 51 header bytes followed by the contents unchanged, and distinct files serialise differently |
| VxlFile.FileBytes | src/vxl_file.rs:138-146 | a serialised file is 51 header bytes followed by the contents unchanged |
| VxlFile.FileIntoBytes | src/vxl_file.rs:138-146 | `Into<Vec<u8>>` for a file is the header's bytes with the contents appended |
| SyscallHandler.Route | src/syscall_handler.rs:12-35 | calls 0..=14 pick the named handlers in table order, 15..=255 pick none, 256 and above the target-specific hook with the same number |
| SyscallHandler.RouteCallNumber | src/syscall_handler.rs:13-33 | every handler is reached by its call number and by no other |
| SyscallHandler.NoHandlerGap | src/syscall_handler.rs:34 | no handler runs exactly for calls 15..=255 |
| SyscallHandler.ExecuteCall | src/syscall_handler.rs:12-35 | `execute_call` returns the chosen handler's result unchanged, or `None` in the gap |

## Left out

- Text emission of the build script is not modelled: indentation, `file.write`, and assembling Rust source. Only the behaviour of the emitted functions is modelled.
- The CSV reading and file handling of `build/main.rs` are not modelled. The schema is a parameter.
- `build/gen_execute_instruction.rs` is not modelled. Its emitted dispatcher only forwards each variant to a handler of the same name.
- `into_assembly` is not modelled. The crate's tests call it. Neither src/instruction_arguments.rs nor the build files modelled here define it: the emitted instruction module's header text comes from helpers that are not among those files. It would format floating point.
- `Immediate::from(f64)` is not modelled (floating point). Immediates are opaque eight-byte payloads.
- `AddressIntoBytes`: the emitted `into_bytes` calls `Into<[u8; 8]>` on an `Address`, but src/instruction_arguments.rs defines no such conversion. It has only `From<[u8; 8]>` and `Into<u64>`. The model assumes the little-endian bytes of the address value, the inverse of `From<[u8; 8]>`. `AddressBytesInjective` and `EncodingInjective` depend on this assumption.
- `ImmediateIntoBytes`: likewise, no `Into<[u8; 8]>` for `Immediate` is defined in src/instruction_arguments.rs. The model assumes the stored bytes, the inverse of `From<[u8; 8]>`. `ImmediateBytesInjective` and `EncodingInjective` depend on this assumption.
- SHA2-224/SHA3-224 checksums and loading or validating a VXL file are not modelled: the crate computes no hash and parses no file. Only the flag predicates are modelled.
- `SUPPORTED_VERSIONS` is declared but no operation reads it.
- The syscall handler bodies and the machine state they act on are not modelled. `ExecuteCall` takes the handlers as a function parameter.
- `RegisterCount`, `AddressCount`, `ImmediateCount`: a schema of exactly 256 entries gets no `_ => None` arm. It compiles only if every opcode is listed, and then the model's `None` case never arises. The build failure for a 256-entry schema with a duplicate opcode is not modelled.
- `Config.UpperChar`: `to_uppercase` is modelled for ASCII letters only. A first character whose upper case is longer or non-ASCII is not modelled.
- The uniqueness of opcodes and mnemonics is not checked by the build script, so it is not modelled as a generation error. rustc rejects duplicate mnemonics through the duplicate variant names they produce. That compile-time rejection is modelled only as the `UniqueVariantNames` precondition of `VariantNamesGiveUniqueMnemonics`.
- A nibble reader (`UnpackRegisters`) exists only as the witness for the packing-injectivity lemma. The crate has no decoder.

## Findings

| source | as written | input that shows it | evidently intended | confidence | as-written member | corrected member |
|---|---|---|---|---|---|---|
| src/vxl_file.rs:43 | `HEADER_SIZE` is 50 | any header: the serialisation is 51 bytes, and byte 50 of a file is the 0xaa end marker | 51, matching the documented end marker at offset 0x32 | high; not executed | VxlFile.HeaderSizeOffByOne | VxlFile.FileLayout |
| build/gen_instruction.rs:420-452 | `ORDERING_ARRAY[opcode]` indexes the table by opcode value, but the table is built in schema order | entries (`mov`, opcode 1, order `r`), (`push`, opcode 0, order `i`): `get_type_for_index(0, 0)` is `Some(0)` (register) | the order of the entry whose opcode is `opcode`: `Some(1)` (immediate) | medium, harmless when entries are listed in opcode order 0, 1, 2, …; not executed | OperandOrdering.GetTypeForIndexMisreadsReorderedSchema | OperandOrdering.TypeForIndex |
| src/instruction_arguments.rs:3 | `BYTES = (BIT_SIZE + BIT_SIZE % 8) / 8` | `BIT_SIZE` 1 gives 0 bytes; 4 and 64, the sizes in use, are right | the ceiling `(BIT_SIZE + 7) / 8` | low, no argument in use is affected; not executed | InstructionArguments.ByteSizeIsNotCeiling | InstructionArguments.CeilByteSize |
