/** What the code emitted by `generate_instruction_file` computes, for an
    arbitrary schema (the list of instruction descriptions, one generated
    enum variant per entry): the operand-count accessors, `from_string`,
    `new`, the `Display` mnemonic and `into_bytes`. */
module InstructionCodec {
  import opened Wrappers
  import opened LittleEndian
  import opened InstructionArguments
  import opened RegisterPacking
  import Config

  /** The descriptions the generator runs over, in table order. */
  type Schema = seq<Config.Instruction>

  datatype Operand = Imm(imm: Immediate) | Reg(reg: Register) | Addr(addr: Address)

  /** The field type an operand fills. */
  function KindOf(op: Operand): Config.FieldType
  {
    match op
    case Imm(_) => Config.ImmediateField
    case Reg(_) => Config.RegisterField
    case Addr(_) => Config.AddressField
  }

  /** A value of the generated `Instruction` enum: the variant emitted for
      entry `variant` of the schema, with its operands in field order. */
  datatype Instruction = Instruction(variant: nat, operands: seq<Operand>)

  /** The operands fit the variant's declared field types. */
  predicate WellTyped(schema: Schema, inst: Instruction)
  {
    inst.variant < |schema| && Kinds(inst.operands) == schema[inst.variant].fields
  }

  // ---------------------------------------------------------------------
  // Operands of one kind, in order

  function Immediates(ops: seq<Operand>): seq<Immediate>
  {
    if |ops| == 0 then []
    else (if ops[0].Imm? then [ops[0].imm] else []) + Immediates(ops[1..])
  }

  function Registers(ops: seq<Operand>): seq<Register>
  {
    if |ops| == 0 then []
    else (if ops[0].Reg? then [ops[0].reg] else []) + Registers(ops[1..])
  }

  function Addresses(ops: seq<Operand>): seq<Address>
  {
    if |ops| == 0 then []
    else (if ops[0].Addr? then [ops[0].addr] else []) + Addresses(ops[1..])
  }

  /** The field types an operand list fills, position by position. */
  function Kinds(ops: seq<Operand>): (names: seq<Config.FieldType>)
    ensures |names| == |ops|
  {
    if |ops| == 0 then [] else [KindOf(ops[0])] + Kinds(ops[1..])
  }

  /** The field types and the filters of an operand list with `op` in
      front. */
  lemma FiltersCons(op: Operand, rest: seq<Operand>)
    ensures Kinds([op] + rest) == [KindOf(op)] + Kinds(rest)
    ensures Immediates([op] + rest) == (if op.Imm? then [op.imm] else []) + Immediates(rest)
    ensures Registers([op] + rest) == (if op.Reg? then [op.reg] else []) + Registers(rest)
    ensures Addresses([op] + rest) == (if op.Addr? then [op.addr] else []) + Addresses(rest)
  {
    assert ([op] + rest)[1..] == rest;
  }

  /** As many immediates as `Immediate` field types. */
  lemma {:induction false} ImmediatesCounted(ops: seq<Operand>)
    ensures |Immediates(ops)| == Config.CountOf(Kinds(ops), Config.ImmediateField)
  {
    if |ops| > 0 {
      ImmediatesCounted(ops[1..]);
      assert Kinds(ops)[1..] == Kinds(ops[1..]);
    }
  }

  /** As many registers as `Register` field types. */
  lemma {:induction false} RegistersCounted(ops: seq<Operand>)
    ensures |Registers(ops)| == Config.CountOf(Kinds(ops), Config.RegisterField)
  {
    if |ops| > 0 {
      RegistersCounted(ops[1..]);
      assert Kinds(ops)[1..] == Kinds(ops[1..]);
    }
  }

  /** As many addresses as `Address` field types. */
  lemma {:induction false} AddressesCounted(ops: seq<Operand>)
    ensures |Addresses(ops)| == Config.CountOf(Kinds(ops), Config.AddressField)
  {
    if |ops| > 0 {
      AddressesCounted(ops[1..]);
      assert Kinds(ops)[1..] == Kinds(ops[1..]);
    }
  }

  /** The number of operands of each kind is the number of fields of
      that type. */
  lemma KindCounts(ops: seq<Operand>)
    ensures |Immediates(ops)| == Config.CountOf(Kinds(ops), Config.ImmediateField)
    ensures |Registers(ops)| == Config.CountOf(Kinds(ops), Config.RegisterField)
    ensures |Addresses(ops)| == Config.CountOf(Kinds(ops), Config.AddressField)
  {
    ImmediatesCounted(ops);
    RegistersCounted(ops);
    AddressesCounted(ops);
  }

  /** An operand list is determined by its kinds and its operands of each
      kind. */
  lemma {:induction false} OperandsDetermined(ops1: seq<Operand>, ops2: seq<Operand>)
    requires Kinds(ops1) == Kinds(ops2)
    requires Immediates(ops1) == Immediates(ops2)
    requires Registers(ops1) == Registers(ops2)
    requires Addresses(ops1) == Addresses(ops2)
    ensures ops1 == ops2
  {
    if |ops1| > 0 {
      assert KindOf(ops1[0]) == Kinds(ops1)[0] == KindOf(ops2[0]);
      assert Kinds(ops1[1..]) == Kinds(ops1)[1..];
      assert Kinds(ops2[1..]) == Kinds(ops2)[1..];
      // The head operands agree; so do the filters of the tails.
      match ops1[0] {
        case Imm(_) =>
          assert Immediates(ops1[1..]) == Immediates(ops1)[1..];
          assert Immediates(ops2[1..]) == Immediates(ops2)[1..];
          assert Registers(ops1[1..]) == Registers(ops1) && Registers(ops2[1..]) == Registers(ops2);
          assert Addresses(ops1[1..]) == Addresses(ops1) && Addresses(ops2[1..]) == Addresses(ops2);
        case Reg(_) =>
          assert Registers(ops1[1..]) == Registers(ops1)[1..];
          assert Registers(ops2[1..]) == Registers(ops2)[1..];
          assert Immediates(ops1[1..]) == Immediates(ops1) && Immediates(ops2[1..]) == Immediates(ops2);
          assert Addresses(ops1[1..]) == Addresses(ops1) && Addresses(ops2[1..]) == Addresses(ops2);
        case Addr(_) =>
          assert Addresses(ops1[1..]) == Addresses(ops1)[1..];
          assert Addresses(ops2[1..]) == Addresses(ops2)[1..];
          assert Immediates(ops1[1..]) == Immediates(ops1) && Immediates(ops2[1..]) == Immediates(ops2);
          assert Registers(ops1[1..]) == Registers(ops1) && Registers(ops2[1..]) == Registers(ops2);
      }
      OperandsDetermined(ops1[1..], ops2[1..]);
      assert ops1 == [ops1[0]] + ops1[1..];
      assert ops2 == [ops2[0]] + ops2[1..];
    }
  }

  // ---------------------------------------------------------------------
  // Lookup by opcode (the emitted `match opcode`: the first arm wins)

  predicate Listed(schema: Schema, opcode: Byte)
  {
    exists k :: 0 <= k < |schema| && schema[k].opcodeNum == opcode
  }

  /** Entry `k` is the first whose opcode is `opcode`. */
  predicate IsFirstRowFor(schema: Schema, opcode: Byte, k: nat)
  {
    k < |schema| && schema[k].opcodeNum == opcode && forall j :: 0 <= j < k ==> schema[j].opcodeNum != opcode
  }

  function FindOpcodeFrom(schema: Schema, opcode: Byte, from: nat): (r: Option<nat>)
    requires from <= |schema|
    ensures r.None? <==> forall k :: from <= k < |schema| ==> schema[k].opcodeNum != opcode
    ensures r.Some? ==> from <= r.value < |schema| && schema[r.value].opcodeNum == opcode
    ensures r.Some? ==> forall j :: from <= j < r.value ==> schema[j].opcodeNum != opcode
    decreases |schema| - from
  {
    if from == |schema| then None
    else if schema[from].opcodeNum == opcode then Some(from)
    else FindOpcodeFrom(schema, opcode, from + 1)
  }

  /** The entry whose arm the emitted `match opcode` takes. */
  function FindOpcode(schema: Schema, opcode: Byte): (r: Option<nat>)
    ensures r.None? <==> !Listed(schema, opcode)
    ensures r.Some? ==> IsFirstRowFor(schema, opcode, r.value)
    ensures forall k: nat :: IsFirstRowFor(schema, opcode, k) ==> r == Some(k)
  {
    FindOpcodeFrom(schema, opcode, 0)
  }

  function FieldCount(schema: Schema, opcode: Byte, kind: Config.FieldType): (r: Option<nat>)
  {
    match FindOpcode(schema, opcode)
    case Some(k) => Some(Config.CountOf(schema[k].fields, kind))
    case None => None
  }

  /** Emitted `register_count`: the number of `Register` fields of the
      opcode's variant, or `None` for an opcode the schema does not list. */
  function RegisterCount(schema: Schema, opcode: Byte): (r: Option<nat>)
    ensures r.None? <==> !Listed(schema, opcode)
    ensures forall k: nat :: IsFirstRowFor(schema, opcode, k) ==>
      r == Some(Config.CountOf(schema[k].fields, Config.RegisterField))
  {
    FieldCount(schema, opcode, Config.RegisterField)
  }

  /** Emitted `address_count`. */
  function AddressCount(schema: Schema, opcode: Byte): (r: Option<nat>)
    ensures r.None? <==> !Listed(schema, opcode)
    ensures forall k: nat :: IsFirstRowFor(schema, opcode, k) ==>
      r == Some(Config.CountOf(schema[k].fields, Config.AddressField))
  {
    FieldCount(schema, opcode, Config.AddressField)
  }

  /** Emitted `immediate_count`. */
  function ImmediateCount(schema: Schema, opcode: Byte): (r: Option<nat>)
    ensures r.None? <==> !Listed(schema, opcode)
    ensures forall k: nat :: IsFirstRowFor(schema, opcode, k) ==>
      r == Some(Config.CountOf(schema[k].fields, Config.ImmediateField))
  {
    FieldCount(schema, opcode, Config.ImmediateField)
  }

  /** For a schema built from rows, each accessor returns the row's
      column for that kind. */
  lemma CountsOfListedRow(schema: Schema, rows: seq<Config.Row>, opcode: Byte, k: nat)
    requires |rows| == |schema|
    requires forall j :: 0 <= j < |schema| ==>
      schema[j].fields == Config.Fields(rows[j].immediates, rows[j].registers, rows[j].addresses)
    requires IsFirstRowFor(schema, opcode, k)
    ensures RegisterCount(schema, opcode) == Some(rows[k].registers as nat)
    ensures AddressCount(schema, opcode) == Some(rows[k].addresses as nat)
    ensures ImmediateCount(schema, opcode) == Some(rows[k].immediates as nat)
  {
    Config.FieldsShape(rows[k].immediates, rows[k].registers, rows[k].addresses);
  }

  // ---------------------------------------------------------------------
  // from_string and Display

  /** Entry `k` is the first whose mnemonic is `mnemonic`. */
  predicate IsFirstRowNamed(schema: Schema, mnemonic: string, k: nat)
  {
    k < |schema| && schema[k].shortName == mnemonic && forall j :: 0 <= j < k ==> schema[j].shortName != mnemonic
  }

  function FindMnemonicFrom(schema: Schema, mnemonic: string, from: nat): (r: Option<nat>)
    requires from <= |schema|
    ensures r.None? <==> forall k :: from <= k < |schema| ==> schema[k].shortName != mnemonic
    ensures r.Some? ==> from <= r.value < |schema| && schema[r.value].shortName == mnemonic
    ensures r.Some? ==> forall j :: from <= j < r.value ==> schema[j].shortName != mnemonic
    decreases |schema| - from
  {
    if from == |schema| then None
    else if schema[from].shortName == mnemonic then Some(from)
    else FindMnemonicFrom(schema, mnemonic, from + 1)
  }

  /** Emitted `from_string`: exact, case-sensitive match on the mnemonic. */
  function FromString(schema: Schema, mnemonic: string): (r: Option<Byte>)
    ensures r.None? <==> forall k :: 0 <= k < |schema| ==> schema[k].shortName != mnemonic
    ensures forall k: nat :: IsFirstRowNamed(schema, mnemonic, k) ==> r == Some(schema[k].opcodeNum)
  {
    match FindMnemonicFrom(schema, mnemonic, 0)
    case Some(k) => Some(schema[k].opcodeNum)
    case None => None
  }

  /** Emitted `Display`: every variant renders as its mnemonic. */
  function Display(schema: Schema, inst: Instruction): (m: string)
    requires inst.variant < |schema|
    ensures FromString(schema, m).Some?
  {
    schema[inst.variant].shortName
  }

  predicate UniqueMnemonics(schema: Schema)
  {
    forall j, k :: 0 <= j < k < |schema| ==> schema[j].shortName != schema[k].shortName
  }

  /** Every entry is named as `From<Row>` names it: the mnemonic with its
      first character upper-cased is the enum variant name. */
  predicate NamedAsFromRow(schema: Schema)
  {
    forall k :: 0 <= k < |schema| ==>
      |schema[k].shortName| > 0
      && schema[k].name == [Config.UpperChar(schema[k].shortName[0])] + schema[k].shortName[1..]
  }

  /** The emitted enum declares one variant per entry, so a schema whose
      generated code compiles has pairwise distinct variant names. */
  predicate UniqueVariantNames(schema: Schema)
  {
    forall j, k :: 0 <= j < k < |schema| ==> schema[j].name != schema[k].name
  }

  /** Two entries with the same mnemonic get the same variant name, which
      the compiler rejects; so every schema whose generated enum compiles
      has unique mnemonics. */
  lemma VariantNamesGiveUniqueMnemonics(schema: Schema)
    requires NamedAsFromRow(schema)
    requires UniqueVariantNames(schema)
    ensures UniqueMnemonics(schema)
  {
    forall j, k | 0 <= j < k < |schema|
      ensures schema[j].shortName != schema[k].shortName
    {
      assert schema[j].name != schema[k].name;
    }
  }

  /** Looking up the rendered mnemonic of an instruction gives its opcode
      when mnemonics are unique. */
  lemma FromStringDisplay(schema: Schema, inst: Instruction)
    requires inst.variant < |schema|
    requires UniqueMnemonics(schema)
    ensures FromString(schema, Display(schema, inst)) == Some(schema[inst.variant].opcodeNum)
  {
    assert IsFirstRowNamed(schema, Display(schema, inst), inst.variant);
  }

  // ---------------------------------------------------------------------
  // new

  lemma SliceCons<T>(s: seq<T>, n: nat)
    requires n < |s|
    ensures s[..n + 1] == [s[0]] + s[1..][..n]
  {
  }

  /** The argument list of the emitted constructor call: one operand per
      field, in field order, where a field of each kind takes the next
      unused element of that kind's slice (the generator's per-kind
      counters `reg_i`, `add_i`, `imm_i`). `BindOperands` states what it
      holds. */
  function Bind(fields: seq<Config.FieldType>, registers: seq<Register>, addresses: seq<Address>,
                immediates: seq<Immediate>): (ops: seq<Operand>)
    requires Config.CountOf(fields, Config.RegisterField) <= |registers|
    requires Config.CountOf(fields, Config.AddressField) <= |addresses|
    requires Config.CountOf(fields, Config.ImmediateField) <= |immediates|
    ensures |ops| == |fields|
  {
    if |fields| == 0 then []
    else
      match fields[0]
      case RegisterField => [Reg(registers[0])] + Bind(fields[1..], registers[1..], addresses, immediates)
      case AddressField => [Addr(addresses[0])] + Bind(fields[1..], registers, addresses[1..], immediates)
      case ImmediateField => [Imm(immediates[0])] + Bind(fields[1..], registers, addresses, immediates[1..])
  }

  /** The bound operands have the declared field types, in order. */
  lemma {:induction false} BindKinds(fields: seq<Config.FieldType>, registers: seq<Register>,
                                     addresses: seq<Address>, immediates: seq<Immediate>)
    requires Config.CountOf(fields, Config.RegisterField) <= |registers|
    requires Config.CountOf(fields, Config.AddressField) <= |addresses|
    requires Config.CountOf(fields, Config.ImmediateField) <= |immediates|
    ensures Kinds(Bind(fields, registers, addresses, immediates)) == fields
  {
    if |fields| > 0 {
      assert fields == [fields[0]] + fields[1..];
      match fields[0]
      case RegisterField =>
        BindKinds(fields[1..], registers[1..], addresses, immediates);
        FiltersCons(Reg(registers[0]), Bind(fields[1..], registers[1..], addresses, immediates));
      case AddressField =>
        BindKinds(fields[1..], registers, addresses[1..], immediates);
        FiltersCons(Addr(addresses[0]), Bind(fields[1..], registers, addresses[1..], immediates));
      case ImmediateField =>
        BindKinds(fields[1..], registers, addresses, immediates[1..]);
        FiltersCons(Imm(immediates[0]), Bind(fields[1..], registers, addresses, immediates[1..]));
    }
  }

  /** The bound registers are the first R of the slice, in order. */
  lemma {:induction false} BindRegisters(fields: seq<Config.FieldType>, registers: seq<Register>,
                                         addresses: seq<Address>, immediates: seq<Immediate>)
    requires Config.CountOf(fields, Config.RegisterField) <= |registers|
    requires Config.CountOf(fields, Config.AddressField) <= |addresses|
    requires Config.CountOf(fields, Config.ImmediateField) <= |immediates|
    ensures Registers(Bind(fields, registers, addresses, immediates))
      == registers[..Config.CountOf(fields, Config.RegisterField)]
  {
    if |fields| > 0 {
      match fields[0]
      case RegisterField =>
        BindRegisters(fields[1..], registers[1..], addresses, immediates);
        FiltersCons(Reg(registers[0]), Bind(fields[1..], registers[1..], addresses, immediates));
        SliceCons(registers, Config.CountOf(fields[1..], Config.RegisterField));
      case AddressField =>
        BindRegisters(fields[1..], registers, addresses[1..], immediates);
        FiltersCons(Addr(addresses[0]), Bind(fields[1..], registers, addresses[1..], immediates));
      case ImmediateField =>
        BindRegisters(fields[1..], registers, addresses, immediates[1..]);
        FiltersCons(Imm(immediates[0]), Bind(fields[1..], registers, addresses, immediates[1..]));
    }
  }

  /** The bound addresses are the first A of the slice, in order. */
  lemma {:induction false} BindAddresses(fields: seq<Config.FieldType>, registers: seq<Register>,
                                         addresses: seq<Address>, immediates: seq<Immediate>)
    requires Config.CountOf(fields, Config.RegisterField) <= |registers|
    requires Config.CountOf(fields, Config.AddressField) <= |addresses|
    requires Config.CountOf(fields, Config.ImmediateField) <= |immediates|
    ensures Addresses(Bind(fields, registers, addresses, immediates))
      == addresses[..Config.CountOf(fields, Config.AddressField)]
  {
    if |fields| > 0 {
      match fields[0]
      case RegisterField =>
        BindAddresses(fields[1..], registers[1..], addresses, immediates);
        FiltersCons(Reg(registers[0]), Bind(fields[1..], registers[1..], addresses, immediates));
      case AddressField =>
        BindAddresses(fields[1..], registers, addresses[1..], immediates);
        FiltersCons(Addr(addresses[0]), Bind(fields[1..], registers, addresses[1..], immediates));
        SliceCons(addresses, Config.CountOf(fields[1..], Config.AddressField));
      case ImmediateField =>
        BindAddresses(fields[1..], registers, addresses, immediates[1..]);
        FiltersCons(Imm(immediates[0]), Bind(fields[1..], registers, addresses, immediates[1..]));
    }
  }

  /** The bound immediates are the first I of the slice, in order. */
  lemma {:induction false} BindImmediates(fields: seq<Config.FieldType>, registers: seq<Register>,
                                          addresses: seq<Address>, immediates: seq<Immediate>)
    requires Config.CountOf(fields, Config.RegisterField) <= |registers|
    requires Config.CountOf(fields, Config.AddressField) <= |addresses|
    requires Config.CountOf(fields, Config.ImmediateField) <= |immediates|
    ensures Immediates(Bind(fields, registers, addresses, immediates))
      == immediates[..Config.CountOf(fields, Config.ImmediateField)]
  {
    if |fields| > 0 {
      match fields[0]
      case RegisterField =>
        BindImmediates(fields[1..], registers[1..], addresses, immediates);
        FiltersCons(Reg(registers[0]), Bind(fields[1..], registers[1..], addresses, immediates));
      case AddressField =>
        BindImmediates(fields[1..], registers, addresses[1..], immediates);
        FiltersCons(Addr(addresses[0]), Bind(fields[1..], registers, addresses[1..], immediates));
      case ImmediateField =>
        BindImmediates(fields[1..], registers, addresses, immediates[1..]);
        FiltersCons(Imm(immediates[0]), Bind(fields[1..], registers, addresses, immediates[1..]));
        SliceCons(immediates, Config.CountOf(fields[1..], Config.ImmediateField));
    }
  }

  /** The constructor arguments have the declared field types, and the
      operands of each kind are the first ones of that kind's slice, in
      order. */
  lemma BindOperands(fields: seq<Config.FieldType>, registers: seq<Register>, addresses: seq<Address>,
                     immediates: seq<Immediate>)
    requires Config.CountOf(fields, Config.RegisterField) <= |registers|
    requires Config.CountOf(fields, Config.AddressField) <= |addresses|
    requires Config.CountOf(fields, Config.ImmediateField) <= |immediates|
    ensures var ops := Bind(fields, registers, addresses, immediates);
      && Kinds(ops) == fields
      && Registers(ops) == registers[..Config.CountOf(fields, Config.RegisterField)]
      && Addresses(ops) == addresses[..Config.CountOf(fields, Config.AddressField)]
      && Immediates(ops) == immediates[..Config.CountOf(fields, Config.ImmediateField)]
  {
    BindKinds(fields, registers, addresses, immediates);
    BindRegisters(fields, registers, addresses, immediates);
    BindAddresses(fields, registers, addresses, immediates);
    BindImmediates(fields, registers, addresses, immediates);
  }

  /** Binding a run of `n` immediate fields takes the first `n`
      immediates, in order, and binds the rest of the fields to what is
      left. */
  lemma {:induction false} BindImmediateRun(n: nat, rest: seq<Config.FieldType>, registers: seq<Register>,
                                            addresses: seq<Address>, immediates: seq<Immediate>)
    requires Config.CountOf(rest, Config.RegisterField) <= |registers|
    requires Config.CountOf(rest, Config.AddressField) <= |addresses|
    requires n + Config.CountOf(rest, Config.ImmediateField) <= |immediates|
    ensures Config.CountOf(Config.Repeat(Config.ImmediateField, n) + rest, Config.RegisterField) <= |registers|
    ensures Config.CountOf(Config.Repeat(Config.ImmediateField, n) + rest, Config.AddressField) <= |addresses|
    ensures Config.CountOf(Config.Repeat(Config.ImmediateField, n) + rest, Config.ImmediateField) <= |immediates|
    ensures var ops := Bind(Config.Repeat(Config.ImmediateField, n) + rest, registers, addresses, immediates);
      && (forall p :: 0 <= p < n ==> ops[p] == Imm(immediates[p]))
      && ops[n..] == Bind(rest, registers, addresses, immediates[n..])
  {
    var fields := Config.Repeat(Config.ImmediateField, n) + rest;
    forall kind: Config.FieldType
      ensures Config.CountOf(fields, kind)
              == Config.CountOf(Config.Repeat(Config.ImmediateField, n), kind) + Config.CountOf(rest, kind)
    {
      Config.CountOfAppend(Config.Repeat(Config.ImmediateField, n), rest, kind);
    }
    Config.CountOfRepeat(Config.ImmediateField, n, Config.ImmediateField);
    Config.CountOfRepeat(Config.ImmediateField, n, Config.RegisterField);
    Config.CountOfRepeat(Config.ImmediateField, n, Config.AddressField);
    if n == 0 {
      assert fields == rest;
    } else {
      assert fields[0] == Config.ImmediateField;
      assert fields[1..] == Config.Repeat(Config.ImmediateField, n - 1) + rest;
      BindImmediateRun(n - 1, rest, registers, addresses, immediates[1..]);
      assert immediates[1..][n - 1..] == immediates[n..];
    }
  }

  /** Binding a run of `n` register fields takes the first `n` registers. */
  lemma {:induction false} BindRegisterRun(n: nat, rest: seq<Config.FieldType>, registers: seq<Register>,
                                           addresses: seq<Address>, immediates: seq<Immediate>)
    requires n + Config.CountOf(rest, Config.RegisterField) <= |registers|
    requires Config.CountOf(rest, Config.AddressField) <= |addresses|
    requires Config.CountOf(rest, Config.ImmediateField) <= |immediates|
    ensures Config.CountOf(Config.Repeat(Config.RegisterField, n) + rest, Config.RegisterField) <= |registers|
    ensures Config.CountOf(Config.Repeat(Config.RegisterField, n) + rest, Config.AddressField) <= |addresses|
    ensures Config.CountOf(Config.Repeat(Config.RegisterField, n) + rest, Config.ImmediateField) <= |immediates|
    ensures var ops := Bind(Config.Repeat(Config.RegisterField, n) + rest, registers, addresses, immediates);
      && (forall p :: 0 <= p < n ==> ops[p] == Reg(registers[p]))
      && ops[n..] == Bind(rest, registers[n..], addresses, immediates)
  {
    var fields := Config.Repeat(Config.RegisterField, n) + rest;
    forall kind: Config.FieldType
      ensures Config.CountOf(fields, kind)
              == Config.CountOf(Config.Repeat(Config.RegisterField, n), kind) + Config.CountOf(rest, kind)
    {
      Config.CountOfAppend(Config.Repeat(Config.RegisterField, n), rest, kind);
    }
    Config.CountOfRepeat(Config.RegisterField, n, Config.ImmediateField);
    Config.CountOfRepeat(Config.RegisterField, n, Config.RegisterField);
    Config.CountOfRepeat(Config.RegisterField, n, Config.AddressField);
    if n == 0 {
      assert fields == rest;
    } else {
      assert fields[0] == Config.RegisterField;
      assert fields[1..] == Config.Repeat(Config.RegisterField, n - 1) + rest;
      BindRegisterRun(n - 1, rest, registers[1..], addresses, immediates);
      assert registers[1..][n - 1..] == registers[n..];
    }
  }

  /** Binding a run of `n` address fields takes the first `n` addresses. */
  lemma {:induction false} BindAddressRun(n: nat, rest: seq<Config.FieldType>, registers: seq<Register>,
                                          addresses: seq<Address>, immediates: seq<Immediate>)
    requires Config.CountOf(rest, Config.RegisterField) <= |registers|
    requires n + Config.CountOf(rest, Config.AddressField) <= |addresses|
    requires Config.CountOf(rest, Config.ImmediateField) <= |immediates|
    ensures Config.CountOf(Config.Repeat(Config.AddressField, n) + rest, Config.RegisterField) <= |registers|
    ensures Config.CountOf(Config.Repeat(Config.AddressField, n) + rest, Config.AddressField) <= |addresses|
    ensures Config.CountOf(Config.Repeat(Config.AddressField, n) + rest, Config.ImmediateField) <= |immediates|
    ensures var ops := Bind(Config.Repeat(Config.AddressField, n) + rest, registers, addresses, immediates);
      && (forall p :: 0 <= p < n ==> ops[p] == Addr(addresses[p]))
      && ops[n..] == Bind(rest, registers, addresses[n..], immediates)
  {
    var fields := Config.Repeat(Config.AddressField, n) + rest;
    forall kind: Config.FieldType
      ensures Config.CountOf(fields, kind)
              == Config.CountOf(Config.Repeat(Config.AddressField, n), kind) + Config.CountOf(rest, kind)
    {
      Config.CountOfAppend(Config.Repeat(Config.AddressField, n), rest, kind);
    }
    Config.CountOfRepeat(Config.AddressField, n, Config.ImmediateField);
    Config.CountOfRepeat(Config.AddressField, n, Config.RegisterField);
    Config.CountOfRepeat(Config.AddressField, n, Config.AddressField);
    if n == 0 {
      assert fields == rest;
    } else {
      assert fields[0] == Config.AddressField;
      assert fields[1..] == Config.Repeat(Config.AddressField, n - 1) + rest;
      BindAddressRun(n - 1, rest, registers, addresses[1..], immediates);
      assert addresses[1..][n - 1..] == addresses[n..];
    }
  }

  /** Binding R register fields followed by A address fields: the
      registers first, then the addresses, each in slice order. */
  lemma BindRegistersThenAddresses(r: nat, a: nat, registers: seq<Register>, addresses: seq<Address>,
                                   immediates: seq<Immediate>)
    requires r <= |registers| && a <= |addresses|
    ensures var fields := Config.Repeat(Config.RegisterField, r) + Config.Repeat(Config.AddressField, a);
      && Config.CountOf(fields, Config.RegisterField) <= |registers|
      && Config.CountOf(fields, Config.AddressField) <= |addresses|
      && Config.CountOf(fields, Config.ImmediateField) <= |immediates|
      && var ops := Bind(fields, registers, addresses, immediates);
      && (forall p :: 0 <= p < r ==> ops[p] == Reg(registers[p]))
      && (forall p :: 0 <= p < a ==> ops[r + p] == Addr(addresses[p]))
  {
    var addrRun := Config.Repeat(Config.AddressField, a);
    Config.CountOfRepeat(Config.AddressField, a, Config.ImmediateField);
    Config.CountOfRepeat(Config.AddressField, a, Config.RegisterField);
    Config.CountOfRepeat(Config.AddressField, a, Config.AddressField);
    assert addrRun == addrRun + [];
    BindAddressRun(a, [], registers[r..], addresses, immediates);
    BindRegisterRun(r, addrRun, registers, addresses, immediates);
    var ops := Bind(Config.Repeat(Config.RegisterField, r) + addrRun, registers, addresses, immediates);
    var rest := Bind(addrRun, registers[r..], addresses, immediates);
    forall p | 0 <= p < a
      ensures ops[r + p] == Addr(addresses[p])
    {
      assert ops[r + p] == ops[r..][p] == rest[p];
    }
  }

  /** Binding the field list `Fields(I, R, A)`: the I immediates, then the
      R registers, then the A addresses, each in slice order. */
  lemma BindFields(i: nat, r: nat, a: nat, registers: seq<Register>, addresses: seq<Address>,
                   immediates: seq<Immediate>)
    requires i <= |immediates| && r <= |registers| && a <= |addresses|
    ensures var fields := Config.Fields(i, r, a);
      && Config.CountOf(fields, Config.RegisterField) <= |registers|
      && Config.CountOf(fields, Config.AddressField) <= |addresses|
      && Config.CountOf(fields, Config.ImmediateField) <= |immediates|
      && var ops := Bind(fields, registers, addresses, immediates);
      && |ops| == i + r + a
      && (forall p :: 0 <= p < i ==> ops[p] == Imm(immediates[p]))
      && (forall p :: 0 <= p < r ==> ops[i + p] == Reg(registers[p]))
      && (forall p :: 0 <= p < a ==> ops[i + r + p] == Addr(addresses[p]))
  {
    var tailRun := Config.Repeat(Config.RegisterField, r) + Config.Repeat(Config.AddressField, a);
    Config.FieldsShape(i, r, a);
    assert Config.Fields(i, r, a) == Config.Repeat(Config.ImmediateField, i) + tailRun;
    BindRegistersThenAddresses(r, a, registers, addresses, immediates[i..]);
    Config.FieldsShape(0, r, a);
    assert Config.Fields(0, r, a) == tailRun;
    BindImmediateRun(i, tailRun, registers, addresses, immediates);
    var ops := Bind(Config.Fields(i, r, a), registers, addresses, immediates);
    var rest := Bind(tailRun, registers, addresses, immediates[i..]);
    forall p | 0 <= p < r
      ensures ops[i + p] == Reg(registers[p])
    {
      assert ops[i + p] == ops[i..][p] == rest[p];
    }
    forall p | 0 <= p < a
      ensures ops[i + r + p] == Addr(addresses[p])
    {
      assert ops[i + r + p] == ops[i..][r + p] == rest[r + p];
    }
  }

  /** On a field list in the shape `From<Row>` builds, the constructor's
      operands sit where the emitted `into_bytes` pattern expects them:
      the I immediates first, then the R registers, then the A addresses,
      each kind in slice order. So selecting each kind by filter, as
      `BindOperands` does, agrees with binding by position. */
  lemma BindCanonical(fields: seq<Config.FieldType>, registers: seq<Register>, addresses: seq<Address>,
                      immediates: seq<Immediate>)
    requires Config.IsCanonical(fields)
    requires Config.CountOf(fields, Config.RegisterField) <= |registers|
    requires Config.CountOf(fields, Config.AddressField) <= |addresses|
    requires Config.CountOf(fields, Config.ImmediateField) <= |immediates|
    ensures var ops := Bind(fields, registers, addresses, immediates);
      var i := Config.CountOf(fields, Config.ImmediateField);
      var r := Config.CountOf(fields, Config.RegisterField);
      var a := Config.CountOf(fields, Config.AddressField);
      && |ops| == i + r + a
      && (forall p :: 0 <= p < i ==> ops[p] == Imm(immediates[p]))
      && (forall p :: 0 <= p < r ==> ops[i + p] == Reg(registers[p]))
      && (forall p :: 0 <= p < a ==> ops[i + r + p] == Addr(addresses[p]))
  {
    var i := Config.CountOf(fields, Config.ImmediateField);
    var r := Config.CountOf(fields, Config.RegisterField);
    var a := Config.CountOf(fields, Config.AddressField);
    assert fields == Config.Fields(i, r, a);
    BindFields(i, r, a, registers, addresses, immediates);
  }

  /** Emitted `new`: `None` for an unlisted opcode or a slice whose length
      differs from the opcode's count; otherwise the variant of the first
      entry for that opcode, holding exactly the given operands of each
      kind in the order the fields call for them. */
  function New(schema: Schema, opcode: Byte, registers: seq<Register>, addresses: seq<Address>,
               immediates: seq<Immediate>): (r: Option<Instruction>)
    ensures r.Some? <==>
      && RegisterCount(schema, opcode) == Some(|registers|)
      && AddressCount(schema, opcode) == Some(|addresses|)
      && ImmediateCount(schema, opcode) == Some(|immediates|)
    ensures r.Some? ==> IsFirstRowFor(schema, opcode, r.value.variant) && WellTyped(schema, r.value)
    ensures r.Some? ==> Registers(r.value.operands) == registers
    ensures r.Some? ==> Addresses(r.value.operands) == addresses
    ensures r.Some? ==> Immediates(r.value.operands) == immediates
  {
    // The three `?` on the count accessors fail together, on an unlisted opcode.
    match FindOpcode(schema, opcode)
    case None => None
    case Some(k) =>
      var fields := schema[k].fields;
      var rc := Config.CountOf(fields, Config.RegisterField);
      var ac := Config.CountOf(fields, Config.AddressField);
      var ic := Config.CountOf(fields, Config.ImmediateField);
      if |registers| != rc || |addresses| != ac || |immediates| != ic then None
      else
        assert registers[..rc] == registers && addresses[..ac] == addresses && immediates[..ic] == immediates;
        BindOperands(fields, registers, addresses, immediates);
        Some(Instruction(k, Bind(fields, registers, addresses, immediates)))
  }

  // ---------------------------------------------------------------------
  // into_bytes

  /** Eight bytes per immediate, in order. */
  function ImmediateBytes(imms: seq<Immediate>): (bytes: seq<Byte>)
    ensures |bytes| == 8 * |imms|
  {
    if |imms| == 0 then []
    else ImmediateBytes(imms[..|imms| - 1]) + ImmediateIntoBytes(imms[|imms| - 1])
  }

  /** Eight little-endian bytes per address, in order. */
  function AddressBytes(addrs: seq<Address>): (bytes: seq<Byte>)
    ensures |bytes| == 8 * |addrs|
  {
    if |addrs| == 0 then []
    else AddressBytes(addrs[..|addrs| - 1]) + AddressIntoBytes(addrs[|addrs| - 1])
  }

  /** Bytes 8j to 8j+8 of the immediates' bytes are immediate j's. */
  lemma {:induction false} ImmediateBytesAt(imms: seq<Immediate>, j: nat)
    requires j < |imms|
    ensures 8 * j + 8 <= |ImmediateBytes(imms)|
    ensures ImmediateBytes(imms)[8 * j..8 * j + 8] == ImmediateIntoBytes(imms[j])
  {
    var n := |imms| - 1;
    var front := ImmediateBytes(imms[..n]);
    assert ImmediateBytes(imms) == front + ImmediateIntoBytes(imms[n]);
    if j < n {
      ImmediateBytesAt(imms[..n], j);
      assert ImmediateBytes(imms)[8 * j..8 * j + 8] == front[8 * j..8 * j + 8];
    } else {
      assert |front| == 8 * j;
    }
  }

  /** Bytes 8j to 8j+8 of the addresses' bytes are address j's. */
  lemma {:induction false} AddressBytesAt(addrs: seq<Address>, j: nat)
    requires j < |addrs|
    ensures 8 * j + 8 <= |AddressBytes(addrs)|
    ensures AddressBytes(addrs)[8 * j..8 * j + 8] == AddressIntoBytes(addrs[j])
  {
    var n := |addrs| - 1;
    var front := AddressBytes(addrs[..n]);
    assert AddressBytes(addrs) == front + AddressIntoBytes(addrs[n]);
    if j < n {
      AddressBytesAt(addrs[..n], j);
      assert AddressBytes(addrs)[8 * j..8 * j + 8] == front[8 * j..8 * j + 8];
    } else {
      assert |front| == 8 * j;
    }
  }

  /** The bytes `into_bytes` emits: the opcode, the immediates, the packed
      registers, then the addresses. */
  function Encoding(schema: Schema, inst: Instruction): (bytes: seq<Byte>)
    requires inst.variant < |schema|
    ensures |bytes| == 1 + 8 * |Immediates(inst.operands)| + (|Registers(inst.operands)| + 1) / 2
      + 8 * |Addresses(inst.operands)|
    ensures bytes[0] == schema[inst.variant].opcodeNum
  {
    [schema[inst.variant].opcodeNum]
      + ImmediateBytes(Immediates(inst.operands))
      + PackRegisters(Registers(inst.operands))
      + AddressBytes(Addresses(inst.operands))
  }

  /** The emitted `extend_from_slice` of each immediate, in order. */
  method PushImmediates(prefix: seq<Byte>, imms: seq<Immediate>) returns (v: seq<Byte>)
    ensures v == prefix + ImmediateBytes(imms)
  {
    v := prefix;
    var i := 0;
    while i < |imms|
      invariant i <= |imms|
      invariant v == prefix + ImmediateBytes(imms[..i])
    {
      assert imms[..i + 1][..i] == imms[..i];
      v := v + ImmediateIntoBytes(imms[i]);
      i := i + 1;
    }
    assert imms[..i] == imms;
  }

  /** How many registers the emitted pushes for registers `0 .. i - 1`
      have written: all of them, except a register at an even position
      still waiting for its partner. */
  function PackedBefore(i: nat, n: nat): (p: nat)
    requires i <= n
    ensures p <= i
  {
    if i % 2 == 1 && i < n then i - 1 else i
  }

  /** The bytes the emitted code pushes for register `i`: for an odd `i`,
      registers `i - 1` and `i` packed into one byte; for an even `i` that
      is the last, that register alone; otherwise nothing yet. */
  function PushedFor(regs: seq<Register>, i: nat): seq<Byte>
    requires i < |regs|
  {
    if i > 0 && i % 2 == 1 then [PackPair(regs[i - 1], regs[i])]
    else if i == |regs| - 1 then [PackLast(regs[i])]
    else []
  }

  /** At an odd index the pushed pair extends the packing by one byte. */
  lemma PackStepPair(regs: seq<Register>, i: nat)
    requires 0 < i < |regs| && i % 2 == 1
    ensures PackRegisters(regs[..i + 1]) == PackRegisters(regs[..i - 1]) + [PackPair(regs[i - 1], regs[i])]
  {
    PackAppendPair(regs[..i - 1], regs[i - 1], regs[i]);
    assert regs[..i - 1] + [regs[i - 1], regs[i]] == regs[..i + 1];
  }

  /** At the last, even index the lone register adds its own byte. */
  lemma PackStepLast(regs: seq<Register>, i: nat)
    requires i + 1 == |regs| && i % 2 == 0
    ensures PackRegisters(regs[..i + 1]) == PackRegisters(regs[..i]) + [PackLast(regs[i])]
  {
    PackAppendLast(regs[..i], regs[i]);
    assert regs[..i] + [regs[i]] == regs[..i + 1];
  }

  /** The push for register `i` extends the packed bytes of the
      registers written so far. */
  lemma PushedForStep(regs: seq<Register>, i: nat)
    requires i < |regs|
    ensures PackRegisters(regs[..PackedBefore(i + 1, |regs|)])
      == PackRegisters(regs[..PackedBefore(i, |regs|)]) + PushedFor(regs, i)
  {
    var n := |regs|;
    assert (i + 1) % 2 == 1 - i % 2;
    if i > 0 && i % 2 == 1 {
      assert PackedBefore(i, n) == i - 1 && PackedBefore(i + 1, n) == i + 1;
      PackStepPair(regs, i);
    } else if i == n - 1 {
      assert PackedBefore(i, n) == i && PackedBefore(i + 1, n) == i + 1;
      PackStepLast(regs, i);
    } else {
      assert PackedBefore(i, n) == i && PackedBefore(i + 1, n) == i;
    }
  }

  /** The emitted register pushes, register by register (`PushedFor`). */
  method PushRegisters(prefix: seq<Byte>, regs: seq<Register>) returns (v: seq<Byte>)
    ensures v == prefix + PackRegisters(regs)
  {
    v := prefix;
    var i := 0;
    while i < |regs|
      invariant i <= |regs|
      invariant v == prefix + PackRegisters(regs[..PackedBefore(i, |regs|)])
    {
      PushedForStep(regs, i);
      v := v + PushedFor(regs, i);
      i := i + 1;
    }
    assert regs[..i] == regs;
  }

  /** The emitted `extend_from_slice` of each address, in order. */
  method PushAddresses(prefix: seq<Byte>, addrs: seq<Address>) returns (v: seq<Byte>)
    ensures v == prefix + AddressBytes(addrs)
  {
    v := prefix;
    var i := 0;
    while i < |addrs|
      invariant i <= |addrs|
      invariant v == prefix + AddressBytes(addrs[..i])
    {
      assert addrs[..i + 1][..i] == addrs[..i];
      v := v + AddressIntoBytes(addrs[i]);
      i := i + 1;
    }
    assert addrs[..i] == addrs;
  }

  /** Emitted `into_bytes`: `vec![opcode]` for a variant without operands,
      otherwise the opcode followed by the immediates, the packed
      registers and the addresses. */
  method IntoBytes(schema: Schema, inst: Instruction) returns (v: seq<Byte>)
    requires inst.variant < |schema|
    ensures v == Encoding(schema, inst)
  {
    var opcode := schema[inst.variant].opcodeNum;
    var imms, regs, addrs := Immediates(inst.operands), Registers(inst.operands), Addresses(inst.operands);
    if |imms| == 0 && |regs| == 0 && |addrs| == 0 {
      return [opcode];
    }
    v := PushImmediates([opcode], imms);
    v := PushRegisters(v, regs);
    v := PushAddresses(v, addrs);
  }

  // ---------------------------------------------------------------------
  // What an encoding determines

  /** The encoding of a well-typed instruction starts with its opcode and
      has one byte, eight per immediate, one per pair of registers
      (rounded up) and eight per address. */
  lemma EncodingLayout(schema: Schema, inst: Instruction)
    requires WellTyped(schema, inst)
    ensures var fields := schema[inst.variant].fields;
      |Encoding(schema, inst)| == 1 + 8 * Config.CountOf(fields, Config.ImmediateField)
        + (Config.CountOf(fields, Config.RegisterField) + 1) / 2
        + 8 * Config.CountOf(fields, Config.AddressField)
    ensures Encoding(schema, inst)[0] == schema[inst.variant].opcodeNum
  {
    KindCounts(inst.operands);
  }

  /** An instruction built by `new` encodes as the opcode followed by the
      given immediates, registers and addresses, each in the order given. */
  lemma EncodeNew(schema: Schema, opcode: Byte, registers: seq<Register>, addresses: seq<Address>,
                  immediates: seq<Immediate>)
    requires New(schema, opcode, registers, addresses, immediates).Some?
    ensures var inst := New(schema, opcode, registers, addresses, immediates).value;
      Encoding(schema, inst)
        == [opcode] + ImmediateBytes(immediates) + PackRegisters(registers) + AddressBytes(addresses)
  {
  }

  lemma {:induction false} ImmediateBytesInjective(a: seq<Immediate>, b: seq<Immediate>)
    requires ImmediateBytes(a) == ImmediateBytes(b)
    ensures a == b
  {
    if |a| > 0 {
      var n := |a| - 1;
      ImmediateBytesSplit(a);
      ImmediateBytesSplit(b);
      ImmediateBytesInjective(a[..n], b[..n]);
      ImmediateIntoBytesInjective(a[n], b[n]);
      assert a == a[..n] + [a[n]] && b == b[..n] + [b[n]];
    }
  }

  /** The bytes of a non-empty immediate list end with the last
      immediate's eight bytes. */
  lemma ImmediateBytesSplit(a: seq<Immediate>)
    requires |a| > 0
    ensures ImmediateBytes(a)[..8 * (|a| - 1)] == ImmediateBytes(a[..|a| - 1])
    ensures ImmediateBytes(a)[8 * (|a| - 1)..] == ImmediateIntoBytes(a[|a| - 1])
  {
  }

  /** Distinct immediates have distinct bytes. */
  lemma ImmediateIntoBytesInjective(x: Immediate, y: Immediate)
    requires ImmediateIntoBytes(x) == ImmediateIntoBytes(y)
    ensures x == y
  {
    ImmediateRoundTrip(ImmediateIntoBytes(x), x);
    ImmediateRoundTrip(ImmediateIntoBytes(y), y);
  }


  lemma {:induction false} AddressBytesInjective(a: seq<Address>, b: seq<Address>)
    requires AddressBytes(a) == AddressBytes(b)
    ensures a == b
  {
    if |a| > 0 {
      var n := |a| - 1;
      AddressBytesSplit(a);
      AddressBytesSplit(b);
      AddressBytesInjective(a[..n], b[..n]);
      AddressIntoBytesInjective(a[n], b[n]);
      assert a == a[..n] + [a[n]] && b == b[..n] + [b[n]];
    }
  }

  /** The bytes of a non-empty address list end with the last address's
      eight bytes. */
  lemma AddressBytesSplit(a: seq<Address>)
    requires |a| > 0
    ensures AddressBytes(a)[..8 * (|a| - 1)] == AddressBytes(a[..|a| - 1])
    ensures AddressBytes(a)[8 * (|a| - 1)..] == AddressIntoBytes(a[|a| - 1])
  {
  }

  /** Distinct addresses have distinct bytes. */
  lemma AddressIntoBytesInjective(x: Address, y: Address)
    requires AddressIntoBytes(x) == AddressIntoBytes(y)
    ensures x == y
  {
    AddressRoundTrip(0, x);
    AddressRoundTrip(0, y);
  }


  predicate UniqueOpcodes(schema: Schema)
  {
    forall j, k :: 0 <= j < k < |schema| ==> schema[j].opcodeNum != schema[k].opcodeNum
  }

  lemma SplitEncoding(e: seq<Byte>, opcode: Byte, imms: seq<Byte>, regs: seq<Byte>, addrs: seq<Byte>)
    requires e == [opcode] + imms + regs + addrs
    ensures e[1..1 + |imms|] == imms
    ensures e[1 + |imms|..1 + |imms| + |regs|] == regs
    ensures e[1 + |imms| + |regs|..] == addrs
  {
  }

  /** With one entry per opcode, `into_bytes` loses nothing: two
      well-typed instructions with the same bytes are the same
      instruction. */
  lemma EncodingInjective(schema: Schema, inst1: Instruction, inst2: Instruction)
    requires UniqueOpcodes(schema)
    requires WellTyped(schema, inst1) && WellTyped(schema, inst2)
    requires Encoding(schema, inst1) == Encoding(schema, inst2)
    ensures inst1 == inst2
  {
    var e := Encoding(schema, inst1);
    assert e[0] == schema[inst1.variant].opcodeNum == schema[inst2.variant].opcodeNum;
    assert inst1.variant == inst2.variant;
    SameEncodingSameOperandsOfEachKind(schema, inst1, inst2);
    OperandsDetermined(inst1.operands, inst2.operands);
  }

  /** Two well-typed instructions of one entry that encode alike have the
      same operands of each kind. */
  lemma SameEncodingSameOperandsOfEachKind(schema: Schema, inst1: Instruction, inst2: Instruction)
    requires WellTyped(schema, inst1) && WellTyped(schema, inst2)
    requires inst1.variant == inst2.variant
    requires Encoding(schema, inst1) == Encoding(schema, inst2)
    ensures Immediates(inst1.operands) == Immediates(inst2.operands)
    ensures Registers(inst1.operands) == Registers(inst2.operands)
    ensures Addresses(inst1.operands) == Addresses(inst2.operands)
  {
    var e := Encoding(schema, inst1);
    var ops1, ops2 := inst1.operands, inst2.operands;
    var imms1, regs1, addrs1 := Immediates(ops1), Registers(ops1), Addresses(ops1);
    var imms2, regs2, addrs2 := Immediates(ops2), Registers(ops2), Addresses(ops2);
    assert |imms1| == |imms2| && |regs1| == |regs2| by {
      KindCounts(ops1);
      KindCounts(ops2);
    }
    var opcode := schema[inst1.variant].opcodeNum;
    SplitEncoding(e, opcode, ImmediateBytes(imms1), PackRegisters(regs1), AddressBytes(addrs1));
    SplitEncoding(e, opcode, ImmediateBytes(imms2), PackRegisters(regs2), AddressBytes(addrs2));
    ImmediateBytesInjective(imms1, imms2);
    PackRegistersInjective(regs1, regs2);
    AddressBytesInjective(addrs1, addrs2);
  }

}
