/** The opcode schema: a CSV row and the instruction description the
    code generator builds from it (`From<Row> for Instruction`). */
module Config {
  import opened LittleEndian

  /** The operand type names the generator writes into a field list
      (`ImmediateField`, `RegisterField`, `AddressField`);
      `From<Row>` never writes any other. */
  datatype FieldType = ImmediateField | RegisterField | AddressField

  /** One row of the instruction-set table. */
  datatype Row = Row(
    binary: string,
    decimal: Byte,
    hex: string,
    opcode: string,
    description: string,
    immediates: Byte,
    registers: Byte,
    addresses: Byte,
    order: string)

  /** The generator's description of one opcode; the datatype constructor
      is `Instruction::new`, whose conversions (`to_string`, `chars()`)
      leave the values unchanged. `fields` lists the operand type names of
      the generated variant, `argumentOrder` the `r`/`i`/`a` order. */
  datatype Instruction = Instruction(
    shortName: string,
    fields: seq<FieldType>,
    name: string,
    opcodeNum: Byte,
    argumentOrder: seq<char>)

  function Repeat(f: FieldType, n: nat): seq<FieldType>
  {
    seq(n, _ => f)
  }

  /** The field list `From<Row>` builds: `Immediate` × immediates, then
      `Register` × registers, then `Address` × addresses. */
  function Fields(immediates: nat, registers: nat, addresses: nat): seq<FieldType>
  {
    Repeat(ImmediateField, immediates)
      + Repeat(RegisterField, registers)
      + Repeat(AddressField, addresses)
  }

  /** Number of entries of `fields` equal to `name`, as the generator
      counts them (`if field == name { count += 1 }`). */
  function CountOf(fields: seq<FieldType>, name: FieldType): (n: nat)
    ensures n <= |fields|
  {
    if |fields| == 0 then 0
    else (if fields[0] == name then 1 else 0) + CountOf(fields[1..], name)
  }

  /** The counting loop returns the multiplicity of `name` in the field
      list: its order does not matter. */
  lemma {:induction false} CountOfMultiset(fields: seq<FieldType>, name: FieldType)
    ensures CountOf(fields, name) == multiset(fields)[name]
  {
    if |fields| > 0 {
      assert fields == [fields[0]] + fields[1..];
      CountOfMultiset(fields[1..], name);
    }
  }

  lemma {:induction false} CountOfAppend(a: seq<FieldType>, b: seq<FieldType>, name: FieldType)
    ensures CountOf(a + b, name) == CountOf(a, name) + CountOf(b, name)
  {
    if |a| == 0 {
      assert a + b == b;
    } else {
      CountOfAppend(a[1..], b, name);
      assert (a + b)[1..] == a[1..] + b;
    }
  }

  lemma {:induction false} CountOfRepeat(x: FieldType, n: nat, name: FieldType)
    ensures CountOf(Repeat(x, n), name) == if x == name then n else 0
  {
    if n > 0 {
      CountOfRepeat(x, n - 1, name);
      assert Repeat(x, n)[1..] == Repeat(x, n - 1);
    }
  }

  /** The field list has one entry per operand, and the number of entries
      of each type name equals the row's column for that kind. */
  lemma {:induction false} FieldsShape(immediates: nat, registers: nat, addresses: nat)
    ensures |Fields(immediates, registers, addresses)| == immediates + registers + addresses
    ensures CountOf(Fields(immediates, registers, addresses), ImmediateField) == immediates
    ensures CountOf(Fields(immediates, registers, addresses), RegisterField) == registers
    ensures CountOf(Fields(immediates, registers, addresses), AddressField) == addresses
  {
    var i, r, a := Repeat(ImmediateField, immediates), Repeat(RegisterField, registers),
      Repeat(AddressField, addresses);
    forall name: FieldType
      ensures CountOf(i + r + a, name) == CountOf(i, name) + CountOf(r, name) + CountOf(a, name)
    {
      CountOfAppend(i + r, a, name);
      CountOfAppend(i, r, name);
    }
    CountOfRepeat(ImmediateField, immediates, ImmediateField);
    CountOfRepeat(ImmediateField, immediates, RegisterField);
    CountOfRepeat(ImmediateField, immediates, AddressField);
    CountOfRepeat(RegisterField, registers, ImmediateField);
    CountOfRepeat(RegisterField, registers, RegisterField);
    CountOfRepeat(RegisterField, registers, AddressField);
    CountOfRepeat(AddressField, addresses, ImmediateField);
    CountOfRepeat(AddressField, addresses, RegisterField);
    CountOfRepeat(AddressField, addresses, AddressField);
  }

  /** A field list in the shape `From<Row>` produces: all immediates,
      then all registers, then all addresses. The generated encoder's
      positional match pattern relies on this shape. */
  predicate IsCanonical(fields: seq<FieldType>)
  {
    fields == Fields(CountOf(fields, ImmediateField), CountOf(fields, RegisterField),
                     CountOf(fields, AddressField))
  }

  /** `to_uppercase` on the first character; only ASCII letters are
      mapped. */
  function UpperChar(c: char): (u: char)
    ensures !('a' <= u <= 'z')
    ensures u != c <==> 'a' <= c <= 'z'
    ensures u != c ==> 'A' <= u <= 'Z' && c as int - u as int == 'a' as int - 'A' as int
  {
    if 'a' <= c <= 'z' then (c as int - 32) as char else c
  }

  /** `From<Row> for Instruction`. `opcode.remove(0)` panics on an empty
      mnemonic, so the row must have one. */
  method FromRow(row: Row) returns (inst: Instruction)
    requires |row.opcode| > 0
    ensures inst.shortName == row.opcode
    ensures inst.opcodeNum == row.decimal
    ensures inst.argumentOrder == row.order
    ensures |inst.name| == |row.opcode| && inst.name[0] == UpperChar(row.opcode[0])
    ensures inst.name[1..] == row.opcode[1..]
    ensures inst.fields == Fields(row.immediates, row.registers, row.addresses)
  {
    var opcode := row.opcode;
    var first := opcode[0];
    opcode := opcode[1..];
    var variantName := [UpperChar(first)] + opcode;

    var fields: seq<FieldType> := [];
    var k := 0;
    while k < row.immediates
      invariant k <= row.immediates
      invariant fields == Repeat(ImmediateField, k)
    {
      fields := fields + [ImmediateField];
      k := k + 1;
    }
    k := 0;
    while k < row.registers
      invariant k <= row.registers
      invariant fields == Repeat(ImmediateField, row.immediates) + Repeat(RegisterField, k)
    {
      fields := fields + [RegisterField];
      k := k + 1;
    }
    k := 0;
    while k < row.addresses
      invariant k <= row.addresses
      invariant fields == Repeat(ImmediateField, row.immediates)
                          + Repeat(RegisterField, row.registers) + Repeat(AddressField, k)
    {
      fields := fields + [AddressField];
      k := k + 1;
    }

    inst := Instruction(row.opcode, fields, variantName, row.decimal, row.order);
  }

  /** Every description built from a row has a canonical field list whose
      kind counts are the row's columns. */
  lemma FromRowFieldsCanonical(row: Row)
    ensures IsCanonical(Fields(row.immediates, row.registers, row.addresses))
    ensures CountOf(Fields(row.immediates, row.registers, row.addresses), RegisterField) == row.registers
  {
    FieldsShape(row.immediates, row.registers, row.addresses);
  }
}
