/** The operand-order table of the generated instruction type
    (`ORDERING_ARRAY`), the build-time checks made while it is written,
    and the emitted `get_type_for_index` that reads it. */
module OperandOrdering {
  import opened Wrappers
  import opened LittleEndian
  import Config
  import InstructionCodec

  /** Why generation aborts: the `assert_eq!` on an entry's order length,
      or the `panic!` on an order character other than `r`, `i`, `a`. */
  datatype GenerationError =
    | OrderLengthMismatch(row: nat)
    | UnknownOrderSymbol(row: nat, position: nat)

  /** The type tag written for an order character: 0 for a register,
      1 for an immediate, 2 for an address. */
  function TagOf(c: char): (t: Option<Byte>)
    ensures t.Some? <==> c in {'r', 'i', 'a'}
    ensures t.Some? ==> t.value <= 2
  {
    if c == 'r' then Some(0)
    else if c == 'i' then Some(1)
    else if c == 'a' then Some(2)
    else None
  }

  /** Distinct order characters get distinct tags. */
  lemma TagOfInjective(c1: char, c2: char)
    requires TagOf(c1).Some? && TagOf(c1) == TagOf(c2)
    ensures c1 == c2
  {
  }

  predicate KnownSymbols(order: seq<char>)
  {
    forall i :: 0 <= i < |order| ==> TagOf(order[i]).Some?
  }

  /** An entry passes the build-time checks. */
  predicate EntryPasses(inst: Config.Instruction)
  {
    |inst.argumentOrder| == |inst.fields| && KnownSymbols(inst.argumentOrder)
  }

  predicate AllEntriesPass(schema: InstructionCodec.Schema)
  {
    forall k :: 0 <= k < |schema| ==> EntryPasses(schema[k])
  }

  /** The tags written for one entry's order string. */
  function Tags(order: seq<char>): (tags: seq<Byte>)
    requires KnownSymbols(order)
    ensures |tags| == |order|
    ensures forall i :: 0 <= i < |order| ==> Some(tags[i]) == TagOf(order[i])
  {
    seq(|order|, i requires 0 <= i < |order| => TagOf(order[i]).value)
  }

  /** The tags lose no order information: two order strings of known
      characters with the same tags are the same string. */
  lemma TagsInjective(o1: seq<char>, o2: seq<char>)
    requires KnownSymbols(o1) && KnownSymbols(o2)
    requires Tags(o1) == Tags(o2)
    ensures o1 == o2
  {
    forall i | 0 <= i < |o1|
      ensures o1[i] == o2[i]
    {
      assert TagOf(o1[i]) == Some(Tags(o1)[i]) == Some(Tags(o2)[i]) == TagOf(o2[i]);
      TagOfInjective(o1[i], o2[i]);
    }
  }

  /** The table the generator writes when every entry passes: one row of
      tags per schema entry, in schema order. */
  function OrderingArray(schema: InstructionCodec.Schema): (arr: seq<seq<Byte>>)
    requires AllEntriesPass(schema)
    ensures |arr| == |schema|
    ensures forall k :: 0 <= k < |schema| ==> |arr[k]| == |schema[k].fields|
  {
    seq(|schema|, k requires 0 <= k < |schema| => Tags(schema[k].argumentOrder))
  }

  /** `error` is what aborts the generator: entries before it pass, and
      the reported check is the first one that fails in its entry. */
  predicate IsFirstFailure(schema: InstructionCodec.Schema, error: GenerationError)
  {
    && error.row < |schema|
    && (forall k :: 0 <= k < error.row ==> EntryPasses(schema[k]))
    && var order := schema[error.row].argumentOrder;
    match error
    case OrderLengthMismatch(_) => |order| != |schema[error.row].fields|
    case UnknownOrderSymbol(_, position) =>
      && |order| == |schema[error.row].fields|
      && position < |order|
      && TagOf(order[position]).None?
      && forall i :: 0 <= i < position ==> TagOf(order[i]).Some?
  }

  /** `generate_ordering_array`, entry by entry and character by
      character. The table is produced only if no check fails. */
  method GenerateOrderingArray(schema: InstructionCodec.Schema)
    returns (r: Result<seq<seq<Byte>>, GenerationError>)
    ensures r.Success? <==> AllEntriesPass(schema)
    ensures r.Success? ==> r.value == OrderingArray(schema)
    ensures r.Failure? ==> IsFirstFailure(schema, r.error)
  {
    var arr: seq<seq<Byte>> := [];
    var k := 0;
    while k < |schema|
      invariant k <= |schema|
      invariant forall j :: 0 <= j < k ==> EntryPasses(schema[j])
      invariant |arr| == k
      invariant forall j :: 0 <= j < k ==> arr[j] == Tags(schema[j].argumentOrder)
    {
      var inst := schema[k];
      if |inst.argumentOrder| != |inst.fields| {
        return Failure(OrderLengthMismatch(k));
      }
      var entry: seq<Byte> := [];
      var i := 0;
      while i < |inst.argumentOrder|
        invariant i <= |inst.argumentOrder|
        invariant KnownSymbols(inst.argumentOrder[..i])
        invariant entry == Tags(inst.argumentOrder[..i])
      {
        var c := inst.argumentOrder[i];
        if c == 'r' {
          entry := entry + [0];
        } else if c == 'i' {
          entry := entry + [1];
        } else if c == 'a' {
          entry := entry + [2];
        } else {
          assert forall j :: 0 <= j < i ==> TagOf(inst.argumentOrder[j]).Some? by {
            forall j | 0 <= j < i
              ensures TagOf(inst.argumentOrder[j]).Some?
            {
              assert inst.argumentOrder[..i][j] == inst.argumentOrder[j];
            }
          }
          return Failure(UnknownOrderSymbol(k, i));
        }
        assert inst.argumentOrder[..i + 1][..i] == inst.argumentOrder[..i];
        i := i + 1;
      }
      assert inst.argumentOrder[..i] == inst.argumentOrder;
      arr := arr + [entry];
      k := k + 1;
    }
    return Success(arr);
  }

  /** Emitted `get_type_for_index`, reading the `ORDERING_ARRAY` generated
      for `schema`: the tag at `index` of the table row numbered `opcode`,
      or `None` when either is out of range. Because rows are written in
      schema order, that is the entry at schema POSITION `opcode`,
      whatever opcode that entry has. */
  function GetTypeForIndex(schema: InstructionCodec.Schema, opcode: Byte, index: nat): (r: Option<Byte>)
    requires AllEntriesPass(schema)
    ensures r == if opcode < |schema| && index < |schema[opcode].argumentOrder|
      then TagOf(schema[opcode].argumentOrder[index])
      else None
    ensures r.Some? ==> r.value <= 2
  {
    var table := OrderingArray(schema);
    if opcode >= |table| then None
    else if index >= |table[opcode]| then None
    else Some(table[opcode][index])
  }

  /** Two entries, opcode 1 listed before opcode 0: asking for opcode 0
      gives the register tag of the opcode-1 entry, although opcode 0's
      only operand is an immediate. */
  lemma GetTypeForIndexMisreadsReorderedSchema()
    ensures var schema := [
        Config.Instruction("mov", [Config.RegisterField], "Mov", 1, ['r']),
        Config.Instruction("push", [Config.ImmediateField], "Push", 0, ['i'])];
      && AllEntriesPass(schema)
      && GetTypeForIndex(schema, 0, 0) == Some(0)
      && TypeForIndex(schema, 0, 0) == Some(1)
  {
    var schema := [
      Config.Instruction("mov", [Config.RegisterField], "Mov", 1, ['r']),
      Config.Instruction("push", [Config.ImmediateField], "Push", 0, ['i'])];
    assert InstructionCodec.IsFirstRowFor(schema, 0, 1);
  }

  /** The evidently intended lookup: the order of the entry whose opcode
      is `opcode` (the first one, as the emitted `match` arms choose). */
  function TypeForIndex(schema: InstructionCodec.Schema, opcode: Byte, index: nat): (r: Option<Byte>)
    ensures r.Some? ==> r.value <= 2
    ensures !InstructionCodec.Listed(schema, opcode) ==> r.None?
    ensures forall k: nat :: InstructionCodec.IsFirstRowFor(schema, opcode, k) ==>
      r == if index < |schema[k].argumentOrder| then TagOf(schema[k].argumentOrder[index]) else None
  {
    match InstructionCodec.FindOpcode(schema, opcode)
    case None => None
    case Some(k) =>
      if index < |schema[k].argumentOrder| then TagOf(schema[k].argumentOrder[index]) else None
  }

  /** When entry `k` has opcode `k` for every `k`, the emitted lookup
      and the intended one agree. */
  lemma GetTypeForIndexAgreesOnDenseSchema(schema: InstructionCodec.Schema, opcode: Byte, index: nat)
    requires AllEntriesPass(schema)
    requires forall k :: 0 <= k < |schema| ==> schema[k].opcodeNum == k
    ensures GetTypeForIndex(schema, opcode, index) == TypeForIndex(schema, opcode, index)
  {
    if opcode < |schema| {
      assert InstructionCodec.IsFirstRowFor(schema, opcode, opcode as nat);
    } else {
      assert !InstructionCodec.Listed(schema, opcode);
    }
  }
}
