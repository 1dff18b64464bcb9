/**
 * The inverse of the decoder: writes instructions as their bytes, each
 * operand in its minimal encoding, and proves that decoding the result gives
 * the instructions back.
 */
module Encoder {
  import opened Common
  import opened FieldReaders
  import opened Registry
  import opened Decoder

  /** An instruction as its author writes it: an opcode byte and one operand per layout field. */
  datatype Op = Op(code: byte, operands: seq<Operand>)

  predicate FitLayout(vs: seq<Operand>, layout: seq<FieldSpec>) {
    |vs| == |layout| && forall i :: 0 <= i < |vs| ==> Fits(vs[i], layout[i].kind)
  }

  /** A registered opcode with operands that fit its layout. */
  predicate ValidOp(op: Op) {
    op.code in Table && FitLayout(op.operands, Table[op.code].layout)
  }

  function EncodeOperand(v: Operand, kind: FieldKind): (r: seq<byte>)
    requires Fits(v, kind)
    ensures 1 <= |r|
  {
    match kind
    case U30 => EncodeU30(v.n)
    case S24 => EncodeS24(v.i)
    case ConstRef(_) => EncodeU30(v.index)
  }

  function EncodeOperands(vs: seq<Operand>, layout: seq<FieldSpec>): seq<byte>
    requires FitLayout(vs, layout)
    decreases |vs|
  {
    if vs == [] then [] else EncodeOperand(vs[0], layout[0].kind) + EncodeOperands(vs[1..], layout[1..])
  }

  function EncodeOp(op: Op): (r: seq<byte>)
    requires ValidOp(op)
    ensures |r| >= 1 && r[0] == op.code
  {
    [op.code] + EncodeOperands(op.operands, Table[op.code].layout)
  }

  predicate ValidProgram(ops: seq<Op>) {
    forall i :: 0 <= i < |ops| ==> ValidOp(ops[i])
  }

  /** The bytes of a method body holding `ops` in order. */
  function Assemble(ops: seq<Op>): seq<byte>
    requires ValidProgram(ops)
    decreases |ops|
  {
    if ops == [] then [] else EncodeOp(ops[0]) + Assemble(ops[1..])
  }

  lemma ReadFieldOfEncoding(v: Operand, f: FieldSpec, buf: seq<byte>, pos: nat)
    requires Fits(v, f.kind) && Occurs(buf, pos, EncodeOperand(v, f.kind))
    ensures ReadField(buf, pos, f) == Ok(Field(f.name, v, |EncodeOperand(v, f.kind)|))
  {
    match f.kind
    case U30 => U30ReadsEncoding(v.n, buf, pos);
    case S24 => S24ReadsEncoding(v.i, buf, pos);
    case ConstRef(_) => U30ReadsEncoding(v.index, buf, pos);
  }

  lemma FitLayoutTail(vs: seq<Operand>, layout: seq<FieldSpec>)
    requires FitLayout(vs, layout) && vs != []
    ensures FitLayout(vs[1..], layout[1..])
  {
    forall i | 0 <= i < |vs| - 1 ensures Fits(vs[1..][i], layout[1..][i].kind) {
      assert vs[1..][i] == vs[i + 1] && layout[1..][i] == layout[i + 1];
    }
  }

  /** The bytes of a non-empty operand list: the first operand's, then the rest's. */
  lemma EncodeOperandsCons(vs: seq<Operand>, layout: seq<FieldSpec>)
    requires FitLayout(vs, layout) && vs != []
    ensures FitLayout(vs[1..], layout[1..])
    ensures EncodeOperands(vs, layout) == EncodeOperand(vs[0], layout[0].kind) + EncodeOperands(vs[1..], layout[1..])
  {
    FitLayoutTail(vs, layout);
  }

  /** The operands stand in `buf` from `pos` on, each in its own encoding, one after another. */
  predicate OperandsAt(buf: seq<byte>, pos: nat, vs: seq<Operand>, layout: seq<FieldSpec>)
    decreases |vs|
  {
    && FitLayout(vs, layout)
    && pos <= |buf|
    && (vs != [] ==>
          && Occurs(buf, pos, EncodeOperand(vs[0], layout[0].kind))
          && OperandsAt(buf, pos + |EncodeOperand(vs[0], layout[0].kind)|, vs[1..], layout[1..]))
  }

  lemma {:induction false} OperandsAtOfEncoding(vs: seq<Operand>, layout: seq<FieldSpec>, buf: seq<byte>, pos: nat)
    requires FitLayout(vs, layout) && Occurs(buf, pos, EncodeOperands(vs, layout))
    ensures OperandsAt(buf, pos, vs, layout)
    decreases |vs|
  {
    if vs != [] {
      EncodeOperandsCons(vs, layout);
      OccursSplit(buf, pos, EncodeOperand(vs[0], layout[0].kind), EncodeOperands(vs[1..], layout[1..]));
      OperandsAtOfEncoding(vs[1..], layout[1..], buf, pos + |EncodeOperand(vs[0], layout[0].kind)|);
    }
  }

  /** The field readers, applied in layout order, read back each operand from its encoding. */
  lemma {:induction false} ReadFieldsOfOperands(vs: seq<Operand>, layout: seq<FieldSpec>, buf: seq<byte>, pos: nat)
      returns (fs: seq<Field>)
    requires OperandsAt(buf, pos, vs, layout)
    ensures ReadFields(buf, pos, layout) == Ok(fs)
    ensures FieldValues(fs) == vs
    ensures TotalWidth(fs) == |EncodeOperands(vs, layout)|
    decreases |vs|
  {
    if vs == [] {
      fs := [];
    } else {
      var tail := ReadFieldsOfOperands(vs[1..], layout[1..], buf, pos + |EncodeOperand(vs[0], layout[0].kind)|);
      fs := ReadFieldsOfOperandsStep(vs, layout, buf, pos, tail);
    }
  }

  /** One step of the above: the first operand's field, then the fields already read after it. */
  lemma ReadFieldsOfOperandsStep(vs: seq<Operand>, layout: seq<FieldSpec>, buf: seq<byte>, pos: nat, tail: seq<Field>)
      returns (fs: seq<Field>)
    requires vs != [] && OperandsAt(buf, pos, vs, layout)
    requires ReadFields(buf, pos + |EncodeOperand(vs[0], layout[0].kind)|, layout[1..]) == Ok(tail)
    requires FieldValues(tail) == vs[1..]
    requires TotalWidth(tail) == |EncodeOperands(vs[1..], layout[1..])|
    ensures ReadFields(buf, pos, layout) == Ok(fs)
    ensures FieldValues(fs) == vs
    ensures TotalWidth(fs) == |EncodeOperands(vs, layout)|
  {
    var f0 := FirstField(vs, layout, buf, pos);
    EncodeOperandsCons(vs, layout);
    ReadFieldsCons(buf, pos, layout, f0, tail);
    FieldsCons(f0, tail);
    fs := [f0] + tail;
    assert FieldValues(fs) == [vs[0]] + vs[1..] == vs;
  }

  /** The first operand's field reads back from its encoding. */
  lemma FirstField(vs: seq<Operand>, layout: seq<FieldSpec>, buf: seq<byte>, pos: nat) returns (f0: Field)
    requires vs != [] && OperandsAt(buf, pos, vs, layout)
    ensures ReadField(buf, pos, layout[0]) == Ok(f0)
    ensures f0.value == vs[0] && f0.width == |EncodeOperand(vs[0], layout[0].kind)|
  {
    ReadFieldOfEncoding(vs[0], layout[0], buf, pos);
    f0 := Field(layout[0].name, vs[0], |EncodeOperand(vs[0], layout[0].kind)|);
  }

  lemma ReadFieldsOfEncoding(vs: seq<Operand>, layout: seq<FieldSpec>, buf: seq<byte>, pos: nat)
      returns (fs: seq<Field>)
    requires FitLayout(vs, layout) && Occurs(buf, pos, EncodeOperands(vs, layout))
    ensures ReadFields(buf, pos, layout) == Ok(fs)
    ensures FieldValues(fs) == vs
    ensures TotalWidth(fs) == |EncodeOperands(vs, layout)|
  {
    OperandsAtOfEncoding(vs, layout, buf, pos);
    fs := ReadFieldsOfOperands(vs, layout, buf, pos);
  }

  /** Decoding the bytes of one instruction, wherever they stand, gives that instruction back. */
  lemma DecodeAtOfEncoding(op: Op, buf: seq<byte>, pos: nat)
    requires ValidOp(op) && Occurs(buf, pos, EncodeOp(op))
    ensures pos < |buf|
    ensures var r := DecodeAt(buf, pos);
            && r.Ok?
            && r.value.spec == Table[op.code]
            && Matches(r.value, op)
            && FieldValues(r.value.fields) == op.operands
            && r.value.start == pos
            && r.value.length == |EncodeOp(op)|
  {
    var body := EncodeOperands(op.operands, Table[op.code].layout);
    OccursSplit(buf, pos, [op.code], body);
    assert buf[pos] == op.code;
    var fs := ReadFieldsOfEncoding(op.operands, Table[op.code].layout, buf, pos + 1);
  }

  /** The instruction is `op`: the same opcode and the same operand values. */
  predicate Matches(ins: Instruction, op: Op) {
    ins.spec.code == op.code && FieldValues(ins.fields) == op.operands
  }

  /**
   * `r` lists instructions matching `ops`, then exactly what `t` lists, and
   * ends as `t` ends: complete, or with the same error at the same offset.
   */
  predicate Yields(r: Outcome, ops: seq<Op>, t: Outcome) {
    && r.Complete? == t.Complete?
    && (r.Partial? ==> r.error == t.error && r.offset == t.offset)
    && |r.instructions| == |ops| + |t.instructions|
    && (forall i :: 0 <= i < |ops| ==> Matches(r.instructions[i], ops[i]))
    && (forall i :: 0 <= i < |t.instructions| ==> r.instructions[|ops| + i] == t.instructions[i])
  }

  /** An outcome one instruction longer than `m`, where `m` yields the remaining ops, yields them all. */
  lemma YieldsCons(r: Outcome, m: Outcome, t: Outcome, ins: Instruction, ops: seq<Op>)
    requires ops != [] && Matches(ins, ops[0]) && Yields(m, ops[1..], t)
    requires r.Complete? == m.Complete? && (r.Partial? ==> r.error == m.error && r.offset == m.offset)
    requires r.instructions == [ins] + m.instructions
    ensures Yields(r, ops, t)
  {
    forall i | 1 <= i < |ops| ensures Matches(r.instructions[i], ops[i]) {
      assert r.instructions[i] == m.instructions[i - 1] && ops[i] == ops[1..][i - 1];
    }
    forall i | 0 <= i < |t.instructions| ensures r.instructions[|ops| + i] == t.instructions[i] {
      assert r.instructions[|ops| + i] == m.instructions[|ops| - 1 + i];
    }
  }

  /** The bytes of a non-empty program: the first instruction's, then the rest's. */
  lemma AssembleCons(ops: seq<Op>)
    requires ValidProgram(ops) && ops != []
    ensures ValidOp(ops[0]) && ValidProgram(ops[1..])
    ensures Assemble(ops) == EncodeOp(ops[0]) + Assemble(ops[1..])
  {
    forall i | 0 <= i < |ops| - 1 ensures ValidOp(ops[1..][i]) {
      assert ops[1..][i] == ops[i + 1];
    }
  }

  /**
   * Decoding at `pos`, then where each instruction ends, meets instructions
   * matching `ops` one after another and arrives at `end`.
   */
  predicate DecodesAs(buf: seq<byte>, pos: nat, ops: seq<Op>, end: nat)
    decreases |ops|
  {
    if ops == [] then pos == end
    else
      && pos < |buf|
      && DecodeAt(buf, pos).Ok?
      && Matches(DecodeAt(buf, pos).value, ops[0])
      && DecodesAs(buf, End(DecodeAt(buf, pos).value), ops[1..], end)
  }

  /** One decoded instruction matching the first op, then the rest. */
  lemma DecodesAsIntro(buf: seq<byte>, pos: nat, ops: seq<Op>, end: nat, ins: Instruction)
    requires ops != [] && pos < |buf| && DecodeAt(buf, pos) == Ok(ins) && Matches(ins, ops[0])
    requires DecodesAs(buf, End(ins), ops[1..], end)
    ensures DecodesAs(buf, pos, ops, end)
  {
  }

  /** Wherever an assembled program stands, decoding walks through its instructions. */
  lemma {:induction false} DecodesAsAssembly(ops: seq<Op>, buf: seq<byte>, pos: nat, end: nat)
    requires ValidProgram(ops) && Occurs(buf, pos, Assemble(ops)) && end == pos + |Assemble(ops)|
    ensures DecodesAs(buf, pos, ops, end)
    decreases |ops|
  {
    if ops != [] {
      AssembleCons(ops);
      OccursSplit(buf, pos, EncodeOp(ops[0]), Assemble(ops[1..]));
      DecodeAtOfEncoding(ops[0], buf, pos);
      var ins := DecodeAt(buf, pos).value;
      OccursMoved(buf, pos + |EncodeOp(ops[0])|, End(ins), Assemble(ops[1..]));
      DecodesAsAssembly(ops[1..], buf, End(ins), end);
      DecodesAsIntro(buf, pos, ops, end, ins);
    }
  }

  /**
   * Decoding across instructions laid out one after another yields them, one
   * by one, and then whatever decoding the bytes after them yields.
   */
  lemma {:induction false} DecodeFromOps(ops: seq<Op>, buf: seq<byte>, pos: nat, end: nat)
    requires pos <= |buf| && DecodesAs(buf, pos, ops, end)
    ensures end <= |buf|
    ensures Yields(DecodeFrom(buf, pos), ops, DecodeFrom(buf, end))
    decreases |ops|
  {
    if ops != [] {
      var ins := DecodeAt(buf, pos).value;
      DecodeFromStep(buf, pos);
      DecodeFromOps(ops[1..], buf, End(ins), end);
      YieldsCons(DecodeFrom(buf, pos), DecodeFrom(buf, End(ins)), DecodeFrom(buf, end), ins, ops);
    }
  }

  /**
   * Decoding an assembled program followed by any bytes yields the program's
   * instructions, then whatever decoding those bytes yields from the offset
   * where the program ends.
   */
  lemma DecodeOfAssemblyThen(ops: seq<Op>, rest: seq<byte>)
    requires ValidProgram(ops)
    ensures Yields(Decode(Assemble(ops) + rest), ops, DecodeFrom(Assemble(ops) + rest, |Assemble(ops)|))
  {
    var a := Assemble(ops);
    var buf := a + rest;
    OccursBetween([], a, rest);
    assert [] + a + rest == buf;
    DecodesAsAssembly(ops, buf, 0, |a|);
    DecodeFromOps(ops, buf, 0, |a|);
  }

  /**
   * A byte no opcode is registered under stops decoding with `UnknownOpcode`
   * of that byte, at its own offset, after the instructions before it.
   */
  lemma UnknownAfterProgram(ops: seq<Op>, rest: seq<byte>)
    requires ValidProgram(ops) && 1 <= |rest| && rest[0] !in Table
    ensures var r := Decode(Assemble(ops) + rest);
            && r.Partial? && r.error == UnknownOpcode(rest[0]) && r.offset == |Assemble(ops)|
            && |r.instructions| == |ops|
            && forall i :: 0 <= i < |ops| ==> Matches(r.instructions[i], ops[i])
  {
    var a := Assemble(ops);
    var buf := a + rest;
    DecodeOfAssemblyThen(ops, rest);
    assert buf[|a|] == rest[0];
    DecodeAtSpec(buf, |a|);
    assert DecodeFrom(buf, |a|) == Partial([], UnknownOpcode(rest[0]), |a|);
  }

  /** A body that starts with the unregistered byte 0xff decodes to nothing, failing at offset 0. */
  lemma UnknownFirst(rest: seq<byte>)
    ensures Decode([0xff] + rest) == Partial([], UnknownOpcode(0xff), 0)
  {
    LookupTable(0xff);
    assert Assemble([]) == [] && [] + ([0xff] + rest) == [0xff] + rest;
    UnknownAfterProgram([], [0xff] + rest);
  }

  /**
   * Decoding an assembled method body consumes all of it and returns the
   * assembled instructions, with their opcodes and operand values, in order.
   */
  lemma DecodeOfAssembly(ops: seq<Op>)
    requires ValidProgram(ops)
    ensures var r := Decode(Assemble(ops));
            && r.Complete?
            && |r.instructions| == |ops|
            && forall i :: 0 <= i < |ops| ==> Matches(r.instructions[i], ops[i])
  {
    var buf := Assemble(ops);
    OccursWhole(buf);
    DecodesAsAssembly(ops, buf, 0, |buf|);
    DecodeFromOps(ops, buf, 0, |buf|);
  }
}
