/**
 * The instruction decoder: reads one opcode byte, looks up its specification
 * and applies the field readers in the order the layout declares them; then
 * repeats from the end of that instruction until the buffer is used up or a
 * step fails.
 */
module Decoder {
  import opened Common
  import opened FieldReaders
  import opened Registry

  /** A decoded operand value. */
  datatype Operand =
    | Unsigned(n: nat)                         // from a u30 field
    | Signed(i: int)                           // from an s24 field
    | ConstantRef(index: nat, kind: RefKind)   // an unresolved constant-pool reference

  /** One decoded field: its declared name, its value and the bytes it occupied. */
  datatype Field = Field(name: string, value: Operand, width: nat)

  /** A decoded instruction: its specification, byte span and fields. */
  datatype Instruction = Instruction(spec: OpcodeSpec, start: nat, length: nat, fields: seq<Field>)

  /** The offset just past the instruction. */
  function End(ins: Instruction): nat {
    ins.start + ins.length
  }

  /** Whether an operand is a value that a field of the given kind can hold. */
  predicate Fits(v: Operand, kind: FieldKind) {
    match kind
    case U30 => v.Unsigned? && v.n < U30Limit
    case S24 => v.Signed? && S24Min <= v.i < S24Bound
    case ConstRef(k) => v.ConstantRef? && v.kind == k && v.index < U30Limit
  }

  /** The fields carry the layout's names, in its order, with values of its kinds. */
  predicate Conforms(fields: seq<Field>, layout: seq<FieldSpec>) {
    && |fields| == |layout|
    && forall i :: 0 <= i < |fields| ==>
         fields[i].name == layout[i].name && Fits(fields[i].value, layout[i].kind) && fields[i].width >= 1
  }

  function TotalWidth(fields: seq<Field>): nat {
    if fields == [] then 0 else fields[0].width + TotalWidth(fields[1..])
  }

  /** Reads one field at `pos` with the reader its kind names. */
  function ReadField(buf: seq<byte>, pos: nat, f: FieldSpec): (r: Result<Field>)
    requires pos <= |buf|
    ensures r.Ok? ==> r.value.name == f.name && Fits(r.value.value, f.kind)
    ensures r.Ok? ==> 1 <= r.value.width && pos + r.value.width <= |buf|
    ensures f.kind == S24 ==> (r.Err? <==> |buf| - pos < 3)
    ensures r.Err? ==> r.error == (if f.kind == S24 then TruncatedStream else InvalidVarint)
  {
    match f.kind
    case U30 =>
      (match ReadU30(buf, pos)
       case Err(e) => Err(e)
       case Ok((v, w)) => Ok(Field(f.name, Unsigned(v), w)))
    case S24 =>
      (match ReadS24(buf, pos)
       case Err(e) => Err(e)
       case Ok((v, w)) => Ok(Field(f.name, Signed(v), w)))
    case ConstRef(k) =>
      (match ReadU30(buf, pos)
       case Err(e) => Err(e)
       case Ok((v, w)) => Ok(Field(f.name, ConstantRef(v, k), w)))
  }

  /** Reads the fields of `layout` one after another, starting at `pos`. */
  function ReadFields(buf: seq<byte>, pos: nat, layout: seq<FieldSpec>): (r: Result<seq<Field>>)
    requires pos <= |buf|
    ensures r.Ok? ==> Conforms(r.value, layout) && pos + TotalWidth(r.value) <= |buf|
    ensures r.Err? ==> r.error == InvalidVarint || r.error == TruncatedStream
    decreases |layout|
  {
    if layout == [] then Ok([])
    else
      match ReadField(buf, pos, layout[0])
      case Err(e) => Err(e)
      case Ok(f) =>
        match ReadFields(buf, pos + f.width, layout[1..])
        case Err(e) => Err(e)
        case Ok(fs) => Ok([f] + fs)
  }

  /** Reading a non-empty layout: its first field, then the rest from where that field ends. */
  lemma ReadFieldsCons(buf: seq<byte>, pos: nat, layout: seq<FieldSpec>, f: Field, fs: seq<Field>)
    requires pos <= |buf| && layout != [] && ReadField(buf, pos, layout[0]) == Ok(f)
    requires ReadFields(buf, pos + f.width, layout[1..]) == Ok(fs)
    ensures ReadFields(buf, pos, layout) == Ok([f] + fs)
  {
  }

  /** Reading a two-field layout: the first field, then the second from where the first ends. */
  lemma ReadFieldsPair(buf: seq<byte>, pos: nat, a: FieldSpec, b: FieldSpec)
    requires pos <= |buf|
    ensures var r0 := ReadField(buf, pos, a);
            var r := ReadFields(buf, pos, [a, b]);
            && (r.Err? <==> r0.Err? || ReadField(buf, pos + r0.value.width, b).Err?)
            && (r.Err? ==> r.error == (if r0.Err? then r0.error else ReadField(buf, pos + r0.value.width, b).error))
            && (r.Ok? ==> r.value == [r0.value, ReadField(buf, pos + r0.value.width, b).value])
            && (r.Ok? ==> TotalWidth(r.value) == r0.value.width + ReadField(buf, pos + r0.value.width, b).value.width)
  {
    var layout := [a, b];
    assert layout[0] == a && layout[1..] == [b];
    var r0 := ReadField(buf, pos, a);
    if r0.Err? {
      ReadFieldsStops(buf, pos, layout);
    } else {
      var f0 := r0.value;
      ReadFieldsOne(buf, pos + f0.width, b);
      var r1 := ReadField(buf, pos + f0.width, b);
      if r1.Err? {
        ReadFieldsStopsLater(buf, pos, layout, f0);
      } else {
        ReadFieldsCons(buf, pos, layout, f0, [r1.value]);
        assert [f0] + [r1.value] == [f0, r1.value];
        FieldsCons(f0, [r1.value]);
        FieldsCons(r1.value, []);
        assert [r1.value] + [] == [r1.value];
      }
    }
  }

  /** A layout whose first field fails to read fails with that field's error. */
  lemma ReadFieldsStops(buf: seq<byte>, pos: nat, layout: seq<FieldSpec>)
    requires pos <= |buf| && layout != [] && ReadField(buf, pos, layout[0]).Err?
    ensures ReadFields(buf, pos, layout) == Err(ReadField(buf, pos, layout[0]).error)
  {
  }

  /** A layout whose later fields fail to read fails with their error. */
  lemma ReadFieldsStopsLater(buf: seq<byte>, pos: nat, layout: seq<FieldSpec>, f: Field)
    requires pos <= |buf| && layout != [] && ReadField(buf, pos, layout[0]) == Ok(f)
    requires ReadFields(buf, pos + f.width, layout[1..]).Err?
    ensures ReadFields(buf, pos, layout) == Err(ReadFields(buf, pos + f.width, layout[1..]).error)
  {
  }

  /** Reading a one-field layout is reading that field. */
  lemma ReadFieldsOne(buf: seq<byte>, pos: nat, b: FieldSpec)
    requires pos <= |buf|
    ensures var r1 := ReadField(buf, pos, b);
            var r := ReadFields(buf, pos, [b]);
            && (r.Err? <==> r1.Err?)
            && (r.Err? ==> r.error == r1.error)
            && (r.Ok? ==> r.value == [r1.value])
  {
    assert [b][0] == b && [b][1..] == [];
    var r1 := ReadField(buf, pos, b);
    if r1.Ok? {
      assert ReadFields(buf, pos + r1.value.width, []) == Ok([]);
      assert [r1.value] + [] == [r1.value];
    }
  }

  /** The values and the width of a field list, first field first. */
  lemma FieldsCons(f: Field, fs: seq<Field>)
    ensures FieldValues([f] + fs) == [f.value] + FieldValues(fs)
    ensures TotalWidth([f] + fs) == f.width + TotalWidth(fs)
  {
    assert ([f] + fs)[1..] == fs;
  }

  /** An instruction decoded from `buf` at its own start: its spec is the one its first byte names. */
  predicate DecodedFrom(ins: Instruction, buf: seq<byte>) {
    && ins.start < |buf|
    && End(ins) <= |buf|
    && buf[ins.start] in Table
    && ins.spec == Table[buf[ins.start]]
    && Conforms(ins.fields, ins.spec.layout)
    && ins.length == 1 + TotalWidth(ins.fields)
  }

  /** Decodes the single instruction that starts at `pos`. */
  function DecodeAt(buf: seq<byte>, pos: nat): (r: Result<Instruction>)
    requires pos < |buf|
    ensures r.Ok? ==> r.value.start == pos && pos < End(r.value) <= |buf|
  {
    match Lookup(buf[pos])
    case Err(e) => Err(e)
    case Ok(spec) =>
      match ReadFields(buf, pos + 1, spec.layout)
      case Err(e) => Err(e)
      case Ok(fields) => Ok(Instruction(spec, pos, 1 + TotalWidth(fields), fields))
  }

  /**
   * A decoded instruction is the one its first byte names, with fields that
   * conform to that opcode's layout; decoding fails with `UnknownOpcode`
   * exactly when the byte is not registered.
   */
  lemma DecodeAtSpec(buf: seq<byte>, pos: nat)
    requires pos < |buf|
    ensures DecodeAt(buf, pos).Ok? ==> DecodedFrom(DecodeAt(buf, pos).value, buf)
    ensures buf[pos] !in Table <==> DecodeAt(buf, pos) == Err(UnknownOpcode(buf[pos]))
  {
  }

  /**
   * Once the opcode byte is known to name `spec`, decoding is reading that
   * spec's layout right after it: it fails as the field readers fail, and
   * otherwise spans the opcode byte and the fields.
   */
  lemma DecodeAtOfSpec(buf: seq<byte>, pos: nat, spec: OpcodeSpec)
    requires pos < |buf| && Lookup(buf[pos]) == Ok(spec)
    ensures var fs := ReadFields(buf, pos + 1, spec.layout);
            && (DecodeAt(buf, pos).Err? <==> fs.Err?)
            && (fs.Err? ==> DecodeAt(buf, pos).error == fs.error)
            && (fs.Ok? ==> DecodeAt(buf, pos) == Ok(Instruction(spec, pos, 1 + TotalWidth(fs.value), fs.value)))
  {
  }

  /** A whole-buffer decode: every instruction, or those before the first failure. */
  datatype Outcome =
    | Complete(instructions: seq<Instruction>)
    | Partial(instructions: seq<Instruction>, error: DecodeError, offset: nat)

  /** Where the decoded instructions stop: the buffer's end, or the failing offset. */
  function Reached(o: Outcome, size: nat): nat {
    if o.Complete? then size else o.offset
  }

  /**
   * The instructions cover [from, to) one after another, each being what
   * `DecodeAt` yields at the offset where the previous one ends.
   */
  predicate Tiles(buf: seq<byte>, instrs: seq<Instruction>, from: nat, to: nat)
    decreases |instrs|
  {
    if instrs == [] then from == to
    else
      && from < |buf|
      && DecodeAt(buf, from) == Ok(instrs[0])
      && Tiles(buf, instrs[1..], End(instrs[0]), to)
  }

  /** What tiling means instruction by instruction. */
  lemma {:induction false} TilesAt(buf: seq<byte>, instrs: seq<Instruction>, from: nat, to: nat, i: nat)
    requires Tiles(buf, instrs, from, to) && i < |instrs|
    ensures instrs[0].start == from && End(instrs[|instrs| - 1]) == to
    ensures instrs[i].start < |buf| && DecodeAt(buf, instrs[i].start) == Ok(instrs[i])
    ensures i + 1 < |instrs| ==> End(instrs[i]) == instrs[i + 1].start
    ensures from <= instrs[i].start && End(instrs[i]) <= to
    decreases |instrs|
  {
    if |instrs| > 1 {
      var j := if i == 0 then 0 else i - 1;
      TilesAt(buf, instrs[1..], End(instrs[0]), to, j);
      TilesAt(buf, instrs[1..], End(instrs[0]), to, |instrs| - 2);
      if i > 0 {
        assert instrs[1..][j] == instrs[i];
        if i + 1 < |instrs| { assert instrs[1..][j + 1] == instrs[i + 1]; }
      }
    }
  }

  /** Decodes from `pos` to the end of the buffer. */
  function DecodeFrom(buf: seq<byte>, pos: nat): (r: Outcome)
    requires pos <= |buf|
    ensures pos <= Reached(r, |buf|) <= |buf|
    decreases |buf| - pos
  {
    if pos == |buf| then Complete([])
    else
      match DecodeAt(buf, pos)
      case Err(e) => Partial([], e, pos)
      case Ok(ins) =>
        match DecodeFrom(buf, End(ins))
        case Complete(rest) => Complete([ins] + rest)
        case Partial(rest, e, off) => Partial([ins] + rest, e, off)
  }

  /** Decoding from an offset where an instruction decodes: that instruction, then the rest. */
  lemma DecodeFromStep(buf: seq<byte>, pos: nat)
    requires pos < |buf| && DecodeAt(buf, pos).Ok?
    ensures var ins := DecodeAt(buf, pos).value;
            var r := DecodeFrom(buf, pos);
            var m := DecodeFrom(buf, End(ins));
            && r.Complete? == m.Complete?
            && (r.Partial? ==> r.error == m.error && r.offset == m.offset)
            && r.instructions == [ins] + m.instructions
  {
  }

  /**
   * The instructions decoded from `pos` tile the bytes from `pos` up to where
   * decoding stopped; a failure is what decoding at the failing offset reports.
   */
  lemma {:induction false} DecodeFromTiles(buf: seq<byte>, pos: nat)
    requires pos <= |buf|
    ensures var r := DecodeFrom(buf, pos);
            && Tiles(buf, r.instructions, pos, Reached(r, |buf|))
            && (r.Partial? ==> r.offset < |buf| && DecodeAt(buf, r.offset) == Err(r.error))
    decreases |buf| - pos
  {
    if pos < |buf| && DecodeAt(buf, pos).Ok? {
      var ins := DecodeAt(buf, pos).value;
      DecodeFromTiles(buf, End(ins));
      DecodeFromStep(buf, pos);
      var m := DecodeFrom(buf, End(ins));
      assert ([ins] + m.instructions)[1..] == m.instructions;
    }
  }

  /**
   * Decodes one method body. On success the instructions tile the whole
   * buffer; on failure they tile the bytes before the failing offset, and the
   * error is what decoding at that offset reports.
   */
  function Decode(buf: seq<byte>): (r: Outcome)
    ensures r.Complete? ==> Tiles(buf, r.instructions, 0, |buf|)
    ensures r.Partial? ==> Tiles(buf, r.instructions, 0, r.offset)
    ensures r.Partial? ==> r.offset < |buf| && DecodeAt(buf, r.offset) == Err(r.error)
  {
    DecodeFromTiles(buf, 0);
    DecodeFrom(buf, 0)
  }

  /** The decoded values of a field list, in order. */
  function FieldValues(fields: seq<Field>): (vs: seq<Operand>)
    ensures |vs| == |fields|
  {
    if fields == [] then [] else [fields[0].value] + FieldValues(fields[1..])
  }

  /** The value of the field called `name`, if the instruction has one. */
  function Get(fields: seq<Field>, name: string): (r: Option<Operand>)
    ensures r.Some? <==> exists i :: 0 <= i < |fields| && fields[i].name == name
    ensures r.Some? ==> exists i :: 0 <= i < |fields| && fields[i].name == name && fields[i].value == r.value
  {
    if fields == [] then None
    else if fields[0].name == name then Some(fields[0].value)
    else
      var r := Get(fields[1..], name);
      assert forall i :: 1 <= i < |fields| ==> fields[i] == fields[1..][i - 1];
      r
  }
}
