/**
 * `debugline` (0xf0): one u30 `line` field; its parameters are `[line]`, and it
 * neither pops nor pushes.
 */
module AS3DebugLine {
  import opened Common
  import opened FieldReaders
  import opened Registry
  import opened Decoder
  import opened Encoder
  import opened StackEffect
  import opened Disassembler

  /** 0xf0 names `debugline`, and no other byte does. */
  lemma Registered()
    ensures Lookup(0xf0) == Ok(DebugLine)
    ensures DebugLine.mnemonic == "debugline"
    ensures forall b :: b in Table && Table[b].mnemonic == "debugline" ==> b == 0xf0
  {
    TableIsRegistered();
  }

  /**
   * After the opcode comes a single u30 `line`, so a `debugline` instruction
   * is 2 to 6 bytes long; when the u30 reader fails, decoding fails with
   * `InvalidVarint`.
   */
  lemma Decoding(buf: seq<byte>, pos: nat)
    requires pos < |buf| && buf[pos] == 0xf0
    ensures DecodeAt(buf, pos).Err? <==> ReadU30(buf, pos + 1).Err?
    ensures DecodeAt(buf, pos).Err? ==> DecodeAt(buf, pos).error == InvalidVarint
    ensures DecodeAt(buf, pos).Ok? ==>
              && ReadU30(buf, pos + 1).Ok?
              && var (line, w) := ReadU30(buf, pos + 1).value;
              && DecodeAt(buf, pos).value.spec == DebugLine
              && DecodeAt(buf, pos).value.fields == [Field("line", Unsigned(line), w)]
              && DecodeAt(buf, pos).value.length == 1 + w
              && 2 <= DecodeAt(buf, pos).value.length <= 6
  {
    LookupTable(buf[pos]);
    assert Lookup(buf[pos]) == Ok(DebugLine);
    if ReadU30(buf, pos + 1).Ok? {
      var w := ReadU30(buf, pos + 1).value.1;
      assert ReadFields(buf, pos + 1 + w, DebugLine.layout[1..]) == Ok([]);
    }
  }

  /**
   * A `debugline` whose u30 never ends — the buffer stops on a continuation
   * byte, or a fifth byte still carries one — stops decoding with
   * `InvalidVarint` at its own offset, after the instructions before it.
   */
  lemma UnterminatedLine(ops: seq<Op>, rest: seq<byte>)
    requires ValidProgram(ops) && 1 <= |rest| && rest[0] == 0xf0
    requires forall j :: 1 <= j < 1 + MaxVarintBytes && j < |rest| ==> Continues(rest[j])
    ensures var r := Decode(Assemble(ops) + rest);
            && r.Partial? && r.error == InvalidVarint && r.offset == |Assemble(ops)|
            && |r.instructions| == |ops|
            && forall i :: 0 <= i < |ops| ==> Matches(r.instructions[i], ops[i])
  {
    var a := Assemble(ops);
    var buf := a + rest;
    DecodeOfAssemblyThen(ops, rest);
    assert buf[|a|] == 0xf0;
    forall j | |a| + 1 <= j < |a| + 1 + MaxVarintBytes && j < |buf| ensures Continues(buf[j]) {
      assert buf[j] == rest[j - |a|];
    }
    U30Fails(buf, |a| + 1);
    Decoding(buf, |a|);
    assert DecodeFrom(buf, |a|) == Partial([], InvalidVarint, |a|);
  }

  /** The parameters of a decoded `debugline` are the one-element list `[line]`. */
  lemma ParametersAreLine(buf: seq<byte>, pos: nat, pool: Pool)
    requires pos < |buf| && buf[pos] == 0xf0 && DecodeAt(buf, pos).Ok?
    ensures ReadU30(buf, pos + 1).Ok?
    ensures ParametersOf(DecodeAt(buf, pos).value, pool) == Values([Unsigned(ReadU30(buf, pos + 1).value.0)])
  {
    Decoding(buf, pos);
  }

  /** A decoded `debugline` is stack-neutral. */
  lemma StackCounts(buf: seq<byte>, pos: nat)
    requires pos < |buf| && buf[pos] == 0xf0 && DecodeAt(buf, pos).Ok?
    ensures EffectOf(DecodeAt(buf, pos).value) == Effect(Fixed(0), 0)
    ensures StackNeutral(EffectOf(DecodeAt(buf, pos).value))
  {
    Decoding(buf, pos);
  }
}
