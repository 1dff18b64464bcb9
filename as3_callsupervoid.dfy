/**
 * `callsupervoid` (0x4e): a u30 constant-pool reference to a multiname
 * `property`, then a u30 `arg_count`; it pushes nothing, its consume count is
 * left open, and it renders as "<property> (<arg_count>)".
 */
module AS3CallSuperVoid {
  import opened Common
  import opened FieldReaders
  import opened Registry
  import opened Decoder
  import opened StackEffect
  import opened Disassembler

  /** 0x4e names `callsupervoid`, and no other byte does. */
  lemma Registered()
    ensures Lookup(0x4e) == Ok(CallSuperVoid)
    ensures CallSuperVoid.mnemonic == "callsupervoid"
    ensures forall b :: b in Table && Table[b].mnemonic == "callsupervoid" ==> b == 0x4e
  {
    TableIsRegistered();
  }

  /**
   * The operands in declaration order: the u30 index of `property`, kept as an
   * unresolved multiname reference, then the u30 `arg_count` from where the
   * index ends. The instruction is 1 + both widths long, 3 to 11 bytes;
   * decoding fails with `InvalidVarint` exactly when either u30 does.
   */
  lemma Decoding(buf: seq<byte>, pos: nat)
    requires pos < |buf| && buf[pos] == 0x4e
    ensures DecodeAt(buf, pos).Err? <==>
              ReadU30(buf, pos + 1).Err? || ReadU30(buf, pos + 1 + ReadU30(buf, pos + 1).value.1).Err?
    ensures DecodeAt(buf, pos).Err? ==> DecodeAt(buf, pos).error == InvalidVarint
    ensures DecodeAt(buf, pos).Ok? ==>
              && ReadU30(buf, pos + 1).Ok?
              && var (index, w0) := ReadU30(buf, pos + 1).value;
              && ReadU30(buf, pos + 1 + w0).Ok?
              && var (count, w1) := ReadU30(buf, pos + 1 + w0).value;
              && DecodeAt(buf, pos).value.spec == CallSuperVoid
              && DecodeAt(buf, pos).value.fields ==
                   [Field("property", ConstantRef(index, Multiname), w0), Field("arg_count", Unsigned(count), w1)]
              && DecodeAt(buf, pos).value.length == 1 + w0 + w1
              && 3 <= DecodeAt(buf, pos).value.length <= 11
  {
    LookupTable(buf[pos]);
    DecodeAtOfSpec(buf, pos, CallSuperVoid);
    ReadOperands(buf, pos + 1);
  }

  /** The field readers over the `callsupervoid` layout: two u30s, one after the other. */
  lemma ReadOperands(buf: seq<byte>, p: nat)
    requires p <= |buf|
    ensures var r := ReadFields(buf, p, CallSuperVoid.layout);
            && (r.Err? <==> ReadU30(buf, p).Err? || ReadU30(buf, p + ReadU30(buf, p).value.1).Err?)
            && (r.Err? ==> r.error == InvalidVarint)
            && (r.Ok? ==>
                  var (index, w0) := ReadU30(buf, p).value;
                  var (count, w1) := ReadU30(buf, p + w0).value;
                  && r.value == [Field("property", ConstantRef(index, Multiname), w0), Field("arg_count", Unsigned(count), w1)]
                  && TotalWidth(r.value) == w0 + w1)
  {
    ReadFieldsPair(buf, p, CallSuperVoid.layout[0], CallSuperVoid.layout[1]);
    assert CallSuperVoid.layout == [CallSuperVoid.layout[0], CallSuperVoid.layout[1]];
  }

  /** The instruction `[0x4e, 0x03, 0x02]` decodes to. */
  const Call32 := Instruction(CallSuperVoid, 0, 3,
                              [Field("property", ConstantRef(3, Multiname), 1), Field("arg_count", Unsigned(2), 1)])

  /** `[0x4e, 0x03, 0x02]` is one three-byte instruction with property index 3 and two arguments. */
  lemma Example()
    ensures Decode([0x4e, 0x03, 0x02]) == Complete([Call32])
  {
    var buf: seq<byte> := [0x4e, 0x03, 0x02];
    Decoding(buf, 0);
    assert ReadU30(buf, 1) == Ok((3, 1));
    assert ReadU30(buf, 2) == Ok((2, 1));
    assert DecodeAt(buf, 0) == Ok(Call32);
    DecodeFromStep(buf, 0);
  }

  /** A decoded `callsupervoid` pushes nothing; how much it pops is left open. */
  lemma StackCounts(buf: seq<byte>, pos: nat)
    requires pos < |buf| && buf[pos] == 0x4e && DecodeAt(buf, pos).Ok?
    ensures EffectOf(DecodeAt(buf, pos).value) == Effect(Unresolved, 0)
    ensures NetChange(EffectOf(DecodeAt(buf, pos).value)) == None
  {
    Decoding(buf, pos);
  }

  /**
   * A decoded `callsupervoid` renders as the pool's text for its property, a
   * space and its argument count in parentheses; reading that text back from
   * the right recovers both, whatever the pool's text is.
   */
  lemma Disassembly(buf: seq<byte>, pos: nat, pool: Pool)
    requires pos < |buf| && buf[pos] == 0x4e && DecodeAt(buf, pos).Ok?
    ensures ReadU30(buf, pos + 1).Ok? && ReadU30(buf, pos + 1 + ReadU30(buf, pos + 1).value.1).Ok?
    ensures var index := ReadU30(buf, pos + 1).value.0;
            var count := ReadU30(buf, pos + 1 + ReadU30(buf, pos + 1).value.1).value.0;
            && ParametersOf(DecodeAt(buf, pos).value, pool) == Text(pool(index, Multiname) + " (" + DecimalString(count) + ")")
            && SplitPropertyText(ParametersOf(DecodeAt(buf, pos).value, pool).text) == Some((pool(index, Multiname), count))
  {
    Decoding(buf, pos);
    var ins := DecodeAt(buf, pos).value;
    var index := ReadU30(buf, pos + 1).value.0;
    var count := ReadU30(buf, pos + 1 + ReadU30(buf, pos + 1).value.1).value.0;
    assert Get(ins.fields, "property") == Some(ConstantRef(index, Multiname));
    assert Get(ins.fields, "arg_count") == Some(Unsigned(count));
    PropertyTextRoundTrip(pool(index, Multiname), count);
  }
}
