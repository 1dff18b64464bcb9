/**
 * `ifle` (0x16): a conditional control-transfer opcode with one signed 24-bit
 * `jump_offset` field; it pops two values and pushes none.
 */
module AS3IfLe {
  import opened Common
  import opened FieldReaders
  import opened Registry
  import opened Decoder
  import opened ControlFlow
  import opened StackEffect
  import AS3DebugLine

  /** 0x16 names `ifle`, a conditional control-transfer opcode, and no other byte does. */
  lemma Registered()
    ensures Lookup(0x16) == Ok(IfLe)
    ensures IfLe.mnemonic == "ifle" && IfLe.category == ControlTransfer && IfLe.conditional
    ensures forall b :: b in Table && Table[b].mnemonic == "ifle" ==> b == 0x16
  {
    TableIsRegistered();
  }

  /**
   * After the opcode come exactly three bytes of signed `jump_offset`, so an
   * `ifle` instruction is four bytes long; with fewer than three bytes left
   * decoding fails with `TruncatedStream`.
   */
  lemma Decoding(buf: seq<byte>, pos: nat)
    requires pos < |buf| && buf[pos] == 0x16
    ensures DecodeAt(buf, pos).Err? <==> |buf| - pos < 4
    ensures DecodeAt(buf, pos).Err? ==> DecodeAt(buf, pos).error == TruncatedStream
    ensures DecodeAt(buf, pos).Ok? ==>
              && DecodeAt(buf, pos).value.spec == IfLe
              && DecodeAt(buf, pos).value.length == 4
              && DecodeAt(buf, pos).value.fields == [Field("jump_offset", Signed(ReadS24(buf, pos + 1).value.0), 3)]
  {
    LookupTable(buf[pos]);
    assert Lookup(buf[pos]) == Ok(IfLe);
    if |buf| - pos >= 4 {
      assert ReadFields(buf, pos + 4, IfLe.layout[1..]) == Ok([]);
    }
  }

  /** A decoded `ifle` pops two values and pushes none. */
  lemma StackCounts(buf: seq<byte>, pos: nat)
    requires pos < |buf| && buf[pos] == 0x16 && DecodeAt(buf, pos).Ok?
    ensures EffectOf(DecodeAt(buf, pos).value) == Effect(Fixed(2), 0)
    ensures NetChange(EffectOf(DecodeAt(buf, pos).value)) == Some(-2)
  {
    Decoding(buf, pos);
  }

  /** The target of a decoded `ifle` is its end offset, four bytes on, plus the signed offset. */
  lemma TargetOf(buf: seq<byte>, pos: nat)
    requires pos < |buf| && buf[pos] == 0x16 && DecodeAt(buf, pos).Ok?
    ensures ReadS24(buf, pos + 1).Ok?
    ensures Target(DecodeAt(buf, pos).value) == Some(pos + 4 + ReadS24(buf, pos + 1).value.0)
  {
    Decoding(buf, pos);
  }

  /**
   * Among decoded instructions, an `ifle` has an absolute target. When no
   * instruction starts there it is rejected with `JumpTargetOutOfRange`;
   * otherwise its successors are the next instruction, if there is one, and
   * then the instruction at the target.
   */
  lemma TwoSuccessors(buf: seq<byte>, instrs: seq<Instruction>, from: nat, to: nat, i: nat)
    requires Tiles(buf, instrs, from, to) && i < |instrs| && instrs[i].spec == IfLe
    ensures instrs[i].start + 4 <= |buf| && Target(instrs[i]).Some?
    ensures var t := Target(instrs[i]).value;
            && t == End(instrs[i]) + ReadS24(buf, instrs[i].start + 1).value.0
            && (Successors(instrs, i).Err? <==> forall k :: 0 <= k < |instrs| ==> instrs[k].start != t)
            && (Successors(instrs, i).Err? ==> Successors(instrs, i).error == JumpTargetOutOfRange(t))
            && (Successors(instrs, i).Ok? ==>
                  exists k :: 0 <= k < |instrs| && instrs[k].start == t &&
                    Successors(instrs, i).value == (if i + 1 < |instrs| then [Fallthrough(i + 1)] else []) + [Branch(k)])
  {
    TilesAt(buf, instrs, from, to, i);
    assert buf[instrs[i].start] == 0x16;
    TargetOf(buf, instrs[i].start);
    Decoding(buf, instrs[i].start);
    var t := Target(instrs[i]).value;
    if IndexAt(instrs, t).Some? {
      var k := IndexAt(instrs, t).value;
      assert Successors(instrs, i).value == (if i + 1 < |instrs| then [Fallthrough(i + 1)] else []) + [Branch(k)];
    }
  }

  /** The instruction `[0x16, 0x05, 0x00, 0x00]` decodes to. */
  const Jump5 := Instruction(IfLe, 0, 4, [Field("jump_offset", Signed(5), 3)])

  /**
   * `[0x16, 0x05, 0x00, 0x00]` is one four-byte `ifle` with offset 5, whose
   * target is 4 + 5 = 9; no instruction starts there, so resolving it fails.
   */
  lemma Example()
    ensures Decode([0x16, 0x05, 0x00, 0x00]) == Complete([Jump5])
    ensures Target(Jump5) == Some(9)
    ensures Successors([Jump5], 0) == Err(JumpTargetOutOfRange(9))
  {
    var buf: seq<byte> := [0x16, 0x05, 0x00, 0x00];
    Decoding(buf, 0);
    assert ReadS24(buf, 1).value.0 == 5;
    assert DecodeAt(buf, 0) == Ok(Jump5);
    DecodeFromStep(buf, 0);
  }

  /** An `ifle` at offset 0 jumping by 2, over two `debugline`s; and a last `ifle` jumping to itself. */
  const Branching := Instruction(IfLe, 0, 4, [Field("jump_offset", Signed(2), 3)])
  const Line1 := Instruction(DebugLine, 4, 2, [Field("line", Unsigned(1), 1)])
  const Line2 := Instruction(DebugLine, 6, 2, [Field("line", Unsigned(2), 1)])
  const Loop := Instruction(IfLe, 8, 4, [Field("jump_offset", Signed(-4), 3)])

  /** The bytes of `Branching`, `Line1`, `Line2` and `Loop`. */
  const BranchingBytes: seq<byte> := [0x16, 2, 0, 0, 0xf0, 1, 0xf0, 2, 0x16, 0xfc, 0xff, 0xff]

  /** Each of the four instructions decodes where the previous one ends: the branches... */
  lemma BranchesOfExample()
    ensures DecodeAt(BranchingBytes, 0) == Ok(Branching)
    ensures DecodeAt(BranchingBytes, 8) == Ok(Loop)
  {
    var buf := BranchingBytes;
    Decoding(buf, 0);
    Decoding(buf, 8);
    assert ReadS24(buf, 1).value.0 == 2;
    assert ReadS24(buf, 9).value.0 == -4;
  }

  /** ... and the lines. */
  lemma LinesOfExample()
    ensures DecodeAt(BranchingBytes, 4) == Ok(Line1)
    ensures DecodeAt(BranchingBytes, 6) == Ok(Line2)
  {
    var buf := BranchingBytes;
    AS3DebugLine.Decoding(buf, 4);
    AS3DebugLine.Decoding(buf, 6);
    assert ReadU30(buf, 5) == Ok((1, 1));
    assert ReadU30(buf, 7) == Ok((2, 1));
  }

  /** The bytes decode to the four instructions, with offsets 2 and -4. */
  lemma DecodeExample()
    ensures Decode(BranchingBytes) == Complete([Branching, Line1, Line2, Loop])
  {
    var buf := BranchingBytes;
    TailOfExample();
    BranchesOfExample();
    LinesOfExample();
    DecodeFromStep(buf, 4);
    assert DecodeFrom(buf, 4) == Complete([Line1, Line2, Loop]);
    DecodeFromStep(buf, 0);
  }

  /** The last two instructions of the example decode from offset 6 to the end. */
  lemma TailOfExample()
    ensures DecodeFrom(BranchingBytes, 6) == Complete([Line2, Loop])
  {
    var buf := BranchingBytes;
    BranchesOfExample();
    LinesOfExample();
    assert DecodeFrom(buf, 12) == Complete([]);
    DecodeFromStep(buf, 8);
    assert DecodeFrom(buf, 8) == Complete([Loop]);
    DecodeFromStep(buf, 6);
  }

  /** The example's instructions that start at the two targets. */
  lemma TargetsOfExample()
    ensures Target(Branching) == Some(6) && Target(Loop) == Some(8)
    ensures IndexAt([Branching, Line1, Line2, Loop], 6) == Some(2)
    ensures IndexAt([Branching, Line1, Line2, Loop], 8) == Some(3)
  {
    var instrs := [Branching, Line1, Line2, Loop];
    assert IndexAt(instrs[3..], 8) == Some(0);
    assert IndexAt(instrs[2..], 8) == Some(1);
    assert IndexAt(instrs[1..], 8) == Some(2);
    assert IndexAt(instrs[2..], 6) == Some(0);
    assert IndexAt(instrs[1..], 6) == Some(1);
  }

  /**
   * The first `ifle` falls through to the next instruction and branches to
   * offset 4 + 2 = 6; a `debugline` falls through; the last `ifle` has no next
   * instruction and branches to its own start, 12 - 4 = 8.
   */
  lemma GraphExample()
    ensures Graph([Branching, Line1, Line2, Loop]) ==
              [Ok([Fallthrough(1), Branch(2)]), Ok([Fallthrough(2)]), Ok([Fallthrough(3)]), Ok([Branch(3)])]
  {
    var instrs := [Branching, Line1, Line2, Loop];
    TargetsOfExample();
    assert [Fallthrough(1)] + [Branch(2)] == [Fallthrough(1), Branch(2)];
    assert [] + [Branch(3)] == [Branch(3)];
  }

  /**
   * Entered with four values on the stack, the example pops two at each `ifle`
   * and none at each `debugline`, ending empty; entered with one, the first
   * `ifle` already underflows.
   */
  lemma DepthOfExample()
    ensures Depth([Branching, Line1, Line2, Loop], 4) == Some(0)
    ensures Depth([Branching, Line1, Line2, Loop], 1) == None
  {
    var instrs := [Branching, Line1, Line2, Loop];
    assert instrs[1..] == [Line1, Line2, Loop];
    assert instrs[1..][1..] == [Line2, Loop];
    assert instrs[1..][1..][1..] == [Loop];
    DepthStep(instrs, 4);
    DepthStep([Line1, Line2, Loop], 2);
    DepthStep([Line2, Loop], 2);
    DepthStep([Loop], 2);
  }
}
