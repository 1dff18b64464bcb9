/**
 * The opcode registry: one immutable specification record per opcode, keyed by
 * its opcode byte. The table holds the three opcodes of this model:
 * callsupervoid (0x4e), debugline (0xf0) and ifle (0x16).
 */
module Registry {
  import opened Common

  /** The constant-pool table a constant reference points into. */
  datatype RefKind = Multiname

  /** How one operand field is read from the stream. */
  datatype FieldKind =
    | U30                     // `vuint30`
    | S24                     // `int24`
    | ConstRef(ref: RefKind)  // `const_ref`: a u30 index into the pool named by `ref`

  datatype FieldSpec = FieldSpec(name: string, kind: FieldKind)

  /** A declared stack count: a fixed number, or left open by the opcode's author. */
  datatype StackCount = Fixed(count: nat) | Unresolved

  datatype Category = FunctionInvocation | Debug | ControlTransfer

  /** How the disassembler renders an opcode's parameters. */
  datatype Formatter =
    | ListValues            // the decoded field values, in declaration order
    | PropertyWithArgCount  // "<property> (<arg_count>)"

  datatype OpcodeSpec = OpcodeSpec(
    code: byte,
    mnemonic: string,
    layout: seq<FieldSpec>,
    consume: StackCount,
    produce: nat,
    conditional: bool,
    category: Category,
    formatter: Formatter)

  const CallSuperVoid := OpcodeSpec(
    0x4e, "callsupervoid",
    [FieldSpec("property", ConstRef(Multiname)), FieldSpec("arg_count", U30)],
    Unresolved, 0, false, FunctionInvocation, PropertyWithArgCount)

  const DebugLine := OpcodeSpec(
    0xf0, "debugline",
    [FieldSpec("line", U30)],
    Fixed(0), 0, false, Debug, ListValues)

  const IfLe := OpcodeSpec(
    0x16, "ifle",
    [FieldSpec("jump_offset", S24)],
    Fixed(2), 0, true, ControlTransfer, ListValues)

  /** The specifications in registration order. */
  const Specs: seq<OpcodeSpec> := [CallSuperVoid, DebugLine, IfLe]


  /** Adds one specification under its byte; a byte already taken is a duplicate. */
  function Register(table: map<byte, OpcodeSpec>, spec: OpcodeSpec): (r: Result<map<byte, OpcodeSpec>>)
    ensures r.Err? <==> spec.code in table
    ensures r.Err? ==> r.error == DuplicateOpcode(spec.code)
    ensures r.Ok? ==> r.value.Keys == table.Keys + {spec.code} && r.value[spec.code] == spec
    ensures r.Ok? ==> forall b :: b in table ==> r.value[b] == table[b]
  {
    if spec.code in table then Err(DuplicateOpcode(spec.code)) else Ok(table[spec.code := spec])
  }

  /** Registers `specs` one after another, stopping at the first duplicate. */
  function RegisterAll(table: map<byte, OpcodeSpec>, specs: seq<OpcodeSpec>): Result<map<byte, OpcodeSpec>>
    decreases |specs|
  {
    if specs == [] then Ok(table)
    else
      match Register(table, specs[0])
      case Err(e) => Err(e)
      case Ok(t) => RegisterAll(t, specs[1..])
  }

  /** The registration pass over `Specs`, starting from an empty registry, files each under its byte. */
  lemma RegisterSpecs()
    ensures RegisterAll(map[], Specs) == Ok(map[0x4e := CallSuperVoid, 0xf0 := DebugLine, 0x16 := IfLe])
  {
    var t1 := map[CallSuperVoid.code := CallSuperVoid];
    var t2 := t1[DebugLine.code := DebugLine];
    var t3 := t2[IfLe.code := IfLe];
    assert Specs[1..] == [DebugLine, IfLe] && Specs[1..][1..] == [IfLe];
    assert RegisterAll(map[], Specs) == RegisterAll(t1, [DebugLine, IfLe]);
    assert RegisterAll(t1, [DebugLine, IfLe]) == RegisterAll(t2, [IfLe]);
    assert RegisterAll(t2, [IfLe]) == Ok(t3);
    assert t3 == map[0x4e := CallSuperVoid, 0xf0 := DebugLine, 0x16 := IfLe];
  }

  /**
   * The registry: what the registration pass over `Specs` leaves. Its
   * contents are stated by `TableIsRegistered`.
   */
  const Table: map<byte, OpcodeSpec> := (RegisterSpecs(); RegisterAll(map[], Specs).value)

  /** No two specifications share a byte, and none takes a byte of `table`. */
  predicate FreshCodes(table: map<byte, OpcodeSpec>, specs: seq<OpcodeSpec>) {
    && (forall i :: 0 <= i < |specs| ==> specs[i].code !in table)
    && (forall i, j :: 0 <= i < j < |specs| ==> specs[i].code != specs[j].code)
  }

  /** Every entry is filed under its own opcode byte. */
  predicate KeyedByCode(table: map<byte, OpcodeSpec>) {
    forall b :: b in table ==> table[b].code == b
  }

  /**
   * Registration succeeds exactly when the bytes are fresh and pairwise
   * distinct; then every specification is found under its own byte and the
   * table keeps that property.
   */
  lemma {:induction false} RegisterAllSucceeds(table: map<byte, OpcodeSpec>, specs: seq<OpcodeSpec>)
    ensures RegisterAll(table, specs).Ok? <==> FreshCodes(table, specs)
    ensures RegisterAll(table, specs).Ok? ==>
              && (forall b :: b in table ==>
                    b in RegisterAll(table, specs).value && RegisterAll(table, specs).value[b] == table[b])
              && (forall i :: 0 <= i < |specs| ==>
                    specs[i].code in RegisterAll(table, specs).value
                    && RegisterAll(table, specs).value[specs[i].code] == specs[i])
    ensures RegisterAll(table, specs).Ok? && KeyedByCode(table) ==>
              KeyedByCode(RegisterAll(table, specs).value)
    decreases |specs|
  {
    if specs != [] {
      var head, tail := specs[0], specs[1..];
      if head.code in table {
        assert !FreshCodes(table, specs);
      } else {
        var t := table[head.code := head];
        RegisterAllSucceeds(t, tail);
        if FreshCodes(table, specs) {
          assert FreshCodes(t, tail) by {
            forall i | 0 <= i < |tail| ensures tail[i].code !in t {
              assert tail[i] == specs[i + 1];
            }
            forall i, j | 0 <= i < j < |tail| ensures tail[i].code != tail[j].code {
              assert tail[i] == specs[i + 1] && tail[j] == specs[j + 1];
            }
          }
        } else if FreshCodes(t, tail) {
          forall i | 0 <= i < |specs| ensures specs[i].code !in table {
            if i > 0 { assert specs[i] == tail[i - 1]; }
          }
          forall i, j | 0 <= i < j < |specs| ensures specs[i].code != specs[j].code {
            assert specs[j] == tail[j - 1];
            if i > 0 { assert specs[i] == tail[i - 1]; }
          }
          assert false;
        }
        if RegisterAll(table, specs).Ok? {
          forall i | 0 <= i < |specs|
            ensures specs[i].code in RegisterAll(table, specs).value
                    && RegisterAll(table, specs).value[specs[i].code] == specs[i]
          {
            if i > 0 { assert specs[i] == tail[i - 1]; }
          }
        }
      }
    }
  }

  /**
   * The registration pass over the three specifications succeeds, yields
   * `Table`, and files each specification under its own byte.
   */
  lemma TableIsRegistered()
    ensures RegisterAll(map[], Specs) == Ok(Table)
    ensures Table == map[0x4e := CallSuperVoid, 0xf0 := DebugLine, 0x16 := IfLe]
    ensures Table.Keys == {0x4e, 0xf0, 0x16}
    ensures KeyedByCode(Table)
  {
    RegisterSpecs();
    RegisterAllSucceeds(map[], Specs);
  }

  /** `lookup`: the specification filed under `b`, or `UnknownOpcode` when nothing is. */
  function Lookup(b: byte): (r: Result<OpcodeSpec>)
    ensures r.Ok? <==> b in Table
    ensures r.Ok? ==> r.value == Table[b] && r.value.code == b
    ensures r.Err? ==> r.error == UnknownOpcode(b)
  {
    TableIsRegistered();
    if b in Table then Ok(Table[b]) else Err(UnknownOpcode(b))
  }

  /** The three bytes name the three specifications; any other byte is unknown. */
  lemma LookupTable(b: byte)
    ensures Lookup(0x4e) == Ok(CallSuperVoid)
    ensures Lookup(0xf0) == Ok(DebugLine)
    ensures Lookup(0x16) == Ok(IfLe)
    ensures b !in {0x4e, 0xf0, 0x16} ==> Lookup(b) == Err(UnknownOpcode(b))
  {
    TableIsRegistered();
  }
}
