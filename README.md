# AVM2 opcode core of furnace-avm2, modelled in Dafny

furnace-avm2 describes each ActionScript Virtual Machine 2 opcode with a short declarative Ruby class. The class gives:

- the opcode byte (`instruction`);
- the ordered operand layout (`body`);
- the stack counts (`consume`, `produce`);
- for branches, whether they are conditional (`conditional`);
- optionally how the parameters are rendered.

This project models three of those classes, and the machinery that gives them meaning, as pure Dafny definitions:

- `callsupervoid`, opcode 0x4e: a multiname constant-pool reference `property`, then a u30 `arg_count`. It pushes nothing. Its pop count is left open.
- `debugline`, opcode 0xf0: one u30 `line`. It is stack-neutral.
- `ifle`, opcode 0x16: one signed 24-bit `jump_offset`. It is a conditional control transfer that pops two values and pushes none.

Modules:

- `Common`: bytes (`byte`, a newtype over 0..255), `Option`, `Result` and the decoder's error kinds.
- `FieldReaders`: the two primitive readers of section 4.1 ("Primitive data types") of the AVM2 Overview.
  - `u30` (`vuint30`): 7 payload bits per byte, least significant group first. A set high bit means another byte follows. It takes 1 to 5 bytes, and the value must be below 2^30.
  - `s24` (`int24`): three bytes, little-endian, two's complement.
  - Both readers have encoders, and their round trips are proved.
- `Registry`: the `OpcodeSpec` record; the three specs as static data; registration, which rejects a duplicate byte; and the byte-keyed table that registration builds.
- `Decoder`: reads an opcode byte, looks it up, then applies the field readers in declared order. A method body decodes into a gapless list of instructions, each carrying its start offset and length. On failure, decoding stops and returns the partial list, the error and the failing offset.
- `Encoder`: assembles operand lists back to bytes. It proves that decoding an assembled program gives the program back, and that decoding what follows it starts right after it.
- `ControlFlow`: the absolute target of a control transfer is its end offset plus `jump_offset`. The target must be the start of a decoded instruction. A conditional branch has a fallthrough edge and a branch edge.
- `StackEffect`: the declared pop/push counts, with an open count kept open.
- `Disassembler`: parameter rendering. Any other instruction's parameters are taken to be the list of its field values; `debugline` declares exactly that, and the base-class rendering is not part of this model. `callsupervoid` renders as "<property> (<arg_count>)", and the text can be split back into its two parts.
- `AS3CallSuperVoid`, `AS3DebugLine`, `AS3IfLe`: one module per opcode class, each stating what its declarations mean for decoding, stack effect, control flow and rendering.

The constant pool is an outside collaborator. It is the parameter `Pool`, a function from an (index, kind) reference to the text it renders as.

## Model

| member | source | states |
|---|---|---|
| Registry.Register | lib/avm2/abc/opcodes/function_invocation/as3_callsupervoid.rb:3 | registering a spec fails with `DuplicateOpcode` exactly when its byte is already taken; otherwise the table gains that byte, mapped to the spec, and keeps every earlier entry |
| Registry.RegisterSpecs | lib/avm2/abc/opcodes/function_invocation/as3_callsupervoid.rb:3 | registering the three specs into an empty table succeeds and gives exactly 0x4e ↦ callsupervoid, 0xf0 ↦ debugline, 0x16 ↦ ifle |
| Registry.RegisterAll | lib/avm2/abc/opcodes/function_invocation/as3_callsupervoid.rb:3 | the registration pass behind each class's `instruction` line: registers the specs in order and stops at the first duplicate byte; stated by Registry.RegisterAllSucceeds and Registry.RegisterSpecs |
| Registry.RegisterAllSucceeds | lib/furnace-avm2/abc/opcodes/debug/as3_debugline.rb:3 | registering a list succeeds exactly when its bytes are pairwise distinct and new to the table; the result keeps every earlier entry and files each spec under its own byte, and a table keyed by code stays keyed by code |
| Registry.TableIsRegistered | lib/avm2/abc/opcodes/control_transfer/as3_ifle.rb:3 | the table is what registration produced: exactly the keys 0x4e, 0xf0 and 0x16, each keyed by its own byte |
| Registry.Lookup | lib/avm2/abc/opcodes/function_invocation/as3_callsupervoid.rb:3 | looking up a byte succeeds exactly when it is registered, and returns the spec whose code is that byte; otherwise it fails with `UnknownOpcode` of that byte |
| Registry.LookupTable | lib/avm2/abc/opcodes/control_transfer/as3_ifle.rb:3 | the three bytes look up to their three specs, and every other byte is unknown |
| AS3CallSuperVoid.Registered | lib/avm2/abc/opcodes/function_invocation/as3_callsupervoid.rb:3 | 0x4e looks up to `callsupervoid`, and no other registered byte has that mnemonic |
| AS3CallSuperVoid.Decoding | lib/avm2/abc/opcodes/function_invocation/as3_callsupervoid.rb:5-8 | after 0x4e come the u30 `property` index, tagged multiname, then the u30 `arg_count` read where the index ends. The length is 1 plus both widths, 3 to 11 bytes. Decoding fails with `InvalidVarint` exactly when either u30 fails |
| AS3CallSuperVoid.ReadOperands | lib/avm2/abc/opcodes/function_invocation/as3_callsupervoid.rb:5-8 | the layout's field readers give the two fields in declared order, each with its width, and fail exactly when one of the two u30 reads fails |
| AS3CallSuperVoid.Example | lib/avm2/abc/opcodes/function_invocation/as3_callsupervoid.rb:5-8 | `[0x4e, 0x03, 0x02]` decodes completely to one instruction: property (3, multiname), arg_count 2, length 3 |
| FieldReaders.U30RoundTrip | lib/avm2/abc/opcodes/function_invocation/as3_callsupervoid.rb:7 | for every n below 2^30, wherever its minimal encoding stands, reading a u30 there gives n and consumes exactly the encoding's bytes |
| FieldReaders.U30ReadsEncoding | lib/avm2/abc/opcodes/function_invocation/as3_callsupervoid.rb:7 | reading a u30 at an offset holding the minimal encoding of n gives n and the encoding's width |
| FieldReaders.U30ReadIsNoShorterThanEncoding | lib/avm2/abc/opcodes/function_invocation/as3_callsupervoid.rb:7 | a successful u30 read consumes at least as many bytes as the minimal encoding of the value it read |
| FieldReaders.ReadU30 | lib/avm2/abc/opcodes/function_invocation/as3_callsupervoid.rb:7 | a u30 read gives a value below 2^30 and a width of 1 to 5 bytes inside the buffer; its only error is `InvalidVarint` |
| FieldReaders.EncodeU30 | lib/avm2/abc/opcodes/function_invocation/as3_callsupervoid.rb:7 | the encoding of a value below 2^30 is 1 to 5 bytes long |
| FieldReaders.EncodeVarintLength | lib/avm2/abc/opcodes/function_invocation/as3_callsupervoid.rb:7 | a value below 128^k encodes in at most k bytes |
| FieldReaders.ReadGroups | lib/avm2/abc/opcodes/function_invocation/as3_callsupervoid.rb:7 | reading at most `budget` 7-bit groups gives a width from 1 to the budget, inside the buffer, and a value below 128^width |
| FieldReaders.ReadGroupsOfEncoding | lib/avm2/abc/opcodes/function_invocation/as3_callsupervoid.rb:7 | the group reader reads back the encoding of any value that fits in the budget |
| FieldReaders.ReadGroupsSpells | lib/avm2/abc/opcodes/function_invocation/as3_callsupervoid.rb:7 | a successful group read stops at the first byte whose continuation bit is clear, every earlier byte it read has the bit set, and its value is the sum of each byte's 7-bit payload times 128 to the power of its position |
| FieldReaders.U30Spells | lib/avm2/abc/opcodes/function_invocation/as3_callsupervoid.rb:7 | a successful u30 read of any bytes consumes exactly up to the first byte with a clear continuation bit, and its value is the sum of the payloads, least significant group first |
| FieldReaders.GroupValueFirst | lib/avm2/abc/opcodes/function_invocation/as3_callsupervoid.rb:7 | the value of a group sequence is the first byte's payload plus 128 times the value of the groups after it |
| FieldReaders.ReadGroupsMinimal | lib/avm2/abc/opcodes/function_invocation/as3_callsupervoid.rb:7 | the group reader never reads fewer bytes than the minimal encoding of its value |
| AS3CallSuperVoid.StackCounts | lib/avm2/abc/opcodes/function_invocation/as3_callsupervoid.rb:10-11 | a decoded `callsupervoid` produces 0, its consume count is unresolved, and so its net stack change is unknown rather than any number |
| StackEffect.EffectOf | lib/avm2/abc/opcodes/control_transfer/as3_ifle.rb:9-10 | the consume/produce pair an instruction's spec declares; stated per opcode by AS3IfLe.StackCounts, AS3DebugLine.StackCounts and AS3CallSuperVoid.StackCounts |
| StackEffect.DepthStep | lib/avm2/abc/opcodes/control_transfer/as3_ifle.rb:9-10 | an instruction whose consume count is known and no more than the depth changes the depth by its net change, produce minus consume, and the rest of the run continues from there |
| StackEffect.DepthConcat | lib/avm2/abc/opcodes/control_transfer/as3_ifle.rb:9-10 | running two runs one after the other: the second starts at the depth the first ends at, and a failure in the first is a failure of the whole |
| AS3IfLe.DepthOfExample | lib/avm2/abc/opcodes/control_transfer/as3_ifle.rb:9-10 | the four-instruction example, entered with four values, ends with none, as each `ifle` pops two and each `debugline` none; entered with one value, it underflows |
| StackEffect.Depth | lib/avm2/abc/opcodes/function_invocation/as3_callsupervoid.rb:10 | a stack depth is computed over a run of instructions only if every consume count in the run is known, and none is computed when the first instruction pops more than the depth |
| AS3CallSuperVoid.Disassembly | lib/avm2/abc/opcodes/function_invocation/as3_callsupervoid.rb:13-15 | a decoded `callsupervoid` renders as the pool's text for (index, multiname), a space, then `arg_count` in decimal inside parentheses; splitting that text gives back the pool text and the count |
| Disassembler.ParametersOf | lib/avm2/abc/opcodes/function_invocation/as3_callsupervoid.rb:13-15 | the rendered parameters: for `callsupervoid`, the pool's text for the property, a space, then `arg_count` in parentheses; for `debugline` (as3_debugline.rb:9-11) the list of field values; stated by AS3CallSuperVoid.Disassembly and AS3DebugLine.ParametersAreLine |
| Disassembler.PropertyTextRoundTrip | lib/avm2/abc/opcodes/function_invocation/as3_callsupervoid.rb:13-15 | for any property text and count, the rendered "<text> (<count>)" splits back into exactly that text and count |
| Disassembler.DecimalString | lib/avm2/abc/opcodes/function_invocation/as3_callsupervoid.rb:14 | the decimal rendering of a count is non-empty, all digits, and has no leading zero |
| Disassembler.DecimalRoundTrip | lib/avm2/abc/opcodes/function_invocation/as3_callsupervoid.rb:14 | reading the decimal rendering of n gives n |
| Disassembler.DigitChar | lib/avm2/abc/opcodes/function_invocation/as3_callsupervoid.rb:14 | a digit below ten renders as the character at that position in "0123456789" |
| Disassembler.TrailingDigits | lib/avm2/abc/opcodes/function_invocation/as3_callsupervoid.rb:14 | gives the length of the longest all-digit suffix of a text |
| Disassembler.TrailingDigitsAppend | lib/avm2/abc/opcodes/function_invocation/as3_callsupervoid.rb:14 | appending digits to a text that does not end in a digit gives a text whose trailing digits are exactly those appended |
| AS3DebugLine.Registered | lib/furnace-avm2/abc/opcodes/debug/as3_debugline.rb:3 | 0xf0 looks up to `debugline`, and no other registered byte has that mnemonic |
| AS3DebugLine.Decoding | lib/furnace-avm2/abc/opcodes/debug/as3_debugline.rb:5-7 | after 0xf0 comes exactly one u30 `line`. The length is 1 plus its width, 2 to 6 bytes. Decoding fails with `InvalidVarint` exactly when that u30 fails |
| AS3DebugLine.UnterminatedLine | lib/furnace-avm2/abc/opcodes/debug/as3_debugline.rb:6 | after any assembled program, a `debugline` whose u30 runs off the buffer or still continues at its fifth byte stops decoding. The error is `InvalidVarint`, at the `debugline`'s offset, and the partial list is the program's instructions |
| FieldReaders.U30Fails | lib/furnace-avm2/abc/opcodes/debug/as3_debugline.rb:6 | a u30 read fails exactly when the buffer ends on a continuation byte, when five bytes all continue, or when the value reaches 2^30 |
| FieldReaders.ReadGroupsFails | lib/furnace-avm2/abc/opcodes/debug/as3_debugline.rb:6 | the group reader fails exactly when every byte within reach continues, whether the buffer or the budget runs out first |
| AS3DebugLine.ParametersAreLine | lib/furnace-avm2/abc/opcodes/debug/as3_debugline.rb:9-11 | the parameters of a decoded `debugline` are the one-element list holding its `line` |
| AS3DebugLine.StackCounts | lib/furnace-avm2/abc/opcodes/debug/as3_debugline.rb:13-14 | a decoded `debugline` consumes 0 and produces 0, so it is stack-neutral |
| StackEffect.DepthOfNeutral | lib/furnace-avm2/abc/opcodes/debug/as3_debugline.rb:13-14 | a run of stack-neutral instructions leaves every stack depth as it was |
| AS3IfLe.Registered | lib/avm2/abc/opcodes/control_transfer/as3_ifle.rb:2-3 | 0x16 looks up to `ifle`, a conditional control-transfer opcode, and no other registered byte has that mnemonic |
| AS3IfLe.Decoding | lib/avm2/abc/opcodes/control_transfer/as3_ifle.rb:5-7 | after 0x16 comes exactly one s24 `jump_offset`, so the instruction is 4 bytes long. Decoding fails with `TruncatedStream` exactly when fewer than three bytes follow the opcode |
| FieldReaders.ReadS24 | lib/avm2/abc/opcodes/control_transfer/as3_ifle.rb:6 | an s24 read fails with `TruncatedStream` exactly when fewer than three bytes remain; otherwise it gives a value in [-2^23, 2^23) and consumes 3 bytes |
| FieldReaders.EncodeS24 | lib/avm2/abc/opcodes/control_transfer/as3_ifle.rb:6 | every value in [-2^23, 2^23) encodes in exactly three bytes |
| FieldReaders.Unsigned24 | lib/avm2/abc/opcodes/control_transfer/as3_ifle.rb:6 | a signed 24-bit value maps to its two's-complement bit pattern, the value modulo 2^24 |
| FieldReaders.S24ReadsEncoding | lib/avm2/abc/opcodes/control_transfer/as3_ifle.rb:6 | reading an s24 at an offset holding the encoding of n gives n and width 3 |
| FieldReaders.S24RoundTrip | lib/avm2/abc/opcodes/control_transfer/as3_ifle.rb:6 | for every n in [-2^23, 2^23), wherever its three-byte encoding stands, reading an s24 there gives n |
| FieldReaders.S24Bijective | lib/avm2/abc/opcodes/control_transfer/as3_ifle.rb:6 | re-encoding the value read from any three bytes gives those same bytes, so the s24 reader loses nothing |
| AS3IfLe.StackCounts | lib/avm2/abc/opcodes/control_transfer/as3_ifle.rb:9-10 | a decoded `ifle` consumes 2 and produces 0, a net change of -2 |
| AS3IfLe.TargetOf | lib/avm2/abc/opcodes/control_transfer/as3_ifle.rb:12 | the target of a decoded `ifle` is its offset plus 4 plus its signed `jump_offset` |
| AS3IfLe.TwoSuccessors | lib/avm2/abc/opcodes/control_transfer/as3_ifle.rb:12 | among decoded instructions, an `ifle` with no instruction starting at its target is rejected with `JumpTargetOutOfRange` of that target. Otherwise its successors are the next instruction, if any, then the instruction at the target |
| AS3IfLe.Example | lib/avm2/abc/opcodes/control_transfer/as3_ifle.rb:12 | `[0x16, 0x05, 0x00, 0x00]` decodes to one 4-byte `ifle` with offset 5. Its target is 4 + 5 = 9, where no instruction starts, so resolving it fails with `JumpTargetOutOfRange(9)` |
| AS3IfLe.BranchesOfExample | lib/avm2/abc/opcodes/control_transfer/as3_ifle.rb:5-7 | in a four-instruction byte string, the `ifle` at 0 (offset 2) and the `ifle` at 8 (offset -4, bytes `fc ff ff`) decode as expected |
| AS3IfLe.LinesOfExample | lib/furnace-avm2/abc/opcodes/debug/as3_debugline.rb:5-7 | in the same byte string, the `debugline`s at 4 and 6 decode with lines 1 and 2 |
| AS3IfLe.TailOfExample | lib/avm2/abc/opcodes/control_transfer/as3_ifle.rb:5-7 | from offset 6, the example's bytes decode completely to its last `debugline` and the backward `ifle` |
| AS3IfLe.DecodeExample | lib/avm2/abc/opcodes/control_transfer/as3_ifle.rb:5-7 | the example's twelve bytes decode completely to its four instructions |
| AS3IfLe.TargetsOfExample | lib/avm2/abc/opcodes/control_transfer/as3_ifle.rb:12 | the two branches target offsets 6 and 8, which are the starts of instructions 2 and 3 |
| AS3IfLe.GraphExample | lib/avm2/abc/opcodes/control_transfer/as3_ifle.rb:12 | the first `ifle` has a fallthrough and a branch edge; each `debugline` falls through; the last `ifle`, with no next instruction, only branches to itself |
| ControlFlow.Target | lib/avm2/abc/opcodes/control_transfer/as3_ifle.rb:5-7 | the end offset plus the signed `jump_offset` of a control transfer, none otherwise; stated by AS3IfLe.TargetOf |
| ControlFlow.FallsThrough | lib/avm2/abc/opcodes/control_transfer/as3_ifle.rb:12 | what `conditional true` means: control may continue to the next instruction after anything but an unconditional control transfer; stated by ControlFlow.Successors and AS3IfLe.TwoSuccessors |
| ControlFlow.Graph | lib/avm2/abc/opcodes/control_transfer/as3_ifle.rb:12 | the successor graph: one entry per instruction, each that instruction's own resolution, so one unresolved branch leaves the other entries intact; stated by ControlFlow.Successors for each entry and by AS3IfLe.GraphExample for the example |
| ControlFlow.Successors | lib/avm2/abc/opcodes/control_transfer/as3_ifle.rb:12 | resolution fails with `JumpTargetOutOfRange` exactly when there is a target that no instruction starts at. Otherwise every edge names an instruction of the list. A fallthrough edge exists, to the next index, exactly when control can fall through and a next instruction exists. A branch edge exists exactly when there is a target, naming an instruction that starts there |
| ControlFlow.IndexAt | lib/avm2/abc/opcodes/control_transfer/as3_ifle.rb:12 | gives the first index whose instruction starts at the offset, and none exactly when no instruction starts there |
| ControlFlow.EdgesOfTiling | lib/avm2/abc/opcodes/control_transfer/as3_ifle.rb:12 | for decoded instructions, a fallthrough edge leads to the instruction starting right after this one ends, and a branch edge to the only instruction starting at the target |
| ControlFlow.StartsIncrease | lib/avm2/abc/opcodes/control_transfer/as3_ifle.rb:12 | decoded instructions start at strictly increasing offsets |
| ControlFlow.UniqueStarts | lib/avm2/abc/opcodes/control_transfer/as3_ifle.rb:12 | no two decoded instructions start at the same offset, so a branch target names one instruction |
| Decoder.ReadField | lib/avm2/abc/opcodes/control_transfer/as3_ifle.rb:6 | a field read gives a value of the declared kind under the declared name, at least one byte wide and inside the buffer. An s24 field fails exactly when fewer than three bytes remain, with `TruncatedStream`; a u30 field fails with `InvalidVarint` |
| Decoder.ReadFields | lib/avm2/abc/opcodes/function_invocation/as3_callsupervoid.rb:5-8 | the fields read follow the layout, name for name and kind for kind, in declared order, and fit in the buffer; the only errors are the two reader errors |
| Decoder.ReadFieldsCons | lib/avm2/abc/opcodes/function_invocation/as3_callsupervoid.rb:5-8 | helper: the fields of a layout are its first field, then the rest of the layout read from where the first field ends |
| Decoder.ReadFieldsStops | lib/avm2/abc/opcodes/function_invocation/as3_callsupervoid.rb:5-8 | helper: a layout whose first field fails to read fails with that field's error |
| Decoder.ReadFieldsStopsLater | lib/avm2/abc/opcodes/function_invocation/as3_callsupervoid.rb:5-8 | helper: a layout whose first field reads but whose later fields fail fails with the later fields' error |
| Decoder.ReadFieldsOne | lib/furnace-avm2/abc/opcodes/debug/as3_debugline.rb:5-7 | reading a one-field layout fails exactly when that field's reader fails, with its error, and otherwise gives the one-element list of that field |
| Decoder.ReadFieldsPair | lib/avm2/abc/opcodes/function_invocation/as3_callsupervoid.rb:5-8 | reading a two-field layout fails exactly when the first field fails or the second fails where the first ends, with that error; otherwise it gives the two fields in order, with the sum of their widths |
| Decoder.DecodeAtOfSpec | lib/avm2/abc/opcodes/function_invocation/as3_callsupervoid.rb:5-8 | at a registered byte, decoding fails exactly when reading that spec's layout after the byte fails, with the same error, and otherwise gives the instruction of that spec with those fields and length 1 plus their widths |
| Decoder.FieldsCons | lib/avm2/abc/opcodes/function_invocation/as3_callsupervoid.rb:5-8 | helper: the values and total width of a field list are the first field's, then the rest's |
| Decoder.FieldValues | lib/avm2/abc/opcodes/function_invocation/as3_callsupervoid.rb:5-8 | a field list has one value per field |
| Decoder.Get | lib/furnace-avm2/abc/opcodes/debug/as3_debugline.rb:10 | a field is found by name exactly when some field has that name, and the value found is that field's |
| Decoder.DecodeAt | lib/avm2/abc/opcodes/function_invocation/as3_callsupervoid.rb:5-8 | a decoded instruction starts at the offset, is at least one byte long, and ends inside the buffer |
| Decoder.DecodeAtSpec | lib/avm2/abc/opcodes/function_invocation/as3_callsupervoid.rb:3-8 | a decoded instruction has the spec its first byte names, fields that follow that spec's layout, and length 1 plus the fields' widths; decoding fails with `UnknownOpcode` exactly when the byte is not registered |
| Decoder.TilesAt | lib/avm2/abc/opcodes/control_transfer/as3_ifle.rb:5-7 | in a gapless decoded list, the first instruction starts at the beginning, the last ends at the end, each one decodes at its own start, and each ends where the next starts |
| Decoder.DecodeFrom | lib/avm2/abc/opcodes/control_transfer/as3_ifle.rb:5-7 | decoding from an offset stops somewhere between that offset and the end of the buffer |
| Decoder.DecodeFromStep | lib/avm2/abc/opcodes/control_transfer/as3_ifle.rb:5-7 | helper: where an instruction decodes, decoding gives it, then whatever decoding from its end gives |
| Decoder.DecodeFromTiles | lib/avm2/abc/opcodes/control_transfer/as3_ifle.rb:5-7 | the instructions decoded from an offset tile the bytes up to where decoding stopped, and a failure is what decoding at the failing offset reports |
| Decoder.Decode | lib/furnace-avm2/abc/opcodes/debug/as3_debugline.rb:5-7 | a complete decode tiles the whole buffer; a partial one tiles the bytes before the failing offset, and its error is what decoding at that offset reports |
| Encoder.EncodeOperand | lib/avm2/abc/opcodes/function_invocation/as3_callsupervoid.rb:5-8 | every operand of its field's kind encodes to at least one byte |
| Encoder.EncodeOp | lib/avm2/abc/opcodes/function_invocation/as3_callsupervoid.rb:5-8 | an instruction's bytes start with its opcode byte |
| Encoder.ReadFieldOfEncoding | lib/avm2/abc/opcodes/function_invocation/as3_callsupervoid.rb:5-8 | a field reader reads back an operand from that operand's encoding, with the encoding's width |
| Encoder.ReadFieldsOfOperands | lib/avm2/abc/opcodes/function_invocation/as3_callsupervoid.rb:5-8 | a layout's field readers read back operands that stand one after another in their encodings, with the total width of those encodings |
| Encoder.ReadFieldsOfOperandsStep | lib/avm2/abc/opcodes/function_invocation/as3_callsupervoid.rb:5-8 | one step of the above: the first operand's field, then the fields already read after it |
| Encoder.FirstField | lib/avm2/abc/opcodes/function_invocation/as3_callsupervoid.rb:5-8 | the first operand of an encoded list reads back as its layout's first field |
| Encoder.ReadFieldsOfEncoding | lib/avm2/abc/opcodes/function_invocation/as3_callsupervoid.rb:5-8 | the field readers read back every operand from the encoding of the operand list |
| Encoder.EncodeOperandsCons | lib/avm2/abc/opcodes/function_invocation/as3_callsupervoid.rb:5-8 | helper: the bytes of an operand list are the first operand's bytes, then the rest's |
| Encoder.FitLayoutTail | lib/avm2/abc/opcodes/function_invocation/as3_callsupervoid.rb:5-8 | helper: the operands after the first still fit the rest of the layout |
| Encoder.OperandsAtOfEncoding | lib/avm2/abc/opcodes/function_invocation/as3_callsupervoid.rb:5-8 | where an operand list's encoding stands, each operand's encoding stands right after the previous one |
| Encoder.DecodeAtOfEncoding | lib/avm2/abc/opcodes/function_invocation/as3_callsupervoid.rb:5-8 | decoding the bytes of one instruction, wherever they stand, gives an instruction with that opcode's spec and the same operands, as long as its bytes |
| Encoder.AssembleCons | lib/avm2/abc/opcodes/control_transfer/as3_ifle.rb:5-7 | helper: a program's bytes are its first instruction's bytes, then the rest's |
| Encoder.YieldsCons | lib/avm2/abc/opcodes/control_transfer/as3_ifle.rb:5-7 | helper: a decode that gives one matching instruction and then a decode yielding the rest yields the whole program |
| Encoder.DecodesAsIntro | lib/avm2/abc/opcodes/control_transfer/as3_ifle.rb:5-7 | helper: a matching instruction followed by the rest decoding as the rest of the program decodes as the whole program |
| Encoder.DecodesAsAssembly | lib/avm2/abc/opcodes/control_transfer/as3_ifle.rb:5-7 | wherever an assembled program stands, it decodes instruction by instruction back to the program, ending right after its bytes |
| Encoder.DecodeFromOps | lib/avm2/abc/opcodes/control_transfer/as3_ifle.rb:5-7 | decoding from where a program decodes yields the program, then whatever decoding from its end gives |
| Encoder.DecodeOfAssemblyThen | lib/furnace-avm2/abc/opcodes/debug/as3_debugline.rb:5-7 | decoding an assembled program followed by any bytes gives the program's instructions first, then whatever the following bytes decode to |
| Encoder.UnknownAfterProgram | lib/avm2/abc/opcodes/function_invocation/as3_callsupervoid.rb:3 | after any assembled program, a byte no opcode is registered under stops decoding with `UnknownOpcode` of that byte, at the program's end, and the partial list is the program's instructions |
| Encoder.UnknownFirst | lib/avm2/abc/opcodes/function_invocation/as3_callsupervoid.rb:3 | a body starting with 0xff decodes to no instructions, failing with `UnknownOpcode(0xff)` at offset 0 |
| Encoder.DecodeOfAssembly | lib/avm2/abc/opcodes/control_transfer/as3_ifle.rb:5-7 | decoding an assembled program succeeds and gives back its instructions, in order, with their operands |
| FieldReaders.OccursIndex | lib/avm2/abc/opcodes/function_invocation/as3_callsupervoid.rb:5-8 | helper: where a byte string stands in a buffer, each of its bytes is the buffer's byte at the matching offset |
| FieldReaders.OccursOf | lib/avm2/abc/opcodes/function_invocation/as3_callsupervoid.rb:5-8 | helper: a byte string stands where the buffer holds its bytes one by one |
| FieldReaders.OccursBetween | lib/avm2/abc/opcodes/function_invocation/as3_callsupervoid.rb:5-8 | helper: a byte string stands in any buffer made of bytes before it, it, and bytes after it |
| FieldReaders.OccursWhole | lib/avm2/abc/opcodes/function_invocation/as3_callsupervoid.rb:5-8 | helper: a buffer stands in itself at offset 0 |
| FieldReaders.OccursSplit | lib/avm2/abc/opcodes/function_invocation/as3_callsupervoid.rb:5-8 | helper: where two byte strings stand together, the first stands there and the second right after it |
| FieldReaders.BytesOfTriple | lib/avm2/abc/opcodes/control_transfer/as3_ifle.rb:6 | a 24-bit number is its three bytes recombined, low byte first |
| FieldReaders.TripleOfBytes | lib/avm2/abc/opcodes/control_transfer/as3_ifle.rb:6 | three bytes combined low byte first split back into the same three bytes |

## Left out

- Constant-pool resolution: the rendering of `body.property` is the abstract `Pool` function, and decoding never consults the pool or checks the index.
- A number for `callsupervoid`'s pop count: the source leaves it as an explicit TODO, so it is `Unresolved` and every computation that needs it says so.
- The Ruby class machinery (`instruction`, `body`, `consume`, `produce`, `conditional` as class-level registration) and the `Opcode` and `ControlTransferOpcode` base classes: they are not part of this model, and their effect is given as the static `OpcodeSpec` data. The field readers follow section 4.1 of the AVM2 Overview because the reader code is not part of this model either.
- `conditional` for `callsupervoid` and `debugline` is taken to be false. Neither class declares it, and the `Opcode` base class that would supply a default is not part of this model.
- The split between the `AVM2::ABC` and `Furnace::AVM2::ABC` namespaces, and the difference between `parameters` and `disassemble_parameters`: both are packaging. `debugline`'s `parameters` is modelled as the list of its field values, which is `[line]`.
- The textual form of the default parameter rendering is not modelled: the base class that supplies it is not part of this model, and the disassembler gives the list of values itself.
- Other opcodes, multi-way dispatch such as `lookupswitch`, parsing of the surrounding ABC file, and command-line output.
- Concurrent reads of the registry: the table is an immutable value here.
- Bytes are the newtype `byte` over 0..255 rather than bit-vectors. `Payload` and `Continues` are the arithmetic forms of the low-7-bit mask and the high-bit test.
- The failing offset of a partial decode is the start of the instruction that failed, not the byte inside it where the field reader stopped.
- A control-transfer instruction that is the last in the list has no fallthrough edge, since there is no next instruction to name.
- StackEffect.Depth: its own contract states only when no depth is computed (an open consume count, or an underflow at the first instruction); the depth itself is stated by `DepthStep` and `DepthConcat`, not by a separate simulation of the stack.
