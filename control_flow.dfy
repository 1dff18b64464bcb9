/**
 * The control-flow resolver: absolute jump targets and the successor edges of
 * each decoded instruction. A control-transfer instruction's target is its end
 * offset plus its signed `jump_offset`; the target must be the start of a
 * decoded instruction. A conditional branch has two successors (the next
 * instruction and the target), an unconditional jump only the target, any
 * other instruction only the next one.
 */
module ControlFlow {
  import opened Common
  import opened Registry
  import opened Decoder

  /** A successor edge, naming the successor by its index in the instruction list. */
  datatype Edge = Fallthrough(to: nat) | Branch(to: nat)

  /** The absolute target of a control-transfer instruction: end offset plus `jump_offset`. */
  function Target(ins: Instruction): Option<int> {
    if ins.spec.category != ControlTransfer then None
    else
      match Get(ins.fields, "jump_offset")
      case Some(Signed(d)) => Some(End(ins) + d)
      case _ => None
  }

  /** Control may continue with the next instruction: anything but an unconditional jump. */
  predicate FallsThrough(spec: OpcodeSpec) {
    spec.category != ControlTransfer || spec.conditional
  }

  /** The index of the first instruction that starts at `offset`, if any does. */
  function IndexAt(instrs: seq<Instruction>, offset: int): (r: Option<nat>)
    ensures r.Some? ==> r.value < |instrs| && instrs[r.value].start == offset
    ensures r.Some? ==> forall k :: 0 <= k < r.value ==> instrs[k].start != offset
    ensures r.None? <==> forall k :: 0 <= k < |instrs| ==> instrs[k].start != offset
  {
    if instrs == [] then None
    else if instrs[0].start == offset then Some(0)
    else
      match IndexAt(instrs[1..], offset)
      case None =>
        assert forall k :: 1 <= k < |instrs| ==> instrs[k] == instrs[1..][k - 1];
        None
      case Some(j) =>
        assert forall k :: 1 <= k < |instrs| ==> instrs[k] == instrs[1..][k - 1];
        Some(j + 1)
  }

  /**
   * The successors of instruction `i`: the next instruction when control can
   * fall through and there is one, then the instruction at the target of a
   * control transfer. Resolution fails, with `JumpTargetOutOfRange`, exactly
   * when the target is not the start of any instruction in the list.
   */
  function Successors(instrs: seq<Instruction>, i: nat): (r: Result<seq<Edge>>)
    requires i < |instrs|
    ensures r.Err? <==>
              Target(instrs[i]).Some? && forall k :: 0 <= k < |instrs| ==> instrs[k].start != Target(instrs[i]).value
    ensures r.Err? ==> r.error == JumpTargetOutOfRange(Target(instrs[i]).value)
    ensures r.Ok? ==> forall e :: e in r.value ==> e.to < |instrs|
    ensures r.Ok? ==> (Fallthrough(i + 1) in r.value <==> FallsThrough(instrs[i].spec) && i + 1 < |instrs|)
    ensures r.Ok? ==> forall e :: e in r.value && e.Fallthrough? ==> e.to == i + 1
    ensures r.Ok? ==> (Target(instrs[i]).Some? <==> exists e :: e in r.value && e.Branch?)
    ensures r.Ok? ==> forall e :: e in r.value && e.Branch? ==> e.to < |instrs| && Target(instrs[i]) == Some(instrs[e.to].start)
  {
    var ins := instrs[i];
    var fall := if FallsThrough(ins.spec) && i + 1 < |instrs| then [Fallthrough(i + 1)] else [];
    match Target(ins)
    case None => Ok(fall)
    case Some(t) =>
      match IndexAt(instrs, t)
      case None => Err(JumpTargetOutOfRange(t))
      case Some(k) => Ok(fall + [Branch(k)])
  }

  /**
   * The control-flow graph: one entry per instruction, each its own
   * resolution, so a branch that fails to resolve leaves the others' entries
   * intact.
   */
  function Graph(instrs: seq<Instruction>): seq<Result<seq<Edge>>> {
    seq(|instrs|, i requires 0 <= i < |instrs| => Successors(instrs, i))
  }

  /** Instructions that tile a range of bytes start at strictly increasing offsets. */
  lemma {:induction false} StartsIncrease(buf: seq<byte>, instrs: seq<Instruction>, from: nat, to: nat, i: nat, j: nat)
    requires Tiles(buf, instrs, from, to) && i < j < |instrs|
    ensures instrs[i].start < instrs[j].start
    decreases j - i
  {
    TilesAt(buf, instrs, from, to, j - 1);
    if i < j - 1 {
      StartsIncrease(buf, instrs, from, to, i, j - 1);
    }
  }

  /** Under tiling, no two instructions share a start offset. */
  lemma UniqueStarts(buf: seq<byte>, instrs: seq<Instruction>, from: nat, to: nat, i: nat, j: nat)
    requires Tiles(buf, instrs, from, to) && i < |instrs| && j < |instrs|
    requires instrs[i].start == instrs[j].start
    ensures i == j
  {
    if i < j {
      StartsIncrease(buf, instrs, from, to, i, j);
    } else if j < i {
      StartsIncrease(buf, instrs, from, to, j, i);
    }
  }

  /**
   * For decoded instructions, a fallthrough edge leads to the instruction
   * that starts at the byte right after this one, and a branch edge to the
   * only instruction that starts at the target.
   */
  lemma EdgesOfTiling(buf: seq<byte>, instrs: seq<Instruction>, from: nat, to: nat, i: nat)
    requires Tiles(buf, instrs, from, to) && i < |instrs| && Successors(instrs, i).Ok?
    ensures forall e :: e in Successors(instrs, i).value && e.Fallthrough? ==>
              e.to < |instrs| && instrs[e.to].start == End(instrs[i])
    ensures forall e, k ::
              (e in Successors(instrs, i).value && e.Branch? && 0 <= k < |instrs| &&
               instrs[k].start == Target(instrs[i]).value) ==> k == e.to
  {
    var r := Successors(instrs, i);
    if i + 1 < |instrs| {
      TilesAt(buf, instrs, from, to, i);
    }
    forall e, k | e in r.value && e.Branch? && 0 <= k < |instrs| && instrs[k].start == Target(instrs[i]).value
      ensures k == e.to
    {
      UniqueStarts(buf, instrs, from, to, k, e.to);
    }
  }
}
