/**
 * The stack-effect resolver: the declared consume/produce pair of each
 * instruction. A consume count the opcode's author left open stays open; the
 * resolver never invents a number for it.
 */
module StackEffect {
  import opened Common
  import opened Registry
  import opened Decoder

  /** How many operand-stack values an instruction pops and pushes. */
  datatype Effect = Effect(consume: StackCount, produce: nat)

  /** The effect an instruction's specification declares. */
  function EffectOf(ins: Instruction): Effect {
    Effect(ins.spec.consume, ins.spec.produce)
  }

  /**
   * The change in stack depth, when the consume count is known: produced
   * minus consumed.
   */
  function NetChange(e: Effect): (r: Option<int>)
    ensures r.None? <==> e.consume.Unresolved?
    ensures r.Some? ==> r.value + e.consume.count == e.produce
  {
    match e.consume
    case Unresolved => None
    case Fixed(c) => Some(e.produce - c)
  }

  /** Neither pops nor pushes. */
  predicate StackNeutral(e: Effect) {
    NetChange(e) == Some(0) && e.produce == 0
  }

  /**
   * The depth after running the instructions from depth `d`, or `None` when
   * an instruction's consume count is open or it would pop more than the
   * stack holds.
   */
  function Depth(instrs: seq<Instruction>, d: nat): (r: Option<nat>)
    ensures r.Some? ==> forall i :: 0 <= i < |instrs| ==> EffectOf(instrs[i]).consume.Fixed?
    ensures instrs != [] && EffectOf(instrs[0]).consume.Fixed? && EffectOf(instrs[0]).consume.count > d ==> r.None?
    decreases |instrs|
  {
    if instrs == [] then Some(d)
    else
      var e := EffectOf(instrs[0]);
      match e.consume
      case Unresolved => None
      case Fixed(c) =>
        if c > d then None
        else
          var r := Depth(instrs[1..], d - c + e.produce);
          assert r.Some? ==> forall i :: 1 <= i < |instrs| ==> instrs[i] == instrs[1..][i - 1];
          r
  }

  /**
   * One instruction whose pop count is known and available changes the depth
   * by its net change, and the rest run from there.
   */
  lemma DepthStep(instrs: seq<Instruction>, d: nat)
    requires instrs != [] && EffectOf(instrs[0]).consume.Fixed? && EffectOf(instrs[0]).consume.count <= d
    ensures NetChange(EffectOf(instrs[0])).Some?
    ensures d + NetChange(EffectOf(instrs[0])).value >= 0
    ensures Depth(instrs, d) == Depth(instrs[1..], d + NetChange(EffectOf(instrs[0])).value)
    ensures Depth([instrs[0]], d) == Some(d + NetChange(EffectOf(instrs[0])).value)
  {
    assert [instrs[0]][1..] == [];
  }

  /**
   * Running two runs of instructions one after the other: the second starts
   * from the depth the first ends at, and nothing runs past a failure.
   */
  lemma {:induction false} DepthConcat(a: seq<Instruction>, b: seq<Instruction>, d: nat)
    ensures Depth(a + b, d) == if Depth(a, d).None? then None else Depth(b, Depth(a, d).value)
    decreases |a|
  {
    if a == [] {
      assert a + b == b;
    } else {
      assert (a + b)[0] == a[0] && (a + b)[1..] == a[1..] + b;
      var e := EffectOf(a[0]);
      if e.consume.Fixed? && e.consume.count <= d {
        DepthConcat(a[1..], b, d - e.consume.count + e.produce);
      }
    }
  }

  /** Running stack-neutral instructions leaves the depth as it was. */
  lemma {:induction false} DepthOfNeutral(instrs: seq<Instruction>, d: nat)
    requires forall i :: 0 <= i < |instrs| ==> StackNeutral(EffectOf(instrs[i]))
    ensures Depth(instrs, d) == Some(d)
    decreases |instrs|
  {
    if instrs != [] {
      assert StackNeutral(EffectOf(instrs[0]));
      assert forall i :: 0 <= i < |instrs| - 1 ==> instrs[1..][i] == instrs[i + 1];
      DepthOfNeutral(instrs[1..], d);
    }
  }
}
