/** The C records of `src/bpf.rs` and the `bpf_filter!` builder. */
module Bpf {
  import opened Bytes

  /** One filter instruction: opcode, jump-if-true, jump-if-false, immediate. */
  datatype BpfInsn = BpfInsn(code: uint16, jt: uint8, jf: uint8, k: uint32)

  /** A filter program: `bf_len` and the instruction sequence `bf_insns`
      points at. */
  datatype BpfProgram = BpfProgram(bfLen: uint32, insns: seq<BpfInsn>)

  /** Statistics snapshot: packets received and dropped. */
  datatype BpfStat = BpfStat(recv: uint32, drop: uint32)

  /** One `{a, b, c, d}` literal tuple written in a `bpf_filter!` call. */
  type InsnTuple = (uint16, uint8, uint8, uint32)

  function Insn(t: InsnTuple): (i: BpfInsn)
    ensures (i.code, i.jt, i.jf, i.k) == t
  {
    BpfInsn(t.0, t.1, t.2, t.3)
  }

  /** The instructions of a program, one per tuple, in the order written. */
  function Instructions(ts: seq<InsnTuple>): (insns: seq<BpfInsn>)
    ensures |insns| == |ts|
    ensures forall i :: 0 <= i < |ts| ==> insns[i] == Insn(ts[i])
  {
    if ts == [] then [] else [Insn(ts[0])] + Instructions(ts[1..])
  }

  /** `bpf_filter!`: the macro's `+` repetition demands at least one tuple;
      `bf_len` is `instructions.len() as u32`, a truncating cast. */
  function BpfFilter(ts: seq<InsnTuple>): (p: BpfProgram)
    requires |ts| >= 1
    ensures |p.insns| == |ts|
    ensures p.bfLen == |ts| % 0x1_0000_0000
    ensures |ts| < 0x1_0000_0000 ==> p.bfLen == |ts| >= 1
  {
    BpfProgram(|ts| % 0x1_0000_0000, Instructions(ts))
  }

  /** The fields of each instruction, read back as tuples. */
  function Tuples(insns: seq<BpfInsn>): (ts: seq<InsnTuple>)
    ensures |ts| == |insns|
  {
    if insns == [] then [] else [(insns[0].code, insns[0].jt, insns[0].jf, insns[0].k)] + Tuples(insns[1..])
  }

  /** The built program holds exactly the tuples written, in order, with
      tuple {a, b, c, d} stored as code = a, jt = b, jf = c, k = d. */
  lemma {:induction false} FilterKeepsTuples(ts: seq<InsnTuple>)
    requires |ts| >= 1
    ensures Tuples(BpfFilter(ts).insns) == ts
  {
    TuplesOfInstructions(ts);
  }

  lemma {:induction false} TuplesOfInstructions(ts: seq<InsnTuple>)
    ensures Tuples(Instructions(ts)) == ts
  {
    if ts != [] {
      TuplesOfInstructions(ts[1..]);
      assert Instructions(ts)[1..] == Instructions(ts[1..]);
    }
  }

  /** Statistics compare by value: equal exactly when both counters are. */
  lemma StatEquality(a: BpfStat, b: BpfStat)
    ensures a == b <==> a.recv == b.recv && a.drop == b.drop
  {
  }
}
