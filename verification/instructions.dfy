/**
 The instruction model the patch works on: one unit of compiled CIL code is an
 operation code plus an operand. Pattern matching looks at operation codes
 only; operands travel through a rewrite untouched.
 */
module Instructions {

  /** Operation codes. The named ones are those the GetGizmos patch mentions;
      `Other` stands for the rest of the instruction set, which the matcher
      treats no differently from the named ones. */
  datatype OpCode =
    | Nop | Ldarg_0 | Call | Callvirt | Ldfld | Ldsfld | Dup | Brtrue_S | Pop
    | Ldftn | Newobj | Stsfld | Stloc_0 | Ret
    | Other(code: nat)

  /** An operand is opaque to the rewriter: it is only ever copied. */
  datatype Operand =
    | NoOperand
    | MethodRef(owner: string, name: string)
    | Token(value: int)

  /** An instruction: its opcode and operand. Harmony labels and exception
      block markers are not part of the model. */
  datatype Instr = Instr(op: OpCode, operand: Operand)

  /** The operation codes of a list of instructions, position by position. */
  function Ops(codes: seq<Instr>): seq<OpCode>
  {
    seq(|codes|, k requires 0 <= k < |codes| => codes[k].op)
  }
}
