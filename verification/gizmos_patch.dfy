/**
 The transpiler the mod installs on the compiler-generated gizmo filter of
 Building_StorageUnitIOBase.GetGizmos: it looks for the 17-instruction
 fingerprint that loads the port's own map's buildings and replaces it with a
 call to the cross-map query.
 */
module GizmosPatch {
  import opened Instructions
  import opened Matcher
  import opened StreamRewriter

  /** The fingerprint searched for. */
  const TargetCodes: seq<OpCode> :=
    [Nop, Ldarg_0, Call, Ldfld, Ldfld, Ldsfld, Dup, Brtrue_S, Pop,
     Ldsfld, Ldftn, Newobj, Dup, Stsfld, Call, Call, Stloc_0]

  /** The transpiler: the rewrite loop run with the fingerprint above. With
      the fingerprint absent it returns its input unchanged and unpatched,
      which is the branch that logs the failure. */
  method Transpiler(instructions: seq<Instr>) returns (r: Outcome)
    ensures r == Rewrite(instructions, TargetCodes)
    ensures NoOccurrence(instructions, TargetCodes, 0, |instructions|) ==>
              r == Done(instructions, false)
    ensures r.Done? ==>
              (r.patched <==> exists s :: 0 <= s < |instructions| && OccursAt(instructions, s, TargetCodes))
    ensures r.IndexOutOfRange? ==>
              OccursAt(instructions, |instructions| - |TargetCodes|, TargetCodes)
  {
    RewriteOutcomeFacts(instructions, TargetCodes);
    r := RunPass(instructions, TargetCodes);
  }

  /** A body consisting of exactly the fingerprint makes the transpiler read
      one past the end: the span is matched, the cursor lands on |codes|, and
      the instruction there is requested. */
  lemma BareFingerprintFails(codes: seq<Instr>)
    requires Ops(codes) == TargetCodes
    ensures Rewrite(codes, TargetCodes) == IndexOutOfRange
  {
    WholeListOccurrenceFails(codes, TargetCodes);
  }

  /** Two fingerprints back to back, followed by one more instruction: only
      the first is replaced. The second one's first instruction is emitted as
      the instruction after the first span and is never probed, so the whole
      second fingerprint survives verbatim. */
  lemma AdjacentFingerprintsOnlyFirstReplaced(a: seq<Instr>, b: seq<Instr>, x: Instr)
    requires Ops(a) == TargetCodes && Ops(b) == TargetCodes
    ensures Rewrite(a + b + [x], TargetCodes) == Done(Replacement + b + [x], true)
  {
    assert a + b + [x] == a + (b + [x]);
    FingerprintTailHasNoOccurrence(b, x);
    LeadingOccurrenceThenMiss(a, b + [x], TargetCodes);
    assert Replacement + (b + [x]) == Replacement + b + [x];
  }

  /** A fingerprint minus its first instruction, plus one more instruction,
      has the fingerprint's length but starts with `ldarg.0`, not `nop`. */
  lemma FingerprintTailHasNoOccurrence(b: seq<Instr>, x: Instr)
    requires Ops(b) == TargetCodes
    ensures NoOccurrence((b + [x])[1..], TargetCodes, 0, |b|)
  {
    var tail := (b + [x])[1..];
    forall s | 0 <= s < |b|
      ensures !OccursAt(tail, s, TargetCodes)
    {
      if s == 0 {
        assert tail[0] == b[1] && Ops(b)[1] == b[1].op;
      }
    }
  }
}
