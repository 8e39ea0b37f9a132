/**
 The rewrite the transpiler evidently intends: replace each matched span
 wholesale and resume probing at the instruction right after it. Unlike the
 loop as written, it never reads past the end of the list and it does not
 skip the instruction that follows a span, so back-to-back fingerprints are
 all replaced.
 */
module CorrectedRewriter {
  import opened Instructions
  import opened Matcher
  import opened StreamRewriter
  import opened GizmosPatch

  /** The corrected pass from cursor i. A non-empty pattern is needed for
      the cursor to advance on a hit. It always completes, and when nothing
      is patched its output is the rest of the list, unchanged. */
  function SplicePass(codes: seq<Instr>, pattern: seq<OpCode>, i: nat): (r: Outcome)
    requires |pattern| > 0
    requires i <= |codes|
    ensures r.Done?
    ensures !r.patched ==> r.output == codes[i..]
    decreases |codes| - i
  {
    if i == |codes| then Done([], false)
    else if OccursAt(codes, i, pattern) then
      Prepend(Replacement, true, SplicePass(codes, pattern, i + |pattern|))
    else
      assert codes[i..] == [codes[i]] + codes[i + 1..];
      Prepend([codes[i]], false, SplicePass(codes, pattern, i + 1))
  }

  function CorrectedRewrite(codes: seq<Instr>, pattern: seq<OpCode>): Outcome
    requires |pattern| > 0
  {
    SplicePass(codes, pattern, 0)
  }

  /** The corrected pass over `prefix + rest`, started at the end of the
      prefix, is the corrected pass over `rest`. */
  lemma {:induction false} SplicePassShift(prefix: seq<Instr>, rest: seq<Instr>, pattern: seq<OpCode>, k: nat)
    requires |pattern| > 0
    requires k <= |rest|
    ensures SplicePass(prefix + rest, pattern, |prefix| + k) == SplicePass(rest, pattern, k)
    decreases |rest| - k
  {
    var codes := prefix + rest;
    if k < |rest| {
      OccursAtShift(prefix, rest, k, pattern);
      if OccursAt(rest, k, pattern) {
        SplicePassShift(prefix, rest, pattern, k + |pattern|);
      } else {
        assert codes[|prefix| + k] == rest[k];
        SplicePassShift(prefix, rest, pattern, k + 1);
      }
    }
  }

  /** The intended splice: a leading occurrence is replaced wholesale and
      probing resumes on the very next instruction. */
  lemma ConsumesLeadingOccurrence(a: seq<Instr>, rest: seq<Instr>, pattern: seq<OpCode>)
    requires |pattern| > 0
    requires Ops(a) == pattern
    ensures CorrectedRewrite(a + rest, pattern)
            == Prepend(Replacement, true, CorrectedRewrite(rest, pattern))
  {
    OccursAtLeading(a, rest, pattern);
    SplicePassShift(a, rest, pattern, 0);
  }

  /** A body that is exactly the fingerprint is replaced by the two
      replacement instructions, with no read past its end. */
  lemma BareFingerprintReplaced(codes: seq<Instr>)
    requires Ops(codes) == TargetCodes
    ensures CorrectedRewrite(codes, TargetCodes) == Done(Replacement, true)
  {
    ConsumesLeadingOccurrence(codes, [], TargetCodes);
    assert codes + [] == codes;
  }

  /** Two fingerprints back to back are both replaced. */
  lemma AdjacentFingerprintsBothReplaced(a: seq<Instr>, b: seq<Instr>, x: Instr)
    requires Ops(a) == TargetCodes && Ops(b) == TargetCodes
    ensures CorrectedRewrite(a + b + [x], TargetCodes)
            == Done(Replacement + Replacement + [x], true)
  {
    ConsumesLeadingOccurrence(a, b + [x], TargetCodes);
    ConsumesLeadingOccurrence(b, [x], TargetCodes);
    assert a + b + [x] == a + (b + [x]);
    assert !OccursAt([x], 0, TargetCodes);
    assert SplicePass([x], TargetCodes, 1) == Done([], false);
    assert CorrectedRewrite([x], TargetCodes) == Done([x], false);
    assert Replacement + (Replacement + [x]) == Replacement + Replacement + [x];
  }
}
