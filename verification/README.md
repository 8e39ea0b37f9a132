# Crossmap ports: the instruction-pattern transpiler

This project models, in Dafny, the one self-contained algorithm of the
crossmap-ports mod: the Harmony transpiler that rewrites the
compiler-generated gizmo filter of `Building_StorageUnitIOBase.GetGizmos`.
The filter normally lists only the I/O-capable storage on the port's own map.
The transpiler finds a fixed 17-opcode fingerprint in the filter's CIL body
and puts two instructions in its place: a call to the mod's cross-map query
`GetAllIOPortsAcrossMaps`, then `stloc.0`.

The model has five modules:

- `Instructions`: an instruction is an opcode plus an opaque operand
  (labels and exception-block markers are not modelled; see "Left out").
  `Other(code)` stands for every opcode that the patch does not name.
- `Matcher`: `MatchOpCodeSequence` follows the source loop step by step. It
  answers false without reading anything when the window starts below zero
  or runs past the end of the list (with the window's end computed without
  32-bit wrap-around; see "Left out"). It is proved equal to `OccursAt`, the
  recursive form of the comparison. `OccursAt` is in turn proved equal to
  `WindowMatches`, an offset-by-offset reference predicate, and to equality
  of the window's opcode list with the pattern.
- `StreamRewriter`: `Pass` is the transpiler's `for` loop as a recursive
  function, exactly as written. `RunPass` is the same loop as an imperative
  method and is proved to give the same outcome. The lemmas cover:
  - the output when no match is found;
  - the splice at the first occurrence;
  - the `patched` flag;
  - which matches the pass takes;
  - length accounting.
- `GizmosPatch`: the concrete 17-opcode fingerprint, the `Transpiler` itself,
  and two inputs on which the loop as written misbehaves.
- `CorrectedRewriter`: the evidently intended "replace the span and continue"
  pass, with the property that the loop as written lacks.

As the loop is written, after a hit at cursor `s` the cursor jumps to
`s + |pattern|`. The loop then emits the instruction there, which is the one
just **after** the matched span, and the `for` increment moves past it. That
instruction is therefore copied unchanged and never probed as a match start.
No instruction of the matched span is copied through. If the span
ends exactly at the end of the list, that read is out of range (the index
read is `|codes|`). The model returns the outcome `IndexOutOfRange` in that
case.

`patched` is returned as a boolean: `Done(output, patched)`. The source uses
it only to choose between the success and failure log lines. The input list
is copied before the loop and never changed. Dafny sequences are values, so
this holds by construction. C# `int` cursors are modelled as unbounded
integers. Inside the transpiler loop every cursor stays at most
`codes.Count`, and every window end computed at line 26 at most
`codes.Count + pattern.Count - 1`, which an instruction list never brings
near 2^31, so no overflow arises there. `MatchOpCodeSequence` is a public method whose start
index could be near the `int` limit; that case is listed under "Left out".

## Model

| member | source | states |
|---|---|---|
| Matcher.MatchOpCodeSequence | 1.6/Source/crossmap-ports/CrossmapPortsHarmony.cs:24-35 | answers false when the start is negative or the window runs past the end of the list, the end computed without wrap-around (no read happens); otherwise true exactly when the pattern occurs at the start index (`OccursAt`, which `OccursAtIffWindowMatches` equates with every offset of the window carrying the pattern's opcode) |
| Matcher.OccursAtIffWindowMatches | 1.6/Source/crossmap-ports/CrossmapPortsHarmony.cs:26-34 | the loop's opcode-by-opcode comparison succeeds exactly when the window is in bounds and every offset of it carries the pattern's opcode |
| Matcher.OccursAtLeading | 1.6/Source/crossmap-ports/CrossmapPortsHarmony.cs:24-35 | a list whose first instructions carry exactly the pattern's opcodes matches at index 0, whatever follows |
| Matcher.OccursAtIffWindowOpsEqual | 1.6/Source/crossmap-ports/CrossmapPortsHarmony.cs:26-34 | a match is exactly an in-bounds window whose opcode list equals the pattern; a window that ends exactly at the end of the list may match |
| Matcher.OccursAtIgnoresOperands | 1.6/Source/crossmap-ports/CrossmapPortsHarmony.cs:31 | two instruction lists with the same opcodes have the same matches, whatever their operands |
| StreamRewriter.UnpatchedPassCopies | 1.6/Source/crossmap-ports/CrossmapPortsHarmony.cs:81-95 | a pass that completes without patching has emitted the rest of the list from the cursor, unchanged |
| StreamRewriter.FailureMeansTrailingOccurrence | 1.6/Source/crossmap-ports/CrossmapPortsHarmony.cs:90-94 | a pass can fail only when the pattern occurs at the very end of the list, so the unconditional read after the span lands on index `|codes|` |
| StreamRewriter.PassShift | 1.6/Source/crossmap-ports/CrossmapPortsHarmony.cs:81-95 | the pass depends only on what lies at and after the cursor: run over `prefix + rest` from the end of the prefix, it gives the same outcome as over `rest` |
| StreamRewriter.LeadingOccurrenceSkipsNext | 1.6/Source/crossmap-ports/CrossmapPortsHarmony.cs:83-94 | a leading match is replaced by the two replacement instructions, the instruction right after it is copied unchanged without being probed, and the pass carries on after it |
| StreamRewriter.NoOccurrenceCopiesThrough | 1.6/Source/crossmap-ports/CrossmapPortsHarmony.cs:81-95 | with no match at or after the cursor, the pass copies the rest of the list verbatim (opcodes, operands, order) and does not patch |
| StreamRewriter.RewriteMissIsIdentity | 1.6/Source/crossmap-ports/CrossmapPortsHarmony.cs:81-99 | when the pattern occurs nowhere, the rewrite returns its input exactly and `patched` stays false, which selects the error log branch |
| StreamRewriter.SpliceAtFirstOccurrence | 1.6/Source/crossmap-ports/CrossmapPortsHarmony.cs:83-94 | up to the first match s, everything is copied. Then comes `[Callvirt GetAllIOPortsAcrossMaps, Stloc_0]` in place of `codes[s..s+|pattern|)`, then `codes[s+|pattern|]` unchanged. Probing resumes only after that instruction. If the span ends the list, the pass fails instead |
| StreamRewriter.LeadingOccurrenceThenMiss | 1.6/Source/crossmap-ports/CrossmapPortsHarmony.cs:81-94 | after a leading match, when nothing from the second instruction after the span on is an occurrence, all of the rest is copied verbatim behind the replacement. This includes a second occurrence that starts at the follower |
| StreamRewriter.WholeListOccurrenceFails | 1.6/Source/crossmap-ports/CrossmapPortsHarmony.cs:90-94 | a list that is exactly one occurrence of a non-empty pattern makes the pass read index `|codes|`, which is out of range |
| StreamRewriter.PatchedIffSomeOccurrence | 1.6/Source/crossmap-ports/CrossmapPortsHarmony.cs:77-97 | a completed rewrite sets `patched` exactly when the pattern occurs somewhere in the list; a failed rewrite implies an occurrence |
| StreamRewriter.MatchStartsAreOccurrences | 1.6/Source/crossmap-ports/CrossmapPortsHarmony.cs:81-83 | each match the pass takes is an in-bounds occurrence at or after the cursor |
| StreamRewriter.MatchStartsAreSpaced | 1.6/Source/crossmap-ports/CrossmapPortsHarmony.cs:81-94 | taken matches are listed left to right and never overlap (`starts[t] + |pattern| < starts[t+1]`), and the instruction just after a taken span is never a match start |
| StreamRewriter.OccurrencesAreCovered | 1.6/Source/crossmap-ports/CrossmapPortsHarmony.cs:81-94 | every occurrence the pass does not take lies inside a taken span or is the instruction just after one |
| StreamRewriter.PatchedIffMatchTaken | 1.6/Source/crossmap-ports/CrossmapPortsHarmony.cs:77-91 | on a completed pass, `patched` is true exactly when at least one match was taken |
| StreamRewriter.FailsIffLastSpanEndsAtEnd | 1.6/Source/crossmap-ports/CrossmapPortsHarmony.cs:90-94 | the pass fails exactly when the last match it takes is a span that ends at the end of the list |
| StreamRewriter.LengthAccounting | 1.6/Source/crossmap-ports/CrossmapPortsHarmony.cs:81-95 | with k matches taken, the output has `|codes| - k * (|pattern| - 2)` instructions |
| StreamRewriter.Pass | 1.6/Source/crossmap-ports/CrossmapPortsHarmony.cs:81-95 | no contract of its own: the `for` loop as written, as a recursion on the cursor (`StreamRewriter.Rewrite` runs it from cursor 0); `RunPass` and the `StreamRewriter` lemmas state its behaviour |
| StreamRewriter.RunPass | 1.6/Source/crossmap-ports/CrossmapPortsHarmony.cs:76-95 | the imperative loop (cursor, output list, `patched` flag, jump past the span, unconditional read) gives the same outcome as the recursive `Pass` from cursor 0, on every input |
| StreamRewriter.RewriteOutcomeFacts | 1.6/Source/crossmap-ports/CrossmapPortsHarmony.cs:77-99 | on a miss the rewrite returns its input unchanged and unpatched; on completion `patched` holds exactly when the pattern occurs; a failure means the pattern occurs at the end of the list |
| GizmosPatch.Transpiler | 1.6/Source/crossmap-ports/CrossmapPortsHarmony.cs:74-104 | the rewrite run with the 17-opcode fingerprint. On a miss its input is unchanged and `patched` is false; `patched` holds exactly when the fingerprint occurs; a failure happens only when the fingerprint ends the list |
| GizmosPatch.BareFingerprintFails | 1.6/Source/crossmap-ports/CrossmapPortsHarmony.cs:90-94 | a body that is exactly the fingerprint makes the transpiler index one past the end |
| GizmosPatch.AdjacentFingerprintsOnlyFirstReplaced | 1.6/Source/crossmap-ports/CrossmapPortsHarmony.cs:81-94 | with two fingerprints back to back and one more instruction, only the first fingerprint is replaced; the second survives verbatim |
| CorrectedRewriter.SplicePass | 1.6/Source/crossmap-ports/CrossmapPortsHarmony.cs:83-94 | the intended splice always completes, and when nothing is patched its output is the input unchanged |
| CorrectedRewriter.ConsumesLeadingOccurrence | 1.6/Source/crossmap-ports/CrossmapPortsHarmony.cs:83-90 | in the intended splice, a leading occurrence is replaced wholesale by the two replacement instructions and probing resumes on the next instruction |
| CorrectedRewriter.BareFingerprintReplaced | 1.6/Source/crossmap-ports/CrossmapPortsHarmony.cs:90-94 | in the intended splice, a body that is exactly the fingerprint becomes the two replacement instructions |
| CorrectedRewriter.AdjacentFingerprintsBothReplaced | 1.6/Source/crossmap-ports/CrossmapPortsHarmony.cs:81-94 | in the intended splice, two fingerprints back to back are both replaced |

## Left out

- `StaticConstructorOnStartupUtility_CallAll_Patch.Postfix` (late Harmony registration, lines 37-59): it is all reflection and host-library calls. Nothing in it is checkable without the host.
- `Building_ColdStorage_RegisterNewItem_Patch.Prefix` (lines 107-167): it is host domain logic over opaque host methods (stack absorption, despawn, spawn, container add), and its own comment says it does not work.
- `GetAllIOPortsAcrossMaps` (lines 66-72): a query over host objects. The model keeps only its method reference, as the operand of the emitted `callvirt`.
- `AccessTools.Method` resolution (line 86): the replacement method is a constant operand.
- `Log.Message` / `Log.Error`: side effects only. The choice between them is the returned `patched` flag.
- Lazy enumeration: the transpiler is a C# iterator, so instructions emitted before an out-of-range read have already been yielded. Harmony collects the whole sequence and the exception aborts the patch. So the model's failure outcome carries no partial output and no index: the index read is always `|codes|`, as `FailureMeansTrailingOccurrence` shows.
- Harmony's patch registration and installation (prefix, postfix, transpiler): they are library behaviour, not part of this source file.
- Matcher.MatchOpCodeSequence: the source computes `startIndex + pattern.Count` in unchecked 32-bit `int` arithmetic. With a non-empty pattern and `startIndex > int.MaxValue - pattern.Count` the sum wraps to a negative number, the guard lets it through, and the indexer throws `ArgumentOutOfRangeException`; the model computes the sum exactly and answers false there. The only caller, the transpiler loop (lines 81-83), passes `i < codes.Count`, so the wrap cannot happen on that path.
- Labels and exception blocks: Harmony's `CodeInstruction` also carries `labels` and `blocks` (exception-block markers), and `Instr` has neither. The two instructions built on a hit (lines 87-88) carry none, so a hit discards any label or block marker on the matched span; instructions passed through (line 94) are the same objects and keep theirs.

## Findings

| source | as written | input that shows it | evidently intended | confidence | as-written member | corrected member |
|---|---|---|---|---|---|---|
| 1.6/Source/crossmap-ports/CrossmapPortsHarmony.cs:90-94 | after a match the cursor jumps to the end of the span and `codes[i]` is read unconditionally; when the span ends the list, `i == codes.Count` and the read is out of range | a method body whose opcodes are exactly the 17-opcode fingerprint | emit the replacement and stop | not executed; the real target method has instructions after the fingerprint, so it is not affected | GizmosPatch.BareFingerprintFails | CorrectedRewriter.BareFingerprintReplaced |
| 1.6/Source/crossmap-ports/CrossmapPortsHarmony.cs:81-94 | the instruction after a matched span is emitted and then skipped by the `for` increment, so it is never probed | two fingerprints back to back, followed by one more instruction | both fingerprints replaced (all non-overlapping matches, left to right) | not executed; the real target holds one fingerprint | GizmosPatch.AdjacentFingerprintsOnlyFirstReplaced | CorrectedRewriter.AdjacentFingerprintsBothReplaced |

`GizmosPatch.Transpiler` and `StreamRewriter.Pass` model the code as written.
The corrected pass, `CorrectedRewriter.SplicePass`, stands beside them.
