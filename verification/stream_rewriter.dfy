/**
 The single left-to-right rewrite pass of the GetGizmos transpiler, exactly as
 its loop is written. At cursor i the pattern is probed; on a hit the fixed
 two-instruction replacement is emitted and the cursor jumps by the pattern's
 length. Either way the instruction under the cursor is then emitted and the
 cursor moves by one. After a hit that instruction is the one just past the
 matched span: it is copied unchanged and never probed. When the span ends at
 the very end of the list there is no such instruction, and the indexing
 fails.
 */
module StreamRewriter {
  import opened Instructions
  import opened Matcher

  /** What one pass produces: the emitted instructions and whether any match
      was taken, or the failure of reading the instruction at index |codes|,
      one past the end of the list. */
  datatype Outcome =
    | Done(output: seq<Instr>, patched: bool)
    | IndexOutOfRange

  /** The operand of the emitted call: the patch's own cross-map query. */
  const ReplacementMethod: Operand :=
    MethodRef("Building_StorageUnitIOBase_GetGizmos_Patch", "GetAllIOPortsAcrossMaps")

  /** What a matched span is replaced by: call the query, store its result
      in local 0. */
  const Replacement: seq<Instr> :=
    [Instr(Callvirt, ReplacementMethod), Instr(Stloc_0, NoOperand)]

  /** Instructions emitted before the rest of the pass; a failure in the rest
      of the pass is a failure of the whole. */
  function Prepend(prefix: seq<Instr>, hit: bool, rest: Outcome): Outcome
  {
    match rest
    case Done(out, p) => Done(prefix + out, hit || p)
    case IndexOutOfRange => rest
  }

  /** The pass from cursor i to the end of the list. */
  function Pass(codes: seq<Instr>, pattern: seq<OpCode>, i: nat): Outcome
    requires i <= |codes|
    decreases |codes| - i
  {
    if i == |codes| then Done([], false)
    else if OccursAt(codes, i, pattern) then
      var j := i + |pattern|;
      if j == |codes| then IndexOutOfRange
      else Prepend(Replacement + [codes[j]], true, Pass(codes, pattern, j + 1))
    else Prepend([codes[i]], false, Pass(codes, pattern, i + 1))
  }

  /** A pass that completes without patching has taken no match, so it has
      emitted the rest of the list from the cursor, unchanged. */
  lemma {:induction false} UnpatchedPassCopies(codes: seq<Instr>, pattern: seq<OpCode>, i: nat)
    requires i <= |codes|
    ensures Pass(codes, pattern, i).Done? && !Pass(codes, pattern, i).patched ==>
              Pass(codes, pattern, i).output == codes[i..]
    decreases |codes| - i
  {
    if i < |codes| && !OccursAt(codes, i, pattern) {
      UnpatchedPassCopies(codes, pattern, i + 1);
      assert codes[i..] == [codes[i]] + codes[i + 1..];
    }
  }

  /** The whole pass over a method body. */
  function Rewrite(codes: seq<Instr>, pattern: seq<OpCode>): Outcome
  {
    Pass(codes, pattern, 0)
  }

  /** The cursors at which the pass takes a match, in the order it takes
      them. The last one may be the span whose end is read out of range. */
  function MatchStarts(codes: seq<Instr>, pattern: seq<OpCode>, i: nat): seq<nat>
    requires i <= |codes|
    decreases |codes| - i
  {
    if i == |codes| then []
    else if OccursAt(codes, i, pattern) then
      var j := i + |pattern|;
      if j == |codes| then [i] else [i] + MatchStarts(codes, pattern, j + 1)
    else MatchStarts(codes, pattern, i + 1)
  }

  /** Index s lies inside one of the spans starting at `starts`, each span
      taken together with the instruction just after it. */
  predicate Covered(starts: seq<nat>, width: nat, s: int)
  {
    exists t :: 0 <= t < |starts| && starts[t] <= s <= starts[t] + width
  }

  function Last(starts: seq<nat>): nat
    requires |starts| > 0
  {
    starts[|starts| - 1]
  }

  /** Each start lies beyond the span that begins at the previous start and
      beyond the instruction just after that span. */
  predicate Spaced(starts: seq<nat>, width: nat)
  {
    forall t :: 0 <= t < |starts| - 1 ==> starts[t] + width < starts[t + 1]
  }

  /** The first occurrence of the pattern at or after `from`, or |codes| when
      there is none. */
  function FirstOccurrence(codes: seq<Instr>, pattern: seq<OpCode>, from: nat): (s: nat)
    requires from <= |codes|
    ensures from <= s <= |codes|
    ensures NoOccurrence(codes, pattern, from, s)
    ensures s < |codes| ==> OccursAt(codes, s, pattern)
    decreases |codes| - from
  {
    if from == |codes| || OccursAt(codes, from, pattern) then from
    else FirstOccurrence(codes, pattern, from + 1)
  }

  lemma PrependPrepend(a: seq<Instr>, p: bool, b: seq<Instr>, q: bool, r: Outcome)
    ensures Prepend(a, p, Prepend(b, q, r)) == Prepend(a + b, p || q, r)
  {
  }

  /** With no occurrence left, the rest of the list is copied verbatim
      (opcodes, operands and order) and nothing is patched. */
  lemma {:induction false} NoOccurrenceCopiesThrough(codes: seq<Instr>, pattern: seq<OpCode>, i: nat)
    requires i <= |codes|
    requires NoOccurrence(codes, pattern, i, |codes|)
    ensures Pass(codes, pattern, i) == Done(codes[i..], false)
    decreases |codes| - i
  {
    if i < |codes| {
      NoOccurrenceCopiesThrough(codes, pattern, i + 1);
    }
  }

  /** When the fingerprint is absent the rewrite hands back its input
      unchanged and reports that it did not patch. */
  lemma RewriteMissIsIdentity(codes: seq<Instr>, pattern: seq<OpCode>)
    requires NoOccurrence(codes, pattern, 0, |codes|)
    ensures Rewrite(codes, pattern) == Done(codes, false)
  {
    NoOccurrenceCopiesThrough(codes, pattern, 0);
  }

  /** The pass from i copies everything before the first occurrence s, emits
      the replacement instead of the span codes[s .. s+|pattern|), then emits
      codes[s+|pattern|] unchanged and resumes probing only after it. If the
      span reaches the end of the list, the pass fails instead. */
  lemma {:induction false} SpliceAtFirstOccurrence(codes: seq<Instr>, pattern: seq<OpCode>, i: nat, s: nat)
    requires i <= s < |codes|
    requires NoOccurrence(codes, pattern, i, s)
    requires OccursAt(codes, s, pattern)
    ensures s + |pattern| == |codes| ==>
              Pass(codes, pattern, i) == IndexOutOfRange
    ensures s + |pattern| < |codes| ==>
              Pass(codes, pattern, i)
              == Prepend(codes[i..s] + Replacement + [codes[s + |pattern|]], true,
                         Pass(codes, pattern, s + |pattern| + 1))
    decreases s - i
  {
    var n := s + |pattern|;
    if i < s {
      assert !OccursAt(codes, i, pattern);
      SpliceAtFirstOccurrence(codes, pattern, i + 1, s);
      if n < |codes| {
        var tail := Replacement + [codes[n]];
        var rest := Pass(codes, pattern, n + 1);
        assert codes[i..s] == [codes[i]] + codes[i + 1..s];
        assert codes[i..s] + Replacement + [codes[n]] == codes[i..s] + tail;
        assert codes[i + 1..s] + Replacement + [codes[n]] == codes[i + 1..s] + tail;
        assert [codes[i]] + (codes[i + 1..s] + tail) == ([codes[i]] + codes[i + 1..s]) + tail;
        calc {
          Pass(codes, pattern, i);
          Prepend([codes[i]], false, Pass(codes, pattern, i + 1));
          Prepend([codes[i]], false, Prepend(codes[i + 1..s] + tail, true, rest));
          { PrependPrepend([codes[i]], false, codes[i + 1..s] + tail, true, rest); }
          Prepend([codes[i]] + (codes[i + 1..s] + tail), true, rest);
          Prepend(codes[i..s] + tail, true, rest);
        }
      }
    } else if n < |codes| {
      assert codes[i..s] + Replacement + [codes[n]] == Replacement + [codes[n]];
    }
  }

  /** A pass fails only on a match whose span is the end of the list: the
      pattern then occurs at |codes| - |pattern|. */
  lemma {:induction false} FailureMeansTrailingOccurrence(codes: seq<Instr>, pattern: seq<OpCode>, i: nat)
    requires i <= |codes|
    ensures Pass(codes, pattern, i).IndexOutOfRange? ==>
              OccursAt(codes, |codes| - |pattern|, pattern)
    decreases |codes| - i
  {
    if i < |codes| {
      if OccursAt(codes, i, pattern) {
        if i + |pattern| < |codes| {
          FailureMeansTrailingOccurrence(codes, pattern, i + |pattern| + 1);
        }
      } else {
        FailureMeansTrailingOccurrence(codes, pattern, i + 1);
      }
    }
  }

  /** The pass over `prefix + rest`, started at the end of the prefix, is
      the pass over `rest`, started at the same place. */
  lemma {:induction false} PassShift(prefix: seq<Instr>, rest: seq<Instr>, pattern: seq<OpCode>, k: nat)
    requires k <= |rest|
    ensures Pass(prefix + rest, pattern, |prefix| + k) == Pass(rest, pattern, k)
    decreases |rest| - k
  {
    var codes := prefix + rest;
    if k < |rest| {
      OccursAtShift(prefix, rest, k, pattern);
      if OccursAt(rest, k, pattern) {
        var j := k + |pattern|;
        if j < |rest| {
          assert codes[|prefix| + j] == rest[j];
          PassShift(prefix, rest, pattern, j + 1);
        }
      } else {
        assert codes[|prefix| + k] == rest[k];
        PassShift(prefix, rest, pattern, k + 1);
      }
    }
  }

  /** As written, a leading occurrence is replaced, but the instruction right
      after it is copied unchanged without being probed: the rewrite goes on
      from the instruction after that one. */
  lemma LeadingOccurrenceSkipsNext(a: seq<Instr>, rest: seq<Instr>, pattern: seq<OpCode>)
    requires Ops(a) == pattern
    requires |rest| > 0
    ensures Rewrite(a + rest, pattern)
            == Prepend(Replacement + [rest[0]], true, Rewrite(rest[1..], pattern))
  {
    var codes := a + rest;
    OccursAtLeading(a, rest, pattern);
    assert codes[|a|] == rest[0];
    assert Pass(codes, pattern, 0)
           == Prepend(Replacement + [rest[0]], true, Pass(codes, pattern, |a| + 1));
    PassShift(a, rest, pattern, 1);
    assert rest == [rest[0]] + rest[1..];
    PassShift([rest[0]], rest[1..], pattern, 0);
  }

  /** As written, a list that is exactly one occurrence of a non-empty
      pattern makes the pass read one past the end: the span is matched, the
      cursor lands on |codes| and the instruction there is requested. */
  lemma WholeListOccurrenceFails(a: seq<Instr>, pattern: seq<OpCode>)
    requires |pattern| > 0
    requires Ops(a) == pattern
    ensures Rewrite(a, pattern) == IndexOutOfRange
  {
    OccursAtLeading(a, [], pattern);
    assert a + [] == a;
  }

  /** As written, when a leading occurrence is followed by instructions
      whose tail holds no occurrence, everything after the span is copied
      verbatim, including a second occurrence that starts right at the
      follower. */
  lemma LeadingOccurrenceThenMiss(a: seq<Instr>, rest: seq<Instr>, pattern: seq<OpCode>)
    requires Ops(a) == pattern
    requires |rest| > 0
    requires NoOccurrence(rest[1..], pattern, 0, |rest| - 1)
    ensures Rewrite(a + rest, pattern) == Done(Replacement + rest, true)
  {
    LeadingOccurrenceSkipsNext(a, rest, pattern);
    RewriteMissIsIdentity(rest[1..], pattern);
    assert Replacement + [rest[0]] + rest[1..] == Replacement + rest;
  }

  /** `patched` is set exactly when the list holds an occurrence of the
      pattern; a failing pass also implies one. */
  lemma PatchedIffSomeOccurrence(codes: seq<Instr>, pattern: seq<OpCode>)
    ensures Rewrite(codes, pattern).Done? ==>
              (Rewrite(codes, pattern).patched
               <==> exists s :: 0 <= s < |codes| && OccursAt(codes, s, pattern))
    ensures Rewrite(codes, pattern).IndexOutOfRange? ==>
              exists s :: 0 <= s < |codes| && OccursAt(codes, s, pattern)
  {
    var s := FirstOccurrence(codes, pattern, 0);
    if s < |codes| {
      SpliceAtFirstOccurrence(codes, pattern, 0, s);
    } else {
      NoOccurrenceCopiesThrough(codes, pattern, 0);
    }
  }

  /** The matches the pass takes, characterised without reference to the
      pass, in three parts. First: each is an occurrence at or after the
      cursor. */
  lemma {:induction false} MatchStartsAreOccurrences(codes: seq<Instr>, pattern: seq<OpCode>, i: nat)
    requires i <= |codes|
    ensures forall t :: 0 <= t < |MatchStarts(codes, pattern, i)| ==>
              && i <= MatchStarts(codes, pattern, i)[t] < |codes|
              && OccursAt(codes, MatchStarts(codes, pattern, i)[t], pattern)
    decreases |codes| - i
  {
    if i < |codes| {
      var ss := MatchStarts(codes, pattern, i);
      if OccursAt(codes, i, pattern) {
        var j := i + |pattern|;
        if j < |codes| {
          MatchStartsAreOccurrences(codes, pattern, j + 1);
          var rest := MatchStarts(codes, pattern, j + 1);
          assert ss == [i] + rest;
          forall t | 0 < t < |ss|
            ensures i <= ss[t] < |codes| && OccursAt(codes, ss[t], pattern)
          {
            assert ss[t] == rest[t - 1];
          }
        }
      } else {
        MatchStartsAreOccurrences(codes, pattern, i + 1);
      }
    }
  }

  /** Second: matches are listed in order of position and never overlap,
      and the instruction just after a matched span is never itself a match
      start. */
  lemma {:induction false} MatchStartsAreSpaced(codes: seq<Instr>, pattern: seq<OpCode>, i: nat)
    requires i <= |codes|
    ensures Spaced(MatchStarts(codes, pattern, i), |pattern|)
    decreases |codes| - i
  {
    if i < |codes| {
      var ss := MatchStarts(codes, pattern, i);
      if OccursAt(codes, i, pattern) {
        var j := i + |pattern|;
        if j < |codes| {
          MatchStartsAreSpaced(codes, pattern, j + 1);
          MatchStartsAreOccurrences(codes, pattern, j + 1);
          var rest := MatchStarts(codes, pattern, j + 1);
          assert ss == [i] + rest;
          forall t | 0 <= t < |ss| - 1
            ensures ss[t] + |pattern| < ss[t + 1]
          {
            if t == 0 {
              assert ss[1] == rest[0];
            } else {
              assert ss[t] == rest[t - 1] && ss[t + 1] == rest[t];
            }
          }
        }
      } else {
        MatchStartsAreSpaced(codes, pattern, i + 1);
      }
    }
  }

  /** Third: every occurrence the pass does not take lies inside a taken
      span or is the instruction just after one. */
  lemma {:induction false} OccurrencesAreCovered(codes: seq<Instr>, pattern: seq<OpCode>, i: nat)
    requires i <= |codes|
    ensures forall s :: i <= s < |codes| && OccursAt(codes, s, pattern) ==>
              Covered(MatchStarts(codes, pattern, i), |pattern|, s)
    decreases |codes| - i
  {
    if i < |codes| {
      var ss := MatchStarts(codes, pattern, i);
      if OccursAt(codes, i, pattern) {
        var j := i + |pattern|;
        if j < |codes| {
          OccurrencesAreCovered(codes, pattern, j + 1);
        }
        var rest := if j < |codes| then MatchStarts(codes, pattern, j + 1) else [];
        assert ss == [i] + rest;
        forall s | i <= s < |codes| && OccursAt(codes, s, pattern)
          ensures Covered(ss, |pattern|, s)
        {
          if s <= j {
            assert ss[0] <= s <= ss[0] + |pattern|;
          } else {
            var t :| 0 <= t < |rest| && rest[t] <= s <= rest[t] + |pattern|;
            assert ss[t + 1] == rest[t];
          }
        }
      } else {
        OccurrencesAreCovered(codes, pattern, i + 1);
      }
    }
  }

  /** `patched` is true exactly when at least one match was taken. */
  lemma {:induction false} PatchedIffMatchTaken(codes: seq<Instr>, pattern: seq<OpCode>, i: nat)
    requires i <= |codes|
    ensures Pass(codes, pattern, i).Done? ==>
              (Pass(codes, pattern, i).patched <==> |MatchStarts(codes, pattern, i)| > 0)
    decreases |codes| - i
  {
    if i < |codes| {
      if OccursAt(codes, i, pattern) {
        var j := i + |pattern|;
        if j < |codes| {
          assert MatchStarts(codes, pattern, i) == [i] + MatchStarts(codes, pattern, j + 1);
        }
      } else {
        PatchedIffMatchTaken(codes, pattern, i + 1);
      }
    }
  }

  /** The pass fails exactly when the last match it takes is a span that
      ends at the end of the list. */
  lemma {:induction false} FailsIffLastSpanEndsAtEnd(codes: seq<Instr>, pattern: seq<OpCode>, i: nat)
    requires i <= |codes|
    ensures Pass(codes, pattern, i).IndexOutOfRange?
            <==> (&& |MatchStarts(codes, pattern, i)| > 0
                  && Last(MatchStarts(codes, pattern, i)) + |pattern| == |codes|)
    decreases |codes| - i
  {
    if i < |codes| {
      var ss := MatchStarts(codes, pattern, i);
      if OccursAt(codes, i, pattern) {
        var j := i + |pattern|;
        if j == |codes| {
          assert ss == [i];
        } else {
          var rest := MatchStarts(codes, pattern, j + 1);
          assert ss == [i] + rest;
          assert Pass(codes, pattern, i)
                 == Prepend(Replacement + [codes[j]], true, Pass(codes, pattern, j + 1));
          FailsIffLastSpanEndsAtEnd(codes, pattern, j + 1);
          if |rest| > 0 {
            assert Last(ss) == Last(rest);
          } else {
            assert Last(ss) + |pattern| == j < |codes|;
          }
        }
      } else {
        assert ss == MatchStarts(codes, pattern, i + 1);
        assert Pass(codes, pattern, i)
               == Prepend([codes[i]], false, Pass(codes, pattern, i + 1));
        FailsIffLastSpanEndsAtEnd(codes, pattern, i + 1);
      }
    }
  }

  lemma MulSucc(k: int, w: int)
    ensures (k + 1) * w == k * w + w
  {
  }

  /** Length accounting: each taken match consumes |pattern| instructions and
      emits the two-instruction replacement; every other instruction is
      emitted once. So with k matches the output has
      |codes| - k * (|pattern| - 2) instructions. */
  lemma {:induction false} LengthAccounting(codes: seq<Instr>, pattern: seq<OpCode>, i: nat)
    requires i <= |codes|
    ensures Pass(codes, pattern, i).Done? ==>
              |Pass(codes, pattern, i).output|
              == |codes| - i - |MatchStarts(codes, pattern, i)| * (|pattern| - 2)
    decreases |codes| - i
  {
    if i < |codes| {
      var ss := MatchStarts(codes, pattern, i);
      if OccursAt(codes, i, pattern) {
        var j := i + |pattern|;
        if j < |codes| {
          var rest := MatchStarts(codes, pattern, j + 1);
          assert ss == [i] + rest;
          assert Pass(codes, pattern, i)
                 == Prepend(Replacement + [codes[j]], true, Pass(codes, pattern, j + 1));
          LengthAccounting(codes, pattern, j + 1);
          MulSucc(|rest|, |pattern| - 2);
        }
      } else {
        assert ss == MatchStarts(codes, pattern, i + 1);
        assert Pass(codes, pattern, i)
               == Prepend([codes[i]], false, Pass(codes, pattern, i + 1));
        LengthAccounting(codes, pattern, i + 1);
      }
    }
  }

  /** One iteration of the loop, seen from the outcome it leads to: what has
      been emitted so far followed by the pass from the cursor. A hit whose
      span ends the list fails. */
  lemma HitAtEndStep(codes: seq<Instr>, pattern: seq<OpCode>, i: nat, out: seq<Instr>, patched: bool)
    requires OccursAt(codes, i, pattern) && i < |codes| && i + |pattern| == |codes|
    ensures Prepend(out, patched, Pass(codes, pattern, i)) == IndexOutOfRange
  {
  }

  /** A hit followed by an instruction: the replacement and the follower
      are emitted and the cursor moves past the follower. */
  lemma HitStep(codes: seq<Instr>, pattern: seq<OpCode>, i: nat, out: seq<Instr>, patched: bool)
    requires OccursAt(codes, i, pattern) && i + |pattern| < |codes|
    ensures Prepend(out, patched, Pass(codes, pattern, i))
            == Prepend(out + Replacement + [codes[i + |pattern|]], true,
                       Pass(codes, pattern, i + |pattern| + 1))
  {
  }

  /** A miss: the instruction under the cursor is emitted unchanged. */
  lemma MissStep(codes: seq<Instr>, pattern: seq<OpCode>, i: nat, out: seq<Instr>, patched: bool)
    requires i < |codes| && !OccursAt(codes, i, pattern)
    ensures Prepend(out, patched, Pass(codes, pattern, i))
            == Prepend(out + [codes[i]], patched, Pass(codes, pattern, i + 1))
  {
  }

  /** What the loop's caller learns from the outcome of a whole pass. */
  lemma RewriteOutcomeFacts(codes: seq<Instr>, pattern: seq<OpCode>)
    ensures NoOccurrence(codes, pattern, 0, |codes|) ==>
              Rewrite(codes, pattern) == Done(codes, false)
    ensures Rewrite(codes, pattern).Done? ==>
              (Rewrite(codes, pattern).patched
               <==> exists s :: 0 <= s < |codes| && OccursAt(codes, s, pattern))
    ensures Rewrite(codes, pattern).IndexOutOfRange? ==>
              OccursAt(codes, |codes| - |pattern|, pattern)
  {
    PatchedIffSomeOccurrence(codes, pattern);
    FailureMeansTrailingOccurrence(codes, pattern, 0);
    if NoOccurrence(codes, pattern, 0, |codes|) {
      RewriteMissIsIdentity(codes, pattern);
    }
  }

  /** The transpiler's loop, step by step: copy the input, probe the
      pattern at each cursor, on a hit emit the replacement and jump the
      cursor past the span, then emit the instruction under the cursor and
      advance. The source performs that last read once, after the branch;
      here it is written out in each branch, and only after a hit can it
      fall off the end. It computes the same outcome as the recursive pass. */
  method RunPass(instructions: seq<Instr>, pattern: seq<OpCode>) returns (r: Outcome)
    ensures r == Rewrite(instructions, pattern)
  {
    var codes := instructions;
    var patched := false;
    var out: seq<Instr> := [];
    var i := 0;
    ghost var goal := Rewrite(codes, pattern);
    while i < |codes|
      invariant 0 <= i <= |codes|
      invariant goal == Prepend(out, patched, Pass(codes, pattern, i))
    {
      ghost var i0, out0, patched0 := i, out, patched;
      var hit := MatchOpCodeSequence(codes, i, pattern);
      if hit {
        out := out + Replacement;
        i := i + |pattern|;
        patched := true;
        if i >= |codes| {
          HitAtEndStep(codes, pattern, i0, out0, patched0);
          return IndexOutOfRange;
        }
        out := out + [codes[i]];
        i := i + 1;
        HitStep(codes, pattern, i0, out0, patched0);
      } else {
        out := out + [codes[i]];
        i := i + 1;
        MissStep(codes, pattern, i0, out0, patched0);
      }
    }
    assert out + [] == out;
    return Done(out, patched);
  }
}
