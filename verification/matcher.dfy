/**
 The pattern matcher: does a fixed list of operation codes occur, contiguously
 and in order, at a given index of an instruction list?
 */
module Matcher {
  import opened Instructions

  /** The comparison the matcher's loop performs, from pattern offset j on:
      every remaining opcode of the pattern agrees with the instruction at
      the same offset of the window. */
  predicate OpsAgreeFrom(codes: seq<Instr>, start: nat, pattern: seq<OpCode>, j: nat)
    requires start + |pattern| <= |codes|
    requires j <= |pattern|
    decreases |pattern| - j
  {
    j == |pattern|
    || (codes[start + j].op == pattern[j] && OpsAgreeFrom(codes, start, pattern, j + 1))
  }

  /** The pattern occurs at `start`: the window fits inside the list and
      its opcodes agree with the pattern. */
  predicate OccursAt(codes: seq<Instr>, start: int, pattern: seq<OpCode>)
  {
    && 0 <= start
    && start + |pattern| <= |codes|
    && OpsAgreeFrom(codes, start, pattern, 0)
  }

  /** Reference definition of an occurrence, stated offset by offset. */
  predicate WindowMatches(codes: seq<Instr>, start: int, pattern: seq<OpCode>)
  {
    && 0 <= start
    && start + |pattern| <= |codes|
    && forall j :: 0 <= j < |pattern| ==> codes[start + j].op == pattern[j]
  }

  /** No index in [lo, hi) is the start of an occurrence of the pattern. */
  predicate NoOccurrence(codes: seq<Instr>, pattern: seq<OpCode>, lo: int, hi: int)
  {
    forall s :: lo <= s < hi ==> !OccursAt(codes, s, pattern)
  }

  lemma {:induction false} OpsAgreeFromIffAll(codes: seq<Instr>, start: nat, pattern: seq<OpCode>, j: nat)
    requires start + |pattern| <= |codes|
    requires j <= |pattern|
    ensures OpsAgreeFrom(codes, start, pattern, j)
        <==> forall k :: j <= k < |pattern| ==> codes[start + k].op == pattern[k]
    decreases |pattern| - j
  {
    if j < |pattern| {
      OpsAgreeFromIffAll(codes, start, pattern, j + 1);
    }
  }

  /** The loop's comparison is the offset-by-offset definition: the pattern
      occurs at `start` exactly when the window lies inside the list and each
      of its instructions carries the pattern's opcode at that offset. */
  lemma OccursAtIffWindowMatches(codes: seq<Instr>, start: int, pattern: seq<OpCode>)
    ensures OccursAt(codes, start, pattern) <==> WindowMatches(codes, start, pattern)
  {
    if 0 <= start && start + |pattern| <= |codes| {
      OpsAgreeFromIffAll(codes, start, pattern, 0);
    }
  }

  /** The bounds-checked comparison loop: a negative start or a window that
      runs past the end answers false without reading anything; otherwise
      the opcodes are compared one by one and the first mismatch answers
      false. The window's end is computed exactly, with no 32-bit
      wrap-around. */
  method MatchOpCodeSequence(instructions: seq<Instr>, startIndex: int, pattern: seq<OpCode>)
    returns (found: bool)
    ensures startIndex < 0 || startIndex + |pattern| > |instructions| ==> !found
    ensures found <==> OccursAt(instructions, startIndex, pattern)
  {
    OccursAtIffWindowMatches(instructions, startIndex, pattern);
    if startIndex < 0 || startIndex + |pattern| > |instructions| {
      return false;
    }
    var i := 0;
    while i < |pattern|
      invariant 0 <= i <= |pattern|
      invariant forall j :: 0 <= j < i ==> instructions[startIndex + j].op == pattern[j]
    {
      if instructions[startIndex + i].op != pattern[i] {
        return false;
      }
      i := i + 1;
    }
    return true;
  }

  /** An occurrence is exactly a window whose opcode list equals the pattern;
      in particular a window ending exactly at the end of the list counts. */
  lemma OccursAtIffWindowOpsEqual(codes: seq<Instr>, start: int, pattern: seq<OpCode>)
    ensures OccursAt(codes, start, pattern)
        <==> (0 <= start && start + |pattern| <= |codes|
              && Ops(codes[start..start + |pattern|]) == pattern)
  {
    OccursAtIffWindowMatches(codes, start, pattern);
    if 0 <= start && start + |pattern| <= |codes| {
      var w := Ops(codes[start..start + |pattern|]);
      if WindowMatches(codes, start, pattern) {
        assert forall j :: 0 <= j < |pattern| ==> w[j] == pattern[j];
      }
      if w == pattern {
        forall j | 0 <= j < |pattern|
          ensures codes[start + j].op == pattern[j]
        {
          assert w[j] == codes[start + j].op;
        }
      }
    }
  }

  /** A list that starts with instructions carrying exactly the pattern's
      opcodes has an occurrence at index 0, whatever follows. */
  lemma OccursAtLeading(a: seq<Instr>, rest: seq<Instr>, pattern: seq<OpCode>)
    requires Ops(a) == pattern
    ensures OccursAt(a + rest, 0, pattern)
  {
    forall j | 0 <= j < |pattern|
      ensures (a + rest)[j].op == pattern[j]
    {
      assert (a + rest)[j] == a[j] && Ops(a)[j] == a[j].op;
    }
    OccursAtIffWindowMatches(a + rest, 0, pattern);
  }

  /** Occurrences in `rest` are the occurrences in `prefix + rest`, moved by
      the prefix's length. */
  lemma OccursAtShift(prefix: seq<Instr>, rest: seq<Instr>, k: nat, pattern: seq<OpCode>)
    ensures OccursAt(prefix + rest, |prefix| + k, pattern) <==> OccursAt(rest, k, pattern)
  {
    var codes := prefix + rest;
    OccursAtIffWindowMatches(codes, |prefix| + k, pattern);
    OccursAtIffWindowMatches(rest, k, pattern);
    if k + |pattern| <= |rest| {
      forall j | 0 <= j < |pattern|
        ensures (codes[|prefix| + k + j].op == pattern[j]) == (rest[k + j].op == pattern[j])
      {
        assert codes[|prefix| + k + j] == rest[k + j];
      }
    }
  }

  /** Operands play no part in matching: two lists with the same opcodes
      have the same occurrences. */
  lemma OccursAtIgnoresOperands(a: seq<Instr>, b: seq<Instr>, start: int, pattern: seq<OpCode>)
    requires Ops(a) == Ops(b)
    ensures OccursAt(a, start, pattern) <==> OccursAt(b, start, pattern)
  {
    assert |a| == |Ops(a)| == |Ops(b)| == |b|;
    forall k | 0 <= k < |a|
      ensures a[k].op == b[k].op
    {
      assert a[k].op == Ops(a)[k];
    }
    OccursAtIffWindowMatches(a, start, pattern);
    OccursAtIffWindowMatches(b, start, pattern);
  }
}
