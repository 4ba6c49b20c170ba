/** Bracket matching: the precomputed table that sends every `[` to its
    matching `]` (`opening`) and every `]` back to its `[` (`closing`). */
module JumpTable {

  datatype Result<T, E> = Success(value: T) | Failure(error: E)

  /** The two errors of the matcher: a `]` with no open `[` before it, and a
      `[` still open at the end of the program. */
  datatype BracketError = MismatchedClose | MismatchedOpen

  datatype JumpPairs = JumpPairs(opening: map<nat, nat>, closing: map<nat, nat>)

  /** Contribution of one character to the bracket depth. */
  function Delta(c: char): int {
    if c == '[' then 1 else if c == ']' then -1 else 0
  }

  /** Number of `[` minus number of `]` in p[lo..hi]. */
  ghost function Depth(p: seq<char>, lo: nat, hi: nat): int
    requires lo <= hi <= |p|
    decreases hi - lo
  {
    if lo == hi then 0 else Depth(p, lo, hi - 1) + Delta(p[hi - 1])
  }

  /** No prefix of p[lo..hi] closes more brackets than it opens. */
  ghost predicate NeverNegative(p: seq<char>, lo: nat, hi: nat)
    requires lo <= hi <= |p|
  {
    forall m :: lo <= m <= hi ==> Depth(p, lo, m) >= 0
  }

  /** p[lo..hi] is balanced. */
  ghost predicate BalancedIn(p: seq<char>, lo: nat, hi: nat)
    requires lo <= hi <= |p|
  {
    NeverNegative(p, lo, hi) && Depth(p, lo, hi) == 0
  }

  ghost predicate Balanced(p: seq<char>) {
    BalancedIn(p, 0, |p|)
  }

  predicate Injective(m: map<nat, nat>) {
    forall i, k :: i in m && k in m && m[i] == m[k] ==> i == k
  }

  /** The table `jp` matches the brackets of `p`: `opening` is defined exactly
      on the `[` positions and `closing` exactly on the `]` positions, each is
      the inverse of the other, every `[` is matched with a later `]`, and
      the text strictly between a matched pair is balanced. */
  ghost predicate WellMatched(p: seq<char>, jp: JumpPairs) {
    && (forall i :: i in jp.opening <==> 0 <= i < |p| && p[i] == '[')
    && (forall j :: j in jp.closing <==> 0 <= j < |p| && p[j] == ']')
    && (forall i :: i in jp.opening ==>
          && i < jp.opening[i] < |p|
          && jp.opening[i] in jp.closing && jp.closing[jp.opening[i]] == i
          && BalancedIn(p, i + 1, jp.opening[i]))
    && (forall j :: j in jp.closing ==> jp.closing[j] in jp.opening && jp.opening[jp.closing[j]] == j)
  }

  /** The dict comprehension that swaps keys and values of `opening`. */
  function Invert(opening: map<nat, nat>): (closing: map<nat, nat>)
    requires Injective(opening)
    ensures closing.Keys == opening.Values
    ensures forall i :: i in opening ==> closing[opening[i]] == i
  {
    map i | i in opening :: opening[i] := i
  }

  /** `build_jump_pairs`: scan left to right with a stack of open `[`
      positions.  It fails with MismatchedClose exactly when some prefix of
      the program closes more brackets than it opens, with MismatchedOpen
      exactly when no prefix does so but the program leaves brackets open,
      and otherwise returns the table of the matching. */
  method BuildJumpPairs(program: seq<char>) returns (r: Result<JumpPairs, BracketError>)
    ensures r.Success? <==> Balanced(program)
    ensures r == Failure(MismatchedClose) <==> exists m :: 0 <= m <= |program| && Depth(program, 0, m) < 0
    ensures r == Failure(MismatchedOpen) <==> NeverNegative(program, 0, |program|) && Depth(program, 0, |program|) > 0
    ensures r.Success? ==> WellMatched(program, r.value)
  {
    var stack: seq<nat> := [];
    var opening: map<nat, nat> := map[];
    ghost var closing: map<nat, nat> := map[];
    var idx := 0;
    while idx < |program|
      invariant StackInvariant(program, idx, stack)
      invariant TableInvariant(program, idx, stack, opening, closing)
    {
      var c := program[idx];
      if c == '[' {
        ScanOpen(program, idx, stack, opening, closing);
        stack := stack + [idx];
      } else if c == ']' {
        if |stack| == 0 {
          assert Depth(program, 0, idx + 1) < 0;
          assert exists m :: 0 <= m <= |program| && Depth(program, 0, m) < 0;
          assert !Balanced(program);
          assert !NeverNegative(program, 0, |program|);
          return Failure(MismatchedClose);
        }
        var s := stack[|stack| - 1];
        ScanClose(program, idx, stack, opening, closing);
        stack := stack[..|stack| - 1];
        opening := opening[s := idx];
        closing := closing[idx := s];
      } else {
        ScanOther(program, idx, stack, opening, closing);
      }
      idx := idx + 1;
    }
    assert !exists m :: 0 <= m <= |program| && Depth(program, 0, m) < 0;
    if |stack| > 0 {
      return Failure(MismatchedOpen);
    }
    ScanComplete(program, opening, closing);
    var closingPairs := Invert(opening);
    r := Success(JumpPairs(opening, closingPairs));
  }

  /** What the scan knows about the stack after reading p[..idx]: the
      program so far never closed more than it opened, the stack holds the
      still-open `[` positions in increasing order, and after each of them
      the depth equals the number of entries above it. */
  ghost predicate StackInvariant(p: seq<char>, idx: nat, stack: seq<nat>) {
    && idx <= |p|
    && NeverNegative(p, 0, idx) && |stack| == Depth(p, 0, idx)
    && (forall t :: 0 <= t < |stack| ==>
          && stack[t] < idx && p[stack[t]] == '['
          && Depth(p, stack[t] + 1, idx) == |stack| - 1 - t
          && NeverNegative(p, stack[t] + 1, idx))
    && (forall t, u :: 0 <= t < u < |stack| ==> stack[t] < stack[u])
  }

  /** What the scan knows about the pairs recorded from p[..idx]: every
      closed `[` and every `]` read so far is paired, the two maps are
      inverse, and each pair encloses a balanced segment. */
  ghost predicate TableInvariant(p: seq<char>, idx: nat, stack: seq<nat>, opening: map<nat, nat>, closing: map<nat, nat>)
    requires idx <= |p|
  {
    && (forall i :: i in opening <==> 0 <= i < idx && p[i] == '[' && i !in stack)
    && (forall j :: j in closing <==> 0 <= j < idx && p[j] == ']')
    && (forall i :: i in opening ==>
          && i < opening[i] < idx
          && opening[i] in closing && closing[opening[i]] == i
          && BalancedIn(p, i + 1, opening[i]))
    && (forall j :: j in closing ==> closing[j] in opening && opening[closing[j]] == j)
  }

  /** Reading a `[` pushes its position. */
  lemma ScanOpen(p: seq<char>, idx: nat, stack: seq<nat>, opening: map<nat, nat>, closing: map<nat, nat>)
    requires idx < |p| && p[idx] == '['
    requires StackInvariant(p, idx, stack) && TableInvariant(p, idx, stack, opening, closing)
    ensures StackInvariant(p, idx + 1, stack + [idx])
    ensures TableInvariant(p, idx + 1, stack + [idx], opening, closing)
  {
    ScanOpenStack(p, idx, stack);
    var stack' := stack + [idx];
    forall i | 0 <= i < idx + 1
      ensures (i in opening <==> p[i] == '[' && i !in stack')
    {
      assert i in stack' <==> i in stack || i == idx;
    }
  }

  /** The stack half of `ScanOpen`: the pushed `[` is followed by depth 0,
      and every earlier open `[` gains one level. */
  lemma ScanOpenStack(p: seq<char>, idx: nat, stack: seq<nat>)
    requires idx < |p| && p[idx] == '['
    requires StackInvariant(p, idx, stack)
    ensures StackInvariant(p, idx + 1, stack + [idx])
  {
    var stack' := stack + [idx];
    assert Depth(p, 0, idx + 1) == Depth(p, 0, idx) + 1;
    NeverNegativeExtend(p, 0, idx);
    forall t | 0 <= t < |stack'|
      ensures Depth(p, stack'[t] + 1, idx + 1) == |stack'| - 1 - t
      ensures NeverNegative(p, stack'[t] + 1, idx + 1)
    {
      if t < |stack| {
        assert stack'[t] == stack[t];
        assert Depth(p, stack[t] + 1, idx + 1) == Depth(p, stack[t] + 1, idx) + 1;
        NeverNegativeExtend(p, stack[t] + 1, idx);
      } else {
        assert stack'[t] == idx;
        assert Depth(p, idx + 1, idx + 1) == 0;
      }
    }
  }

  /** A segment that never goes negative stays so when the next character
      keeps its depth non-negative. */
  lemma NeverNegativeExtend(p: seq<char>, lo: nat, hi: nat)
    requires lo <= hi < |p| && NeverNegative(p, lo, hi) && Depth(p, lo, hi + 1) >= 0
    ensures NeverNegative(p, lo, hi + 1)
  {
  }

  /** Reading a `]` pops the last open `[` and records the pair: the
      segment between them is balanced. */
  lemma ScanClose(p: seq<char>, idx: nat, stack: seq<nat>, opening: map<nat, nat>, closing: map<nat, nat>)
    requires idx < |p| && p[idx] == ']' && |stack| > 0
    requires StackInvariant(p, idx, stack) && TableInvariant(p, idx, stack, opening, closing)
    ensures var s, stack' := stack[|stack| - 1], stack[..|stack| - 1];
      && StackInvariant(p, idx + 1, stack')
      && TableInvariant(p, idx + 1, stack', opening[s := idx], closing[idx := s])
  {
    var s, stack' := stack[|stack| - 1], stack[..|stack| - 1];
    ScanCloseStack(p, idx, stack);
    assert BalancedIn(p, s + 1, idx);
    forall i | 0 <= i < idx + 1
      ensures (i in opening[s := idx] <==> p[i] == '[' && i !in stack')
    {
      assert i in stack <==> i in stack' || i == s;
      assert s !in stack';
    }
  }

  /** The stack half of `ScanClose`: every `[` still open loses one level. */
  lemma ScanCloseStack(p: seq<char>, idx: nat, stack: seq<nat>)
    requires idx < |p| && p[idx] == ']' && |stack| > 0
    requires StackInvariant(p, idx, stack)
    ensures StackInvariant(p, idx + 1, stack[..|stack| - 1])
  {
    var stack' := stack[..|stack| - 1];
    assert Depth(p, 0, idx + 1) == Depth(p, 0, idx) - 1;
    NeverNegativeExtend(p, 0, idx);
    forall t | 0 <= t < |stack'|
      ensures Depth(p, stack'[t] + 1, idx + 1) == |stack'| - 1 - t
      ensures NeverNegative(p, stack'[t] + 1, idx + 1)
    {
      assert stack'[t] == stack[t];
      assert Depth(p, stack[t] + 1, idx + 1) == Depth(p, stack[t] + 1, idx) - 1;
      NeverNegativeExtend(p, stack[t] + 1, idx);
    }
  }

  /** Reading any other character changes neither stack nor table. */
  lemma ScanOther(p: seq<char>, idx: nat, stack: seq<nat>, opening: map<nat, nat>, closing: map<nat, nat>)
    requires idx < |p| && p[idx] != '[' && p[idx] != ']'
    requires StackInvariant(p, idx, stack) && TableInvariant(p, idx, stack, opening, closing)
    ensures StackInvariant(p, idx + 1, stack)
    ensures TableInvariant(p, idx + 1, stack, opening, closing)
  {
  }

  /** When the whole program is read with an empty stack, the recorded pairs
      form the matching table, and the comprehension rebuilds the ghost
      `closing` map from `opening`. */
  lemma ScanComplete(p: seq<char>, opening: map<nat, nat>, closing: map<nat, nat>)
    requires StackInvariant(p, |p|, []) && TableInvariant(p, |p|, [], opening, closing)
    ensures Injective(opening) && Invert(opening) == closing
    ensures WellMatched(p, JumpPairs(opening, closing))
  {
    InverseIsInjective(opening, closing);
    InvertIsInverse(opening, closing);
  }

  /** A map with a left inverse is injective. */
  lemma InverseIsInjective(opening: map<nat, nat>, closing: map<nat, nat>)
    requires forall i :: i in opening ==> opening[i] in closing && closing[opening[i]] == i
    ensures Injective(opening)
  {
    forall i, k | i in opening && k in opening && opening[i] == opening[k]
      ensures i == k
    {
      assert closing[opening[i]] == i && closing[opening[k]] == k;
    }
  }

  /** When two maps are inverse to each other, the comprehension that swaps
      keys and values of the first rebuilds the second. */
  lemma InvertIsInverse(opening: map<nat, nat>, closing: map<nat, nat>)
    requires Injective(opening)
    requires forall i :: i in opening ==> opening[i] in closing && closing[opening[i]] == i
    requires forall j :: j in closing ==> closing[j] in opening && opening[closing[j]] == j
    ensures Invert(opening) == closing
  {
    var inverse := Invert(opening);
    forall j | j in closing ensures j in opening.Values {
      assert opening[closing[j]] == j;
    }
    assert inverse.Keys == closing.Keys;
  }

  /** A `[` has at most one partner: the first later `]` that closes a
      balanced segment. */
  lemma MatchUnique(p: seq<char>, i: nat, j1: nat, j2: nat)
    requires i < j1 < |p| && i < j2 < |p| && p[j1] == ']' && p[j2] == ']'
    requires BalancedIn(p, i + 1, j1) && BalancedIn(p, i + 1, j2)
    ensures j1 == j2
  {
    if j1 < j2 {
      assert Depth(p, i + 1, j1 + 1) < 0;
    } else if j2 < j1 {
      assert Depth(p, i + 1, j2 + 1) < 0;
    }
  }

  /** The table of a program is determined by the program: any two tables
      that match its brackets are equal. */
  lemma WellMatchedUnique(p: seq<char>, a: JumpPairs, b: JumpPairs)
    requires WellMatched(p, a) && WellMatched(p, b)
    ensures a == b
  {
    forall i | i in a.opening ensures b.opening[i] == a.opening[i] {
      MatchUnique(p, i, a.opening[i], b.opening[i]);
    }
    assert a.opening == b.opening;
    forall j | j in a.closing ensures b.closing[j] == a.closing[j] {
      var i, k := a.closing[j], b.closing[j];
      assert a.opening[i] == j && a.opening[k] == j;
      assert a.closing[a.opening[k]] == k;
    }
    assert a.closing == b.closing;
  }

  /** In a matched table, the values of `opening` are exactly the `]`
      positions and the values of `closing` exactly the `[` positions. */
  lemma WellMatchedValues(p: seq<char>, jp: JumpPairs)
    requires WellMatched(p, jp)
    ensures jp.opening.Values == set j | 0 <= j < |p| && p[j] == ']'
    ensures jp.closing.Values == set i | 0 <= i < |p| && p[i] == '['
  {
    forall j | 0 <= j < |p| && p[j] == ']' ensures j in jp.opening.Values {
      assert jp.opening[jp.closing[j]] == j;
    }
    forall i | 0 <= i < |p| && p[i] == '[' ensures i in jp.closing.Values {
      assert jp.closing[jp.opening[i]] == i;
    }
  }

  /** The table for `[]` is {0: 1} and back {1: 0}. */
  lemma EmptyLoopTable(jp: JumpPairs)
    requires WellMatched("[]", jp)
    ensures Balanced("[]")
    ensures jp == JumpPairs(map[0 := 1], map[1 := 0])
  {
    assert Depth("[]", 0, 1) == 1;
    assert Depth("[]", 0, 2) == 0;
    var expected := JumpPairs(map[0 := 1], map[1 := 0]);
    assert BalancedIn("[]", 1, 1);
    assert WellMatched("[]", expected);
    WellMatchedUnique("[]", jp, expected);
  }
}
