/** The command alphabet and the filter that turns program text into an
    instruction stream: every character that is not a command is dropped. */
module Commands {

  /** The eight keys of the `commands` dispatch table. */
  predicate IsCommand(c: char) {
    c == '>' || c == '<' || c == '+' || c == '-' || c == '.' || c == ',' || c == '[' || c == ']'
  }

  /** An instruction stream: text made of commands only. */
  predicate IsProgram(p: seq<char>) {
    forall i :: 0 <= i < |p| ==> IsCommand(p[i])
  }

  /** The list comprehension of `read_program`, applied to text already read. */
  function Filter(text: string): (program: string)
    ensures IsProgram(program)
    ensures |program| <= |text|
  {
    if |text| == 0 then []
    else
      var last := text[|text| - 1];
      Filter(text[..|text| - 1]) + (if IsCommand(last) then [last] else [])
  }

  /** The positions of `text` whose characters `Filter` keeps, in increasing order. */
  ghost function KeptPositions(text: string): (pos: seq<nat>)
  {
    if |text| == 0 then []
    else
      KeptPositions(text[..|text| - 1]) + (if IsCommand(text[|text| - 1]) then [|text| - 1] else [])
  }

  /** `Filter` returns exactly the command characters of the text, in their
      original order: the k-th kept character is the character at the k-th
      kept position, the positions increase, and a position is kept exactly
      when its character is a command. */
  lemma {:induction false} FilterKeepsCommandsInOrder(text: string)
    ensures var pos, program := KeptPositions(text), Filter(text);
      && |pos| == |program|
      && (forall k, l :: 0 <= k < l < |pos| ==> pos[k] < pos[l])
      && (forall k :: 0 <= k < |pos| ==> pos[k] < |text| && program[k] == text[pos[k]])
      && (forall i :: 0 <= i < |text| ==> (i in pos <==> IsCommand(text[i])))
  {
    if |text| > 0 {
      var n := |text| - 1;
      var init := text[..n];
      FilterKeepsCommandsInOrder(init);
      var pos, program := KeptPositions(text), Filter(text);
      var pos0, program0 := KeptPositions(init), Filter(init);
      assert pos == pos0 + (if IsCommand(text[n]) then [n] else []);
      assert program == program0 + (if IsCommand(text[n]) then [text[n]] else []);
      forall k, l | 0 <= k < l < |pos|
        ensures pos[k] < pos[l]
      {
        assert pos[k] == pos0[k] && pos0[k] < n;
        if l < |pos0| {
          assert pos[l] == pos0[l];
        } else {
          assert pos[l] == n;
        }
      }
      forall k | 0 <= k < |pos|
        ensures pos[k] < |text| && program[k] == text[pos[k]]
      {
        if k < |pos0| {
          assert pos[k] == pos0[k] && program[k] == program0[k];
          assert init[pos0[k]] == text[pos0[k]];
        } else {
          assert pos[k] == n && program[k] == text[n];
        }
      }
      forall i | 0 <= i < |text|
        ensures i in pos <==> IsCommand(text[i])
      {
        if i < n {
          assert init[i] == text[i];
          assert i in pos <==> i in pos0;
        }
      }
    }
  }

  /** Filtering commutes with concatenation: text can be filtered piecewise. */
  lemma {:induction false} FilterAppend(a: string, b: string)
    ensures Filter(a + b) == Filter(a) + Filter(b)
    decreases |b|
  {
    if |b| > 0 {
      var n := |b| - 1;
      assert (a + b)[..|a + b| - 1] == a + b[..n];
      FilterAppend(a, b[..n]);
    } else {
      assert a + b == a;
    }
  }

  /** An instruction stream passes through the filter unchanged; in
      particular the filter is idempotent. */
  lemma {:induction false} FilterKeepsProgram(p: string)
    requires IsProgram(p)
    ensures Filter(p) == p
  {
    if |p| > 0 {
      var n := |p| - 1;
      FilterKeepsProgram(p[..n]);
      assert p[..n] + [p[n]] == p;
    }
  }

  lemma FilterIdempotent(text: string)
    ensures Filter(Filter(text)) == Filter(text)
  {
    FilterKeepsProgram(Filter(text));
  }
}
