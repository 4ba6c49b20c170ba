/** The tape of a machine as a value: its cells and its data pointer, and
    the four tape commands as functions from one tape to the next.  Cells
    hold unbounded integers: `+` and `-` add and subtract one and never
    wrap.  The pointer may go below zero (`<` does not check it); a cell
    can only be accessed while the pointer is in bounds. */
module Tape {

  /** Size of a fresh tape, and of every chunk the tape grows by. */
  const ChunkSize: nat := 30000

  datatype TapeState = TapeState(data: seq<int>, ptr: int)

  function Zeros(n: nat): seq<int> {
    seq(n, _ => 0)
  }

  /** What every reachable tape satisfies: a whole, positive number of
      chunks, and a pointer below the end (growth only happens rightward). */
  predicate Valid(t: TapeState) {
    0 < |t.data| && |t.data| % ChunkSize == 0 && t.ptr < |t.data|
  }

  /** The pointer designates a cell. */
  predicate InBounds(t: TapeState) {
    0 <= t.ptr < |t.data|
  }

  /** A fresh machine: 30000 zero cells and the pointer at the first one. */
  function Initial(): (t: TapeState)
    ensures Valid(t) && InBounds(t)
    ensures t.ptr == 0 && |t.data| == ChunkSize
    ensures forall i :: 0 <= i < |t.data| ==> t.data[i] == 0
  {
    TapeState(Zeros(ChunkSize), 0)
  }

  /** `>`: advance the pointer; when it reaches the end, append a chunk of zeros. */
  function MoveRight(t: TapeState): (r: TapeState)
    ensures r.ptr == t.ptr + 1
    ensures t.ptr < |t.data| ==> r.ptr < |r.data|
    ensures Valid(t) ==> Valid(r)
    ensures t.ptr + 1 < |t.data| ==> r.data == t.data
    ensures t.ptr + 1 >= |t.data| ==>
      && |r.data| == |t.data| + ChunkSize
      && r.data[..|t.data|] == t.data
      && (forall i :: |t.data| <= i < |r.data| ==> r.data[i] == 0)
  {
    var p := t.ptr + 1;
    if p >= |t.data| then TapeState(t.data + Zeros(ChunkSize), p) else TapeState(t.data, p)
  }

  /** `<`: move the pointer back by one, with no check against zero. */
  function MoveLeft(t: TapeState): (r: TapeState)
    ensures r.data == t.data && r.ptr == t.ptr - 1
    ensures Valid(t) ==> Valid(r)
    ensures t.ptr == 0 ==> !InBounds(r)
  {
    TapeState(t.data, t.ptr - 1)
  }

  /** The cell under the pointer. */
  function Cell(t: TapeState): int
    requires InBounds(t)
  {
    t.data[t.ptr]
  }

  /** Overwrite the cell under the pointer (the `,` command). */
  function Write(t: TapeState, v: int): (r: TapeState)
    requires InBounds(t)
    ensures InBounds(r) && Cell(r) == v && r.ptr == t.ptr && |r.data| == |t.data|
    ensures forall i :: 0 <= i < |t.data| && i != t.ptr ==> r.data[i] == t.data[i]
    ensures Valid(t) ==> Valid(r)
  {
    TapeState(t.data[t.ptr := v], t.ptr)
  }

  /** `+`: the current cell gains one; nothing else changes. */
  function Increment(t: TapeState): (r: TapeState)
    requires InBounds(t)
    ensures InBounds(r) && Cell(r) == Cell(t) + 1 && r.ptr == t.ptr && |r.data| == |t.data|
    ensures forall i :: 0 <= i < |t.data| && i != t.ptr ==> r.data[i] == t.data[i]
    ensures Valid(t) ==> Valid(r)
  {
    Write(t, Cell(t) + 1)
  }

  /** `-`: the current cell loses one (0 becomes -1); nothing else changes. */
  function Decrement(t: TapeState): (r: TapeState)
    requires InBounds(t)
    ensures InBounds(r) && Cell(r) == Cell(t) - 1 && r.ptr == t.ptr && |r.data| == |t.data|
    ensures forall i :: 0 <= i < |t.data| && i != t.ptr ==> r.data[i] == t.data[i]
    ensures Valid(t) ==> Valid(r)
  {
    Write(t, Cell(t) - 1)
  }

  /** `+` and `-` undo each other exactly: cells do not saturate or wrap. */
  lemma IncrementDecrementInverse(t: TapeState)
    requires InBounds(t)
    ensures Decrement(Increment(t)) == t
    ensures Increment(Decrement(t)) == t
  {
    assert Decrement(Increment(t)).data == t.data;
    assert Increment(Decrement(t)).data == t.data;
  }

  /** `>` then `<` restores the pointer and every cell that existed before;
      if `>` did not grow the tape, the tape is restored exactly. */
  lemma MoveRightThenLeft(t: TapeState)
    ensures MoveLeft(MoveRight(t)).ptr == t.ptr
    ensures MoveLeft(MoveRight(t)).data[..|t.data|] == t.data
    ensures t.ptr + 1 < |t.data| ==> MoveLeft(MoveRight(t)) == t
  {
  }

  /** Once the tape is valid, the pointer can only leave the cells by going
      below zero. */
  lemma ValidOutOfBoundsIsNegative(t: TapeState)
    requires Valid(t)
    ensures !InBounds(t) <==> t.ptr < 0
  {
  }
}
