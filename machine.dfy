/** The machine object: a list of cells and a data pointer, both updated in
    place by the commands.  Each method is specified by the tape function
    of the same command, applied to the machine's state before the call. */
module Machine {
  import opened Tape

  class BFMachine {
    var data: seq<int>
    var dataptr: int

    /** The machine's current state as a tape value. */
    function Snapshot(): TapeState
      reads this
    {
      TapeState(data, dataptr)
    }

    predicate Valid()
      reads this
    {
      Tape.Valid(Snapshot())
    }

    /** A fresh machine: 30000 zero cells, pointer at 0. */
    constructor ()
      ensures Snapshot() == Initial()
      ensures Valid() && |data| == ChunkSize && dataptr == 0
      ensures forall i :: 0 <= i < |data| ==> data[i] == 0
    {
      data := Zeros(ChunkSize);
      dataptr := 0;
    }

    /** `>` */
    method IncrPtr()
      modifies this
      ensures Snapshot() == MoveRight(old(Snapshot()))
      ensures old(Valid()) ==> Valid()
    {
      dataptr := dataptr + 1;
      if dataptr >= |data| {
        data := data + Zeros(ChunkSize);
      }
    }

    /** `<` */
    method DecrPtr()
      modifies this
      ensures Snapshot() == MoveLeft(old(Snapshot()))
      ensures data == old(data) && dataptr == old(dataptr) - 1
    {
      dataptr := dataptr - 1;
    }

    /** `+` */
    method IncrData()
      requires InBounds(Snapshot())
      modifies this
      ensures Snapshot() == Increment(old(Snapshot()))
      ensures old(Valid()) ==> Valid()
    {
      data := data[dataptr := data[dataptr] + 1];
    }

    /** `-` */
    method DecrData()
      requires InBounds(Snapshot())
      modifies this
      ensures Snapshot() == Decrement(old(Snapshot()))
      ensures old(Valid()) ==> Valid()
    {
      data := data[dataptr := data[dataptr] - 1];
    }

    /** `.`: the value emitted is the current cell; the machine is unchanged. */
    method PrintByte() returns (v: int)
      requires InBounds(Snapshot())
      ensures v == Cell(Snapshot())
    {
      v := data[dataptr];
    }

    /** `,` with the pending input given as a sequence of values: at end of
        input nothing changes; otherwise the next value is stored in the
        current cell and the remaining input is returned. */
    method GetInput(pending: seq<int>) returns (rest: seq<int>)
      requires pending != [] ==> InBounds(Snapshot())
      modifies this
      ensures pending == [] ==> rest == [] && Snapshot() == old(Snapshot())
      ensures pending != [] ==> rest == pending[1..] && Snapshot() == Write(old(Snapshot()), pending[0])
      ensures old(Valid()) ==> Valid()
    {
      if pending == [] {
        rest := [];
      } else {
        data := data[dataptr := pending[0]];
        rest := pending[1..];
      }
    }
  }
}
