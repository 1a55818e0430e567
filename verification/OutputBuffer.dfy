/** Simple output buffering: a fixed array in front of a file. */
module OutputBuffer {

  class OutputBuffer<T> {
    const buf: array<T>
    var outidx: nat
    var written: seq<T>

    ghost predicate Valid()
      reads this
    {
      outidx <= buf.Length
    }

    /** Everything output so far, on file or not. */
    ghost function Contents(): seq<T>
      requires Valid()
      reads this, buf
    {
      written + buf[..outidx]
    }

    constructor (capacity: nat, fill: T)
      ensures Valid() && Contents() == [] && fresh(buf) && buf.Length == capacity
    {
      buf := new T[capacity](_ => fill);
      outidx, written := 0, [];
    }

    /** output_flush */
    method Flush()
      requires Valid()
      modifies this`outidx, this`written
      ensures Valid() && outidx == 0 && written == old(Contents()) && Contents() == old(Contents())
    {
      if outidx > 0 {
        written := written + buf[..outidx];
        outidx := 0;
      }
    }

    /** output: flush first when the data would reach the end of the buffer. */
    method Output(data: seq<T>)
      requires Valid() && |data| <= buf.Length
      modifies this`outidx, this`written, buf
      ensures Valid() && Contents() == old(Contents()) + data
    {
      if outidx + |data| >= buf.Length {
        Flush();
      }
      ghost var before := Contents();
      forall k | 0 <= k < |data| {
        buf[outidx + k] := data[k];
      }
      assert buf[..outidx + |data|] == buf[..outidx] + data;
      outidx := outidx + |data|;
      assert Contents() == before + data;
    }
  }
}
