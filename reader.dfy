/** The byte stream the decoder reads from: Rust's `BufRead` over an
    in-memory buffer, reduced to the two framing primitives the codec uses,
    "read exactly N bytes" (`read_exact`) and "read up to and including the
    next LF" (`read_until(b'\n')`, and `read_line`, which adds a UTF-8
    check the decoder makes itself). */
module Reader {
  import opened Wrappers
  import opened Ascii

  /** Where a line that starts at `from` ends: just past the first LF at or
      after `from`, or the end of the data when there is none. */
  function LineEnd(data: seq<byte>, from: nat): (e: nat)
    requires from <= |data|
    ensures from <= e <= |data|
    ensures e == |data| || (from < e && data[e - 1] == LF)
    decreases |data| - from
  {
    if from == |data| then from
    else if data[from] == LF then from + 1
    else LineEnd(data, from + 1)
  }

  /** Bytes other than LF before `k` do not change where the line ends. */
  lemma {:induction false} LineEndSkips(data: seq<byte>, from: nat, k: nat)
    requires from <= k <= |data|
    requires forall i | from <= i < k :: data[i] != LF
    ensures LineEnd(data, from) == LineEnd(data, k)
    decreases k - from
  {
    if from < k {
      LineEndSkips(data, from + 1, k);
    }
  }

  /** Only the last byte of a line can be an LF. */
  lemma {:induction false} LineEndNoLf(data: seq<byte>, from: nat)
    requires from <= |data|
    ensures forall i | from <= i < LineEnd(data, from) - 1 :: data[i] != LF
    decreases |data| - from
  {
    if from < |data| && data[from] != LF {
      LineEndNoLf(data, from + 1);
    }
  }

  /** A reader over `data` whose next byte is `data[pos]`. */
  class BufferedReader {
    const data: seq<byte>
    var pos: nat

    ghost predicate Valid()
      reads this
    {
      pos <= |data|
    }

    constructor (data: seq<byte>)
      ensures Valid() && this.data == data && pos == 0
    {
      this.data := data;
      pos := 0;
    }

    /** `read_exact`: the next `n` bytes, or `None` (an unexpected end of
        file) when fewer remain, in which case what remained is consumed. */
    method ReadExact(n: nat) returns (r: Option<seq<byte>>)
      requires Valid()
      modifies this
      ensures Valid()
      ensures old(pos) + n <= |data| ==> r == Some(data[old(pos)..old(pos) + n]) && pos == old(pos) + n
      ensures old(pos) + n > |data| ==> r == None && pos == |data|
    {
      if pos + n <= |data| {
        r := Some(data[pos..pos + n]);
        pos := pos + n;
      } else {
        r := None;
        pos := |data|;
      }
    }

    /** `read_until(b'\n')`: the bytes up to and including the next LF, or
        up to the end of the data; possibly none. Never fails. */
    method ReadLine() returns (line: seq<byte>)
      requires Valid()
      modifies this
      ensures Valid()
      ensures pos == LineEnd(data, old(pos)) && line == data[old(pos)..pos]
    {
      var end := pos;
      while end < |data| && data[end] != LF
        invariant pos <= end <= |data|
        invariant LineEnd(data, end) == LineEnd(data, pos)
        decreases |data| - end
      {
        end := end + 1;
      }
      if end < |data| {
        end := end + 1;
      }
      line := data[pos..end];
      pos := end;
    }
  }
}
