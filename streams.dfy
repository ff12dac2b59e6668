/**
 * The input registry of paste: one record per file operand, holding the
 * already-decoded characters that its stream will deliver, a read cursor,
 * whether its handle is still set, its ordinal and its deferred open error.
 */
module Streams {
  import opened Text

  /** What `getwc` returns: a character, or WEOF at end of stream. */
  datatype WideChar = WEOF | Char(c: char)

  /**
   * A LIST record together with the FILE it reads. `open` stands for a
   * non-null `fp`; `data[pos..]` is what the stream has still to deliver.
   */
  class Stream {
    const data: seq<char>
    const cnt: int
    const err: int
    const name: string
    var pos: nat
    var open: bool

    /**
     * The record `main` appends for one operand: its ordinal `cnt`, and
     * either an open handle (`err == 0`) or the errno of a failed open.
     */
    constructor (name: string, data: seq<char>, cnt: int, err: int)
      ensures this.name == name && this.data == data && this.cnt == cnt && this.err == err
      ensures pos == 0 && open == (err == 0)
    {
      this.name := name;
      this.data := data;
      this.cnt := cnt;
      this.err := err;
      pos := 0;
      open := err == 0;
    }

    /** `getwc`: the next character, or WEOF (again and again) once the data is used up. */
    method GetWc() returns (ch: WideChar)
      requires open
      modifies this`pos
      ensures old(pos) < |data| ==> ch == Char(data[old(pos)]) && pos == old(pos) + 1
      ensures |data| <= old(pos) ==> ch == WEOF && pos == old(pos)
    {
      if pos < |data| {
        ch := Char(data[pos]);
        pos := pos + 1;
      } else {
        ch := WEOF;
      }
    }

    /**
     * The `do { putwchar } while` loop of the parallel engine: `first` was
     * just read and is not a newline; copies it and the rest of its line,
     * and consumes the newline that ends the line, if there is one.
     */
    method RestOfLine(first: char) returns (text: seq<char>)
      requires open && 1 <= pos <= |data| && data[pos - 1] == first && first != '\n'
      modifies this`pos
      ensures pos <= |data|
      ensures text == FirstLine(old(data[pos - 1..]))
      ensures data[pos..] == AfterLine(old(data[pos - 1..]))
    {
      ghost var line := old(data[pos - 1..]);
      assert line == [first] + data[pos..];
      text := [first];
      var ich := GetWc();
      while ich.Char? && ich.c != '\n'
        invariant pos <= |data|
        invariant ich.Char? ==> 1 <= pos && data[pos - 1] == ich.c
        invariant ich.Char? ==> text + FirstLine(data[pos - 1..]) == FirstLine(line)
        invariant ich.Char? ==> AfterLine(data[pos - 1..]) == AfterLine(line)
        invariant ich.WEOF? ==> pos == |data| && text == FirstLine(line) && AfterLine(line) == []
        decreases |data| - pos + if ich.Char? then 1 else 0
      {
        assert data[pos - 1..] == [ich.c] + data[pos..];
        text := text + [ich.c];
        ich := GetWc();
      }
      if ich.Char? {
        assert data[pos - 1..] == ['\n'] + data[pos..];
      }
    }
  }

  /** No record appears twice in the list. */
  predicate Distinct(ls: seq<Stream>) {
    forall j, k :: 0 <= j < k < |ls| ==> ls[j] != ls[k]
  }

  /** The contents of the streams, in list order. */
  function Inputs(ls: seq<Stream>): (inputs: seq<seq<char>>)
    ensures |inputs| == |ls| && forall j :: 0 <= j < |ls| ==> inputs[j] == ls[j].data
  {
    seq(|ls|, j requires 0 <= j < |ls| => ls[j].data)
  }
}
