/**
 * The default (column-wise) mode of paste: every round takes the next line
 * of each input and prints them side by side, separated by the cyclic
 * delimiters, until every input is exhausted.
 */
module ParallelPaste {
  import opened Text
  import opened Delimiters
  import opened Streams

  /** The lines of every input, in input order. */
  function AllLines(inputs: seq<seq<char>>): (L: seq<seq<seq<char>>>)
    ensures |L| == |inputs| && forall j :: 0 <= j < |inputs| ==> L[j] == Lines(inputs[j])
  {
    seq(|inputs|, j requires 0 <= j < |inputs| => Lines(inputs[j]))
  }

  /** The largest number of lines of any input. */
  function MaxLen<T>(L: seq<seq<T>>): (m: nat)
    ensures forall j :: 0 <= j < |L| ==> |L[j]| <= m
    ensures |L| > 0 ==> exists j :: 0 <= j < |L| && |L[j]| == m
    ensures |L| == 0 ==> m == 0
  {
    if L == [] then 0
    else
      var m := MaxLen(L[1..]);
      assert forall j :: 1 <= j < |L| ==> L[j] == L[1..][j - 1];
      if |L[0]| > m then |L[0]| else m
  }

  /** Column `j` of row `r`: input `j`'s line `r`, or nothing once that input is exhausted. */
  function Col(L: seq<seq<seq<char>>>, r: nat, j: nat): seq<char>
    requires j < |L|
  {
    if r < |L[j]| then L[j][r] else []
  }

  /** What is printed before column `j`: nothing before the first, `DelimAt(j - 1)` before the others. */
  function Sep(delim: seq<char>, j: nat): seq<char>
    requires |delim| > 0
  {
    if j == 0 then [] else DelimAt(delim, j - 1)
  }

  /** Columns `0 .. i - 1` of row `r`, each but the first preceded by its separator. */
  function Joined(L: seq<seq<seq<char>>>, delim: seq<char>, r: nat, i: nat): seq<char>
    requires |delim| > 0 && i <= |L|
  {
    if i == 0 then [] else Joined(L, delim, r, i - 1) + Sep(delim, i - 1) + Col(L, r, i - 1)
  }

  /** One of the inputs `0 .. i - 1` has a line for row `r`. */
  predicate AnyLine(L: seq<seq<seq<char>>>, r: nat, i: nat)
    requires i <= |L|
  {
    exists j :: 0 <= j < i && r < |L[j]|
  }

  /** Some input still has a line for row `r`. */
  predicate Produces(L: seq<seq<seq<char>>>, r: nat) {
    AnyLine(L, r, |L|)
  }

  /** Row `r` as printed: its joined columns and a newline, or nothing if no input has a line `r`. */
  function Row(L: seq<seq<seq<char>>>, delim: seq<char>, r: nat): seq<char>
    requires |delim| > 0
  {
    if Produces(L, r) then Joined(L, delim, r, |L|) + ['\n'] else []
  }

  /** Rows `0 .. r - 1`, in order. */
  function Rows(L: seq<seq<seq<char>>>, delim: seq<char>, r: nat): seq<char>
    requires |delim| > 0
  {
    if r == 0 then [] else Rows(L, delim, r - 1) + Row(L, delim, r - 1)
  }

  /** The whole output of the parallel mode for the given inputs. */
  function ParallelOutput(inputs: seq<seq<char>>, delim: seq<char>): seq<char>
    requires |delim| > 0
  {
    var L := AllLines(inputs);
    Rows(L, delim, MaxLen(L))
  }

  /** The delimiters printed for positions `0 .. c - 1`: the catch-up run. */
  function DelimRun(delim: seq<char>, c: nat): seq<char>
    requires |delim| > 0
  {
    if c == 0 then [] else DelimRun(delim, c - 1) + DelimAt(delim, c - 1)
  }

  /** How many of the inputs `lo ..` are still open at the start of round `r`. */
  function OpenFrom(L: seq<seq<seq<char>>>, r: nat, lo: nat): nat
    requires lo <= |L|
    decreases |L| - lo
  {
    if lo == |L| then 0 else (if r <= |L[lo]| then 1 else 0) + OpenFrom(L, r, lo + 1)
  }

  /** How many of the inputs `.. hi - 1` are still open at the start of round `r`. */
  function OpenTo(L: seq<seq<seq<char>>>, r: nat, hi: nat): nat
    requires hi <= |L|
  {
    if hi == 0 then 0 else OpenTo(L, r, hi - 1) + if r <= |L[hi - 1]| then 1 else 0
  }

  /** Counting the open inputs from either end gives the same number. */
  lemma {:induction false} OpenSplit(L: seq<seq<seq<char>>>, r: nat, m: nat)
    requires m <= |L|
    ensures OpenTo(L, r, m) + OpenFrom(L, r, m) == OpenFrom(L, r, 0)
  {
    if m > 0 {
      OpenSplit(L, r, m - 1);
    }
  }

  /** No input from `lo` on is open at round `r` exactly when all of them have fewer than `r` lines. */
  lemma {:induction false} OpenFromZero(L: seq<seq<seq<char>>>, r: nat, lo: nat)
    requires lo <= |L|
    ensures OpenFrom(L, r, lo) == 0 <==> forall j :: lo <= j < |L| ==> |L[j]| < r
    decreases |L| - lo
  {
    if lo < |L| {
      OpenFromZero(L, r, lo + 1);
    }
  }

  /** No input before `hi` is open at round `r` exactly when all of them have fewer than `r` lines. */
  lemma {:induction false} OpenToZero(L: seq<seq<seq<char>>>, r: nat, hi: nat)
    requires hi <= |L|
    ensures OpenTo(L, r, hi) == 0 <==> forall j :: 0 <= j < hi ==> |L[j]| < r
  {
    if hi > 0 {
      OpenToZero(L, r, hi - 1);
    }
  }

  /** Visiting input `i` moves it from the count for round `r` to the count for round `r + 1`. */
  lemma OpenStep(L: seq<seq<seq<char>>>, r: nat, i: nat)
    requires i < |L|
    ensures OpenTo(L, r + 1, i + 1) + OpenFrom(L, r, i + 1)
         == OpenTo(L, r + 1, i) + OpenFrom(L, r, i) - if r == |L[i]| then 1 else 0
  {
  }

  /** In the first round every input is open. */
  lemma {:induction false} OpenFromStart(L: seq<seq<seq<char>>>, lo: nat)
    requires lo <= |L|
    ensures OpenFrom(L, 0, lo) == |L| - lo
    decreases |L| - lo
  {
    if lo < |L| {
      OpenFromStart(L, lo + 1);
    }
  }

  /**
   * Before the first column that has a line, the row holds only separators,
   * and they are exactly the catch-up run of delimiters `0 .. i - 1`.
   */
  lemma {:induction false} CatchUp(L: seq<seq<seq<char>>>, delim: seq<char>, r: nat, i: nat)
    requires |delim| > 0 && i <= |L|
    requires forall j :: 0 <= j < i ==> |L[j]| <= r
    ensures Joined(L, delim, r, i) + Sep(delim, i) == DelimRun(delim, i)
  {
    if i > 0 {
      CatchUp(L, delim, r, i - 1);
      assert Col(L, r, i - 1) == [];
    }
  }

  /**
   * The round in which the last open stream reports end of file prints
   * nothing: no input has a line for it, and none is left open after it.
   */
  lemma ParallelLastRound(L: seq<seq<seq<char>>>, r: nat, i: nat)
    requires i < |L| && r == |L[i]|
    requires OpenTo(L, r + 1, i) + OpenFrom(L, r, i) == 1
    ensures forall j :: 0 <= j < i ==> |L[j]| <= r
    ensures forall j :: i < j < |L| ==> |L[j]| < r
    ensures !AnyLine(L, r, i) && !Produces(L, r) && OpenFrom(L, r + 1, 0) == 0
  {
    OpenToZero(L, r + 1, i);
    OpenFromZero(L, r, i + 1);
    OpenFromZero(L, r + 1, 0);
  }

  /**
   * The stream behind input `j` is in step with round `r`: it is still open
   * exactly when the input has at least `r` lines, an open stream has lines
   * `r ..` left to deliver, and a closed one is used up.
   */
  ghost predicate Synced(s: Stream, lines: seq<seq<char>>, r: nat)
    reads s
  {
    && s.pos <= |s.data|
    && (s.open <==> r <= |lines|)
    && (s.open ==> Lines(s.data[s.pos..]) == lines[r..])
    && (!s.open ==> s.pos == |s.data|)
  }

  /** Every stream of the list is in step with round `r`. */
  ghost predicate InStep(ls: seq<Stream>, L: seq<seq<seq<char>>>, r: nat)
    reads ls
  {
    |L| == |ls| && forall j :: 0 <= j < |ls| ==> Synced(ls[j], L[j], r)
  }

  /** The state `parallel` leaves: every stream used up, at most one record still marked open. */
  ghost predicate Drained(ls: seq<Stream>)
    reads ls
  {
    && (forall j :: 0 <= j < |ls| ==> ls[j].pos == |ls[j].data|)
    && (forall j, k :: 0 <= j < k < |ls| && ls[j].open ==> !ls[k].open)
  }

  /** At entry every stream is open and unread: all are in step with round 0. */
  lemma StartInStep(ls: seq<Stream>, L: seq<seq<seq<char>>>)
    requires forall j :: 0 <= j < |ls| ==> ls[j].open && ls[j].pos == 0
    requires L == AllLines(Inputs(ls))
    ensures InStep(ls, L, 0)
  {
    forall j | 0 <= j < |ls| ensures Synced(ls[j], L[j], 0) {
      assert ls[j].data[0..] == ls[j].data;
    }
  }

  /** How many of the records `lo ..` are still marked open. */
  ghost function OpenRecords(ls: seq<Stream>, lo: nat): nat
    requires lo <= |ls|
    reads ls
    decreases |ls| - lo
  {
    if lo == |ls| then 0 else (if ls[lo].open then 1 else 0) + OpenRecords(ls, lo + 1)
  }

  /** When the list is in step with round `r`, the open records are the inputs open for round `r`. */
  lemma {:induction false} OpenRecordsInStep(ls: seq<Stream>, L: seq<seq<seq<char>>>, r: nat, lo: nat)
    requires InStep(ls, L, r) && lo <= |ls|
    ensures OpenRecords(ls, lo) == OpenFrom(L, r, lo)
    decreases |ls| - lo
  {
    if lo < |ls| {
      OpenRecordsInStep(ls, L, r, lo + 1);
      assert Synced(ls[lo], L[lo], r);
    }
  }

  /**
   * The round ends early when the last open stream `i` reports end of file:
   * nothing is printed for it, none is open for the next round, and the
   * list is drained.
   */
  lemma RoundStops(ls: seq<Stream>, L: seq<seq<seq<char>>>, delim: seq<char>, r: nat, i: nat, output: bool, row: seq<char>)
    requires |delim| > 0 && |L| == |ls| && i < |ls| && r == |L[i]| && ls[i].pos == |ls[i].data|
    requires OpenTo(L, r + 1, i) + OpenFrom(L, r, i) == 1
    requires Midway(ls, L, r, i) && output == AnyLine(L, r, i)
    requires row == if output then Joined(L, delim, r, i) else []
    ensures !output && row == [] == Row(L, delim, r)
    ensures OpenFrom(L, r + 1, 0) == 0 && Drained(ls)
  {
    ParallelLastRound(L, r, i);
    SyncedFromIff(ls, L, r, i, 0);
  }

  /** After the last record, the row is complete and every stream is in step with the next round. */
  lemma RoundEnds(ls: seq<Stream>, L: seq<seq<seq<char>>>, delim: seq<char>, r: nat, output: bool, row: seq<char>, opencnt: int)
    requires |delim| > 0 && |L| == |ls|
    requires opencnt == OpenTo(L, r + 1, |L|) + OpenFrom(L, r, |L|)
    requires Midway(ls, L, r, |ls|) && output == AnyLine(L, r, |L|)
    requires row == if output then Joined(L, delim, r, |L|) else []
    ensures opencnt == OpenFrom(L, r + 1, 0) && InStep(ls, L, r + 1)
    ensures opencnt == OpenRecords(ls, 0)
    ensures (if output then row + ['\n'] else row) == Row(L, delim, r)
  {
    OpenSplit(L, r + 1, |L|);
    SyncedFromIff(ls, L, r, |ls|, 0);
    OpenRecordsInStep(ls, L, r + 1, 0);
  }

  /** A stream with characters left still has a line for the current round: the first one. */
  lemma LinesUncons(rest: seq<char>, lines: seq<seq<char>>, r: nat)
    requires rest != [] && r <= |lines| && Lines(rest) == lines[r..]
    ensures r < |lines| && lines[r] == FirstLine(rest) && Lines(AfterLine(rest)) == lines[r + 1..]
  {
    assert lines[r..][0] == lines[r];
    assert lines[r..][1..] == lines[r + 1..];
  }

  /** A used-up stream has no line left for the current round. */
  lemma LinesEnd(rest: seq<char>, lines: seq<seq<char>>, r: nat)
    requires rest == [] && r <= |lines| && Lines(rest) == lines[r..]
    ensures r == |lines|
  {
    assert |lines[r..]| == 0;
  }

  /**
   * What visiting column `i` of round `r` prints when it does not end the
   * round: the separator (or, for the first column that has a line, the
   * whole catch-up run) and the column's line.
   */
  function Emit(lines: seq<seq<char>>, delim: seq<char>, r: nat, i: nat, output: bool): seq<char>
    requires |delim| > 0
  {
    if r < |lines| then (if output then Sep(delim, i) else DelimRun(delim, i)) + lines[r]
    else if output then Sep(delim, i)
    else []
  }

  /** Visiting column `i` extends the row printed so far by what `Emit` says. */
  lemma JoinedStep(L: seq<seq<seq<char>>>, delim: seq<char>, r: nat, i: nat, output: bool)
    requires |delim| > 0 && i < |L|
    requires output == AnyLine(L, r, i)
    ensures AnyLine(L, r, i + 1) == (output || r < |L[i]|)
    ensures (if output || r < |L[i]| then Joined(L, delim, r, i + 1) else [])
         == (if output then Joined(L, delim, r, i) else []) + Emit(L[i], delim, r, i, output)
  {
    if !output && r < |L[i]| {
      CatchUp(L, delim, r, i);
    }
  }

  /** Rows past the longest input print nothing. */
  lemma {:induction false} RowsStable(L: seq<seq<seq<char>>>, delim: seq<char>, m: nat, r: nat)
    requires |delim| > 0 && m <= r
    requires forall j :: 0 <= j < |L| ==> |L[j]| <= m
    ensures Rows(L, delim, r) == Rows(L, delim, m)
    decreases r
  {
    if r > m {
      RowsStable(L, delim, m, r - 1);
      assert !Produces(L, r - 1);
    }
  }

  /** The separator printed before column `lp.cnt` when some earlier column had a line. */
  method Separator(delim: seq<char>, cnt: int, output: bool) returns (w: seq<char>)
    requires |delim| > 0 && cnt >= 0
    ensures w == if output then Sep(delim, cnt) else []
  {
    w := [];
    // paste.c indexes with C's truncating `%`, which agrees with Dafny's
    // here because the ordinal is at least 1
    if output && cnt != 0 {
      var ch := delim[(cnt - 1) % |delim|];
      if ch != '\0' {
        w := [ch];
      }
    }
  }

  /**
   * One pass of the list walk of `parallel` over the record `lp`, whose
   * input has the lines `lines`: a closed record prints its separator; an
   * open one reads, and at end of file either ends the round (it was the
   * last open input) or is closed and prints its separator; otherwise it
   * prints its separator (or the catch-up run) and its line.
   */
  method Visit(lp: Stream, ghost lines: seq<seq<char>>, ghost r: nat, delim: seq<char>, output: bool, opencnt: int)
    returns (opencnt': int, output': bool, piece: seq<char>, stop: bool)
    requires |delim| > 0 && lp.cnt >= 0 && opencnt >= 1 && Synced(lp, lines, r)
    requires output ==> lp.cnt > 0
    modifies lp
    ensures opencnt' == opencnt - if r == |lines| then 1 else 0
    ensures stop <==> r == |lines| && opencnt == 1
    ensures output' == (output || r < |lines|)
    ensures !old(lp.open) ==> !lp.open && lp.pos == old(lp.pos)
    ensures stop ==> piece == [] && lp.open && lp.pos == |lp.data|
    ensures !stop ==> piece == Emit(lines, delim, r, lp.cnt, output) && Synced(lp, lines, r + 1)
  {
    opencnt', output', stop := opencnt, output, false;
    if !lp.open {
      piece := Separator(delim, lp.cnt, output);
      return;
    }
    ghost var rest := lp.data[lp.pos..];
    var ich := lp.GetWc();
    if ich == WEOF {
      LinesEnd(rest, lines, r);
      opencnt' := opencnt - 1;
      if opencnt' == 0 {
        stop, piece := true, [];
        return;
      }
      lp.open := false;
      piece := Separator(delim, lp.cnt, output);
      return;
    }
    LinesUncons(rest, lines, r);
    // make sure that no delimiter is printed before some input has a line
    if !output {
      output' := true;
      piece := [];
      for c := 0 to lp.cnt
        invariant piece == DelimRun(delim, c)
      {
        var ch := delim[c % |delim|];
        if ch != '\0' {
          piece := piece + [ch];
        }
      }
    } else {
      // paste.c tests no `lp->cnt` here; by the precondition the ordinal is
      // at least 1 once output has started, so the test in `Separator` holds
      piece := Separator(delim, lp.cnt, output);
    }
    assert rest == [ich.c] + lp.data[lp.pos..];
    if ich.c == '\n' {
      assert FirstLine(rest) == [] && AfterLine(rest) == lp.data[lp.pos..];
    } else {
      var text := lp.RestOfLine(ich.c);
      piece := piece + text;
    }
  }

  /**
   * Part way through round `r`: the streams before `i` have been visited
   * and are in step with round `r + 1`, the others still with round `r`.
   */
  ghost predicate Midway(ls: seq<Stream>, L: seq<seq<seq<char>>>, r: nat, i: nat)
    reads ls
  {
    |L| == |ls| && SyncedFrom(ls, L, r, i, 0)
  }

  /** The streams from `k` on are in step as `Midway` says. */
  ghost predicate SyncedFrom(ls: seq<Stream>, L: seq<seq<seq<char>>>, r: nat, i: nat, k: nat)
    requires |L| == |ls|
    reads ls
    decreases |ls| - k
  {
    k >= |ls| || (Synced(ls[k], L[k], if k < i then r + 1 else r) && SyncedFrom(ls, L, r, i, k + 1))
  }

  /** `SyncedFrom` is the quantified statement it stands for. */
  lemma {:induction false} SyncedFromIff(ls: seq<Stream>, L: seq<seq<seq<char>>>, r: nat, i: nat, k: nat)
    requires |L| == |ls|
    ensures SyncedFrom(ls, L, r, i, k) <==> forall j :: k <= j < |ls| ==> Synced(ls[j], L[j], if j < i then r + 1 else r)
    decreases |ls| - k
  {
    if k < |ls| {
      SyncedFromIff(ls, L, r, i, k + 1);
    }
  }

  /** `Visit` applied to the record at position `i` of the list, keeping the others as they are. */
  method VisitAt(ls: seq<Stream>, i: nat, ghost L: seq<seq<seq<char>>>, ghost r: nat, delim: seq<char>, output: bool, opencnt: int)
    returns (opencnt': int, output': bool, piece: seq<char>, stop: bool)
    requires |delim| > 0 && Distinct(ls) && i < |ls| && ls[i].cnt == i && opencnt >= 1 && Midway(ls, L, r, i)
    requires output ==> i > 0
    modifies ls[i]
    ensures opencnt' == opencnt - if r == |L[i]| then 1 else 0
    ensures stop <==> r == |L[i]| && opencnt == 1
    ensures output' == (output || r < |L[i]|)
    ensures stop ==> piece == [] && ls[i].pos == |ls[i].data| && Midway(ls, L, r, i)
    ensures !stop ==> piece == Emit(L[i], delim, r, i, output) && Midway(ls, L, r, i + 1)
  {
    SyncedFromIff(ls, L, r, i, 0);
    opencnt', output', piece, stop := Visit(ls[i], L[i], r, delim, output, opencnt);
    SyncedFromIff(ls, L, r, if stop then i else i + 1, 0);
  }

  /**
   * One round of `parallel`: walks the list once. The round prints row `r`
   * and leaves every stream in step with round `r + 1`, unless it ends the
   * whole run, which happens exactly when no input is open for round
   * `r + 1`; then every stream is used up and at most one record is still
   * marked open.
   */
  method Round(ls: seq<Stream>, delim: seq<char>, ghost L: seq<seq<seq<char>>>, ghost r: nat, opencnt: int)
    returns (opencnt': int, row: seq<char>)
    requires |delim| > 0 && Distinct(ls) && |L| == |ls|
    requires (forall j :: 0 <= j < |ls| ==> ls[j].cnt == j) && InStep(ls, L, r)
    requires opencnt == OpenFrom(L, r, 0) && opencnt != 0
    modifies ls
    ensures opencnt' == OpenFrom(L, r + 1, 0) && row == Row(L, delim, r)
    ensures opencnt' != 0 ==> InStep(ls, L, r + 1) && opencnt' == OpenRecords(ls, 0)
    ensures opencnt' == 0 ==> Drained(ls)
  {
    opencnt' := opencnt;
    SyncedFromIff(ls, L, r, 0, 0);
    var output := false;
    row := [];
    for i := 0 to |ls|
      invariant opencnt' > 0 && opencnt' == OpenTo(L, r + 1, i) + OpenFrom(L, r, i)
      invariant Midway(ls, L, r, i)
      invariant output == AnyLine(L, r, i)
      invariant row == if output then Joined(L, delim, r, i) else []
    {
      var piece, stop;
      JoinedStep(L, delim, r, i, output);
      OpenStep(L, r, i);
      opencnt', output, piece, stop := VisitAt(ls, i, L, r, delim, output, opencnt');
      if stop {
        RoundStops(ls, L, delim, r, i, output, row);
        opencnt' := 0;
        return;
      }
      row := row + piece;
    }
    RoundEnds(ls, L, delim, r, output, row, opencnt');
    if output {
      row := row + ['\n'];
    }
  }

  /**
   * `parallel`: prints the rows of the inputs `ls` (in list order,
   * `ls[j].cnt == j`) until every stream has reported end of file; returns 0.
   * Every stream is read to its end, and at most one record (the one on
   * which the final round stops) is left marked open.
   */
  method Parallel(ls: seq<Stream>, delim: seq<char>) returns (rval: int, out: seq<char>)
    requires |delim| > 0 && Distinct(ls)
    requires forall j :: 0 <= j < |ls| ==> ls[j].cnt == j && ls[j].open && ls[j].pos == 0
    modifies ls
    ensures rval == 0
    ensures out == ParallelOutput(Inputs(ls), delim)
    ensures forall j :: 0 <= j < |ls| ==> ls[j].pos == |ls[j].data|
    ensures forall j, k :: 0 <= j < k < |ls| && ls[j].open ==> !ls[k].open
  {
    ghost var L := AllLines(Inputs(ls));
    ghost var M := MaxLen(L);
    ghost var r: nat := 0;  // the round
    OpenFromStart(L, 0);
    StartInStep(ls, L);
    OpenRecordsInStep(ls, L, 0, 0);
    out := [];
    var opencnt := |ls|;
    while opencnt != 0
      invariant r <= M + 1 && opencnt == OpenFrom(L, r, 0)
      invariant forall j :: 0 <= j < |ls| ==> ls[j].cnt == j
      invariant opencnt != 0 ==> InStep(ls, L, r) && opencnt == OpenRecords(ls, 0)
      invariant opencnt == 0 ==> Drained(ls)
      invariant out == Rows(L, delim, r)
      decreases M + 1 - r
    {
      OpenFromZero(L, r, 0);
      var row;
      opencnt, row := Round(ls, delim, L, r, opencnt);
      out := out + row;
      r := r + 1;
    }
    OpenFromZero(L, r, 0);
    RowsStable(L, delim, M, r);
    rval := 0;
  }

  /** Without inputs the parallel mode prints nothing. */
  lemma ParallelNoInputs(delim: seq<char>)
    requires |delim| > 0
    ensures ParallelOutput([], delim) == []
  {
    assert MaxLen(AllLines([])) == 0;
  }

  /** Row `r` is printed exactly when it is below the largest line count. */
  lemma ProducesIff(L: seq<seq<seq<char>>>, r: nat)
    ensures Produces(L, r) <==> r < MaxLen(L)
  {
    if r < MaxLen(L) {
      var j :| 0 <= j < |L| && |L[j]| == MaxLen(L);
      assert r < |L[j]|;
    }
  }

  /** Newline-free columns joined by newline-free delimiters hold no newline. */
  lemma {:induction false} JoinedNoNewline(L: seq<seq<seq<char>>>, delim: seq<char>, r: nat, i: nat)
    requires |delim| > 0 && '\n' !in delim && i <= |L|
    requires forall j, k :: 0 <= j < |L| && 0 <= k < |L[j]| ==> '\n' !in L[j][k]
    ensures '\n' !in Joined(L, delim, r, i)
  {
    if i > 0 {
      JoinedNoNewline(L, delim, r, i - 1);
      var w := Sep(delim, i - 1);
      assert '\n' !in w by {
        if w != [] {
          assert w == [w[0]] && w[0] in delim;
        }
      }
    }
  }

  /** Rows `0 .. r - 1` hold one newline for each row below the largest line count. */
  lemma {:induction false} RowsNewlines(L: seq<seq<seq<char>>>, delim: seq<char>, r: nat)
    requires |delim| > 0 && '\n' !in delim
    requires forall j, k :: 0 <= j < |L| && 0 <= k < |L[j]| ==> '\n' !in L[j][k]
    ensures multiset(Rows(L, delim, r))['\n'] == if r <= MaxLen(L) then r else MaxLen(L)
  {
    if r > 0 {
      RowsNewlines(L, delim, r - 1);
      ProducesIff(L, r - 1);
      JoinedNoNewline(L, delim, r - 1, |L|);
      var j := Joined(L, delim, r - 1, |L|);
      assert multiset(j)['\n'] == 0;
    }
  }

  /**
   * With no newline among the delimiters, the output has one newline per
   * row, and there are as many rows as the longest input has lines.
   */
  lemma RowCount(inputs: seq<seq<char>>, delim: seq<char>)
    requires |delim| > 0 && '\n' !in delim
    ensures multiset(ParallelOutput(inputs, delim))['\n'] == MaxLen(AllLines(inputs))
  {
    var L := AllLines(inputs);
    forall j, k | 0 <= j < |L| && 0 <= k < |L[j]| ensures '\n' !in L[j][k] {
      assert L[j] == Lines(inputs[j]);
    }
    RowsNewlines(L, delim, MaxLen(L));
  }

  /** A prefix one longer is the shorter prefix and one more element (an instantiation hint). */
  lemma PrefixSnoc<T>(s: seq<T>, n: nat)
    requires 0 < n <= |s|
    ensures s[..n] == s[..n - 1] + [s[n - 1]]
  {
  }

  /** With a single input, row `r` is that input's line `r`: the rows are its lines, each terminated. */
  lemma {:induction false} RowsSingle(lines: seq<seq<char>>, delim: seq<char>, r: nat)
    requires |delim| > 0 && r <= |lines|
    ensures Rows([lines], delim, r) == Terminated(lines[..r])
  {
    if r > 0 {
      var L := [lines];
      RowsSingle(lines, delim, r - 1);
      assert Produces(L, r - 1) by {
        assert r - 1 < |L[0]|;
      }
      assert Joined(L, delim, r - 1, 1) == lines[r - 1] by {
        assert Joined(L, delim, r - 1, 0) == [] && Sep(delim, 0) == [];
        assert Col(L, r - 1, 0) == lines[r - 1];
      }
      assert Row(L, delim, r - 1) == lines[r - 1] + ['\n'];
      PrefixSnoc(lines, r);
      TerminatedSnoc(lines[..r - 1], lines[r - 1]);
    }
  }

  /**
   * Pasting one input in parallel prints it back, with a newline added when
   * its last line has none.
   */
  lemma SingleInput(s: seq<char>, delim: seq<char>)
    requires |delim| > 0
    ensures ParallelOutput([s], delim) == if s == [] || EndsWithNewline(s) then s else s + ['\n']
  {
    var L := AllLines([s]);
    assert L == [Lines(s)];
    RowsSingle(Lines(s), delim, |Lines(s)|);
    assert Lines(s)[..|Lines(s)|] == Lines(s);
    LinesRoundTrip(s);
  }

  /** With two inputs, a row is the first column, the first delimiter, and the second column. */
  lemma TwoColumns(L: seq<seq<seq<char>>>, delim: seq<char>, r: nat)
    requires |delim| > 0 && |L| == 2
    ensures Joined(L, delim, r, 2) == Col(L, r, 0) + DelimAt(delim, 0) + Col(L, r, 1)
  {
    assert Joined(L, delim, r, 1) == Col(L, r, 0);
  }

  /**
   * Two inputs of unequal length, given by their lines: the missing third
   * line of the shorter one leaves an empty column after the delimiter.
   */
  lemma TwoInputsExample()
    ensures var L: seq<seq<seq<char>>> := [["1", "2", "3"], ["a", "b"]];
      MaxLen(L) == 3 && Rows(L, ",", MaxLen(L)) == "1,a\n2,b\n3,\n"
  {
    var L: seq<seq<seq<char>>> := [["1", "2", "3"], ["a", "b"]];
    assert |L[0]| == 3 && |L[1]| == 2;
    ProducesIff(L, 0);
    ProducesIff(L, 1);
    ProducesIff(L, 2);
    TwoColumns(L, ",", 0);
    TwoColumns(L, ",", 1);
    TwoColumns(L, ",", 2);
    assert Row(L, ",", 0) == "1,a\n";
    assert Row(L, ",", 1) == "2,b\n";
    assert Row(L, ",", 2) == "3,\n";
    assert Rows(L, ",", 3) == Row(L, ",", 0) + Row(L, ",", 1) + Row(L, ",", 2);
  }
}
