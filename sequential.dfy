/**
 * The serial mode of paste (`-s`): each input in turn is copied with its
 * newlines replaced by the cyclic delimiters, except a newline that ends
 * the input, which stays a newline; the delimiter cycle restarts for every
 * input, and an input whose open failed is skipped and reported.
 */
module SequentialPaste {
  import opened Text
  import opened Delimiters
  import opened Streams

  /**
   * `s` as the serial mode prints it when `k` newlines of the input have
   * already been met: every newline but a final one becomes the delimiter
   * for its position in the cycle.
   */
  function Replaced(s: seq<char>, delim: seq<char>, k: nat): seq<char>
    requires |delim| > 0
    decreases |s|
  {
    if s == [] then []
    else if s[0] == '\n' then
      if |s| == 1 then ['\n'] else DelimAt(delim, k) + Replaced(s[1..], delim, k + 1)
    else [s[0]] + Replaced(s[1..], delim, k)
  }

  /** The lines `ls`, each pair separated by the delimiter for its position, starting at `k`. */
  function JoinCyclic(ls: seq<seq<char>>, delim: seq<char>, k: nat): seq<char>
    requires |delim| > 0
  {
    if ls == [] then []
    else if |ls| == 1 then ls[0]
    else ls[0] + DelimAt(delim, k) + JoinCyclic(ls[1..], delim, k + 1)
  }

  /** The error recorded for each record, in list order. */
  function Errors(ls: seq<Stream>): (errs: seq<int>)
    ensures |errs| == |ls| && forall j :: 0 <= j < |ls| ==> errs[j] == ls[j].err
  {
    seq(|ls|, j requires 0 <= j < |ls| => ls[j].err)
  }

  /** The serial-mode output of the first `n` inputs: each input without an error, replaced. */
  function SequentialOutput(inputs: seq<seq<char>>, errs: seq<int>, delim: seq<char>, n: nat): seq<char>
    requires |delim| > 0 && n <= |inputs| == |errs|
  {
    if n == 0 then []
    else SequentialOutput(inputs, errs, delim, n - 1) + if errs[n - 1] == 0 then Replaced(inputs[n - 1], delim, 0) else []
  }

  /** Some input before `n` carries an open error. */
  predicate AnyFailed(errs: seq<int>, n: nat)
    requires n <= |errs|
  {
    exists j :: 0 <= j < n && errs[j] != 0
  }

  /** Concatenation is associative (an instantiation hint for the solver). */
  lemma Assoc<T>(a: seq<T>, b: seq<T>, c: seq<T>)
    ensures a + (b + c) == (a + b) + c
  {
  }

  /** The last element of a concatenation with a nonempty right part is that part's last (an instantiation hint). */
  lemma LastOfConcat<T>(x: seq<T>, y: seq<T>)
    requires y != []
    ensures (x + y)[|x + y| - 1] == y[|y| - 1]
  {
  }

  /** A newline-free prefix is copied as it is. */
  lemma {:induction false} ReplacedPlain(f: seq<char>, r: seq<char>, delim: seq<char>, k: nat)
    requires |delim| > 0 && '\n' !in f
    ensures Replaced(f + r, delim, k) == f + Replaced(r, delim, k)
    decreases |f|
  {
    if f == [] {
      assert f + r == r;
    } else {
      ReplacedPlain(f[1..], r, delim, k);
      assert (f + r)[1..] == f[1..] + r;
      assert f == [f[0]] + f[1..];
    }
  }

  /** A newline ends the output when nothing follows it, and otherwise becomes the delimiter for position `k`. */
  lemma ReplacedNewline(r: seq<char>, delim: seq<char>, k: nat)
    requires |delim| > 0
    ensures Replaced(['\n'] + r, delim, k) == if r == [] then ['\n'] else DelimAt(delim, k) + Replaced(r, delim, k + 1)
  {
    assert (['\n'] + r)[1..] == r;
  }

  /** What `ReplacedByLines` states about `s` for the newline count `k`. */
  ghost predicate ByLines(s: seq<char>, delim: seq<char>, k: nat)
    requires |delim| > 0
  {
    Replaced(s, delim, k) == JoinCyclic(Lines(s), delim, k) + if EndsWithNewline(s) then ['\n'] else []
  }

  /** A last line without a newline is copied as it is. */
  lemma ByLinesPlain(s: seq<char>, delim: seq<char>, k: nat)
    requires |delim| > 0 && s != [] && '\n' !in s
    ensures ByLines(s, delim, k)
  {
    SplitLine(s);
    ReplacedPlain(s, [], delim, k);
    assert s + [] == s;
    assert s[|s| - 1] in s;
    assert Lines(s) == [s] + Lines([]);
  }

  /** A last line with its newline is copied with the newline. */
  lemma ByLinesLast(s: seq<char>, delim: seq<char>, k: nat)
    requires |delim| > 0 && s != [] && '\n' in s && AfterLine(s) == []
    ensures ByLines(s, delim, k)
  {
    var f := FirstLine(s);
    SplitLine(s);
    assert f + ['\n'] + [] == f + ['\n'];
    assert s == f + ['\n'];
    ReplacedPlain(f, ['\n'], delim, k);
    ReplacedNewline([], delim, k);
    assert ['\n'] + [] == ['\n'];
    assert Replaced(s, delim, k) == f + ['\n'];
    assert EndsWithNewline(s);
    assert Lines(s) == [f];
    assert JoinCyclic([f], delim, k) == f;
  }

  /** A line followed by more input is copied, then the delimiter for position `k`, then the rest. */
  lemma ReplacedMore(s: seq<char>, delim: seq<char>, k: nat)
    requires |delim| > 0 && '\n' in s && AfterLine(s) != []
    ensures Replaced(s, delim, k) == FirstLine(s) + DelimAt(delim, k) + Replaced(AfterLine(s), delim, k + 1)
  {
    var f, a := FirstLine(s), AfterLine(s);
    SplitLine(s);
    assert s == f + (['\n'] + a);
    ReplacedPlain(f, ['\n'] + a, delim, k);
    ReplacedNewline(a, delim, k);
    Assoc(f, DelimAt(delim, k), Replaced(a, delim, k + 1));
  }

  /** An input with more after its first line ends with a newline exactly when that rest does. */
  lemma EndsLikeRest(s: seq<char>)
    requires '\n' in s && AfterLine(s) != []
    ensures EndsWithNewline(s) == EndsWithNewline(AfterLine(s))
  {
    var f, a := FirstLine(s), AfterLine(s);
    SplitLine(s);
    assert s == f + (['\n'] + a);
    LastOfConcat(['\n'], a);
    LastOfConcat(f, ['\n'] + a);
  }

  /** Joining the lines of such an input gives its first line, the delimiter for position `k`, and the other lines joined. */
  lemma JoinedMore(s: seq<char>, delim: seq<char>, k: nat)
    requires |delim| > 0 && '\n' in s && AfterLine(s) != []
    ensures JoinCyclic(Lines(s), delim, k) == FirstLine(s) + DelimAt(delim, k) + JoinCyclic(Lines(AfterLine(s)), delim, k + 1)
  {
    var ls, la := Lines(s), Lines(AfterLine(s));
    assert s != [];
    assert ls == [FirstLine(s)] + la;
    assert la != [];
    assert ls[0] == FirstLine(s) && ls[1..] == la && |ls| > 1;
  }

  /** A line followed by more input: `ReplacedByLines` carries over from the rest. */
  lemma ByLinesMore(s: seq<char>, delim: seq<char>, k: nat)
    requires |delim| > 0 && '\n' in s && AfterLine(s) != []
    requires ByLines(AfterLine(s), delim, k + 1)
    ensures ByLines(s, delim, k)
  {
    var f, a := FirstLine(s), AfterLine(s);
    var d, ja := DelimAt(delim, k), JoinCyclic(Lines(a), delim, k + 1);
    var tail := if EndsWithNewline(a) then ['\n'] else [];
    ReplacedMore(s, delim, k);
    JoinedMore(s, delim, k);
    EndsLikeRest(s);
    assert Replaced(s, delim, k) == f + d + (ja + tail);
    Assoc(f + d, ja, tail);
  }

  /**
   * The serial output of one input is its lines joined by the cyclic
   * delimiters, followed by a newline exactly when the input ends with one.
   */
  lemma {:induction false} ReplacedByLines(s: seq<char>, delim: seq<char>, k: nat)
    requires |delim| > 0
    ensures Replaced(s, delim, k) == JoinCyclic(Lines(s), delim, k) + if EndsWithNewline(s) then ['\n'] else []
    decreases |s|
  {
    if s == [] {
    } else if '\n' !in s {
      ByLinesPlain(s, delim, k);
    } else if AfterLine(s) == [] {
      ByLinesLast(s, delim, k);
    } else {
      ReplacedByLines(AfterLine(s), delim, k + 1);
      ByLinesMore(s, delim, k);
    }
  }

  /** Newlines become delimiters one for one: the output is never longer, and as long when no delimiter is NUL. */
  lemma {:induction false} ReplacedLength(s: seq<char>, delim: seq<char>, k: nat)
    requires |delim| > 0
    ensures |Replaced(s, delim, k)| <= |s|
    ensures '\0' !in delim ==> |Replaced(s, delim, k)| == |s|
    decreases |s|
  {
    if s != [] {
      ReplacedLength(s[1..], delim, k + if s[0] == '\n' then 1 else 0);
      if '\0' !in delim {
        assert delim[k % |delim|] in delim;
      }
    }
  }

  /** With a delimiter list free of newlines, an input comes out as one line, terminated when the input is. */
  lemma {:induction false} ReplacedNewlines(s: seq<char>, delim: seq<char>, k: nat)
    requires |delim| > 0 && '\n' !in delim
    ensures multiset(Replaced(s, delim, k))['\n'] == if EndsWithNewline(s) then 1 else 0
    decreases |s|
  {
    if s != [] {
      var k' := k + if s[0] == '\n' then 1 else 0;
      ReplacedNewlines(s[1..], delim, k');
      if |s| > 1 {
        assert s[|s| - 1] == s[1..][|s| - 2];
        var w := DelimAt(delim, k);
        assert multiset(w)['\n'] == 0 by {
          if w != [] {
            assert w == [w[0]];
          }
        }
      }
    }
  }

  /**
   * The output of an input ends where the input ends: an empty input prints
   * nothing, and otherwise the last character printed is the input's last,
   * so a newline is printed at the end exactly when the input ends with one.
   */
  lemma {:induction false} ReplacedLast(s: seq<char>, delim: seq<char>, k: nat)
    requires |delim| > 0
    ensures var out := Replaced(s, delim, k);
      (out == [] <==> s == []) && (s != [] ==> out[|out| - 1] == s[|s| - 1])
    decreases |s|
  {
    if |s| > 1 {
      var k' := k + if s[0] == '\n' then 1 else 0;
      var pre := if s[0] == '\n' then DelimAt(delim, k) else [s[0]];
      ReplacedLast(s[1..], delim, k');
      assert Replaced(s, delim, k) == pre + Replaced(s[1..], delim, k');
      LastOfConcat(pre, Replaced(s[1..], delim, k'));
      assert s[|s| - 1] == s[1..][|s| - 2];
    }
  }

  /** With the newline as the only delimiter, the serial mode copies its input unchanged. */
  lemma {:induction false} ReplacedIdentity(s: seq<char>, k: nat)
    ensures Replaced(s, ['\n'], k) == s
    decreases |s|
  {
    if s != [] {
      ReplacedIdentity(s[1..], k + if s[0] == '\n' then 1 else 0);
      assert s == [s[0]] + s[1..];
    }
  }

  /** `paste -s -d -` on the input `x`, newline, `y`, newline. */
  lemma ReplacedExample()
    ensures Replaced(['x', '\n', 'y', '\n'], ['-'], 0) == ['x', '-', 'y', '\n']
  {
    var s := ['x', '\n', 'y', '\n'];
    assert s[1..] == ['\n', 'y', '\n'];
    assert s[1..][1..] == ['y', '\n'];
    assert s[1..][1..][1..] == ['\n'];
  }

  /** Newlines of a concatenation are those of its parts (an instantiation hint). */
  lemma NewlinesConcat(a: seq<char>, b: seq<char>)
    ensures multiset(a + b)['\n'] == multiset(a)['\n'] + multiset(b)['\n']
  {
  }

  /** The number of the first `n` inputs that open successfully and end with a newline. */
  function TerminatedServed(inputs: seq<seq<char>>, errs: seq<int>, n: nat): (c: nat)
    requires n <= |inputs| == |errs|
    ensures c <= n
  {
    if n == 0 then 0
    else TerminatedServed(inputs, errs, n - 1) + if errs[n - 1] == 0 && EndsWithNewline(inputs[n - 1]) then 1 else 0
  }

  /** What `SequentialNewlines` states about the first `n` inputs. */
  ghost predicate NewlinesMatch(inputs: seq<seq<char>>, errs: seq<int>, delim: seq<char>, n: nat)
    requires |delim| > 0 && n <= |inputs| == |errs|
  {
    multiset(SequentialOutput(inputs, errs, delim, n))['\n'] == TerminatedServed(inputs, errs, n)
  }

  /**
   * With a delimiter list free of newlines, the serial output holds one
   * newline for each opened input that ends with one, and none for the rest.
   */
  lemma {:induction false} SequentialNewlines(inputs: seq<seq<char>>, errs: seq<int>, delim: seq<char>, n: nat)
    requires |delim| > 0 && '\n' !in delim && n <= |inputs| == |errs|
    ensures NewlinesMatch(inputs, errs, delim, n)
  {
    if n > 0 {
      SequentialNewlines(inputs, errs, delim, n - 1);
      NewlinesStep(inputs, errs, delim, n);
    } else {
      assert SequentialOutput(inputs, errs, delim, 0) == [];
    }
  }

  /** One more input adds its own newline count to the serial output's. */
  lemma NewlinesStep(inputs: seq<seq<char>>, errs: seq<int>, delim: seq<char>, n: nat)
    requires |delim| > 0 && '\n' !in delim && 0 < n <= |inputs| == |errs|
    requires NewlinesMatch(inputs, errs, delim, n - 1)
    ensures NewlinesMatch(inputs, errs, delim, n)
  {
    var prev := SequentialOutput(inputs, errs, delim, n - 1);
    var piece := if errs[n - 1] == 0 then Replaced(inputs[n - 1], delim, 0) else [];
    if errs[n - 1] == 0 {
      ReplacedNewlines(inputs[n - 1], delim, 0);
    }
    NewlinesConcat(prev, piece);
  }

  /** An input whose open failed adds nothing to the serial output. */
  lemma {:induction false} SequentialSkipsFailed(inputs: seq<seq<char>>, errs: seq<int>, delim: seq<char>, n: nat)
    requires |delim| > 0 && n <= |inputs| == |errs|
    requires forall j :: 0 <= j < n ==> errs[j] != 0
    ensures SequentialOutput(inputs, errs, delim, n) == [] && AnyFailed(errs, n) == (n > 0)
  {
    if n > 0 {
      SequentialSkipsFailed(inputs, errs, delim, n - 1);
      assert errs[0] != 0;
    }
  }

  /** The sequence `s` with its element at `j` taken out. */
  function Without<T>(s: seq<T>, j: nat): (r: seq<T>)
    requires j < |s|
    ensures |r| == |s| - 1
    ensures forall k :: 0 <= k < j ==> r[k] == s[k]
    ensures forall k :: j <= k < |r| ==> r[k] == s[k + 1]
  {
    s[..j] + s[j + 1..]
  }

  /** The serial output of the first `m` inputs depends on those inputs alone. */
  lemma {:induction false} SequentialOutputPrefix(inputs: seq<seq<char>>, errs: seq<int>, inputs': seq<seq<char>>, errs': seq<int>, delim: seq<char>, m: nat)
    requires |delim| > 0 && m <= |inputs| == |errs| && m <= |inputs'| == |errs'|
    requires forall k :: 0 <= k < m ==> inputs'[k] == inputs[k] && errs'[k] == errs[k]
    ensures SequentialOutput(inputs, errs, delim, m) == SequentialOutput(inputs', errs', delim, m)
  {
    if m > 0 {
      SequentialOutputPrefix(inputs, errs, inputs', errs', delim, m - 1);
    }
  }

  /**
   * Wherever it stands, an input whose open failed adds nothing to the
   * serial output: the output is that of the list without it, and the run
   * as a whole fails.
   */
  lemma {:induction false} SequentialDropsFailed(inputs: seq<seq<char>>, errs: seq<int>, delim: seq<char>, n: nat, j: nat)
    requires |delim| > 0 && j < n <= |inputs| == |errs| && errs[j] != 0
    ensures SequentialOutput(inputs, errs, delim, n) == SequentialOutput(Without(inputs, j), Without(errs, j), delim, n - 1)
    ensures AnyFailed(errs, n)
  {
    if n == j + 1 {
      SequentialOutputPrefix(inputs, errs, Without(inputs, j), Without(errs, j), delim, j);
    } else {
      SequentialDropsFailed(inputs, errs, delim, n - 1, j);
      assert Without(inputs, j)[n - 2] == inputs[n - 1] && Without(errs, j)[n - 2] == errs[n - 1];
    }
  }

  /** The still unprinted part of the input: a deferred newline, if there is one, and the unread characters. */
  function Pending(needdelim: bool, rest: seq<char>): seq<char> {
    (if needdelim then ['\n'] else []) + rest
  }

  /**
   * After reading `s[..q]` with `k` newlines turned into delimiters and
   * printing `text`, what the pending part prints completes `whole`.
   */
  ghost predicate Copying(s: seq<char>, delim: seq<char>, whole: seq<char>, text: seq<char>, q: nat, k: nat, needdelim: bool)
    requires |delim| > 0
  {
    q <= |s| && text + Replaced(Pending(needdelim, s[q..]), delim, k) == whole
  }

  /** A nonempty rest starts with a character that is either deferred (a newline) or printed. */
  lemma ReplacedHead(x: seq<char>, delim: seq<char>, k: nat)
    requires |delim| > 0 && x != []
    ensures x[0] == '\n' ==> Replaced(x, delim, k) == Replaced(Pending(true, x[1..]), delim, k)
    ensures x[0] != '\n' ==> Replaced(x, delim, k) == [x[0]] + Replaced(Pending(false, x[1..]), delim, k)
  {
    if x[0] == '\n' {
      assert Pending(true, x[1..]) == x;
    } else {
      assert Pending(false, x[1..]) == x[1..];
    }
  }

  /** A deferred newline followed by more input becomes the delimiter for its position. */
  lemma ReplacedDeferred(x: seq<char>, delim: seq<char>, k: nat)
    requires |delim| > 0 && x != []
    ensures Replaced(Pending(true, x), delim, k) == DelimAt(delim, k) + Replaced(x, delim, k + 1)
  {
    var p := Pending(true, x);
    assert p[0] == '\n' && |p| > 1 && p[1..] == x;
  }

  /**
   * What the pending part prints splits at its first unread character: the
   * delimiter for a deferred newline, the character itself unless it is a
   * newline (which is deferred in turn), and the rest.
   */
  lemma PendingSplit(x: seq<char>, delim: seq<char>, k: nat, needdelim: bool)
    requires |delim| > 0 && x != []
    ensures var pre := if needdelim then DelimAt(delim, k) else [];
      var k' := if needdelim then k + 1 else k;
      var piece := if x[0] == '\n' then [] else [x[0]];
      Replaced(Pending(needdelim, x), delim, k) == pre + piece + Replaced(Pending(x[0] == '\n', x[1..]), delim, k')
  {
    var k' := if needdelim then k + 1 else k;
    if needdelim {
      ReplacedDeferred(x, delim, k);
    } else {
      assert Pending(false, x) == x;
    }
    ReplacedHead(x, delim, k');
  }

  /** Reading one more character: the deferred newline, if any, becomes a delimiter; the character is printed or deferred. */
  lemma CopyStep(s: seq<char>, delim: seq<char>, whole: seq<char>, text: seq<char>, q: nat, k: nat, needdelim: bool)
    requires |delim| > 0 && q < |s| && Copying(s, delim, whole, text, q, k, needdelim)
    ensures var pre := if needdelim then DelimAt(delim, k) else [];
      var k' := if needdelim then k + 1 else k;
      var piece := if s[q] == '\n' then [] else [s[q]];
      Copying(s, delim, whole, text + pre + piece, q + 1, k', s[q] == '\n')
  {
    var x := s[q..];
    assert x[0] == s[q] && x[1..] == s[q + 1..];
    PendingSplit(x, delim, k, needdelim);
  }

  /** At end of input, what remains is the deferred newline, printed as a newline. */
  lemma CopyDone(s: seq<char>, delim: seq<char>, whole: seq<char>, text: seq<char>, k: nat, needdelim: bool)
    requires |delim| > 0 && Copying(s, delim, whole, text, |s|, k, needdelim)
    ensures (if needdelim then text + ['\n'] else text) == whole
  {
    assert s[|s|..] == [];
    assert Pending(needdelim, []) == if needdelim then ['\n'] else [];
  }

  /** Multiplying by a positive number keeps the order (an instantiation hint). */
  lemma MulMono(a: int, b: int, n: int)
    requires n > 0
    ensures a <= b ==> a * n <= b * n
  {
  }

  /** The remainder is the `m` of any decomposition `k == q * n + m` with `0 <= m < n`. */
  lemma ModUnique(k: int, n: int, q: int, m: int)
    requires n > 0 && 0 <= m < n && k == q * n + m
    ensures k % n == m
  {
    var q' := k / n;
    MulMono(q + 1, q', n);
    MulMono(q' + 1, q, n);
  }

  /** Counting the cycle position up with wrap-around keeps it equal to the newline count modulo the cycle length. */
  lemma CycleStep(k: nat, n: nat)
    requires n > 0
    ensures (k + 1) % n == if k % n + 1 == n then 0 else k % n + 1
  {
    var q, m := k / n, k % n;
    if m + 1 == n {
      ModUnique(k + 1, n, q + 1, 0);
    } else {
      ModUnique(k + 1, n, q, m + 1);
    }
  }

  /**
   * The inner `while` loop of `sequential` over one open stream: prints its
   * characters with newlines turned into cyclic delimiters, deferring each
   * newline until it is known not to be the last character.
   */
  method CopyStream(lp: Stream, delim: seq<char>) returns (text: seq<char>)
    requires |delim| > 0 && lp.open && lp.pos == 0
    modifies lp`pos
    ensures text == Replaced(lp.data, delim, 0) && lp.pos == |lp.data|
  {
    ghost var s := lp.data;
    ghost var whole := Replaced(s, delim, 0);
    ghost var k: nat := 0;
    var cnt, needdelim := 0, false;
    text := [];
    assert Copying(s, delim, whole, text, 0, 0, false) by {
      assert Pending(false, s[0..]) == s;
    }
    var ich := lp.GetWc();
    ghost var q: nat := 0;  // the characters consumed before `ich`
    while ich.Char?
      invariant lp.open && q <= lp.pos <= |s| && cnt == k % |delim|
      invariant q == if ich.Char? then lp.pos - 1 else lp.pos
      invariant ich.Char? ==> s[q] == ich.c
      invariant ich.WEOF? ==> lp.pos == |s|
      invariant Copying(s, delim, whole, text, q, k, needdelim)
      decreases |s| - q
    {
      CopyStep(s, delim, whole, text, q, k, needdelim);
      ghost var pre := if needdelim then DelimAt(delim, k) else [];
      ghost var piece := if ich.c == '\n' then [] else [ich.c];
      ghost var text0 := text;
      if needdelim {
        needdelim := false;
        if delim[cnt] != '\0' {
          text := text + [delim[cnt]];
        }
        CycleStep(k, |delim|);
        cnt := cnt + 1;
        if cnt == |delim| {
          cnt := 0;
        }
        k := k + 1;
      }
      assert text == text0 + pre;
      if ich.c != '\n' {
        text := text + [ich.c];
      } else {
        needdelim := true;
      }
      assert text == text0 + pre + piece;
      q := q + 1;
      ich := lp.GetWc();
    }
    CopyDone(s, delim, whole, text, k, needdelim);
    if needdelim {
      text := text + ['\n'];
    }
  }

  /**
   * A record the serial engine has dealt with: read to its end if it was
   * open, untouched otherwise, and still open exactly when its open succeeded.
   */
  ghost predicate Served(lp: Stream)
    reads lp
  {
    lp.pos == (if lp.err == 0 then |lp.data| else 0) && lp.open == (lp.err == 0)
  }

  /** A record as `main` leaves it: unread, and open exactly when its open succeeded. */
  ghost predicate Unread(lp: Stream)
    reads lp
  {
    lp.pos == 0 && lp.open == (lp.err == 0)
  }

  /** From position `k` on, the records before `i` are served and the others unread. */
  ghost predicate ServedFrom(ls: seq<Stream>, i: nat, k: nat)
    reads ls
    decreases |ls| - k
  {
    k >= |ls| || ((if k < i then Served(ls[k]) else Unread(ls[k])) && ServedFrom(ls, i, k + 1))
  }

  /** `ServedFrom` is the quantified statement it stands for. */
  lemma {:induction false} ServedFromIff(ls: seq<Stream>, i: nat, k: nat)
    ensures ServedFrom(ls, i, k) <==> forall j :: k <= j < |ls| ==> if j < i then Served(ls[j]) else Unread(ls[j])
    decreases |ls| - k
  {
    if k < |ls| {
      ServedFromIff(ls, i, k + 1);
    }
  }

  /** `CopyStream` applied to the open record at position `i`, keeping the others as they are. */
  method CopyAt(ls: seq<Stream>, i: nat, delim: seq<char>) returns (text: seq<char>)
    requires |delim| > 0 && Distinct(ls) && i < |ls| && ls[i].err == 0 && ServedFrom(ls, i, 0)
    modifies ls[i]
    ensures text == Replaced(ls[i].data, delim, 0) && ServedFrom(ls, i + 1, 0)
    ensures ls[i].open == old(ls[i].open)
  {
    ServedFromIff(ls, i, 0);
    text := CopyStream(ls[i], delim);
    ServedFromIff(ls, i + 1, 0);
  }

  /** Skipping a record whose open failed serves it. */
  lemma SkipAt(ls: seq<Stream>, i: nat)
    requires i < |ls| && ls[i].err != 0 && ServedFrom(ls, i, 0)
    ensures ServedFrom(ls, i + 1, 0)
  {
    ServedFromIff(ls, i, 0);
    ServedFromIff(ls, i + 1, 0);
  }

  /**
   * `sequential`: copies every stream of `ls` in list order, skipping (and
   * reporting) those whose open failed; returns 1 when some open failed and
   * 0 otherwise. Streams without an error are read to their end, the others
   * are not touched.
   */
  method Sequential(ls: seq<Stream>, delim: seq<char>) returns (rval: int, out: seq<char>)
    requires |delim| > 0 && Distinct(ls)
    requires forall j :: 0 <= j < |ls| ==> Unread(ls[j])
    modifies ls
    ensures out == SequentialOutput(Inputs(ls), Errors(ls), delim, |ls|)
    ensures rval == if AnyFailed(Errors(ls), |ls|) then 1 else 0
    ensures forall j :: 0 <= j < |ls| ==> Served(ls[j])
    ensures forall j :: 0 <= j < |ls| ==> ls[j].open == old(ls[j].open)
  {
    ghost var inputs, errs := Inputs(ls), Errors(ls);
    ServedFromIff(ls, 0, 0);
    var failed := 0;
    out := [];
    for i := 0 to |ls|
      invariant out == SequentialOutput(inputs, errs, delim, i)
      invariant (failed != 0) == AnyFailed(errs, i)
      invariant ServedFrom(ls, i, 0)
    {
      var lp := ls[i];
      if lp.err != 0 {
        SkipAt(ls, i);
        failed := lp.err;
        continue;
      }
      var text := CopyAt(ls, i, delim);
      out := out + text;
    }
    ServedFromIff(ls, |ls|, 0);
    rval := if failed != 0 then 1 else 0;
  }
}
