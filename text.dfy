/**
 * Line structure of a character stream, as the two paste engines see it:
 * a line is every character up to (and excluding) the next newline, and a
 * final fragment without a newline is a line too.
 */
module Text {

  /** The characters of `s` before its first newline (all of `s` if it has none). */
  function FirstLine(s: seq<char>): (line: seq<char>)
    ensures '\n' !in line
  {
    if s == [] || s[0] == '\n' then [] else [s[0]] + FirstLine(s[1..])
  }

  /** What follows the first newline of `s` (nothing if it has none). */
  function AfterLine(s: seq<char>): (rest: seq<char>)
    ensures s != [] ==> |rest| < |s|
  {
    if s == [] then [] else if s[0] == '\n' then s[1..] else AfterLine(s[1..])
  }

  /** `s` is its first line, then either a newline and the rest, or nothing more. */
  lemma {:induction false} SplitLine(s: seq<char>)
    ensures '\n' in s ==> s == FirstLine(s) + ['\n'] + AfterLine(s)
    ensures '\n' !in s ==> s == FirstLine(s) && AfterLine(s) == []
  {
    if s != [] && s[0] != '\n' {
      SplitLine(s[1..]);
      assert s == [s[0]] + s[1..];
    }
  }

  predicate EndsWithNewline(s: seq<char>) {
    s != [] && s[|s| - 1] == '\n'
  }

  /** The lines of `s`, none holding a newline. */
  function Lines(s: seq<char>): (ls: seq<seq<char>>)
    ensures forall k :: 0 <= k < |ls| ==> '\n' !in ls[k]
    decreases |s|
  {
    if s == [] then [] else [FirstLine(s)] + Lines(AfterLine(s))
  }

  /** Every line followed by a newline: the inverse of `Lines`. */
  function Terminated(ls: seq<seq<char>>): seq<char> {
    if ls == [] then [] else ls[0] + ['\n'] + Terminated(ls[1..])
  }

  lemma {:induction false} TerminatedSnoc(ls: seq<seq<char>>, x: seq<char>)
    ensures Terminated(ls + [x]) == Terminated(ls) + x + ['\n']
  {
    if ls != [] {
      assert (ls + [x])[1..] == ls[1..] + [x];
      TerminatedSnoc(ls[1..], x);
    } else {
      assert [x][1..] == [];
    }
  }

  /**
   * Splitting into lines and terminating every line gives back the stream,
   * with a newline added when the stream's last line has none.
   */
  lemma {:induction false} LinesRoundTrip(s: seq<char>)
    ensures Terminated(Lines(s)) == if s == [] || EndsWithNewline(s) then s else s + ['\n']
    decreases |s|
  {
    if s != [] {
      var a := AfterLine(s);
      SplitLine(s);
      LinesRoundTrip(a);
      if '\n' in s {
        if a != [] {
          assert s[|s| - 1] == a[|a| - 1];
        }
      } else {
        assert s[|s| - 1] in s;
      }
    }
  }

  /** A sequence of newline-free lines, each terminated, holds one newline per line. */
  lemma {:induction false} TerminatedNewlines(ls: seq<seq<char>>)
    requires forall k :: 0 <= k < |ls| ==> '\n' !in ls[k]
    ensures multiset(Terminated(ls))['\n'] == |ls|
  {
    if ls != [] {
      TerminatedNewlines(ls[1..]);
      assert multiset(ls[0])['\n'] == 0;
    }
  }

  /**
   * The number of lines is the number of newlines, plus one for a final
   * fragment that has no newline.
   */
  lemma LineCount(s: seq<char>)
    ensures |Lines(s)| == multiset(s)['\n'] + if s != [] && !EndsWithNewline(s) then 1 else 0
  {
    LinesRoundTrip(s);
    TerminatedNewlines(Lines(s));
  }
}
