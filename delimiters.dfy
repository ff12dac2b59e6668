/**
 * The delimiter list of paste: the escape compiler `tr` that rewrites the
 * `-d` argument in place, the single-tab default, and the cyclic choice of
 * the delimiter printed at a given position.
 */
module Delimiters {

  datatype Option<T> = None | Some(value: T)

  datatype Error = NoDelimiters

  datatype Result<T> = Ok(value: T) | Err(error: Error)

  /** The character that `\c` stands for in a delimiter list. */
  function Unescape(c: char): char {
    if c == 'n' then '\n' else if c == 't' then '\t' else if c == '0' then '\0' else c
  }

  /** Every backslash of `s` is followed by the character it escapes. */
  predicate WellEscaped(s: seq<char>)
    decreases |s|
  {
    s == [] || if s[0] == '\\' then |s| >= 2 && WellEscaped(s[2..]) else WellEscaped(s[1..])
  }

  /**
   * The delimiter list a well-escaped specification denotes: one delimiter
   * per token, a token being a plain character or a backslash and the
   * character after it.
   */
  function Compile(s: seq<char>): (d: seq<char>)
    requires WellEscaped(s)
    ensures |d| <= |s|
    ensures |d| == 0 <==> s == []
    decreases |s|
  {
    if s == [] then []
    else if s[0] == '\\' then [Unescape(s[1])] + Compile(s[2..])
    else [s[0]] + Compile(s[1..])
  }

  /** A specification in escape syntax for the delimiter list `d`: the inverse of `Compile`. */
  function Quote(d: seq<char>): seq<char> {
    if d == [] then []
    else
      var c := d[0];
      var q := if c == '\n' then ['\\', 'n']
               else if c == '\t' then ['\\', 't']
               else if c == '\0' then ['\\', '0']
               else if c == '\\' then ['\\', '\\']
               else [c];
      q + Quote(d[1..])
  }

  /** Every delimiter list can be written as a NUL-free specification that compiles back to it. */
  lemma {:induction false} CompileQuote(d: seq<char>)
    ensures '\0' !in Quote(d) && WellEscaped(Quote(d))
    ensures Compile(Quote(d)) == d
  {
    if d != [] {
      CompileQuote(d[1..]);
      var q := Quote(d);
      var c := d[0];
      if c == '\n' || c == '\t' || c == '\0' || c == '\\' {
        assert q[2..] == Quote(d[1..]);
      } else {
        assert q[1..] == Quote(d[1..]);
      }
    }
  }

  /** A specification without backslashes denotes itself, character for character. */
  lemma {:induction false} CompileLiteral(s: seq<char>)
    requires '\\' !in s
    ensures WellEscaped(s) && Compile(s) == s
  {
    if s != [] {
      CompileLiteral(s[1..]);
    }
  }

  /** The escapes `\t`, `\n`, `\0` and a plain character, in that order. */
  lemma CompileExample()
    ensures WellEscaped(['\\', 't', '\\', 'n', '\\', '0', 'x'])
    ensures Compile(['\\', 't', '\\', 'n', '\\', '0', 'x']) == ['\t', '\n', '\0', 'x']
  {
    var s := ['\\', 't', '\\', 'n', '\\', '0', 'x'];
    assert s[2..] == ['\\', 'n', '\\', '0', 'x'];
    assert s[4..] == ['\\', '0', 'x'];
    assert s[6..] == ['x'];
  }

  /** After reading `s[..p]` and writing `cnt` delimiters, what is left to write is `d[cnt..]`. */
  ghost predicate Compiling(s: seq<char>, d: seq<char>, p: nat, cnt: nat) {
    p <= |s| && cnt <= |d| && WellEscaped(s[p..]) && d[cnt..] == Compile(s[p..])
  }

  /** One token of `tr`: the delimiter at write index `cnt` and the read index after it. */
  lemma CompileStep(s: seq<char>, d: seq<char>, p: nat, cnt: nat)
    requires Compiling(s, d, p, cnt) && p < |s|
    ensures s[p] == '\\' ==> p + 1 < |s| && cnt < |d| && d[cnt] == Unescape(s[p + 1]) && Compiling(s, d, p + 2, cnt + 1)
    ensures s[p] != '\\' ==> cnt < |d| && d[cnt] == s[p] && Compiling(s, d, p + 1, cnt + 1)
  {
    var rest := s[p..];
    assert rest[0] == s[p];
    if s[p] == '\\' {
      assert rest[2..] == s[p + 2..];
      assert d[cnt + 1..] == d[cnt..][1..];
    } else {
      assert rest[1..] == s[p + 1..];
      assert d[cnt + 1..] == d[cnt..][1..];
    }
  }

  /** When the whole specification is read, every delimiter has been written. */
  lemma CompileDone(s: seq<char>, d: seq<char>, p: nat, cnt: nat)
    requires WellEscaped(s) && Compiling(s, d, p, cnt) && p == |s| && d == Compile(s)
    ensures cnt == |d| && (cnt == 0 <==> s == [])
  {
    assert s[p..] == [];
  }

  /** The index of the first NUL of a NUL-terminated buffer. */
  function StrLen(buf: seq<char>): (n: nat)
    requires '\0' in buf
    ensures n < |buf| && buf[n] == '\0' && forall k :: 0 <= k < n ==> buf[k] != '\0'
  {
    if buf[0] == '\0' then 0
    else
      assert buf == [buf[0]] + buf[1..];
      StrLen(buf[1..]) + 1
  }

  /** The C string held in a NUL-terminated buffer. */
  function CString(buf: seq<char>): seq<char>
    requires '\0' in buf
  {
    buf[..StrLen(buf)]
  }

  /**
   * `tr`: compiles the NUL-terminated specification in `a` in place. The
   * write index trails the read index, so the first `n` cells end up holding
   * the delimiter list and the cells from `n` on are left as they were.
   * An empty specification is the fatal "no delimiters specified" error.
   */
  method Tr(a: array<char>) returns (r: Result<nat>)
    requires '\0' in a[..]
    requires WellEscaped(CString(a[..]))
    modifies a
    ensures var s := CString(old(a[..]));
      var d := Compile(s);
      && r == (if s == [] then Err(NoDelimiters) else Ok(|d|))
      && |d| < a.Length
      && (forall k :: 0 <= k < |d| ==> a[k] == d[k])
      && (forall k :: |d| <= k < a.Length ==> a[k] == old(a[k]))
  {
    ghost var buf := a[..];
    ghost var s := CString(buf);
    ghost var d := Compile(s);
    assert Compiling(s, d, 0, 0);
    // p is the read index and cnt the write index, which is also the count;
    // the loop guard is the read `ch = *p++` of `tr`'s `for` condition
    var p, cnt := 0, 0;
    while a[p] != '\0'
      invariant cnt <= p <= |s| && Compiling(s, d, p, cnt)
      invariant forall k :: 0 <= k < cnt ==> a[k] == d[k]
      invariant forall k :: cnt <= k < a.Length ==> a[k] == buf[k]
      decreases |s| - p
    {
      CompileStep(s, d, p, cnt);
      var ch := a[p];
      p := p + 1;
      if ch == '\\' {
        ch := a[p];
        p := p + 1;
        a[cnt] := Unescape(ch);
      } else {
        a[cnt] := ch;
      }
      cnt := cnt + 1;
    }
    CompileDone(s, d, p, cnt);
    r := if cnt == 0 then Err(NoDelimiters) else Ok(cnt);
  }

  /**
   * The delimiter list in force: the compiled `-d` specification when one
   * was given, a single tab otherwise.
   */
  function DelimiterList(spec: Option<seq<char>>): (r: Result<seq<char>>)
    requires spec.Some? ==> WellEscaped(spec.value)
    ensures spec.None? ==> r == Ok(['\t'])
    ensures r.Err? <==> spec == Some([])
    ensures r.Ok? ==> 1 <= |r.value| && (spec.Some? ==> |r.value| <= |spec.value|)
  {
    match spec
    case None => Ok(['\t'])
    case Some(s) => if s == [] then Err(NoDelimiters) else Ok(Compile(s))
  }

  /**
   * The delimiter set-up of `main`: `warg` is the wide-character copy of the
   * `-d` argument, or null when no `-d` was given.
   */
  method SetDelimiters(warg: array?<char>) returns (r: Result<seq<char>>)
    requires warg != null ==> '\0' in warg[..] && WellEscaped(CString(warg[..]))
    modifies warg
    ensures r == DelimiterList(if warg == null then None else Some(CString(old(warg[..]))))
  {
    if warg != null {
      var cnt := Tr(warg);
      match cnt
      case Err(e) => r := Err(e);
      case Ok(n) =>
        assert warg[..n] == Compile(CString(old(warg[..])));
        r := Ok(warg[..n]);
    } else {
      r := Ok(['\t']);
    }
  }

  /**
   * What printing the delimiter at cycle position `j` writes: the delimiter
   * `delim[j % |delim|]`, or nothing when that delimiter is NUL.
   */
  function DelimAt(delim: seq<char>, j: nat): (w: seq<char>)
    requires |delim| > 0
    ensures |w| <= 1 && (w == [] <==> delim[j % |delim|] == '\0')
    ensures w != [] ==> w[0] in delim
  {
    var c := delim[j % |delim|];
    if c == '\0' then [] else [c]
  }
}
