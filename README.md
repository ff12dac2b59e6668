# paste — a verified model of the merge engines

This project models the core of FreeBSD's `paste` utility (`usr.bin/paste/paste.c`)
in Dafny and proves what its three routines do.

- `tr` compiles the `-d` delimiter specification in place. `\n`, `\t` and `\0`
  stand for newline, tab and NUL, and `\c` stands for `c`. An empty
  specification is the fatal "no delimiters specified" error. Without `-d`,
  the list is a single tab.
- `parallel` is the default mode. Every round reads the next line of each
  input that is still open, joins the lines with the cyclic delimiters and
  prints a newline. A NUL delimiter prints nothing. No delimiter is printed
  before the first column of the row that has a line; at that column the
  delimiters for the columns before it are printed at once (the catch-up run).
  An input that hits end of file is marked exhausted. The run ends when the
  last open input hits end of file.
- `sequential` is the `-s` mode. It copies each input in turn and replaces every
  newline except a final one by the next delimiter of the cycle. The cycle
  restarts for every input. An input whose open failed is skipped and reported,
  and the exit status is 1 when that happened.

The modules follow the program's structure:

- `Delimiters` (`delimiters.dfy`) holds `tr` and the default tab. `tr` is an
  imperative method over an `array<char>` with a read index and a write index.
  It is proved against the pure `Compile`.
- `Streams` (`streams.dfy`) holds the `LIST` record as class `Stream`. Its
  fields are the decoded characters the `FILE` delivers, a read cursor, `open`
  (for `fp != NULL`), `cnt`, `err` and `name`. The class also has `getwc` and
  the `do/while` copy loop of `parallel`.
- `Text` (`text.dfy`) gives the line structure of a stream: `Lines`,
  `FirstLine` and `AfterLine`.
- `ParallelPaste` (`parallel.dfy`) has `parallel` as methods over the list of
  records: `Visit` for one record, `Round` for one walk of the list, `Parallel`
  for the whole run. They are proved against the reference output
  `ParallelOutput`. That output is the rows `0 .. MaxLen - 1`, and each row
  holds every input's line `r` (empty once the input is exhausted) joined by
  the delimiter for its column.
- `SequentialPaste` (`sequential.dfy`) has `sequential` as `CopyStream` (the
  inner `while` loop) and `Sequential` (the list walk). They are proved against
  `Replaced` and `SequentialOutput`.

Printed output is modelled as the `seq<char>` each method returns. Every
`putwchar` appends to it.

Two behaviours are easy to misread. The model follows the code in both:

- In `-s` mode, an input's output ends with a newline only when the input ends
  with one (paste.c:228-229). An input whose last line has no newline ends
  without one.
- In the catch-up run of `parallel`, the delimiters for positions
  `0 .. cnt - 1` are printed, which is one per earlier column (paste.c:182).
  The position of the current column is not included.

## Model

| member | source | states |
|---|---|---|
| `Delimiters.Compile` | usr.bin/paste/paste.c:243-260 | is defined as the delimiter list of a well-escaped specification, one element per token; its contract states that the list is never longer than the specification and is empty exactly when the specification is |
| `Delimiters.CompileQuote` | usr.bin/paste/paste.c:244-258 | every delimiter list, NUL, newline, tab and backslash included, has a NUL-free specification that compiles back to it, so `\\` stands for a backslash |
| `Delimiters.CompileLiteral` | usr.bin/paste/paste.c:259-260 | a specification without backslashes compiles to itself, in order |
| `Delimiters.CompileExample` | usr.bin/paste/paste.c:244-260 | `\t\n\0x` compiles to tab, newline, NUL, `x` |
| `Delimiters.CompileStep` | usr.bin/paste/paste.c:244-260 | one token of the loop writes the delimiter at the write index and advances the read index by two after a backslash and by one otherwise |
| `Delimiters.StrLen` | usr.bin/paste/paste.c:243 | the loop reads up to the first NUL of the buffer: its index, before which no cell is NUL |
| `Delimiters.Tr` | usr.bin/paste/paste.c:237-265 | compiles in place: the first `n` cells hold `Compile` of the C string, the later cells are unchanged, `n` is below the buffer length, and an empty specification is the `NoDelimiters` error instead of a count |
| `Delimiters.DelimiterList` | usr.bin/paste/paste.c:112-115 | with no `-d` the list is the single tab; an error happens exactly for an empty `-d`; otherwise the list has between 1 and (specification length) elements |
| `Delimiters.SetDelimiters` | usr.bin/paste/paste.c:86-98 | the `-d` set-up: `tr` on the argument buffer when one is given, the tab otherwise, giving exactly `DelimiterList` |
| `Delimiters.DelimAt` | usr.bin/paste/paste.c:162-164 | is defined as what printing the delimiter at cycle position `j` writes; its contract states that this is at most one character, nothing exactly when `delim[j % delimcnt]` is NUL, and otherwise a character of the list |
| `Streams.Stream.constructor` | usr.bin/paste/paste.c:134-136 | a new record has its ordinal, errno and name; it is unread, and open exactly when its open succeeded |
| `Streams.Stream.GetWc` | usr.bin/paste/paste.c:167 | `getwc` returns the next character and advances, or returns WEOF, and keeps returning it, once the data is used up |
| `Streams.Stream.RestOfLine` | usr.bin/paste/paste.c:189-191 | copies the character just read and the rest of its line, and consumes the newline that ends the line: the text is the first line of the unread data and the cursor is after that line |
| `Text.LinesRoundTrip` | usr.bin/paste/paste.c:187-191 | terminating every line gives the stream back, with a newline added when its last line has none |
| `Text.LineCount` | usr.bin/paste/paste.c:187-191 | the number of lines is the number of newlines, plus one for a final unterminated fragment |
| `ParallelPaste.OpenFromStart` | usr.bin/paste/paste.c:158 | in the first round every input is open, so the count starts at `filecnt` |
| `ParallelPaste.OpenFromZero` | usr.bin/paste/paste.c:158 | no input is open for round `r` exactly when every input has fewer than `r` lines |
| `ParallelPaste.OpenToZero` | usr.bin/paste/paste.c:158 | the same count taken from the front of the list |
| `ParallelPaste.OpenSplit` | usr.bin/paste/paste.c:158-175 | the count of inputs open for round `r` splits at any position `m` into those before `m` and those from `m` on |
| `ParallelPaste.OpenStep` | usr.bin/paste/paste.c:167-170 | visiting an input moves it from the count for round `r` to the count for round `r + 1`, and the count drops by one exactly when that input hits end of file |
| `ParallelPaste.OpenRecordsInStep` | usr.bin/paste/paste.c:158-175 | the number of records still marked open equals the number of inputs open for the round |
| `ParallelPaste.StartInStep` | usr.bin/paste/paste.c:158 | at entry every stream is open and about to deliver its line 0 |
| `ParallelPaste.CatchUp` | usr.bin/paste/paste.c:180-184 | before the first column with a line, the row holds only separators, and they are exactly the catch-up run of delimiters `0 .. i - 1` |
| `ParallelPaste.ParallelLastRound` | usr.bin/paste/paste.c:167-169 | when the last open input hits end of file, no input has a line for that round, so nothing is printed and none is open afterwards |
| `ParallelPaste.RoundStops` | usr.bin/paste/paste.c:167-169 | the early `break` happens only in a round without output: the part of the row printed so far is empty and equals the whole row, and every stream is used up with at most one record still marked open |
| `ParallelPaste.RoundEnds` | usr.bin/paste/paste.c:192-194 | after the last record the row (with its newline when there was output) is row `r`, and the count equals the inputs and records open for round `r + 1` |
| `ParallelPaste.LinesUncons` | usr.bin/paste/paste.c:167 | a stream that has characters left has a line for the current round, the first one, and the lines after it are what follows |
| `ParallelPaste.LinesEnd` | usr.bin/paste/paste.c:167 | a used-up stream has no line left for the current round |
| `ParallelPaste.JoinedStep` | usr.bin/paste/paste.c:176-186 | visiting column `i` extends the printed row by its separator (or the catch-up run) and its line, and sets `output` exactly when a column so far has a line |
| `ParallelPaste.RowsStable` | usr.bin/paste/paste.c:193-194 | rows past the longest input print nothing |
| `ParallelPaste.Separator` | usr.bin/paste/paste.c:161-165 | a record prints the delimiter for position `cnt - 1` only when output has started and it is not the first column |
| `ParallelPaste.Visit` | usr.bin/paste/paste.c:161-191 | one record: a closed record prints only its separator and is not read; an open one at end of file lowers the count and either stops the round (it was the last open input) or is closed; otherwise the separator or catch-up run and the line are printed, and the stream moves on one line; it is called only with a nonzero ordinal once output has started, since the line path indexes `delim[(lp->cnt - 1) % delimcnt]` without testing `lp->cnt` |
| `ParallelPaste.VisitAt` | usr.bin/paste/paste.c:160-191 | `Visit` on record `i` of the list, leaving the other records as they were |
| `ParallelPaste.Round` | usr.bin/paste/paste.c:159-194 | one round prints row `r`; the count becomes the number of inputs open for round `r + 1` and equals the records still marked open; at zero every stream is used up and at most one record is still marked open |
| `ParallelPaste.Parallel` | usr.bin/paste/paste.c:150-198 | returns 0 and prints `ParallelOutput` of the inputs; every stream is read to its end and at most one record is still marked open |
| `ParallelPaste.ParallelNoInputs` | usr.bin/paste/paste.c:158 | without inputs nothing is printed |
| `ParallelPaste.ProducesIff` | usr.bin/paste/paste.c:193-194 | row `r` is printed exactly when `r` is below the largest line count |
| `ParallelPaste.JoinedNoNewline` | usr.bin/paste/paste.c:185-191 | newline-free lines joined by newline-free delimiters hold no newline |
| `ParallelPaste.RowsNewlines` | usr.bin/paste/paste.c:193-194 | the first `r` rows hold one newline per row below the largest line count |
| `ParallelPaste.RowCount` | usr.bin/paste/paste.c:158-195 | with no newline among the delimiters, the output has as many newline-terminated rows as the longest input has lines |
| `ParallelPaste.RowsSingle` | usr.bin/paste/paste.c:187-194 | with a single input the rows are that input's lines, each terminated by a newline |
| `ParallelPaste.SingleInput` | usr.bin/paste/paste.c:150-198 | one input is printed back as it is, with a newline added when its last line has none |
| `ParallelPaste.TwoColumns` | usr.bin/paste/paste.c:185-186 | with two inputs a row is the first column, the first delimiter and the second column |
| `ParallelPaste.TwoInputsExample` | usr.bin/paste/paste.c:150-198 | lines `1 2 3` and `a b` with `,` give `1,a`, `2,b`, `3,` as three rows |
| `SequentialPaste.ReplacedByLines` | usr.bin/paste/paste.c:215-229 | an input's output is its lines joined by the delimiters of the cycle starting at position 0, followed by a newline exactly when the input ends with one |
| `SequentialPaste.ReplacedPlain` | usr.bin/paste/paste.c:223-224 | characters other than newline are copied unchanged |
| `SequentialPaste.ReplacedNewline` | usr.bin/paste/paste.c:216-229 | a newline is printed as a newline when it is the last character, and otherwise as the delimiter for its position |
| `SequentialPaste.ReplacedLast` | usr.bin/paste/paste.c:223-229 | an empty input prints nothing; otherwise the last character printed is the input's last |
| `SequentialPaste.ReplacedLength` | usr.bin/paste/paste.c:216-226 | the output of an input is never longer than the input, and is as long when no delimiter is NUL |
| `SequentialPaste.ReplacedNewlines` | usr.bin/paste/paste.c:216-229 | with no newline among the delimiters, an input comes out as one line, and that line is terminated exactly when the input is |
| `SequentialPaste.ReplacedIdentity` | usr.bin/paste/paste.c:216-226 | with the newline as the only delimiter, `-s` copies its input unchanged |
| `SequentialPaste.ReplacedExample` | usr.bin/paste/paste.c:215-229 | `x`, newline, `y`, newline with `-` gives `x-y` and a newline |
| `SequentialPaste.SequentialNewlines` | usr.bin/paste/paste.c:208-232 | with no newline among the delimiters, the whole output has one newline per opened input that ends with one |
| `SequentialPaste.NewlinesStep` | usr.bin/paste/paste.c:208-232 | each input adds its own newlines to the output's |
| `SequentialPaste.SequentialSkipsFailed` | usr.bin/paste/paste.c:210-213 | a list of inputs whose opens all failed prints nothing, and is a failure exactly when it is not empty |
| `SequentialPaste.SequentialOutputPrefix` | usr.bin/paste/paste.c:208-232 | the output for the first `m` inputs depends on those inputs and their errors alone |
| `SequentialPaste.SequentialDropsFailed` | usr.bin/paste/paste.c:210-213 | an input whose open failed, wherever it stands in the list, adds nothing: the output is that of the list without it, and the run is a failure |
| `SequentialPaste.CycleStep` | usr.bin/paste/paste.c:220-221 | counting `cnt` up with wrap-around at `delimcnt` keeps it equal to the number of newlines replaced so far modulo `delimcnt`, whether or not the delimiter printed for each was NUL |
| `SequentialPaste.CopyStep` | usr.bin/paste/paste.c:215-226 | reading one more character prints the pending delimiter (if any) and the character, or defers it when it is a newline, and keeps the output on track for `Replaced` |
| `SequentialPaste.CopyDone` | usr.bin/paste/paste.c:228-229 | at end of input, a pending newline is printed as a newline and the output is complete |
| `SequentialPaste.CopyStream` | usr.bin/paste/paste.c:215-229 | the inner loop prints exactly `Replaced` of the stream's data and reads the stream to its end |
| `SequentialPaste.CopyAt` | usr.bin/paste/paste.c:215-229 | `CopyStream` on record `i` of the list, leaving the other records as they were and record `i` open |
| `SequentialPaste.SkipAt` | usr.bin/paste/paste.c:210-213 | a record whose open failed is left untouched |
| `SequentialPaste.Sequential` | usr.bin/paste/paste.c:200-235 | prints `SequentialOutput` of the inputs with their errors, returns 1 exactly when some open failed and 0 otherwise, reads every opened stream to its end and leaves the others unread, and changes no record's `open` flag |

## Left out

- `main` is not modelled beyond its delimiter set-up and the record it builds. The parts left out are `getopt`, `mbsrtowcs` and `malloc`, `fopen` and the choice of standard input for `-`, `setlocale`, and the Capsicum calls. These are operating-system plumbing. The engines take their results as inputs: the list of records, the delimiter list, and the mode.
- `usage` only prints a message and exits.
- The texts of `warn`, `err` and `errx` are not modelled. The fatal `tr` error is the `NoDelimiters` result, and `warn` in `-s` mode adds only the failure status.
- Decoding errors are not modelled. Streams are already-decoded `seq<char>`, and `getwc` returns WEOF only at the end of the data, not on a decoding error.
- Write errors of `putwchar`, which the program ignores, are not modelled. Nor is `fclose`: after `sequential` the record keeps `open` set.
- The same `FILE` named twice (`paste - -`, two records on one standard input) is not modelled. Records are distinct objects, each with its own data and cursor.
- The `fileno` call on the null handle of a failed open in `-s` mode (paste.c:130) is a defect of `main`, outside the engines.
- Delimiters.Tr: a specification ending in a lone backslash makes the C loop read past the terminating NUL. The model requires a well-escaped specification (`WellEscaped`) instead of modelling the out-of-bounds read.
- `int` widths are not modelled. `cnt`, `opencnt`, `delimcnt` and the ordinals are unbounded integers, since the counts cannot reach 2^31 for any realistic input.
- ParallelPaste.Parallel: the loop's termination is proved with the measure "rounds left until the longest input is exhausted", not with characters plus `opencnt`.
