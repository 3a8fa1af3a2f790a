/** The delimiter rewriter: each line of the input is copied to the output with
    every occurrence of the original separator replaced by the new one, and, in
    check mode, every line's delimiter count is compared with the first line's.
    The input file is its text; the output file is the sequence of transformed
    lines written so far. */
module Csvconv {
  import opened Text

  /** What processing one line reports: its delimiter count (check mode), that
      a line was processed (no check), or that the reader had nothing left. */
  datatype LineProcessingResult = Some(count: nat) | Any | EndOfFile

  /** The record of a failed consistency check; `lineNumber` is 1-based. */
  datatype CountError = CountError(delimitersAtHeader: nat, delimitersAtLine: nat, lineNumber: nat)

  /** Errors of a run. `IoError` stands for a failed read or write; I/O is not
      modelled, so no operation here produces it. */
  datatype FileError = IoError | DifferentCount(countError: CountError)

  datatype Result<T, E> = Ok(value: T) | Err(error: E)

  function Last(s: string): char
    requires s != []
  {
    s[|s| - 1]
  }

  /** The number of graphemes of `line` equal to the LAST grapheme of
      `originalSep`. For a separator of several graphemes this is not the
      number of its occurrences. Taking the last grapheme of an empty
      separator fails, which only happens once a grapheme is compared. */
  function DelimiterCount(line: string, originalSep: string): (r: nat)
    requires originalSep != [] || line == []
    ensures r <= |line|
    ensures originalSep != [] ==> r == multiset(line)[Last(originalSep)]
  {
    if line == [] then 0
    else
      assert line == [line[0]] + line[1..];
      (if line[0] == Last(originalSep) then 1 else 0) + DelimiterCount(line[1..], originalSep)
  }

  /** The lines as they are written: each with `originalSep` replaced by
      `newSep`; replacing a separator by itself writes every line unchanged. */
  function Transformed(lines: seq<string>, originalSep: string, newSep: string): (out: seq<string>)
    ensures originalSep == newSep ==> out == lines
  {
    seq(|lines|, i requires 0 <= i < |lines| => Replace(lines[i], originalSep, newSep))
  }

  lemma TransformedAppend(lines: seq<string>, k: nat, originalSep: string, newSep: string)
    requires k < |lines|
    ensures Transformed(lines[..k + 1], originalSep, newSep)
         == Transformed(lines[..k], originalSep, newSep) + [Replace(lines[k], originalSep, newSep)]
  {
  }

  /** Appending the next transformed line keeps the output equal to the
      transformed prefix of the input and the counter equal to its size. */
  lemma WriteStep(lines: seq<string>, k: nat, output: seq<string>, size: nat,
                  originalSep: string, newSep: string)
    requires k < |lines|
    requires output == Transformed(lines[..k], originalSep, newSep)
    requires size == ByteLen(Concat(output))
    ensures output + [Replace(lines[k], originalSep, newSep)] == Transformed(lines[..k + 1], originalSep, newSep)
    ensures size + ByteLen(Replace(lines[k], originalSep, newSep))
         == ByteLen(Concat(output + [Replace(lines[k], originalSep, newSep)]))
  {
    var line := Replace(lines[k], originalSep, newSep);
    TransformedAppend(lines, k, originalSep, newSep);
    ConcatAppend(output, line);
    ByteLenAppend(Concat(output), line);
  }

  /** Index of the first line whose delimiter count differs from `header`,
      or `|lines|` when there is none. */
  function FirstMismatch(lines: seq<string>, originalSep: string, header: nat): (k: nat)
    requires originalSep != []
    ensures k <= |lines|
    ensures forall j :: 0 <= j < k ==> DelimiterCount(lines[j], originalSep) == header
    ensures k < |lines| ==> DelimiterCount(lines[k], originalSep) != header
  {
    if lines == [] then 0
    else if DelimiterCount(lines[0], originalSep) != header then 0
    else 1 + FirstMismatch(lines[1..], originalSep, header)
  }

  /** Expected in check mode, given where the first mismatch after the
      header line is (`k == |lines|` when there is none). */
  lemma ExpectedChecked(lines: seq<string>, originalSep: string, newSep: string, k: nat)
    requires lines != [] && originalSep != [] && 1 <= k <= |lines|
    requires forall j :: 1 <= j < k ==>
      DelimiterCount(lines[j], originalSep) == DelimiterCount(lines[0], originalSep)
    requires k < |lines| ==>
      DelimiterCount(lines[k], originalSep) != DelimiterCount(lines[0], originalSep)
    ensures Expected(lines, originalSep, newSep, true)
         == if k == |lines| then Run(Ok(()), Transformed(lines, originalSep, newSep))
            else Run(Err(DifferentCount(CountError(DelimiterCount(lines[0], originalSep),
                                                   DelimiterCount(lines[k], originalSep), k + 1))),
                     Transformed(lines[..k + 1], originalSep, newSep))
  {
  }

  /** Expected on no lines and without check mode. */
  lemma ExpectedUnchecked(lines: seq<string>, originalSep: string, newSep: string, check: bool)
    requires lines == [] || !check
    ensures Expected(lines, originalSep, newSep, check) == Run(Ok(()), Transformed(lines, originalSep, newSep))
  {
  }

  /** What a run leaves behind: its result and the lines written. */
  datatype Run = Run(result: Result<(), FileError>, written: seq<string>)

  /** Reference semantics of a whole run over the lines of the input: the
      first line fixes the delimiter count, later lines are compared with it,
      and the first mismatch stops the run after that line is written. A
      success writes every line; an error is a count error, only in check
      mode, whose line number is the number of lines written, at least 2. */
  function Expected(lines: seq<string>, originalSep: string, newSep: string, check: bool): (r: Run)
    requires check && lines != [] ==> originalSep != []
    ensures r.result.Ok? ==> r.result == Ok(()) && |r.written| == |lines|
    ensures !check ==> r.result.Ok?
    ensures r.result.Err? ==>
      && check
      && r.result.error.DifferentCount?
      && 2 <= r.result.error.countError.lineNumber == |r.written| <= |lines|
  {
    if lines == [] then Run(Ok(()), [])
    else if !check then Run(Ok(()), Transformed(lines, originalSep, newSep))
    else
      var header := DelimiterCount(lines[0], originalSep);
      var k := 1 + FirstMismatch(lines[1..], originalSep, header);
      if k == |lines| then Run(Ok(()), Transformed(lines, originalSep, newSep))
      else
        Run(Err(DifferentCount(CountError(header, DelimiterCount(lines[k], originalSep), k + 1))),
            Transformed(lines[..k + 1], originalSep, newSep))
  }

  /** A reader over the input, the output written so far and the running
      byte counter fed to the progress bar, together with the command's
      separators and check flag. */
  class Converter {
    const input: seq<string>
    const originalSep: string
    const newSep: string
    const check: bool
    var pos: nat
    var output: seq<string>
    var sizeSeen: nat

    /** The lines read so far have been written, transformed and in order,
        and `sizeSeen` is the number of bytes written. */
    ghost predicate Valid()
      reads this
    {
      && pos <= |input|
      && output == Transformed(input[..pos], originalSep, newSep)
      && sizeSeen == ByteLen(Concat(output))
    }

    constructor (text: string, originalSep: string, newSep: string, check: bool)
      ensures Valid()
      ensures input == Lines(text) && pos == 0 && output == [] && sizeSeen == 0
      ensures this.originalSep == originalSep && this.newSep == newSep && this.check == check
    {
      this.input := Lines(text);
      this.originalSep := originalSep;
      this.newSep := newSep;
      this.check := check;
      pos := 0;
      output := [];
      sizeSeen := 0;
    }

    /** Reads one line; counts its delimiters first when checking; writes it
        with the separator replaced and adds the written length to `sizeSeen`. */
    method ProcessLine() returns (r: LineProcessingResult)
      requires Valid()
      requires check && pos < |input| ==> originalSep != []
      modifies this
      ensures Valid()
      ensures old(pos) == |input| ==>
        r == EndOfFile && pos == old(pos) && output == old(output) && sizeSeen == old(sizeSeen)
      ensures old(pos) < |input| ==>
        && pos == old(pos) + 1
        && output == old(output) + [Replace(input[old(pos)], originalSep, newSep)]
        && sizeSeen == old(sizeSeen) + ByteLen(Replace(input[old(pos)], originalSep, newSep))
        && r == (if check then Some(DelimiterCount(input[old(pos)], originalSep)) else Any)
    {
      if pos == |input| {
        return EndOfFile;
      }
      var buffer := input[pos];
      WriteStep(input, pos, output, sizeSeen, originalSep, newSep);
      pos := pos + 1;
      if check {
        var numberOfDelimiters := DelimiterCount(buffer, originalSep);
        var replaced := Replace(buffer, originalSep, newSep);
        output := output + [replaced];
        sizeSeen := sizeSeen + ByteLen(replaced);
        r := Some(numberOfDelimiters);
      } else {
        var replaced := Replace(buffer, originalSep, newSep);
        output := output + [replaced];
        sizeSeen := sizeSeen + ByteLen(replaced);
        r := Any;
      }
    }

    /** Processes lines until the reader is exhausted. */
    method RunWithoutCheck()
      requires Valid()
      requires check ==> originalSep != []
      modifies this
      ensures Valid()
      ensures pos == |input| && output == Transformed(input, originalSep, newSep)
    {
      while true
        invariant Valid()
        decreases |input| - pos
      {
        var r := ProcessLine();
        if r.EndOfFile? {
          break;
        }
      }
      assert input[..pos] == input;
    }

    /** Processes lines, comparing each one's delimiter count with
        `numberToCompare`; the first line compared is line 2. On the first
        mismatch the run stops, that line having been written. */
    method RunWithCheck(numberToCompare: nat) returns (res: Result<(), FileError>)
      requires Valid()
      requires check && originalSep != []
      modifies this
      ensures Valid()
      ensures res.Ok? <==>
        forall j :: old(pos) <= j < |input| ==> DelimiterCount(input[j], originalSep) == numberToCompare
      ensures res.Ok? ==> res == Ok(()) && pos == |input|
      ensures res.Err? ==>
        && old(pos) < pos
        && (forall j :: old(pos) <= j < pos - 1 ==> DelimiterCount(input[j], originalSep) == numberToCompare)
        && DelimiterCount(input[pos - 1], originalSep) != numberToCompare
        && res == Err(DifferentCount(CountError(numberToCompare,
                                                DelimiterCount(input[pos - 1], originalSep),
                                                pos - old(pos) + 1)))
    {
      var lineNumber := 2;
      while true
        invariant Valid()
        invariant old(pos) <= pos <= |input|
        invariant lineNumber == pos - old(pos) + 2
        invariant forall j :: old(pos) <= j < pos ==> DelimiterCount(input[j], originalSep) == numberToCompare
        decreases |input| - pos
      {
        var r := ProcessLine();
        match r {
          case Some(numberInThisLine) =>
            if numberToCompare != numberInThisLine {
              return Err(DifferentCount(CountError(numberToCompare, numberInThisLine, lineNumber)));
            }
          case EndOfFile =>
            break;
          case Any =>
        }
        lineNumber := lineNumber + 1;
      }
      return Ok(());
    }
  }

  /** The program's run on a file with contents `text`: the first line decides
      between the checked and the unchecked loop. Returns the result, the
      lines written and the last position given to the progress bar, which
      is the number of bytes written. */
  method Convert(text: string, originalSep: string, newSep: string, check: bool)
    returns (res: Result<(), FileError>, written: seq<string>, sizeSeen: nat)
    requires |newSep| == 1
    requires check && text != [] ==> originalSep != []
    ensures Run(res, written) == Expected(Lines(text), originalSep, newSep, check)
    ensures sizeSeen == ByteLen(Concat(written))
    ensures text == [] ==> res == Ok(()) && written == [] && sizeSeen == 0
    ensures !check ==> res == Ok(()) && written == Transformed(Lines(text), originalSep, newSep)
  {
    var c := new Converter(text, originalSep, newSep, check);
    var first := c.ProcessLine();
    match first {
      case EndOfFile =>
        res := Ok(());
      case Some(countFromFirstLine) =>
        assert check && c.pos == 1 && countFromFirstLine == DelimiterCount(c.input[0], originalSep);
        res := c.RunWithCheck(countFromFirstLine);
        if res.Ok? {
          assert c.input[..|c.input|] == c.input;
          ExpectedChecked(c.input, originalSep, newSep, |c.input|);
        } else {
          ExpectedChecked(c.input, originalSep, newSep, c.pos - 1);
        }
      case Any =>
        c.RunWithoutCheck();
        res := Ok(());
    }
    written, sizeSeen := c.output, c.sizeSeen;
    if text == [] || !check {
      ExpectedUnchecked(Lines(text), originalSep, newSep, check);
    }
  }
}
