/** Classifying the line-based output of a git command as zero, one or many lines. */
module Arity {
  import opened Wrappers
  import opened Strings

  /** Drops the carriage return of a `\r\n` line ending. */
  function StripCr(line: string): string {
    if |line| > 0 && line[|line| - 1] == '\r' then line[..|line| - 1] else line
  }

  /**
   * Rust's `str::lines`: lines end at `\n` or `\r\n`, the last line ending is optional, and
   * the empty string has no lines at all.
   */
  function Lines(s: string): (lines: seq<string>)
    ensures forall i | 0 <= i < |lines| :: '\n' !in lines[i]
    ensures |lines| == 0 <==> s == []
    decreases |s|
  {
    if s == [] then
      []
    else if '\n' in s then
      var i := IndexOf(s, '\n');
      [StripCr(s[..i])] + Lines(s[i + 1..])
    else
      [s]
  }

  /** Each line followed by a `\n`, the shape of a command's complete output. */
  function Terminated(lines: seq<string>): string {
    if |lines| == 0 then [] else lines[0] + "\n" + Terminated(lines[1..])
  }

  /** How many lines a command printed. */
  datatype LineArity =
    | Zero
    | One(line: string)
    | Many(output: string)

  /** Why a caller refused a command's output. */
  datatype ArityError =
    | ExpectedOne(got: LineArity)
    | ExpectedZeroOrOne(output: string)

  /** Classifies `s`; a single empty line counts as none, and two or more lines keep the whole output. */
  function FromOutput(s: string): (a: LineArity)
    ensures a.Zero? <==> s == "" || s == "\n" || s == "\r\n"
    ensures a.Many? <==> |s| > 0 && '\n' in s[..|s| - 1]
    ensures a.Many? ==> a.output == s
    ensures a.One? ==> a.line != [] && '\n' !in a.line
    ensures a.One? ==> s == a.line || s == a.line + "\n" || s == a.line + "\r\n"
  {
    var lines := Lines(s);
    LinesShape(s);
    if |lines| == 0 then
      Zero
    else if |lines| == 1 then
      if lines[0] == [] then Zero else One(lines[0])
    else
      Many(s)
  }

  /** The caller wants exactly one line. */
  function ExactlyOne(a: LineArity): (r: Result<string, ArityError>)
    ensures r.Ok? <==> a.One?
    ensures r.Ok? ==> r.value == a.line
    ensures r.Err? ==> r.error == ExpectedOne(a)
  {
    if a.One? then Ok(a.line) else Err(ExpectedOne(a))
  }

  /** The caller accepts zero lines or one. */
  function ZeroOrOne(a: LineArity): (r: Result<Option<string>, ArityError>)
    ensures r.Err? <==> a.Many?
    ensures r == Ok(None) <==> a.Zero?
    ensures a.One? ==> r == Ok(Some(a.line))
  {
    match a
    case Zero => Ok(None)
    case One(line) => Ok(Some(line))
    case Many(output) => Err(ExpectedZeroOrOne(output))
  }

  /** Where the first line of `s` ends decides whether there is a second line. */
  lemma LinesShape(s: string)
    ensures |Lines(s)| <= 1 <==> |s| == 0 || '\n' !in s[..|s| - 1]
    ensures |Lines(s)| == 1 ==>
      if '\n' in s then s == Lines(s)[0] + "\n" || s == Lines(s)[0] + "\r\n" else s == Lines(s)[0]
  {
    if s != [] && '\n' in s {
      var i := IndexOf(s, '\n');
      var rest := s[i + 1..];
      if rest == [] {
        assert i == |s| - 1;
        assert s[..|s| - 1] == s[..i];
        assert s == s[..i] + "\n";
      } else {
        assert s[..|s| - 1][i] == '\n';
      }
    }
  }

  /** Reading the lines of complete output gives back lines that hold no line break. */
  lemma {:induction false} LinesOfTerminated(lines: seq<string>)
    requires forall i | 0 <= i < |lines| :: '\n' !in lines[i]
    requires forall i | 0 <= i < |lines| :: lines[i] == [] || lines[i][|lines[i]| - 1] != '\r'
    ensures Lines(Terminated(lines)) == lines
  {
    if |lines| > 0 {
      var tail := lines[1..];
      assert forall i | 0 <= i < |tail| :: tail[i] == lines[i + 1];
      LinesOfTerminated(tail);
      assert Terminated(lines) == lines[0] + ['\n'] + Terminated(tail);
      LinesCons(lines[0], Terminated(tail));
      assert lines == [lines[0]] + tail;
    }
  }

  /** A line without a break or a trailing carriage return, then `\n`, is read as itself. */
  lemma LinesCons(head: string, rest: string)
    requires '\n' !in head
    requires head == [] || head[|head| - 1] != '\r'
    ensures Lines(head + ['\n'] + rest) == [head] + Lines(rest)
  {
    var s := head + ['\n'] + rest;
    assert s[|head|] == '\n';
    IndexOfAfterHead(head, '\n', rest);
    assert s[..|head|] == head;
    assert s[|head| + 1..] == rest;
    assert StripCr(head) == head;
    assert Lines(s) == [StripCr(head)] + Lines(rest);
  }

  /** Empty output and a lone newline hold no line: `one` fails and `zero_or_one` gives nothing. */
  lemma NoLineExamples()
    ensures ExactlyOne(FromOutput("")).Err? && ZeroOrOne(FromOutput("")) == Ok(None)
    ensures ExactlyOne(FromOutput("\n")).Err? && ZeroOrOne(FromOutput("\n")) == Ok(None)
  {
  }

  /** One line, with or without its newline, is that line for both conversions. */
  lemma OneLineExamples()
    ensures ExactlyOne(FromOutput("line")) == Ok("line") && ZeroOrOne(FromOutput("line")) == Ok(Some("line"))
    ensures ExactlyOne(FromOutput("line\n")) == Ok("line") && ZeroOrOne(FromOutput("line\n")) == Ok(Some("line"))
  {
    assert "line\n" == "line" + "\n";
  }

  /** Two lines make both conversions fail. */
  lemma TwoLinesExample()
    ensures ExactlyOne(FromOutput("line\nanother\n")).Err? && ZeroOrOne(FromOutput("line\nanother\n")).Err?
  {
    assert "line\nanother\n"[..13][4] == '\n';
  }
}
