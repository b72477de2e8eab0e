/** Decoding one shell-quoted argument inside its own buffer: tools/def_file_generator/def_file_generator.c. */
module ShellArgument {
  import opened CText
  import opened Results

  datatype Quote = Bare | Single | Double

  datatype DecodeError = TrailingEscape | MultipleArguments | UnterminatedQuote | EmptyArgument

  /** Where the decoder stands: the open quote, whether an argument has started, and whether white space
      has followed it. */
  datatype Mode = Mode(quote: Quote, started: bool, separated: bool)

  const START := Mode(Bare, false, false)

  /** The decoder with a separate output. */
  function Decoded(input: string, mode: Mode, output: string): Result<string, DecodeError>
    decreases |input|
  {
    if input == [] then
      if mode.quote != Bare then Err(UnterminatedQuote)
      else if !mode.started then Err(EmptyArgument)
      else Ok(output)
    else
      var c, rest := input[0], input[1..];
      match mode.quote
      case Single => if c == '\'' then Decoded(rest, mode.(quote := Bare), output) else Decoded(rest, mode, output + [c])
      case Double =>
        if c == '"' then Decoded(rest, mode.(quote := Bare), output)
        else if c != '\\' then Decoded(rest, mode, output + [c])
        else if rest == [] then Err(TrailingEscape)
        else Decoded(rest[1..], mode, output + [rest[0]])
      case Bare =>
        if IsSpace(c) then Decoded(rest, mode.(separated := mode.started), output)
        else if mode.separated then Err(MultipleArguments)
        else
          var mode' := mode.(started := true);
          if c == '\'' then Decoded(rest, mode'.(quote := Single), output)
          else if c == '"' then Decoded(rest, mode'.(quote := Double), output)
          else if c != '\\' then Decoded(rest, mode', output + [c])
          else if rest == [] then Err(TrailingEscape)
          else Decoded(rest[1..], mode', output + [rest[0]])
  }

  function Argument(input: string): Result<string, DecodeError> {
    Decoded(input, START, "")
  }

  // ---- quoting

  /** Section 2.2.2 of the POSIX.1-2017 Shell Command Language, an embedded quote as '\''. */
  function SingleQuotedBody(s: string): string {
    if s == [] then []
    else (if s[0] == '\'' then "'\\''" else [s[0]]) + SingleQuotedBody(s[1..])
  }

  function SingleQuoted(s: string): string {
    "'" + SingleQuotedBody(s) + "'"
  }

  function DoubleQuotedBody(s: string): string {
    if s == [] then []
    else (if s[0] == '"' || s[0] == '\\' then ['\\', s[0]] else [s[0]]) + DoubleQuotedBody(s[1..])
  }

  function DoubleQuoted(s: string): string {
    "\"" + DoubleQuotedBody(s) + "\""
  }

  const IN_SINGLE := Mode(Single, true, false)
  const IN_DOUBLE := Mode(Double, true, false)

  lemma {:induction false} SingleBodyDecodes(s: string, output: string)
    ensures Decoded(SingleQuotedBody(s) + "'", IN_SINGLE, output) == Ok(output + s)
    decreases |s|
  {
    var input := SingleQuotedBody(s) + "'";
    if s == [] {
      assert input == "'" && input[1..] == [] && output + s == output;
    } else {
      var tail := SingleQuotedBody(s[1..]) + "'";
      assert output + [s[0]] + s[1..] == output + s;
      SingleBodyDecodes(s[1..], output + [s[0]]);
      if s[0] == '\'' {
        assert input == "'\\''" + tail;
        EmbeddedQuote(tail, output);
      } else {
        assert input == [s[0]] + tail && input[1..] == tail;
      }
    }
  }

  /** Inside single quotes the four characters '\'' stand for one quote. */
  lemma EmbeddedQuote(tail: string, output: string)
    ensures Decoded("'\\''" + tail, IN_SINGLE, output) == Decoded(tail, IN_SINGLE, output + ['\''])
  {
    var s0 := "'\\''" + tail;
    var s1, s3 := s0[1..], s0[3..];
    assert s0[0] == '\'' && s1[0] == '\\' && s1[1..][0] == '\'' && s1[1..][1..] == s3;
    assert s3[0] == '\'' && s3[1..] == tail;
    var bare := Mode(Bare, true, false);
    assert Decoded(s0, IN_SINGLE, output) == Decoded(s1, bare, output);
    assert Decoded(s1, bare, output) == Decoded(s3, bare, output + ['\'']);
    assert Decoded(s3, bare, output + ['\'']) == Decoded(tail, IN_SINGLE, output + ['\'']);
  }

  /** Decoding the single-quoted form of any string gives the string, the empty one included. */
  lemma SingleQuotedRoundTrip(s: string)
    ensures Argument(SingleQuoted(s)) == Ok(s)
  {
    var input := SingleQuoted(s);
    assert input[0] == '\'' && input[1..] == SingleQuotedBody(s) + "'";
    SingleBodyDecodes(s, "");
    assert "" + s == s;
  }

  lemma {:induction false} DoubleBodyDecodes(s: string, output: string)
    ensures Decoded(DoubleQuotedBody(s) + "\"", IN_DOUBLE, output) == Ok(output + s)
    decreases |s|
  {
    var input := DoubleQuotedBody(s) + "\"";
    if s == [] {
      assert input == "\"" && input[1..] == [] && output + s == output;
    } else {
      var tail := DoubleQuotedBody(s[1..]) + "\"";
      assert output + [s[0]] + s[1..] == output + s;
      DoubleBodyDecodes(s[1..], output + [s[0]]);
      if s[0] == '"' || s[0] == '\\' {
        assert input == ['\\', s[0]] + tail && input[1..][0] == s[0] && input[1..][1..] == tail;
      } else {
        assert input == [s[0]] + tail && input[1..] == tail;
      }
    }
  }

  lemma DoubleQuotedRoundTrip(s: string)
    ensures Argument(DoubleQuoted(s)) == Ok(s)
  {
    var input := DoubleQuoted(s);
    assert input[0] == '"' && input[1..] == DoubleQuotedBody(s) + "\"";
    DoubleBodyDecodes(s, "");
    assert "" + s == s;
  }

  // ---- decoding in place

  /** One character read: the new mode, what is written, and how many characters are used up.
      used is 0 for an error. */
  datatype Move = Move(mode: Mode, written: string, used: nat) | Stop(error: DecodeError)

  function Next(c: char, atEnd: bool, following: char, mode: Mode): (r: Move)
    ensures r.Move? ==> |r.written| <= 1 && 1 <= r.used <= 2 && (r.used == 2 ==> !atEnd)
  {
    match mode.quote
    case Single => if c == '\'' then Move(mode.(quote := Bare), "", 1) else Move(mode, [c], 1)
    case Double =>
      if c == '"' then Move(mode.(quote := Bare), "", 1)
      else if c != '\\' then Move(mode, [c], 1)
      else if atEnd then Stop(TrailingEscape)
      else Move(mode, [following], 2)
    case Bare =>
      if IsSpace(c) then Move(mode.(separated := mode.started), "", 1)
      else if mode.separated then Stop(MultipleArguments)
      else
        var mode' := mode.(started := true);
        if c == '\'' then Move(mode'.(quote := Single), "", 1)
        else if c == '"' then Move(mode'.(quote := Double), "", 1)
        else if c != '\\' then Move(mode', [c], 1)
        else if atEnd then Stop(TrailingEscape)
        else Move(mode', [following], 2)
  }

  lemma DecodedStep(input: string, mode: Mode, output: string)
    requires input != []
    ensures var atEnd := |input| == 1;
      match Next(input[0], atEnd, if atEnd then '\0' else input[1], mode)
      case Stop(e) => Decoded(input, mode, output) == Err(e)
      case Move(mode', written, used) => Decoded(input, mode, output) == Decoded(input[used..], mode', output + written)
  {
    assert output + "" == output;
    if |input| > 1 {
      assert input[1..][1..] == input[2..];
    }
  }

  lemma DecodedEnd(mode: Mode, output: string)
    ensures Decoded([], mode, output) == if mode.quote != Bare then Err(UnterminatedQuote)
                                         else if !mode.started then Err(EmptyArgument)
                                         else Ok(output)
  {
  }

  /** decode_shell_argument on the C string value[..end]: the argument replaces it in the same buffer,
      and the write cursor never passes the read cursor. */
  method DecodeShellArgument(value: array<char>, end: nat) returns (result: Result<nat, DecodeError>)
    requires end < value.Length && value[end] == '\0' && forall i | 0 <= i < end :: value[i] != '\0'
    modifies value
    ensures match Argument(old(value[..end]))
      case Err(e) => result == Err(e)
      case Ok(s) => result == Ok(|s|) && |s| <= end && value[..|s|] == s && value[|s|] == '\0'
    ensures value[end..] == old(value[end..])
  {
    hide Decoded, Next;
    ghost var s := value[..end];
    var input, output := 0, 0;
    var mode := START;
    while value[input] != '\0'
      invariant 0 <= output <= input <= end
      invariant value[input..] == old(value[input..]) && value[end..] == old(value[end..])
      invariant Decoded(s[input..], mode, value[..output]) == Argument(s)
      decreases end - input
    {
      assert forall i | input <= i < end :: value[i] == value[input..][i - input] == s[i];
      assert value[end] == value[input..][end - input] == '\0';
      ghost var done := value[..output];
      DecodedStep(s[input..], mode, done);
      var move := Next(value[input], value[input + 1] == '\0', value[input + 1], mode);
      if move.Stop? {
        return Err(move.error);
      }
      if move.written != "" {
        assert move.written == [move.written[0]];
        value[output] := move.written[0];
        output := output + 1;
        assert value[..output] == done + move.written;
      } else {
        assert done + move.written == done;
      }
      assert s[input..][move.used..] == s[input + move.used..];
      input := input + move.used;
      mode := move.mode;
    }
    assert value[input] == value[input..][0] == old(value[input..])[0];
    assert input == end && s[input..] == [];
    DecodedEnd(mode, value[..output]);
    if mode.quote != Bare {
      return Err(UnterminatedQuote);
    }
    if !mode.started {
      return Err(EmptyArgument);
    }
    value[output] := '\0';
    result := Ok(output);
  }
}
