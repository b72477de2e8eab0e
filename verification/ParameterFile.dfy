/** Parameter files, one shell-quoted file name on each line: tools/def_file_generator/def_file_generator.c. */
module ParameterFile {
  import opened CText
  import opened Results
  import opened DefFile
  import opened DefGenerator
  import opened ShellArgument

  // ---- trimming

  function TrimEnd(s: string, start: nat, end: nat): (r: nat)
    requires start <= end <= |s|
    ensures start <= r <= end
    ensures forall k | r <= k < end :: IsSpace(s[k])
    ensures r > start ==> !IsSpace(s[r - 1])
  {
    if end > start && IsSpace(s[end - 1]) then TrimEnd(s, start, end - 1) else end
  }

  function Trimmed(s: string): string {
    var start := NonSpaceAt(s, 0);
    s[start..TrimEnd(s, start, |s|)]
  }

  /** The text trim removes at the end. */
  function Trailing(s: string): string {
    var start := NonSpaceAt(s, 0);
    s[TrimEnd(s, start, |s|)..]
  }

  /** trim on the C string value[..end]: a start, and a NUL stored over the first trailing space. */
  method Trim(value: array<char>, end: nat) returns (start: nat, newEnd: nat)
    requires end < value.Length && value[end] == '\0'
    modifies value
    ensures start <= newEnd <= end && value[newEnd] == '\0'
    ensures value[start..newEnd] == Trimmed(old(value[..end]))
    ensures value[..newEnd] == old(value[..newEnd]) && value[newEnd + 1..] == old(value[newEnd + 1..])
  {
    ghost var s := value[..end];
    start := 0;
    while start < end && IsSpace(value[start])
      invariant 0 <= start <= end
      invariant NonSpaceAt(s, start) == NonSpaceAt(s, 0)
    {
      start := start + 1;
    }
    newEnd := end;
    while newEnd != start && IsSpace(value[newEnd - 1])
      invariant start <= newEnd <= end
      invariant TrimEnd(s, start, newEnd) == TrimEnd(s, start, end)
    {
      newEnd := newEnd - 1;
    }
    value[newEnd] := '\0';
    assert value[start..newEnd] == s[start..newEnd];
  }

  lemma {:induction false} LeadingSpacesIgnored(lead: string, s: string)
    requires AllSpace(lead)
    ensures Argument(lead + s) == Argument(s)
  {
    if lead == [] {
      assert lead + s == s;
    } else {
      LeadingSpacesIgnored(lead[1..], s);
      assert (lead + s)[1..] == lead[1..] + s && (lead + s)[0] == lead[0];
    }
  }

  lemma {:induction false} OnlySpaces(trail: string, mode: Mode, output: string)
    requires AllSpace(trail)
    ensures match Decoded(trail, mode, output)
      case Ok(r) => mode.quote == Bare && mode.started && r == output
      case Err(e) => (mode.quote != Bare && e == UnterminatedQuote) || (mode.quote == Bare && !mode.started && e == EmptyArgument)
    decreases |trail|
  {
    if trail != [] {
      DecodedStep(trail, mode, output);
      var written := if mode.quote == Bare then "" else [trail[0]];
      assert output + "" == output;
      OnlySpaces(trail[1..], if mode.quote == Bare then mode.(separated := mode.started) else mode, output + written);
    }
  }

  /** White space at the end changes nothing unless it completes an escape. */
  lemma {:induction false} TrailingSpaces(s: string, trail: string, mode: Mode, output: string)
    requires AllSpace(trail) && trail != []
    ensures Decoded(s, mode, output) == Err(TrailingEscape) ==> Decoded(s + trail, mode, output) != Err(TrailingEscape)
    ensures Decoded(s, mode, output) != Err(TrailingEscape) ==> Decoded(s + trail, mode, output) == Decoded(s, mode, output)
    decreases |s|
  {
    hide Decoded;
    if s == [] {
      assert s + trail == trail;
      OnlySpaces(trail, mode, output);
      DecodedEnd(mode, output);
    } else {
      DecodedStep(s, mode, output);
      DecodedStep(s + trail, mode, output);
      StepBeforeSpaces(s, trail, mode, output);
    }
  }

  /** The two decoders of the lemma above after their first step. */
  lemma {:induction false} StepBeforeSpaces(s: string, trail: string, mode: Mode, output: string)
    requires AllSpace(trail) && trail != [] && s != []
    ensures Decoded(s, mode, output) == Err(TrailingEscape) ==> Decoded(s + trail, mode, output) != Err(TrailingEscape)
    ensures Decoded(s, mode, output) != Err(TrailingEscape) ==> Decoded(s + trail, mode, output) == Decoded(s, mode, output)
    decreases |s|, 0
  {
    hide Decoded;
    var t := s + trail;
    var move := Next(s[0], |s| == 1, if |s| == 1 then '\0' else s[1], mode);
    var move' := Next(t[0], false, t[1], mode);
    DecodedStep(s, mode, output);
    DecodedStep(t, mode, output);
    assert |s| > 1 ==> t[1] == s[1];
    if move.Move? {
      assert move' == move;
      assert t[move.used..] == s[move.used..] + trail;
      TrailingSpaces(s[move.used..], trail, move.mode, output + move.written);
    } else if move'.Move? {
      assert t[2..] == trail[1..];
      OnlySpaces(trail[1..], move'.mode, output + move'.written);
    }
  }

  /** The open quote, and whether an argument has begun and ended, after reading a text; nothing when a
      second argument begins or a backslash still waits for its character. */
  function StateAfter(s: string, mode: Mode): Option<Mode>
    decreases |s|
  {
    if s == [] then Some(mode)
    else
      match Next(s[0], |s| == 1, if |s| == 1 then '\0' else s[1], mode)
      case Stop(_) => None
      case Move(mode', _, used) => StateAfter(s[used..], mode')
  }

  /** The text ends in a backslash that escapes: outside single quotes, not itself escaped, and not after
      the argument has ended. */
  predicate EndsInEscape(s: string, mode: Mode) {
    s != [] && s[|s| - 1] == '\\'
    && match StateAfter(s[..|s| - 1], mode)
       case None => false
       case Some(m) => m.quote == Double || (m.quote == Bare && !m.separated)
  }

  lemma EscapeAtEnd(s: string, mode: Mode, output: string)
    requires |s| == 1
    ensures Decoded(s, mode, output) == Err(TrailingEscape) <==> EndsInEscape(s, mode)
  {
    DecodedStep(s, mode, output);
    assert s[..0] == [];
    if Next(s[0], true, '\0', mode).Move? {
      var move := Next(s[0], true, '\0', mode);
      assert s[move.used..] == [];
      DecodedEnd(move.mode, output + move.written);
    }
  }

  lemma StateStep(s: string, mode: Mode)
    requires |s| >= 2
    ensures var u := s[..|s| - 1];
      match Next(s[0], false, s[1], mode)
      case Stop(_) => StateAfter(u, mode) == None
      case Move(mode', _, used) =>
        if used == |s| then StateAfter(u, mode) == None else StateAfter(u, mode) == StateAfter(u[used..], mode')
  {
  }

  /** The decoder complains of a trailing escape exactly on such texts. */
  lemma {:induction false} EscapeExact(s: string, mode: Mode, output: string)
    ensures Decoded(s, mode, output) == Err(TrailingEscape) <==> EndsInEscape(s, mode)
    decreases |s|
  {
    hide Decoded, Next;
    if s == [] {
      DecodedEnd(mode, output);
    } else if |s| == 1 {
      EscapeAtEnd(s, mode, output);
    } else {
      DecodedStep(s, mode, output);
      StateStep(s, mode);
      var move := Next(s[0], false, s[1], mode);
      if move.Move? {
        EscapeExact(s[move.used..], move.mode, output + move.written);
        if move.used < |s| {
          assert s[move.used..][..|s| - move.used - 1] == s[..|s| - 1][move.used..];
          assert s[move.used..][|s| - move.used - 1] == s[|s| - 1];
        }
      } else {
        NotTrailing(s[0], s[1], mode);
      }
    }
  }

  lemma NotTrailing(c: char, following: char, mode: Mode)
    ensures Next(c, false, following, mode).Stop? ==> Next(c, false, following, mode).error == MultipleArguments
  {
  }

  lemma TrimSplits(s: string) returns (lead: string)
    ensures AllSpace(lead) && AllSpace(Trailing(s))
    ensures s == lead + (Trimmed(s) + Trailing(s))
  {
    lead := s[..NonSpaceAt(s, 0)];
  }

  /** trim before decoding is harmless exactly when nothing is cut at the end, or what is left does not end
      in a backslash that escapes. */
  lemma TrimExact(s: string)
    ensures Argument(Trimmed(s)) == Argument(s)
      <==> (Trailing(s) == [] || !EndsInEscape(Trimmed(s), START))
  {
    hide Decoded, Trimmed, Trailing, AllSpace, EndsInEscape;
    var lead := TrimSplits(s);
    EscapeExact(Trimmed(s), START, "");
    LeadingSpacesIgnored(lead, Trimmed(s) + Trailing(s));
    if Trailing(s) == [] {
      assert Trimmed(s) + Trailing(s) == Trimmed(s);
    } else {
      TrailingSpaces(Trimmed(s), Trailing(s), START, "");
    }
  }

  /** The escaped space at the end of `a\ ` is lost to trim. */
  lemma TrimBreaksEscapedSpace()
    ensures Argument("a\\ ") == Ok("a ")
    ensures Argument(Trimmed("a\\ ")) == Err(TrailingEscape)
  {
    var s := "a\\ ";
    assert NonSpaceAt(s, 0) == 0 && TrimEnd(s, 0, 3) == TrimEnd(s, 0, 2) == 2;
    assert Trimmed(s) == s[..2] && s[..2][1..] == s[1..2] && s[1..2][1..] == [];
    assert s[1..][1..][1..] == [] && "" + "a" == "a";
    hide Next;
    DecodedStep(s, START, "");
    DecodedStep(s[1..], Mode(Bare, true, false), "a");
    assert "a" + " " == "a ";
  }

  // ---- whole files

  function Cons(head: string, tail: Result<seq<string>, DecodeError>): Result<seq<string>, DecodeError> {
    match tail
    case Ok(names) => Ok([head] + names)
    case Err(e) => Err(e)
  }

  /** The file names of a parameter file's lines, up to the first that does not decode. */
  function Names(lines: seq<string>): Result<seq<string>, DecodeError> {
    if lines == [] then Ok([])
    else
      match Argument(Trimmed(CString(lines[0])))
      case Err(e) => Err(e)
      case Ok(name) => Cons(name, Names(lines[1..]))
  }

  function ParameterText(names: seq<string>): string {
    if names == [] then "" else SingleQuoted(names[0]) + "\n" + ParameterText(names[1..])
  }

  /** Trimming takes the white space at both ends and nothing else. */
  lemma TrimmedExact(lead: string, s: string, trail: string)
    requires AllSpace(lead) && AllSpace(trail)
    requires s != [] ==> !IsSpace(s[0]) && !IsSpace(s[|s| - 1])
    ensures Trimmed(lead + s + trail) == s
  {
    hide NonSpaceAt, TrimEnd;
    var t := lead + s + trail;
    var start := NonSpaceAt(t, 0);
    var end := TrimEnd(t, start, |t|);
    assert forall k | 0 <= k < |lead| :: t[k] == lead[k];
    assert forall k | 0 <= k < |trail| :: t[|lead + s| + k] == trail[k];
    if s == [] {
      assert forall k | 0 <= k < |t| :: IsSpace(t[k]) by {
        assert t == lead + trail;
      }
      assert start == |t|;
    } else {
      assert t[|lead|] == s[0] && t[|lead + s| - 1] == s[|s| - 1];
      NonSpaceAtExact(t, 0, |lead|);
      assert end == |lead + s|;
      assert t[|lead|..|lead + s|] == s;
    }
  }

  function NameOf(line: string): Result<string, DecodeError> {
    Argument(Trimmed(CString(line)))
  }

  /** A file is read exactly when every line decodes, each to its name. */
  lemma {:induction false} NamesExact(lines: seq<string>, names: seq<string>)
    ensures Names(lines) == Ok(names)
       <==> |names| == |lines| && forall i | 0 <= i < |lines| :: NameOf(lines[i]) == Ok(names[i])
  {
    hide Argument, Trimmed, CString;
    if lines != [] {
      if names != [] {
        NamesExact(lines[1..], names[1..]);
        assert names == [names[0]] + names[1..];
        assert forall i | 0 < i < |lines| :: lines[i] == lines[1..][i - 1];
        assert forall i | 0 < i < |names| :: names[i] == names[1..][i - 1];
      }
    }
  }

  /** Otherwise the error is that of the first line that does not decode, a line of white space included. */
  lemma {:induction false} FirstErrorExact(lines: seq<string>, e: DecodeError)
    ensures Names(lines) == Err(e)
       <==> exists k | 0 <= k < |lines| :: NameOf(lines[k]) == Err(e) && forall i | 0 <= i < k :: NameOf(lines[i]).Ok?
  {
    hide Argument, Trimmed, CString;
    if lines != [] {
      var rest := lines[1..];
      FirstErrorExact(rest, e);
      assert forall i | 0 < i < |lines| :: lines[i] == rest[i - 1];
      if k :| 0 <= k < |rest| && NameOf(rest[k]) == Err(e) && forall i | 0 <= i < k :: NameOf(rest[i]).Ok? {
        assert lines[k + 1] == rest[k];
        assert NameOf(lines[0]).Ok? ==> forall i | 0 <= i < k + 1 :: NameOf(lines[i]).Ok?;
      }
      if k :| 0 < k < |lines| && NameOf(lines[k]) == Err(e) && forall i | 0 <= i < k :: NameOf(lines[i]).Ok? {
        assert forall i | 0 <= i < k - 1 :: rest[i] == lines[i + 1];
        assert rest[k - 1] == lines[k];
      }
    }
  }

  lemma {:induction false} QuotedBodyLacks(s: string, c: char)
    requires Lacks(s, c) && c != '\'' && c != '\\'
    ensures Lacks(SingleQuotedBody(s), c)
  {
    if s != [] {
      QuotedBodyLacks(s[1..], c);
      var head := if s[0] == '\'' then "'\\''" else [s[0]];
      assert Lacks(head, c);
      assert SingleQuotedBody(s) == head + SingleQuotedBody(s[1..]);
    }
  }

  lemma QuotedLineReads(name: string)
    requires Lacks(name, '\0') && Lacks(name, '\n')
    ensures Lacks(SingleQuoted(name), '\n')
    ensures Argument(Trimmed(CString(SingleQuoted(name)))) == Ok(name)
  {
    hide CString, Argument, SingleQuotedBody;
    QuotedBodyLacks(name, '\0');
    QuotedBodyLacks(name, '\n');
    var line := SingleQuoted(name);
    CStringOfPlain(line);
    assert line[0] == '\'' && line[|line| - 1] == '\'';
    assert Trimmed(line) == line;
    SingleQuotedRoundTrip(name);
  }

  /** A parameter file of single-quoted names gives back exactly the names, blanks, quotes and backslashes
      included. */
  lemma {:induction false} ParameterFileRoundTrip(names: seq<string>)
    requires forall n | n in names :: Lacks(n, '\0') && Lacks(n, '\n')
    ensures Names(Lines(ParameterText(names))) == Ok(names)
  {
    hide Lines, CString, Argument, Trimmed, SingleQuoted;
    if names == [] {
      NoLines();
    } else {
      assert names[0] in names;
      QuotedLineReads(names[0]);
      LineSplits(SingleQuoted(names[0]), ParameterText(names[1..]));
      ParameterFileRoundTrip(names[1..]);
      assert names == [names[0]] + names[1..];
    }
  }

  /** One line of the file, trimmed and decoded inside its own buffer. */
  method ReadName(line: string) returns (name: Result<string, DecodeError>)
    ensures name == Argument(Trimmed(CString(line)))
  {
    hide Argument, CString, Trimmed;
    var text := CString(line);
    CStringLacks(line);
    var buffer := Terminated(text);
    var start, end := Trim(buffer, |text|);
    // The decoder starts at the first character that is not white space.
    var argument := Terminated(buffer[start..end]);
    TrimmedLacks(text);
    var length := DecodeShellArgument(argument, end - start);
    match length
    case Err(e) => name := Err(e);
    case Ok(n) => name := Ok(argument[..n]);
  }

  lemma TrimmedLacks(s: string)
    requires Lacks(s, '\0')
    ensures Lacks(Trimmed(s), '\0')
  {
  }

  /** The loop of expand_inputs over one parameter file. */
  method ReadParameterFile(content: string) returns (names: Result<seq<string>, DecodeError>)
    ensures names == Names(Lines(content))
  {
    hide Argument, CString, Trimmed, Lines, LineReader.Valid;
    var reader := new LineReader(content);
    var read: seq<string> := [];
    var line := reader.ReadLine();
    NothingRead(Names(Lines(content)));
    while line.Some?
      invariant reader.Valid() && fresh(reader)
      invariant line.None? ==> reader.rest == []
      invariant Prefixed(read, Names(Pending(line, reader.rest))) == Names(Lines(content))
      decreases line.Some?, |reader.rest|
    {
      var name := ReadName(line.value);
      assert Pending(line, reader.rest)[1..] == reader.rest;
      if name.Err? {
        return Err(name.error);
      }
      PrefixedStep(read, name.value, Names(reader.rest));
      read := read + [name.value];
      line := reader.ReadLine();
    }
    assert read + [] == read;
    names := Ok(read);
  }

  function Prefixed(read: seq<string>, tail: Result<seq<string>, DecodeError>): Result<seq<string>, DecodeError> {
    match tail
    case Ok(names) => Ok(read + names)
    case Err(e) => Err(e)
  }

  lemma NothingRead(tail: Result<seq<string>, DecodeError>)
    ensures Prefixed([], tail) == tail
  {
    match tail
    case Ok(names) => assert [] + names == names;
    case Err(_) =>
  }

  lemma PrefixedStep(read: seq<string>, name: string, tail: Result<seq<string>, DecodeError>)
    ensures Prefixed(read + [name], tail) == Prefixed(read, Cons(name, tail))
  {
    match tail
    case Ok(names) => assert read + [name] + names == read + ([name] + names);
    case Err(_) =>
  }
}
