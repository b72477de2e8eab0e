/** What the shell decoder accepts, as a grammar: tools/def_file_generator/def_file_generator.c. */
module ShellWords {
  import opened CText
  import opened Results
  import opened ShellArgument

  /** One character between double quotes; a backslash before it takes it as it is. */
  datatype Mark = Mark(c: char, escaped: bool)

  datatype Piece = Plain(c: char) | Escaped(c: char) | InSingle(s: string) | InDouble(marks: seq<Mark>)

  predicate MarkWritten(m: Mark) {
    m.escaped || (m.c != '"' && m.c != '\\')
  }

  /** A plain character is no white space, quote or backslash; between single quotes nothing is special. */
  predicate Written(p: Piece) {
    match p
    case Plain(c) => !IsSpace(c) && c != '\'' && c != '"' && c != '\\'
    case Escaped(_) => true
    case InSingle(s) => '\'' !in s
    case InDouble(marks) => MarksWritten(marks)
  }

  function MarksText(marks: seq<Mark>): string {
    if marks == [] then []
    else (if marks[0].escaped then ['\\', marks[0].c] else [marks[0].c]) + MarksText(marks[1..])
  }

  function MarksValue(marks: seq<Mark>): string {
    if marks == [] then [] else [marks[0].c] + MarksValue(marks[1..])
  }

  function PieceText(p: Piece): string {
    match p
    case Plain(c) => [c]
    case Escaped(c) => ['\\', c]
    case InSingle(s) => ['\''] + (s + ['\''])
    case InDouble(marks) => ['"'] + (MarksText(marks) + ['"'])
  }

  function PieceValue(p: Piece): string {
    match p
    case Plain(c) => [c]
    case Escaped(c) => [c]
    case InSingle(s) => s
    case InDouble(marks) => MarksValue(marks)
  }

  function Text(ps: seq<Piece>): string {
    if ps == [] then [] else PieceText(ps[0]) + Text(ps[1..])
  }

  function Value(ps: seq<Piece>): string {
    if ps == [] then [] else PieceValue(ps[0]) + Value(ps[1..])
  }

  predicate MarksWritten(marks: seq<Mark>) {
    forall i | 0 <= i < |marks| :: MarkWritten(marks[i])
  }

  predicate AllWritten(ps: seq<Piece>) {
    forall i | 0 <= i < |ps| :: Written(ps[i])
  }

  const BARE := Mode(Bare, true, false)

  // ---- forwards: what each form decodes to

  lemma Front(c: char, rest: string)
    ensures ([c] + rest)[0] == c && ([c] + rest)[1..] == rest
  {
  }

  lemma {:induction false} BlankDecodes(s: string, rest: string, started: bool, separated: bool, output: string)
    requires AllSpace(s)
    ensures Decoded(s + rest, Mode(Bare, started, separated), output)
         == Decoded(rest, Mode(Bare, started, if s == [] then separated else started), output)
  {
    if s == [] {
      assert s + rest == rest;
    } else {
      assert (s + rest)[1..] == s[1..] + rest;
      BlankDecodes(s[1..], rest, started, started, output);
    }
  }

  lemma {:induction false} SingleDecodes(s: string, rest: string, output: string)
    requires '\'' !in s
    ensures Decoded(s + (['\''] + rest), IN_SINGLE, output) == Decoded(rest, BARE, output + s)
  {
    Front('\'', rest);
    if s == [] {
      assert s + (['\''] + rest) == ['\''] + rest && output + s == output;
    } else {
      assert s[0] in s && (s + (['\''] + rest))[1..] == s[1..] + (['\''] + rest);
      SingleDecodes(s[1..], rest, output + [s[0]]);
      assert output + [s[0]] + s[1..] == output + s;
    }
  }

  lemma MarkDecodes(m: Mark, rest: string, output: string)
    requires MarkWritten(m)
    ensures Decoded((if m.escaped then ['\\', m.c] else [m.c]) + rest, IN_DOUBLE, output)
         == Decoded(rest, IN_DOUBLE, output + [m.c])
  {
    if m.escaped {
      var input := ['\\', m.c] + rest;
      assert input[1..][0] == m.c && input[1..][1..] == rest;
    } else {
      Front(m.c, rest);
    }
  }

  lemma {:induction false} MarksDecode(marks: seq<Mark>, rest: string, output: string)
    requires MarksWritten(marks)
    ensures Decoded(MarksText(marks) + rest, IN_DOUBLE, output) == Decoded(rest, IN_DOUBLE, output + MarksValue(marks))
  {
    hide Decoded;
    if marks == [] {
      assert MarksText(marks) + rest == rest && output + [] == output;
    } else {
      var m := marks[0];
      MarkDecodes(m, MarksText(marks[1..]) + rest, output);
      Assoc(if m.escaped then ['\\', m.c] else [m.c], MarksText(marks[1..]), rest);
      MarksDecode(marks[1..], rest, output + [m.c]);
      Assoc(output, [m.c], MarksValue(marks[1..]));
    }
  }

  lemma OneCharacter(c: char, rest: string, started: bool, output: string)
    requires Written(Plain(c))
    ensures Decoded([c] + rest, Mode(Bare, started, false), output) == Decoded(rest, BARE, output + [c])
  {
    Front(c, rest);
  }

  lemma OneEscape(c: char, rest: string, started: bool, output: string)
    ensures Decoded(['\\', c] + rest, Mode(Bare, started, false), output) == Decoded(rest, BARE, output + [c])
  {
    var input := ['\\', c] + rest;
    assert input[0] == '\\' && input[1..][0] == c && input[1..][1..] == rest;
  }

  lemma Opens(rest: string, started: bool, output: string)
    ensures Decoded(['\''] + rest, Mode(Bare, started, false), output) == Decoded(rest, IN_SINGLE, output)
    ensures Decoded(['"'] + rest, Mode(Bare, started, false), output) == Decoded(rest, IN_DOUBLE, output)
  {
    Front('\'', rest);
    Front('"', rest);
  }

  lemma Closes(rest: string, output: string)
    ensures Decoded(['"'] + rest, IN_DOUBLE, output) == Decoded(rest, BARE, output)
  {
    Front('"', rest);
  }

  lemma PieceDecodes(p: Piece, rest: string, started: bool, output: string)
    requires Written(p)
    ensures Decoded(PieceText(p) + rest, Mode(Bare, started, false), output) == Decoded(rest, BARE, output + PieceValue(p))
  {
    hide Decoded;
    match p
    case Plain(c) => OneCharacter(c, rest, started, output);
    case Escaped(c) => OneEscape(c, rest, started, output);
    case InSingle(s) =>
      Assoc(['\''], s + ['\''], rest);
      Assoc(s, ['\''], rest);
      Opens(s + (['\''] + rest), started, output);
      SingleDecodes(s, rest, output);
    case InDouble(marks) =>
      Assoc(['"'], MarksText(marks) + ['"'], rest);
      Assoc(MarksText(marks), ['"'], rest);
      Opens(MarksText(marks) + (['"'] + rest), started, output);
      MarksDecode(marks, ['"'] + rest, output);
      Closes(rest, output + MarksValue(marks));
  }

  lemma {:induction false} PiecesDecode(ps: seq<Piece>, rest: string, started: bool, output: string)
    requires AllWritten(ps)
    ensures Decoded(Text(ps) + rest, Mode(Bare, started, false), output)
         == Decoded(rest, Mode(Bare, started || ps != [], false), output + Value(ps))
  {
    hide Decoded;
    if ps == [] {
      assert Text(ps) + rest == rest && output + [] == output;
    } else {
      PieceDecodes(ps[0], Text(ps[1..]) + rest, started, output);
      Assoc(PieceText(ps[0]), Text(ps[1..]), rest);
      PiecesDecode(ps[1..], rest, true, output + PieceValue(ps[0]));
      Assoc(output, PieceValue(ps[0]), Value(ps[1..]));
    }
  }

  // ---- what a text is made of

  /** A quote that is never closed. */
  ghost predicate Unclosed(s: string) {
    || (s != [] && s[0] == '\'' && '\'' !in s[1..])
    || (exists marks :: MarksWritten(marks) && s == ['"'] + MarksText(marks))
  }

  /** A backslash at the very end, outside quotes or between double quotes. */
  ghost predicate Dangling(s: string) {
    || s == ['\\']
    || (exists marks :: MarksWritten(marks) && s == ['"'] + (MarksText(marks) + ['\\']))
  }

  /** White space, the pieces of one argument, and what comes after them. */
  datatype Split = Split(lead: string, pieces: seq<Piece>, rest: string)

  predicate Splits(s: string, d: Split) {
    AllSpace(d.lead) && AllWritten(d.pieces) && s == d.lead + (Text(d.pieces) + d.rest)
  }

  lemma SingleRuns(s: string, output: string)
    requires '\'' !in s
    ensures Decoded(s, IN_SINGLE, output) == Err(UnterminatedQuote)
    decreases |s|
  {
    if s != [] {
      assert s[0] in s;
      SingleRuns(s[1..], output + [s[0]]);
    }
  }

  lemma DoubleRuns(marks: seq<Mark>, output: string)
    requires MarksWritten(marks)
    ensures Decoded(MarksText(marks), IN_DOUBLE, output) == Err(UnterminatedQuote)
    ensures Decoded(MarksText(marks) + ['\\'], IN_DOUBLE, output) == Err(TrailingEscape)
  {
    MarksDecode(marks, [], output);
    MarksDecode(marks, ['\\'], output);
    assert MarksText(marks) + [] == MarksText(marks);
  }

  lemma UnclosedDecodes(s: string, started: bool, output: string)
    requires Unclosed(s)
    ensures Decoded(s, Mode(Bare, started, false), output) == Err(UnterminatedQuote)
  {
    hide Decoded;
    if s[0] == '\'' {
      assert s == ['\''] + s[1..];
      Opens(s[1..], started, output);
      SingleRuns(s[1..], output);
    } else {
      var marks :| MarksWritten(marks) && s == ['"'] + MarksText(marks);
      Opens(MarksText(marks), started, output);
      DoubleRuns(marks, output);
    }
  }

  lemma LoneBackslash(started: bool, output: string)
    ensures Decoded(['\\'], Mode(Bare, started, false), output) == Err(TrailingEscape)
  {
  }

  lemma DanglingDecodes(s: string, started: bool, output: string)
    requires Dangling(s)
    ensures Decoded(s, Mode(Bare, started, false), output) == Err(TrailingEscape)
  {
    hide Decoded;
    if s == ['\\'] {
      LoneBackslash(started, output);
    } else {
      var marks :| MarksWritten(marks) && s == ['"'] + (MarksText(marks) + ['\\']);
      Opens(MarksText(marks) + ['\\'], started, output);
      DoubleRuns(marks, output);
    }
  }

  lemma {:induction false} SpaceDecodes(s: string, separated: bool, output: string)
    ensures Decoded(s, Mode(Bare, true, separated), output) == Ok(output) <== AllSpace(s)
    ensures Decoded(s, BARE.(separated := true), output) == Err(MultipleArguments) <== !AllSpace(s)
    decreases |s|
  {
    if s != [] && IsSpace(s[0]) {
      SpaceDecodes(s[1..], true, output);
      assert AllSpace(s) <==> AllSpace(s[1..]) by {
        assert s == [s[0]] + s[1..];
      }
    }
  }

  /** What a split text decodes to is decided behind its pieces. */
  lemma SplitDecodes(s: string, d: Split)
    requires Splits(s, d)
    ensures Argument(s) == Decoded(d.rest, Mode(Bare, d.pieces != [], false), Value(d.pieces))
  {
    hide Decoded;
    BlankDecodes(d.lead, Text(d.pieces) + d.rest, false, false, "");
    PiecesDecode(d.pieces, d.rest, false, "");
    assert "" + Value(d.pieces) == Value(d.pieces);
  }

  lemma {:induction false} MarksOf(s: string) returns (marks: seq<Mark>, rest: string)
    ensures MarksWritten(marks) && s == MarksText(marks) + rest
    ensures rest == [] || rest[0] == '"' || rest == ['\\']
    decreases |s|
  {
    if s == [] || s[0] == '"' || s == ['\\'] {
      marks, rest := [], s;
      assert s == [] + s;
    } else {
      var escaped := s[0] == '\\';
      var used := if escaped then 2 else 1;
      var m := Mark(s[used - 1], escaped);
      var more;
      more, rest := MarksOf(s[used..]);
      marks := [m] + more;
      assert s == s[..used] + s[used..] && marks[1..] == more;
      assert s[..used] == if m.escaped then ['\\', m.c] else [m.c];
      Assoc(s[..used], MarksText(more), rest);
    }
  }

  lemma OpenMarks(marks: seq<Mark>)
    requires MarksWritten(marks)
    ensures Unclosed(['"'] + MarksText(marks))
  {
  }

  /** The next piece of a text that has no white space or break in front. */
  lemma PieceOf(s: string) returns (p: Piece, rest: string)
    requires s != [] && !IsSpace(s[0]) && !Unclosed(s) && !Dangling(s)
    ensures Written(p) && s == PieceText(p) + rest
  {
    var c := s[0];
    if c == '\'' {
      var end := FirstQuote(s[1..]);
      p, rest := InSingle(s[1..][..end]), s[1..][end + 1..];
      assert s == PieceText(p) + rest;
    } else if c == '"' {
      var marks, tail := MarksOf(s[1..]);
      assert s == ['"'] + (MarksText(marks) + tail);
      OpenMarks(marks);
      assert MarksText(marks) + [] == MarksText(marks);
      p, rest := InDouble(marks), tail[1..];
      assert tail == ['"'] + rest;
    } else if c == '\\' {
      assert |s| > 1 || s == ['\\'];
      p, rest := Escaped(s[1]), s[2..];
    } else {
      p, rest := Plain(c), s[1..];
    }
  }

  lemma FirstQuote(s: string) returns (k: nat)
    requires '\'' in s
    ensures k < |s| && s[k] == '\'' && '\'' !in s[..k]
  {
    k := 0;
    while s[k] != '\''
      invariant k < |s| && '\'' !in s[..k] && '\'' in s[k..]
      decreases |s| - k
    {
      k := k + 1;
    }
  }

  lemma {:induction false} PiecesOf(s: string) returns (ps: seq<Piece>, rest: string)
    ensures AllWritten(ps) && s == Text(ps) + rest
    ensures rest == [] || IsSpace(rest[0]) || Unclosed(rest) || Dangling(rest)
    decreases |s|
  {
    if s == [] || IsSpace(s[0]) || Unclosed(s) || Dangling(s) {
      ps, rest := [], s;
      assert s == [] + s;
    } else {
      var p, tail := PieceOf(s);
      var more;
      more, rest := PiecesOf(tail);
      ps := [p] + more;
      assert ps[1..] == more;
      Assoc(PieceText(p), Text(more), rest);
    }
  }

  lemma SplitOf(s: string) returns (d: Split)
    ensures Splits(s, d)
    ensures d.rest == [] || (IsSpace(d.rest[0]) && d.pieces != []) || Unclosed(d.rest) || Dangling(d.rest)
  {
    var k := NonSpaceAt(s, 0);
    var ps, rest := PiecesOf(s[k..]);
    d := Split(s[..k], ps, rest);
    assert s == s[..k] + s[k..];
    if ps == [] {
      assert rest == s[k..];
    }
  }

  /** What a split text decodes to, by what comes behind its pieces. */
  lemma SplitResult(s: string, d: Split)
    requires Splits(s, d)
    ensures d.rest == [] && d.pieces == [] ==> Argument(s) == Err(EmptyArgument)
    ensures AllSpace(d.rest) && d.pieces != [] ==> Argument(s) == Ok(Value(d.pieces))
    ensures SpaceNext(d) && d.pieces != [] && !AllSpace(d.rest) ==> Argument(s) == Err(MultipleArguments)
    ensures Unclosed(d.rest) ==> Argument(s) == Err(UnterminatedQuote)
    ensures Dangling(d.rest) ==> Argument(s) == Err(TrailingEscape)
  {
    SplitDecodes(s, d);
    var started, value := d.pieces != [], Value(d.pieces);
    SpaceDecodes(d.rest, false, value);
    if d.rest != [] && IsSpace(d.rest[0]) && started {
      SpaceStep(d.rest, value);
    }
    if Unclosed(d.rest) {
      UnclosedDecodes(d.rest, started, value);
    }
    if Dangling(d.rest) {
      DanglingDecodes(d.rest, started, value);
    }
  }

  /** White space comes next. */
  predicate SpaceNext(d: Split) {
    d.rest != [] && IsSpace(d.rest[0])
  }

  lemma SpaceStep(s: string, output: string)
    requires s != [] && IsSpace(s[0])
    ensures !AllSpace(s) ==> Decoded(s, BARE, output) == Err(MultipleArguments)
  {
    SpaceDecodes(s, true, output);
    assert Decoded(s, BARE, output) == Decoded(s, BARE.(separated := true), output);
  }

  /** A text is accepted exactly when it is white space, one or more pieces, and white space; the argument
      is what the pieces stand for. */
  lemma AcceptedExact(s: string, value: string)
    ensures Argument(s) == Ok(value)
       <==> exists d :: Splits(s, d) && d.pieces != [] && AllSpace(d.rest) && value == Value(d.pieces)
  {
    hide Splits, Unclosed, Dangling, Text, Value, Decoded, Argument, AllSpace;
    if d: Split :| Splits(s, d) && d.pieces != [] && AllSpace(d.rest) && value == Value(d.pieces) {
      SplitResult(s, d);
    }
    var d := SplitOf(s);
    SplitResult(s, d);
    NothingIsSpace();
  }

  lemma NothingIsSpace()
    ensures AllSpace([])
  {
  }

  /** The four refusals: nothing but white space, something behind the argument, a quote left open, and a
      backslash with nothing to take. */
  lemma RefusedExact(s: string)
    ensures Argument(s) == Err(EmptyArgument) <==> AllSpace(s)
    ensures Argument(s) == Err(MultipleArguments)
       <==> exists d :: Splits(s, d) && d.pieces != [] && SpaceNext(d) && !AllSpace(d.rest)
    ensures Argument(s) == Err(UnterminatedQuote) <==> exists d :: Splits(s, d) && Unclosed(d.rest)
    ensures Argument(s) == Err(TrailingEscape) <==> exists d :: Splits(s, d) && Dangling(d.rest)
  {
    hide Splits, Unclosed, Dangling, Text, Value, Decoded, Argument, AllSpace, SpaceNext;
    if d: Split :| Splits(s, d) && d.pieces != [] && SpaceNext(d) && !AllSpace(d.rest) {
      SplitResult(s, d);
    }
    if d: Split :| Splits(s, d) && Unclosed(d.rest) {
      SplitResult(s, d);
    }
    if d: Split :| Splits(s, d) && Dangling(d.rest) {
      SplitResult(s, d);
    }
    if AllSpace(s) {
      BlankSplits(s);
      SplitResult(s, Split(s, [], []));
    }
    var d := SplitOf(s);
    SplitResult(s, d);
    EmptySplit(s, d);
    NextIsSpace(d);
    NothingIsSpace();
  }

  lemma NextIsSpace(d: Split)
    ensures SpaceNext(d) <==> d.rest != [] && IsSpace(d.rest[0])
  {
  }

  lemma BlankSplits(s: string)
    requires AllSpace(s)
    ensures Splits(s, Split(s, [], []))
  {
    assert s + ([] + []) == s;
  }

  lemma EmptySplit(s: string, d: Split)
    requires Splits(s, d)
    ensures d.rest == [] && d.pieces == [] ==> AllSpace(s)
  {
    assert d.lead + ([] + []) == d.lead;
  }
}
