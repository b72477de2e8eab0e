/** A whole run of the DEF file generator: tools/def_file_generator/def_file_generator.c. */
module DefRun {
  import opened CText
  import opened Results
  import opened SortedSet
  import opened DefFile
  import opened DefGenerator

  // ---- what a run reads

  function DefInputs(lines: seq<string>): seq<Input> {
    if lines == [] then [] else [DefLine(lines[0])] + DefInputs(lines[1..])
  }

  function NmInputs(lines: seq<string>): seq<Input> {
    if lines == [] then []
    else
      match NmLineOf(lines[0])
      case NmLine(symbol, kind) => [NmSymbol(symbol, kind)] + NmInputs(lines[1..])
      case _ => NmInputs(lines[1..])
  }

  function AllDefInputs(definitions: seq<string>): seq<Input> {
    if definitions == [] then [] else DefInputs(Lines(definitions[0])) + AllDefInputs(definitions[1..])
  }

  /** The DEF files come first, whatever their place among the arguments; then the llvm-nm output. */
  function RunInputs(definitions: seq<string>, nmOutput: string): seq<Input> {
    AllDefInputs(definitions) + NmInputs(Lines(nmOutput))
  }

  predicate WellFormedOutput(nmOutput: string) {
    forall line | line in Lines(nmOutput) :: !NmLineOf(line).Malformed?
  }

  // ---- the two sets of a run

  class SymbolSets {
    const symbols: StringSet
    const data: StringSet
    ghost var Repr: set<object>
    ghost var value: Sets

    ghost predicate Valid()
      reads this, symbols, data, Repr
    {
      && Repr == {this, symbols, data, symbols.values, data.values}
      && symbols != data && symbols.values != data.values && symbols.Valid() && data.Valid()
      && value == Sets(symbols.Contents(), data.Contents())
    }

    constructor ()
      ensures Valid() && fresh(Repr) && value == EMPTY_SETS
    {
      symbols := new StringSet();
      data := new StringSet();
      value := EMPTY_SETS;
      new;
      Repr := {this, symbols, data, symbols.values, data.values};
    }

    method Add(entry: Entry)
      requires Valid()
      modifies Repr
      ensures Valid() && fresh(Repr - old(Repr))
      ensures value == Added(old(value), entry)
    {
      hide Inserted;
      if entry.isData {
        data.Insert(entry.symbol);
      } else {
        symbols.Insert(entry.symbol);
      }
      Repr := {this, symbols, data, symbols.values, data.values};
      value := Added(value, entry);
    }

    /** merge_definition_file. */
    method MergeDefinitionFile(content: string)
      requires Valid()
      modifies Repr
      ensures Valid() && fresh(Repr - old(Repr))
      ensures value == AddedAll(old(value), Contributions(DefInputs(Lines(content))))
    {
      hide Valid, LineReader.Valid, Lines, DefEntry, Added, Contributions, AddedAll, DefInputs;
      var reader := new LineReader(content);
      var line := reader.ReadLine();
      while line.Some?
        invariant Valid() && reader.Valid() && reader !in Repr && fresh(Repr - old(Repr))
        invariant AddedAll(value, Contributions(DefInputs(Pending(line, reader.rest))))
               == AddedAll(old(value), Contributions(DefInputs(Lines(content))))
        decreases line.Some?, |reader.rest|
      {
        var entry := ReadDefLine(line.value);
        DefStep(value, line.value, reader.rest);
        if entry.Some? {
          Add(entry.value);
        }
        line := reader.ReadLine();
      }
      NothingAdded(value);
    }

    /** parse_nm_output: false as soon as a line is malformed. */
    method ParseNmOutput(content: string) returns (ok: bool)
      requires Valid()
      modifies Repr
      ensures Valid() && fresh(Repr - old(Repr))
      ensures ok <==> WellFormedOutput(content)
      ensures ok ==> value == AddedAll(old(value), Contributions(NmInputs(Lines(content))))
    {
      hide Valid, LineReader.Valid, Lines, NmLineOf, NmEntry, Added, Contributions, AddedAll, NmInputs;
      var reader := new LineReader(content);
      var line := reader.ReadLine();
      while line.Some?
        invariant Valid() && reader.Valid() && reader !in Repr && fresh(Repr - old(Repr))
        invariant (forall l | l in Pending(line, reader.rest) :: !NmLineOf(l).Malformed?) <==> WellFormedOutput(content)
        invariant AddedAll(value, Contributions(NmInputs(Pending(line, reader.rest))))
               == AddedAll(old(value), Contributions(NmInputs(Lines(content))))
        decreases line.Some?, |reader.rest|
      {
        var nmLine := ReadNmLine(line.value);
        if nmLine.Malformed? {
          assert line.value in Pending(line, reader.rest);
          return false;
        }
        NmStep(value, line.value, reader.rest);
        if nmLine.NmLine? {
          var entry := ReadNmSymbol(nmLine.symbol, nmLine.kind);
          if entry.Some? {
            Add(entry.value);
          }
        }
        line := reader.ReadLine();
      }
      NothingAdded(value);
      ok := true;
    }

    /** write_def_file, to a string. */
    method WriteDefFile(dllName: string) returns (text: string)
      requires Valid()
      ensures text == DefText(dllName, value)
    {
      hide DataLines, SymbolLines;
      var lines := WriteDataLines(data);
      var symbolLines := WriteSymbolLines(symbols);
      text := "EXPORTS \n" + (lines + symbolLines);
      text := (if dllName == "" then "" else "LIBRARY " + dllName + "\n") + text;
    }
  }

  /** add_nm_symbol, up to the insertion: the symbol is normalised in its own buffer. */
  method ReadNmSymbol(symbol: string, kind: char) returns (entry: Option<Entry>)
    ensures entry == NmEntry(symbol, kind)
  {
    hide Normalized, Skipped;
    var buffer := Terminated(symbol);
    var end := NormalizeStdcall(buffer, |symbol|);
    var name := buffer[..end];
    if Skipped(name, kind) {
      return None;
    }
    entry := Some(Entry(name, kind == 'B' || kind == 'D' || kind == 'G' || kind == 'S'));
  }

  method WriteDataLines(data: StringSet) returns (text: string)
    requires data.Valid()
    ensures text == DataLines(data.Contents())
  {
    ghost var s := data.Contents();
    text := "";
    var index := 0;
    while index < data.count
      invariant 0 <= index <= |s| == data.count
      invariant text + DataLines(s[index..]) == DataLines(s)
    {
      var line := "\t" + data.values[index] + " \t DATA\n";
      assert s[index..][1..] == s[index + 1..] && s[index..][0] == data.values[index];
      Assoc(text, line, DataLines(s[index + 1..]));
      text := text + line;
      index := index + 1;
    }
    assert s[index..] == [] && text + "" == text;
  }

  method WriteSymbolLines(symbols: StringSet) returns (text: string)
    requires symbols.Valid()
    ensures text == SymbolLines(symbols.Contents())
  {
    ghost var s := symbols.Contents();
    text := "";
    var index := 0;
    while index < symbols.count
      invariant 0 <= index <= |s| == symbols.count
      invariant text + SymbolLines(s[index..]) == SymbolLines(s)
    {
      var line := "\t" + symbols.values[index] + "\n";
      assert s[index..][1..] == s[index + 1..] && s[index..][0] == symbols.values[index];
      Assoc(text, line, SymbolLines(s[index + 1..]));
      text := text + line;
      index := index + 1;
    }
    assert s[index..] == [] && text + "" == text;
  }

  lemma DefStep(sets: Sets, line: string, rest: seq<string>)
    ensures AddedAll(sets, Contributions(DefInputs([line] + rest)))
      == AddedAll(if DefEntry(line).Some? then Added(sets, DefEntry(line).value) else sets, Contributions(DefInputs(rest)))
  {
    hide DefEntry, Added;
    assert ([line] + rest)[1..] == rest;
    InputStep(sets, DefLine(line), DefInputs(rest));
  }

  lemma InputStep(sets: Sets, input: Input, rest: seq<Input>)
    ensures AddedAll(sets, Contributions([input] + rest))
      == AddedAll(if EntryOf(input).Some? then Added(sets, EntryOf(input).value) else sets, Contributions(rest))
  {
    hide EntryOf, Added;
    assert ([input] + rest)[1..] == rest;
    match EntryOf(input)
    case None => assert [] + Contributions(rest) == Contributions(rest);
    case Some(e) => assert ([e] + Contributions(rest))[1..] == Contributions(rest);
  }

  function AfterNmLine(sets: Sets, line: NmLine): Sets {
    if !line.NmLine? then sets
    else
      var entry := NmEntry(line.symbol, line.kind);
      if entry.Some? then Added(sets, entry.value) else sets
  }

  lemma NmStep(sets: Sets, line: string, rest: seq<string>)
    ensures AddedAll(sets, Contributions(NmInputs([line] + rest)))
      == AddedAll(AfterNmLine(sets, NmLineOf(line)), Contributions(NmInputs(rest)))
  {
    hide NmLineOf, NmEntry, Added, AddedAll, Contributions;
    assert ([line] + rest)[1..] == rest;
    match NmLineOf(line)
    case NmLine(symbol, kind) => InputStep(sets, NmSymbol(symbol, kind), NmInputs(rest));
    case _ =>
  }

  lemma NothingAdded(sets: Sets)
    ensures AddedAll(sets, Contributions(DefInputs([]))) == AddedAll(sets, Contributions(NmInputs([]))) == sets
  {
  }

  // ---- the whole run

  /** The generator on the contents of its DEF files and the llvm-nm output for its objects. */
  method GenerateDef(definitions: seq<string>, nmOutput: string, dllName: string) returns (text: Option<string>)
    ensures text.Some? <==> WellFormedOutput(nmOutput)
    ensures text.Some? ==> text.value == DefText(dllName, Collected(RunInputs(definitions, nmOutput)))
  {
    hide AddedAll, Contributions, DefInputs, NmInputs, Lines, DefText, WellFormedOutput, Added;
    var sets := new SymbolSets();
    var i := 0;
    while i < |definitions|
      invariant 0 <= i <= |definitions|
      invariant sets.Valid() && fresh(sets.Repr)
      invariant AddedAll(sets.value, Contributions(AllDefInputs(definitions[i..])))
             == AddedAll(EMPTY_SETS, Contributions(AllDefInputs(definitions)))
    {
      assert definitions[i..][0] == definitions[i] && definitions[i..][1..] == definitions[i + 1..];
      AddedInTurn(sets.value, DefInputs(Lines(definitions[i])), AllDefInputs(definitions[i + 1..]));
      sets.MergeDefinitionFile(definitions[i]);
      i := i + 1;
    }
    NoInputs(sets.value);
    assert AllDefInputs(definitions[i..]) == [];
    AddedInTurn(EMPTY_SETS, AllDefInputs(definitions), NmInputs(Lines(nmOutput)));
    var ok := sets.ParseNmOutput(nmOutput);
    if !ok {
      return None;
    }
    var written := sets.WriteDefFile(dllName);
    text := Some(written);
  }

  lemma NoInputs(sets: Sets)
    ensures AddedAll(sets, Contributions([])) == sets
  {
  }

  lemma {:induction false} AddedInTurn(sets: Sets, a: seq<Input>, b: seq<Input>)
    ensures AddedAll(sets, Contributions(a + b)) == AddedAll(AddedAll(sets, Contributions(a)), Contributions(b))
    decreases |a|
  {
    hide EntryOf, Added, Contributions, AddedAll;
    if a == [] {
      assert a + b == b;
      NoInputs(sets);
    } else {
      assert a + b == [a[0]] + (a[1..] + b) && a == [a[0]] + a[1..];
      InputStep(sets, a[0], a[1..] + b);
      InputStep(sets, a[0], a[1..]);
      AddedInTurn(if EntryOf(a[0]).Some? then Added(sets, EntryOf(a[0]).value) else sets, a[1..], b);
    }
  }

  lemma {:induction false} DefInputsMembers(lines: seq<string>, input: Input)
    ensures input in DefInputs(lines) <==> input.DefLine? && input.line in lines
  {
    if lines != [] {
      DefInputsMembers(lines[1..], input);
      assert lines == [lines[0]] + lines[1..];
    }
  }

  predicate FromNm(line: string, input: Input) {
    NmLineOf(line).NmLine? && input == NmSymbol(NmLineOf(line).symbol, NmLineOf(line).kind)
  }

  lemma {:induction false} NmInputsMembers(lines: seq<string>, input: Input)
    ensures input in NmInputs(lines) <==> exists line | line in lines :: FromNm(line, input)
  {
    hide NmLineOf;
    if lines == [] {
      assert NmInputs(lines) == [];
    } else {
      NmInputsMembers(lines[1..], input);
      assert lines == [lines[0]] + lines[1..];
      if FromNm(lines[0], input) {
        assert lines[0] in lines;
      } else if line :| line in lines && FromNm(line, input) {
        assert line in lines[1..];
      }
    }
  }

  lemma {:induction false} AllDefInputsMembers(definitions: seq<string>, input: Input)
    ensures input in AllDefInputs(definitions)
      <==> exists content | content in definitions :: input in DefInputs(Lines(content))
  {
    hide Lines, DefInputs;
    if definitions != [] {
      AllDefInputsMembers(definitions[1..], input);
      assert definitions == [definitions[0]] + definitions[1..];
      var head := DefInputs(Lines(definitions[0]));
      if input in head {
        assert definitions[0] in definitions;
      } else if content :| content in definitions && input in DefInputs(Lines(content)) {
        assert content in definitions[1..];
      }
    }
  }

  lemma {:induction false} ContributionsMembers(inputs: seq<Input>, e: Entry)
    ensures e in Contributions(inputs) <==> exists input | input in inputs :: EntryOf(input) == Some(e)
  {
    hide EntryOf;
    if inputs != [] {
      ContributionsMembers(inputs[1..], e);
      assert forall i :: i in inputs <==> i == inputs[0] || i in inputs[1..];
    }
  }

  /** Every input of every run is well formed. */
  lemma RunInputsWellFormed(definitions: seq<string>, nmOutput: string, input: Input)
    requires input in RunInputs(definitions, nmOutput)
    ensures WellFormedInput(input)
  {
    hide Lines, DefInputs, NmInputs, AllDefInputs, NmLineOf;
    if input in AllDefInputs(definitions) {
      AllDefInputsMembers(definitions, input);
      var content :| content in definitions && input in DefInputs(Lines(content));
      DefInputsMembers(Lines(content), input);
      var k :| 0 <= k < |Lines(content)| && Lines(content)[k] == input.line;
      LinesLackNewline(content, k);
    } else {
      NmInputsMembers(Lines(nmOutput), input);
      var line :| line in Lines(nmOutput) && FromNm(line, input);
      NmLineWellFormed(line);
    }
  }

  /** Feeding a run's own output back, as the only DEF file and without objects, writes the same bytes
      again. */
  lemma OutputIsFixpoint(definitions: seq<string>, nmOutput: string, dllName: string)
    requires Lacks(dllName, '\n')
    ensures var text := DefText(dllName, Collected(RunInputs(definitions, nmOutput)));
      DefText(dllName, Collected(RunInputs([text], ""))) == text
  {
    hide DefText, AddedAll, Contributions, Lines, DefInputs, WellFormedInput, NmInputs, AllDefInputs, DefEntries;
    var inputs := RunInputs(definitions, nmOutput);
    forall input | input in inputs ensures WellFormedInput(input) {
      RunInputsWellFormed(definitions, nmOutput, input);
    }
    RoundTrip(dllName, inputs);
    var text := DefText(dllName, Collected(inputs));
    OneDefinition(text);
    DefInputsContribute(Lines(text));
  }

  lemma OneDefinition(text: string)
    ensures RunInputs([text], "") == DefInputs(Lines(text))
  {
    hide Lines, DefInputs;
    NoLines();
    assert AllDefInputs([text]) == DefInputs(Lines(text)) + AllDefInputs([]);
    assert DefInputs(Lines(text)) + [] + [] == DefInputs(Lines(text));
  }

  lemma {:induction false} DefInputsContribute(lines: seq<string>)
    ensures Contributions(DefInputs(lines)) == DefEntries(lines)
  {
    hide DefEntry;
    if lines != [] {
      DefInputsContribute(lines[1..]);
      assert DefInputs(lines)[1..] == DefInputs(lines[1..]);
    }
  }

  /** The output does not depend on the order or repetition of DEF files, nor of llvm-nm lines. */
  lemma RunOrderIrrelevant(definitions: seq<string>, definitions': seq<string>, nmOutput: string, nmOutput': string,
                           dllName: string)
    requires forall content :: content in definitions <==> content in definitions'
    requires forall line :: line in Lines(nmOutput) <==> line in Lines(nmOutput')
    ensures WellFormedOutput(nmOutput) <==> WellFormedOutput(nmOutput')
    ensures DefText(dllName, Collected(RunInputs(definitions, nmOutput)))
      == DefText(dllName, Collected(RunInputs(definitions', nmOutput')))
  {
    hide DefText, Collected, Contributions, EntryOf, Lines, DefInputs, NmInputs, AllDefInputs, NmLineOf, FromNm;
    var inputs, inputs' := RunInputs(definitions, nmOutput), RunInputs(definitions', nmOutput');
    forall input ensures input in inputs <==> input in inputs' {
      AllDefInputsMembers(definitions, input);
      AllDefInputsMembers(definitions', input);
      NmInputsMembers(Lines(nmOutput), input);
      NmInputsMembers(Lines(nmOutput'), input);
    }
    forall e ensures e in Contributions(inputs) <==> e in Contributions(inputs') {
      ContributionsMembers(inputs, e);
      ContributionsMembers(inputs', e);
    }
    OutputOrderIrrelevant(dllName, inputs, inputs');
  }
}
