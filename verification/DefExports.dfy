/** What the DEF file generator exports, said in the characters of its input and output. */
module DefExports {
  import opened Sequences
  import opened CText
  import opened Results
  import opened SortedSet
  import opened DefFile
  import opened DefGenerator
  import opened DefRun

  // ---- undecorated names

  lemma DigitTable(c: char)
    ensures IsDecimal(c) <==> c in "0123456789"
  {
    var digits := "0123456789";
    assert forall i | 0 <= i < 10 :: digits[i] as int == 48 + i;
    if IsDecimal(c) {
      assert digits[c as int - 48] == c;
    }
  }

  /** A stdcall decoration. */
  ghost predicate Decorated(symbol: string, name: string, digits: string) {
    symbol == "_" + name + "@" + digits && digits != "" && forall c | c in digits :: c in "0123456789"
  }

  lemma DecoratedNormalized(symbol: string, name: string, digits: string)
    requires Decorated(symbol, name, digits)
    ensures Normalized(symbol) == name
  {
    hide Normalized;
    forall k | 0 <= k < |digits| ensures IsDecimal(digits[k]) {
      DigitTable(digits[k]);
    }
    NormalizedStdcall(name, digits);
  }

  lemma Undecorated(symbol: string) returns (name: string, digits: string)
    requires Normalized(symbol) != symbol
    ensures Decorated(symbol, name, digits)
  {
    hide LastOf;
    var at := LastOf(symbol, '@').value;
    name, digits := symbol[1..at], symbol[at + 1..];
    assert symbol == symbol[..1] + symbol[1..at] + symbol[at..at + 1] + symbol[at + 1..];
    assert symbol[..1] == "_" && symbol[at..at + 1] == "@";
    forall c | c in digits ensures c in "0123456789" {
      DigitTable(c);
    }
  }

  /** A decorated symbol loses its decoration, and every other symbol is kept. */
  lemma NormalizedExact(symbol: string)
    ensures forall name, digits | Decorated(symbol, name, digits) :: Normalized(symbol) == name
    ensures (forall name, digits :: !Decorated(symbol, name, digits)) ==> Normalized(symbol) == symbol
  {
    hide Normalized, Decorated;
    forall name, digits | Decorated(symbol, name, digits) ensures Normalized(symbol) == name {
      DecoratedNormalized(symbol, name, digits);
    }
    if Normalized(symbol) != symbol {
      var name, digits := Undecorated(symbol);
    }
  }

  // ---- the symbols that are exported

  lemma ContainsExact(s: string, pattern: string)
    ensures Contains(s, pattern) <==> exists i: nat :: Occurs(s, pattern, i)
  {
    hide IndexOf;
    IndexOfOccurs(s, pattern);
    if i: nat :| Occurs(s, pattern, i) {
      IndexOfFirst(s, pattern, i);
    }
  }

  /** Names that are not left out for their spelling. */
  ghost predicate Ordinary(name: string) {
    && name != "" && Lacks(name, '.') && !("??_G" <= name) && !("??_E" <= name)
    && name != "__t2m" && name != "__m2mep" && name != "__mep"
    && (forall i: nat :: !Occurs(name, "$$F", i)) && (forall i: nat :: !Occurs(name, "$$J", i))
    && (forall i: nat :: !Occurs(name, "$ientry_thunk", i)) && (forall i: nat :: !Occurs(name, "$entry_thunk", i))
    && (forall i: nat :: !Occurs(name, "$iexit_thunk", i)) && (forall i: nat :: !Occurs(name, "$exit_thunk", i))
  }

  /** The types of exported data, and those of other exported symbols. */
  predicate DataKind(kind: char) {
    kind in "BDGS"
  }

  predicate CodeKind(kind: char, name: string) {
    kind in "AEFHIJKLMNOPQTXYZ" || (kind == 'R' && "??_7" <= name)
  }

  lemma KindTable(kind: char)
    ensures IsUpper(kind) && kind != 'U' && kind != 'V' && kind != 'W' && kind != 'C'
      <==> kind in "BDGS" || kind in "AEFHIJKLMNOPQTXYZ" || kind == 'R'
    ensures kind == 'B' || kind == 'D' || kind == 'G' || kind == 'S' <==> kind in "BDGS"
    ensures kind in "BDGS" ==> kind !in "AEFHIJKLMNOPQTXYZ" && kind != 'R'
    ensures 'R' !in "AEFHIJKLMNOPQTXYZ"
  {
    hide IsUpper;
    DataTable(kind);
    CodeTable(kind);
    CapitalCases(kind);
  }

  lemma DataTable(kind: char)
    ensures kind in "BDGS" <==> kind == 'B' || kind == 'D' || kind == 'G' || kind == 'S'
  {
    var data := "BDGS";
    assert data[0] == 'B' && data[1] == 'D' && data[2] == 'G' && data[3] == 'S';
  }

  lemma CodeTable(kind: char)
    ensures kind in "AEFHIJKLMNOPQTXYZ" <==>
      || kind == 'A' || kind == 'E' || kind == 'F' || kind == 'H' || kind == 'I' || kind == 'J' || kind == 'K'
      || kind == 'L' || kind == 'M' || kind == 'N' || kind == 'O' || kind == 'P' || kind == 'Q' || kind == 'T'
      || kind == 'X' || kind == 'Y' || kind == 'Z'
  {
    assert "AEFHIJKLMNOPQTXYZ" == "AEFHIJ" + "KLMNOP" + "QTXYZ";
  }

  lemma SkippedExact(name: string, kind: char)
    ensures Skipped(name, kind) <==> !Ordinary(name) || !(DataKind(kind) || CodeKind(kind, name))
  {
    hide IndexOf, Contains, Occurs;
    KindTable(kind);
    ContainsExact(name, "$$F");
    ContainsExact(name, "$$J");
    ContainsExact(name, "$ientry_thunk");
    ContainsExact(name, "$entry_thunk");
    ContainsExact(name, "$iexit_thunk");
    ContainsExact(name, "$exit_thunk");
  }

  /** What one llvm-nm symbol contributes. */
  lemma NmEntryExact(symbol: string, kind: char)
    ensures NmEntry(symbol, kind)
      == if !Ordinary(Normalized(symbol)) then None
         else if DataKind(kind) then Some(Entry(Normalized(symbol), true))
         else if CodeKind(kind, Normalized(symbol)) then Some(Entry(Normalized(symbol), false))
         else None
  {
    hide Skipped, Ordinary, Normalized;
    SkippedExact(Normalized(symbol), kind);
    KindTable(kind);
  }

  // ---- the sets of a run

  /** A line of llvm-nm exports x as data, or as something else. */
  ghost predicate Exports(line: string, x: string, isData: bool) {
    && NmLineOf(line).NmLine? && x == Normalized(NmLineOf(line).symbol) && Ordinary(x)
    && if isData then DataKind(NmLineOf(line).kind) else CodeKind(NmLineOf(line).kind, x)
  }

  ghost predicate FromDefinition(definitions: seq<string>, x: string, isData: bool) {
    exists content, line | content in definitions && line in Lines(content) :: DefEntry(line) == Some(Entry(x, isData))
  }

  lemma KindsApart(kind: char, name: string)
    ensures !(DataKind(kind) && CodeKind(kind, name))
  {
    KindTable(kind);
  }

  lemma LineExports(line: string, x: string, isData: bool)
    ensures Exports(line, x, isData)
      <==> NmLineOf(line).NmLine? && NmEntry(NmLineOf(line).symbol, NmLineOf(line).kind) == Some(Entry(x, isData))
  {
    hide NmLineOf, NmEntry, Normalized, Ordinary, DataKind, CodeKind;
    if NmLineOf(line).NmLine? {
      NmEntryExact(NmLineOf(line).symbol, NmLineOf(line).kind);
      KindsApart(NmLineOf(line).kind, Normalized(NmLineOf(line).symbol));
    }
  }

  lemma ContributedByRun(definitions: seq<string>, nmOutput: string, x: string, isData: bool)
    ensures Entry(x, isData) in Contributions(RunInputs(definitions, nmOutput))
      <==> FromDefinition(definitions, x, isData) || exists line | line in Lines(nmOutput) :: Exports(line, x, isData)
  {
    hide Lines, DefInputs, NmInputs, AllDefInputs, NmLineOf, NmEntry, DefEntry, Contributions, Exports;
    var inputs, e := RunInputs(definitions, nmOutput), Entry(x, isData);
    ContributionsMembers(inputs, e);
    if input :| input in inputs && EntryOf(input) == Some(e) {
      AllDefInputsMembers(definitions, input);
      NmInputsMembers(Lines(nmOutput), input);
      if content :| content in definitions && input in DefInputs(Lines(content)) {
        DefInputsMembers(Lines(content), input);
      } else {
        var line :| line in Lines(nmOutput) && FromNm(line, input);
        LineExports(line, x, isData);
      }
    }
    if content, line :| content in definitions && line in Lines(content) && DefEntry(line) == Some(e) {
      DefInputsMembers(Lines(content), DefLine(line));
      AllDefInputsMembers(definitions, DefLine(line));
      assert EntryOf(DefLine(line)) == Some(e);
    }
    if line :| line in Lines(nmOutput) && Exports(line, x, isData) {
      LineExports(line, x, isData);
      var input := NmSymbol(NmLineOf(line).symbol, NmLineOf(line).kind);
      NmInputsMembers(Lines(nmOutput), input);
      assert FromNm(line, input) && EntryOf(input) == Some(e);
    }
  }

  /** What is in the two sets of a run. */
  lemma RunSets(definitions: seq<string>, nmOutput: string, x: string)
    ensures var sets := Collected(RunInputs(definitions, nmOutput));
      && (x in sets.data
          <==> FromDefinition(definitions, x, true) || exists line | line in Lines(nmOutput) :: Exports(line, x, true))
      && (x in sets.symbols
          <==> FromDefinition(definitions, x, false) || exists line | line in Lines(nmOutput) :: Exports(line, x, false))
  {
    hide Contributions, RunInputs, FromDefinition, Exports, Lines, SymbolsOf, InsertedAll, AddedAll, Increasing;
    var entries := Contributions(RunInputs(definitions, nmOutput));
    AddedAllSplits(EMPTY_SETS, entries);
    EmptyIncreasing();
    InsertedAllFacts([], SymbolsOf(entries, false));
    InsertedAllFacts([], SymbolsOf(entries, true));
    SymbolsOfMembers(entries, true, x);
    SymbolsOfMembers(entries, false, x);
    ContributedByRun(definitions, nmOutput, x, true);
    ContributedByRun(definitions, nmOutput, x, false);
  }

  // ---- one line of llvm-nm, from input to output

  /** A well-formed line that names one symbol: its whole output. */
  lemma OneSymbolRun(path: string, symbol: string, gap: string, kind: char, rest: string)
    requires SpaceFree(symbol) && gap != [] && AllSpace(gap) && !IsSpace(kind)
    requires Lacks(path + ": " + (symbol + (gap + ([kind] + rest))), '\0')
    requires Lacks(path + ": " + (symbol + (gap + ([kind] + rest))), '\n')
    requires forall i: nat :: !Occurs(symbol + (gap + ([kind] + rest)), ": ", i)
    ensures var name := Normalized(symbol);
      DefText("", Collected(RunInputs([], path + ": " + (symbol + (gap + ([kind] + rest))) + "\n" + "")))
        == if Ordinary(name) && DataKind(kind) then "EXPORTS \n\t" + name + " \t DATA\n"
           else if Ordinary(name) && CodeKind(kind, name) then "EXPORTS \n\t" + name + "\n"
           else "EXPORTS \n"
  {
    hide Lines, NmLineOf, Occurs, Lacks, Normalized, Ordinary, DataKind, CodeKind, Inserted, NmEntry;
    var line := path + ": " + (symbol + (gap + ([kind] + rest)));
    NmLineRecovered(path, symbol, gap, kind, rest);
    LineSplits(line, "");
    NoLines();
    NmEntryExact(symbol, kind);
    OneLineInputs(line, symbol, kind);
    OneEntrySets(NmSymbol(symbol, kind));
    OneEntryText(Normalized(symbol));
  }

  lemma OneLineInputs(line: string, symbol: string, kind: char)
    requires NmLineOf(line) == NmLine(symbol, kind) && Lines(line + "\n" + "") == [line] + Lines("") && Lines("") == []
    ensures RunInputs([], line + "\n" + "") == [NmSymbol(symbol, kind)]
  {
    hide Lines, NmLineOf;
    assert [line] + [] == [line] && [line][1..] == [];
    assert Lines(line + "\n" + "") == [line];
    assert NmInputs([]) == [] && NmInputs([line]) == [NmSymbol(symbol, kind)] + NmInputs([]);
    assert AllDefInputs([]) == [];
  }

  lemma OneEntrySets(input: Input)
    ensures Collected([input])
      == match EntryOf(input)
         case None => Sets([], [])
         case Some(e) => if e.isData then Sets([], [e.symbol]) else Sets([e.symbol], [])
  {
    hide EntryOf;
    assert [input][1..] == [];
    match EntryOf(input)
    case None =>
      assert Contributions([]) == [] && Contributions([input]) == [];
    case Some(e) =>
      assert Contributions([]) == [] && Contributions([input]) == [e] && [e][1..] == [];
      assert Inserted([], e.symbol) == [e.symbol];
      var sets := Added(EMPTY_SETS, e);
      assert AddedAll(sets, []) == sets && AddedAll(EMPTY_SETS, [e]) == AddedAll(sets, [e][1..]);
  }

  lemma OneEntryText(name: string)
    ensures DefText("", Sets([], [])) == "EXPORTS \n"
    ensures DefText("", Sets([], [name])) == "EXPORTS \n\t" + name + " \t DATA\n"
    ensures DefText("", Sets([name], [])) == "EXPORTS \n\t" + name + "\n"
  {
    assert [name][1..] == [];
    assert DataLines([name]) == "\t" + name + " \t DATA\n" + "";
    assert SymbolLines([name]) == "\t" + name + "\n" + "";
  }

  // ---- the lines of the output

  function DataTexts(data: seq<string>): seq<string> {
    seq(|data|, i requires 0 <= i < |data| => "\t" + data[i] + " \t DATA")
  }

  function SymbolTexts(symbols: seq<string>): seq<string> {
    seq(|symbols|, i requires 0 <= i < |symbols| => "\t" + symbols[i])
  }

  lemma {:induction false} SymbolTextLines(symbols: seq<string>)
    requires forall s | s in symbols :: Lacks(s, '\n')
    ensures Lines(SymbolLines(symbols)) == SymbolTexts(symbols)
  {
    hide Lines;
    if symbols == [] {
      NoLines();
    } else {
      assert symbols[0] in symbols;
      LineSplits("\t" + symbols[0], SymbolLines(symbols[1..]));
      SymbolTextLines(symbols[1..]);
      assert SymbolTexts(symbols) == ["\t" + symbols[0]] + SymbolTexts(symbols[1..]);
    }
  }

  lemma {:induction false} DataTextLines(data: seq<string>, symbols: seq<string>)
    requires (forall s | s in data :: Lacks(s, '\n')) && forall s | s in symbols :: Lacks(s, '\n')
    ensures Lines(DataLines(data) + SymbolLines(symbols)) == DataTexts(data) + SymbolTexts(symbols)
  {
    hide Lines, SymbolLines, SymbolTexts;
    var tail := SymbolLines(symbols);
    if data == [] {
      assert "" + tail == tail;
      SymbolTextLines(symbols);
      assert [] + SymbolTexts(symbols) == SymbolTexts(symbols);
    } else {
      assert data[0] in data;
      LineSplits("\t" + data[0] + " \t DATA", DataLines(data[1..]) + tail);
      assert "\t" + data[0] + " \t DATA\n" == "\t" + data[0] + " \t DATA" + "\n";
      Assoc("\t" + data[0] + " \t DATA" + "\n", DataLines(data[1..]), tail);
      DataTextLines(data[1..], symbols);
      assert DataTexts(data) == ["\t" + data[0] + " \t DATA"] + DataTexts(data[1..]);
    }
  }

  /** A written file is the library's line, if it has a name, the export line, a line for each piece of data and
      one for each other symbol. */
  lemma DefTextLines(dllName: string, sets: Sets)
    requires Lacks(dllName, '\n')
    requires (forall s | s in sets.data :: Lacks(s, '\n')) && forall s | s in sets.symbols :: Lacks(s, '\n')
    ensures Lines(DefText(dllName, sets))
      == (if dllName == "" then [] else ["LIBRARY " + dllName])
         + (["EXPORTS "] + (DataTexts(sets.data) + SymbolTexts(sets.symbols)))
  {
    hide Lines, DataTexts, SymbolTexts, DataLines, SymbolLines;
    var body := DataLines(sets.data) + SymbolLines(sets.symbols);
    DataTextLines(sets.data, sets.symbols);
    assert "EXPORTS \n" + body == "EXPORTS " + "\n" + body;
    LineSplits("EXPORTS ", body);
    if dllName != "" {
      LineSplits("LIBRARY " + dllName, "EXPORTS \n" + body);
    } else {
      assert "" + ("EXPORTS \n" + body) == "EXPORTS \n" + body;
    }
  }

  // ---- the lines of the input

  lemma {:induction false} CStringCuts(a: string, b: string)
    requires Lacks(a, '\0')
    ensures CString(a + "\0" + b) == a
  {
    var s := a + "\0" + b;
    if a != [] {
      CStringCuts(a[1..], b);
      assert s[1..] == a[1..] + "\0" + b && s[0] == a[0];
      assert a == [a[0]] + a[1..];
    }
  }

  predicate Blanks(s: string) {
    forall i | 0 <= i < |s| :: s[i] == ' ' || s[i] == '\t'
  }

  lemma {:induction false} BlanksSkipped(blanks: string, s: string)
    requires Blanks(blanks) && (s == "" || (s[0] != ' ' && s[0] != '\t'))
    ensures SkipBlanks(blanks + s) == s
  {
    if blanks == [] {
      assert blanks + s == s;
    } else {
      BlanksSkipped(blanks[1..], s);
      assert (blanks + s)[1..] == blanks[1..] + s && (blanks + s)[0] == blanks[0];
    }
  }

  /** A DEF line that is neither a header nor empty: the symbol after the blanks, up to the data marker. */
  lemma DefLineReads(blanks: string, symbol: string, rest: string)
    requires Blanks(blanks) && Printable(symbol) && Lacks(rest, '\0')
    requires blanks == "" ==> !("LIBRARY" <= symbol) && !("EXPORTS" <= symbol)
    requires blanks == "" ==> !("LIBRARY" <= symbol + (DATA + rest)) && !("EXPORTS" <= symbol + (DATA + rest))
    ensures DefEntry(blanks + symbol) == Some(Entry(symbol, false))
    ensures DefEntry(blanks + (symbol + (DATA + rest))) == Some(Entry(symbol, true))
  {
    hide CString, IndexOf, SkipBlanks, Printable;
    PrintableParts(symbol);
    var marked := symbol + (DATA + rest);
    CStringOfPlain(blanks + symbol);
    CStringOfPlain(blanks + marked);
    BlanksSkipped(blanks, symbol);
    BlanksSkipped(blanks, marked);
    NoHeader(blanks, symbol);
    NoHeader(blanks, marked);
    MarkerFound(symbol, rest);
    assert marked[..|symbol|] == symbol;
  }

  lemma PrintableParts(symbol: string)
    requires Printable(symbol)
    ensures symbol != [] && symbol[0] != ' ' && symbol[0] != '\t' && Lacks(symbol, '\0')
    ensures IndexOf(symbol, DATA).None?
  {
  }

  lemma NoHeader(blanks: string, s: string)
    requires Blanks(blanks) && (blanks == "" ==> !("LIBRARY" <= s) && !("EXPORTS" <= s))
    ensures !("LIBRARY" <= blanks + s) && !("EXPORTS" <= blanks + s)
  {
    if blanks == "" {
      assert blanks + s == s;
    } else {
      assert (blanks + s)[0] == blanks[0];
    }
  }

  lemma MarkerFound(symbol: string, rest: string)
    requires Printable(symbol)
    ensures IndexOf(symbol + (DATA + rest), DATA) == Some(|symbol|)
  {
    hide IndexOf, Occurs, Printable;
    forall j | 0 <= j < |symbol| ensures !Occurs(symbol + DATA, DATA, j) {
      MarkerElsewhere(symbol, j);
    }
    PatternFound(symbol, DATA, rest);
  }

  lemma MarkerElsewhere(symbol: string, j: nat)
    requires Printable(symbol) && j < |symbol|
    ensures !Occurs(symbol + DATA, DATA, j)
  {
    hide Occurs;
    PrintableParts(symbol);
    NoOverlap(symbol, j);
  }

  lemma PatternFound(head: string, pattern: string, rest: string)
    requires forall j | 0 <= j < |head| :: !Occurs(head + pattern, pattern, j)
    ensures IndexOf(head + (pattern + rest), pattern) == Some(|head|)
  {
    hide IndexOf, Occurs;
    var s := head + pattern + rest;
    Assoc(head, pattern, rest);
    OccursAtEnd(head, pattern);
    OccursEarlier(head + pattern, rest, pattern, |head|);
    forall j | 0 <= j < |head| ensures !Occurs(s, pattern, j) {
      if Occurs(s, pattern, j) {
        OccursInHead(head + pattern, rest, pattern, j);
      }
    }
    IndexOfExact(s, pattern, |head|);
  }

  lemma OccursEarlier(head: string, tail: string, pattern: string, j: nat)
    requires Occurs(head, pattern, j)
    ensures Occurs(head + tail, pattern, j)
  {
    assert (head + tail)[j..j + |pattern|] == head[j..j + |pattern|];
  }

  /** Header lines and blank ones contribute nothing. */
  lemma DefLineIgnored(blanks: string, rest: string)
    requires Blanks(blanks)
    ensures DefEntry(blanks) == None && DefEntry("LIBRARY" + rest) == None && DefEntry("EXPORTS" + rest) == None
  {
    hide IndexOf;
    CStringPrefix("LIBRARY", rest);
    CStringPrefix("EXPORTS", rest);
    CStringOfPlain(blanks);
    BlanksSkipped(blanks, "");
    assert blanks + "" == blanks;
    NothingMarked();
  }

  lemma NothingMarked()
    ensures IndexOf("", DATA) == None
  {
  }

  /** A line that ends behind its symbol has no type, and exports nothing. */
  lemma NoType(path: string, symbol: string, gap: string)
    requires SpaceFree(symbol) && gap != [] && AllSpace(gap)
    requires Lacks(path + ": " + (symbol + gap), '\0') && forall i: nat :: !Occurs(symbol + gap, ": ", i)
    ensures NmLineOf(path + ": " + (symbol + gap)) == NmLine(symbol, '\0') && NmEntry(symbol, '\0') == None
  {
    hide LastSeparator, SpaceAt, NonSpaceAt, CString, Occurs, Skipped, Normalized;
    var line := path + ": " + (symbol + gap);
    CStringOfPlain(line);
    LastIsFirst(path, symbol + gap);
    var start := |path| + 2;
    assert line[start..] == symbol + gap;
    WordAt(line, start, symbol, gap);
    var space := start + |symbol|;
    assert line[space..] == gap && line[space + 1..] == gap[1..];
    assert forall k | space + 1 <= k < |line| :: line[k] == gap[k - space];
    SkippedExact(Normalized(symbol), '\0');
    NoKind(Normalized(symbol));
  }

  lemma NoKind(name: string)
    ensures !DataKind('\0') && !CodeKind('\0', name)
  {
  }

  /** A line of llvm-nm is blank when it is all white space, and malformed when it is not and no white space
      follows its last separator, or it has none. */
  lemma NmLineCases(line: string)
    ensures NmLineOf(line).BlankLine? <==> AllSpace(CString(line))
    ensures NmLineOf(line).Malformed? <==>
      !AllSpace(CString(line))
      && forall i: nat | Occurs(CString(line), ": ", i) && forall j: nat | Occurs(CString(line), ": ", j) :: j <= i ::
           SpaceFree(CString(line)[i + 2..])
  {
    hide CString, Occurs;
    var text := CString(line);
    SeparatorFits(text);
    match LastSeparator(text)
    case None =>
      assert forall i: nat :: !Occurs(text, ": ", i);
      SpacesOnly(text);
    case Some(i) =>
      ColonIsNoSpace(text, i);
      WordToEnd(text, i + 2);
  }

  lemma SpacesOnly(text: string)
    ensures NonSpaceAt(text, 0) == |text| <==> AllSpace(text)
  {
  }

  lemma ColonIsNoSpace(text: string, i: nat)
    requires Occurs(text, ": ", i)
    ensures !AllSpace(text)
  {
    assert text[i] == text[i..i + 2][0] == ':';
  }

  lemma WordToEnd(text: string, i: nat)
    requires i <= |text|
    ensures SpaceAt(text, i) == |text| <==> SpaceFree(text[i..])
  {
    if SpaceAt(text, i) == |text| {
      assert forall k | 0 <= k < |text| - i :: text[i..][k] == text[i + k];
    } else {
      assert text[i..][SpaceAt(text, i) - i] == text[SpaceAt(text, i)];
    }
  }
}
