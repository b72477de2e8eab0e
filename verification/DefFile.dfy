/** The text of a module-definition file, and the symbols a DEF or llvm-nm line contributes:
tools/def_file_generator/def_file_generator.c. */
module DefFile {
  import opened CText
  import opened Results
  import opened SortedSet

  // ---- C string search

  /** The bytes of a buffer up to its first NUL. */
  function CString(s: string): string {
    if s == [] || s[0] == '\0' then [] else [s[0]] + CString(s[1..])
  }

  /** strstr, as an index. */
  function IndexOf(s: string, pattern: string): (r: Option<nat>)
    ensures r.Some? ==> r.value + |pattern| <= |s| && s[r.value..r.value + |pattern|] == pattern
  {
    if pattern <= s then Some(0)
    else if s == [] then None
    else match IndexOf(s[1..], pattern)
      case None => None
      case Some(i) => Some(i + 1)
  }

  predicate Occurs(s: string, pattern: string, i: nat) {
    i + |pattern| <= |s| && s[i..i + |pattern|] == pattern
  }

  /** IndexOf finds the first occurrence, and finds one whenever there is one. */
  lemma {:induction false} IndexOfFirst(s: string, pattern: string, i: nat)
    requires Occurs(s, pattern, i)
    ensures IndexOf(s, pattern).Some? && IndexOf(s, pattern).value <= i
  {
    if i == 0 {
      assert pattern <= s;
    } else if !(pattern <= s) {
      assert s[1..][i - 1..i - 1 + |pattern|] == s[i..i + |pattern|];
      IndexOfFirst(s[1..], pattern, i - 1);
    }
  }

  lemma IndexOfExact(s: string, pattern: string, i: nat)
    requires Occurs(s, pattern, i) && forall j | 0 <= j < i :: !Occurs(s, pattern, j)
    ensures IndexOf(s, pattern) == Some(i)
  {
    IndexOfFirst(s, pattern, i);
    assert Occurs(s, pattern, IndexOf(s, pattern).value);
  }

  lemma {:induction false} CStringOfPlain(s: string)
    requires Lacks(s, '\0')
    ensures CString(s) == s
  {
    if s != [] {
      CStringOfPlain(s[1..]);
      assert s == [s[0]] + s[1..];
    }
  }

  // ---- lines

  /** The lines read_line returns until it returns the null pointer. */
  function Lines(s: string): seq<string>
    decreases |s|
  {
    if s == [] then []
    else
      var i := ByteAt(s, '\n', 0);
      [s[..i]] + if i == |s| then [] else Lines(s[i + 1..])
  }

  lemma LineSplits(line: string, rest: string)
    requires Lacks(line, '\n')
    ensures Lines(line + "\n" + rest) == [line] + Lines(rest)
  {
    var s := line + "\n" + rest;
    assert forall j | 0 <= j < |line| :: s[j] == line[j];
    ByteAtExact(s, '\n', 0, |line|);
    assert s[..|line|] == line && s[|line| + 1..] == rest;
  }

  lemma {:induction false} LinesConcat(s: string, rest: string)
    ensures Lines(s + "\n" + rest) == Lines(s + "\n") + Lines(rest)
    decreases |s|
  {
    hide Lines;
    var i := ByteAt(s, '\n', 0);
    var head := s[..i];
    if i == |s| {
      assert head == s && s + "\n" + "" == s + "\n";
      LineSplits(s, rest);
      LineSplits(s, "");
      NoLines();
    } else {
      var tail := s[i + 1..];
      assert s == head + "\n" + tail;
      LinesConcat(tail, rest);
      LineSplits(head, tail + "\n" + rest);
      LineSplits(head, tail + "\n");
      assert s + "\n" + rest == head + "\n" + (tail + "\n" + rest);
      assert s + "\n" == head + "\n" + (tail + "\n");
    }
  }

  function Ended(lines: seq<string>): string {
    if lines == [] then "" else lines[0] + "\n" + Ended(lines[1..])
  }

  /** Every line that ends, and what follows the last newline if that is not empty. */
  lemma {:induction false} LinesExact(lines: seq<string>, last: string)
    requires (forall k | 0 <= k < |lines| :: Lacks(lines[k], '\n')) && Lacks(last, '\n')
    ensures Lines(Ended(lines) + last) == lines + if last == "" then [] else [last]
  {
    hide Lines, Lacks;
    if lines == [] {
      assert Ended(lines) + last == last && lines + [last] == [last];
      UnendedLine(last);
    } else {
      var rest := Ended(lines[1..]) + last;
      LinesExact(lines[1..], last);
      LineSplits(lines[0], rest);
      EndedFirst(lines, last, if last == "" then [] else [last]);
    }
  }

  lemma EndedFirst(lines: seq<string>, last: string, rest: seq<string>)
    requires lines != []
    ensures Ended(lines) + last == lines[0] + "\n" + (Ended(lines[1..]) + last)
    ensures [lines[0]] + (lines[1..] + rest) == lines + rest
  {
    Assoc(lines[0] + "\n", Ended(lines[1..]), last);
    Assoc([lines[0]], lines[1..], rest);
    assert lines == [lines[0]] + lines[1..];
  }

  lemma UnendedLine(last: string)
    requires Lacks(last, '\n')
    ensures Lines(last) == if last == "" then [] else [last]
  {
    assert ByteAt(last, '\n', 0) == |last|;
    assert last[..|last|] == last;
  }

  lemma NoLines()
    ensures Lines("") == []
  {
  }

  lemma {:induction false} LinesLackNewline(s: string, k: nat)
    requires k < |Lines(s)|
    ensures Lacks(Lines(s)[k], '\n')
    decreases |s|
  {
    var i := ByteAt(s, '\n', 0);
    if k > 0 {
      LinesLackNewline(s[i + 1..], k - 1);
    }
  }

  // ---- DEF lines

  const DATA := " \t DATA"

  /** One string for one of the two sets. */
  datatype Entry = Entry(symbol: string, isData: bool)

  function SkipBlanks(s: string): string {
    if s != [] && (s[0] == ' ' || s[0] == '\t') then SkipBlanks(s[1..]) else s
  }

  /** What merge_definition_file adds for a line. */
  function DefEntry(line: string): Option<Entry> {
    var text := CString(line);
    if "LIBRARY" <= text || "EXPORTS" <= text then None
    else
      var symbol := SkipBlanks(text);
      match IndexOf(symbol, DATA)
      case Some(i) => Some(Entry(symbol[..i], true))
      case None => if symbol == [] then None else Some(Entry(symbol, false))
  }

  function DefEntries(lines: seq<string>): seq<Entry> {
    if lines == [] then []
    else (match DefEntry(lines[0]) case None => [] case Some(e) => [e]) + DefEntries(lines[1..])
  }

  lemma DefEntriesStep(line: string, rest: seq<string>)
    ensures DefEntries([line] + rest) == (match DefEntry(line) case None => [] case Some(e) => [e]) + DefEntries(rest)
  {
    hide DefEntry;
    assert ([line] + rest)[1..] == rest;
  }

  lemma {:induction false} DefEntriesConcat(a: seq<string>, b: seq<string>)
    ensures DefEntries(a + b) == DefEntries(a) + DefEntries(b)
  {
    hide DefEntry, DefEntries;
    if a == [] {
      assert a + b == b;
      NoEntries();
      assert [] + DefEntries(b) == DefEntries(b);
    } else {
      assert a + b == [a[0]] + (a[1..] + b) && a == [a[0]] + a[1..];
      DefEntriesStep(a[0], a[1..] + b);
      DefEntriesStep(a[0], a[1..]);
      DefEntriesConcat(a[1..], b);
      Assoc(match DefEntry(a[0]) case None => [] case Some(e) => [e], DefEntries(a[1..]), DefEntries(b));
    }
  }

  /** Strings that survive a trip through a DEF line. */
  ghost predicate Printable(symbol: string) {
    && symbol != [] && symbol[0] != ' ' && symbol[0] != '\t'
    && Lacks(symbol, '\n') && Lacks(symbol, '\0')
    && IndexOf(symbol, DATA).None?
  }

  lemma {:induction false} SkipBlanksStart(s: string)
    ensures SkipBlanks(s) == [] || (SkipBlanks(s)[0] != ' ' && SkipBlanks(s)[0] != '\t')
    ensures forall c :: Lacks(s, c) ==> Lacks(SkipBlanks(s), c)
  {
    if s != [] && (s[0] == ' ' || s[0] == '\t') {
      SkipBlanksStart(s[1..]);
    }
  }

  lemma {:induction false} CStringLacks(s: string)
    ensures Lacks(CString(s), '\0')
    ensures Lacks(s, '\n') ==> Lacks(CString(s), '\n')
  {
    if s != [] && s[0] != '\0' {
      CStringLacks(s[1..]);
      var t := CString(s[1..]);
      assert CString(s) == [s[0]] + t;
      if Lacks(s, '\n') {
        assert Lacks(s[1..], '\n');
      }
    }
  }

  lemma BeforeFirst(s: string, pattern: string, i: nat)
    requires IndexOf(s, pattern) == Some(i) && pattern != []
    ensures IndexOf(s[..i], pattern).None?
  {
    match IndexOf(s[..i], pattern)
    case None =>
    case Some(j) =>
      assert s[..i][j..j + |pattern|] == s[j..j + |pattern|];
      IndexOfFirst(s, pattern, j);
  }

  lemma DataHasSpace(s: string, i: nat)
    requires Occurs(s, DATA, i)
    ensures s[i] == ' '
  {
    assert s[i..i + |DATA|][0] == DATA[0];
  }

  /** Whatever a DEF line contributes can be printed: it is not empty, does not start with a blank, and
      does not contain the data marker. */
  lemma DefEntryPrintable(line: string)
    requires Lacks(line, '\n') && DefEntry(line).Some?
    ensures Printable(DefEntry(line).value.symbol)
  {
    hide IndexOf;
    var text := CString(line);
    var symbol := SkipBlanks(text);
    CStringLacks(line);
    SkipBlanksStart(text);
    match IndexOf(symbol, DATA)
    case Some(i) =>
      DataHasSpace(symbol, i);
      BeforeFirst(symbol, DATA, i);
    case None =>
  }

  // ---- llvm-nm symbols

  predicate IsDecimal(c: char) {
    '0' <= c <= '9'
  }

  predicate Decimals(s: string) {
    forall k | 0 <= k < |s| :: IsDecimal(s[k])
  }

  /** strrchr, as an index. */
  function LastOf(s: string, c: char): (r: Option<nat>)
    ensures r.Some? ==> r.value < |s| && s[r.value] == c && forall k | r.value < k < |s| :: s[k] != c
    ensures r.None? ==> Lacks(s, c)
  {
    if s == [] then None
    else if s[|s| - 1] == c then Some(|s| - 1)
    else LastOf(s[..|s| - 1], c)
  }

  /** normalize_stdcall: `_name@digits` loses its decoration. */
  function Normalized(symbol: string): string {
    if symbol == [] || symbol[0] != '_' then symbol
    else match LastOf(symbol, '@')
      case None => symbol
      case Some(at) =>
        if at + 1 == |symbol| || !Decimals(symbol[at + 1..]) then symbol
        else symbol[1..at]
  }

  lemma NormalizedStdcall(name: string, digits: string)
    requires digits != [] && Decimals(digits)
    ensures Normalized("_" + name + "@" + digits) == name
  {
    var s := "_" + name + "@" + digits;
    var at := 1 + |name|;
    assert s[at] == '@';
    assert s[at + 1..] == digits;
    assert forall k | at < k < |s| :: s[k] == digits[k - at - 1];
    assert s[1..at] == name;
  }

  predicate Contains(s: string, pattern: string) {
    IndexOf(s, pattern).Some?
  }

  predicate Managed(symbol: string) {
    symbol == "__t2m" || symbol == "__m2mep" || symbol == "__mep" || Contains(symbol, "$$F") || Contains(symbol, "$$J")
  }

  predicate Skipped(symbol: string, kind: char) {
    || symbol == [] || !IsUpper(kind) || kind == 'U' || kind == 'V' || kind == 'W' || kind == 'C'
    || (kind == 'R' && !("??_7" <= symbol)) || "??_G" <= symbol || "??_E" <= symbol
    || !Lacks(symbol, '.') || Managed(symbol)
    || Contains(symbol, "$ientry_thunk") || Contains(symbol, "$entry_thunk")
    || Contains(symbol, "$iexit_thunk") || Contains(symbol, "$exit_thunk")
  }

  /** What add_nm_symbol adds. */
  function NmEntry(symbol: string, kind: char): Option<Entry> {
    var name := Normalized(symbol);
    if Skipped(name, kind) then None
    else Some(Entry(name, kind == 'B' || kind == 'D' || kind == 'G' || kind == 'S'))
  }

  lemma NmEntryPrintable(symbol: string, kind: char)
    requires SpaceFree(symbol) && Lacks(symbol, '\0') && NmEntry(symbol, kind).Some?
    ensures Printable(NmEntry(symbol, kind).value.symbol)
  {
    hide Skipped;
    var name := Normalized(symbol);
    assert name != [] by { SkippedEmpty(kind); }
    assert SpaceFree(name) && Lacks(name, '\0');
    match IndexOf(name, DATA)
    case None =>
    case Some(i) => DataHasSpace(name, i);
  }

  lemma SkippedEmpty(kind: char)
    ensures Skipped([], kind)
  {
  }

  // ---- the sets and their text

  datatype Sets = Sets(symbols: seq<string>, data: seq<string>)

  function Added(sets: Sets, e: Entry): Sets {
    if e.isData then sets.(data := Inserted(sets.data, e.symbol)) else sets.(symbols := Inserted(sets.symbols, e.symbol))
  }

  function AddedAll(sets: Sets, entries: seq<Entry>): Sets
    decreases |entries|
  {
    if entries == [] then sets else AddedAll(Added(sets, entries[0]), entries[1..])
  }

  function SymbolsOf(entries: seq<Entry>, isData: bool): seq<string> {
    if entries == [] then []
    else (if entries[0].isData == isData then [entries[0].symbol] else []) + SymbolsOf(entries[1..], isData)
  }

  lemma {:induction false} SymbolsOfMembers(entries: seq<Entry>, isData: bool, x: string)
    ensures x in SymbolsOf(entries, isData) <==> Entry(x, isData) in entries
  {
    if entries != [] {
      SymbolsOfMembers(entries[1..], isData, x);
      assert entries == [entries[0]] + entries[1..];
    }
  }

  /** The two sets fill independently. */
  lemma {:induction false} AddedAllSplits(sets: Sets, entries: seq<Entry>)
    ensures AddedAll(sets, entries)
      == Sets(InsertedAll(sets.symbols, SymbolsOf(entries, false)), InsertedAll(sets.data, SymbolsOf(entries, true)))
    decreases |entries|
  {
    hide Inserted;
    if entries != [] {
      AddedAllSplits(Added(sets, entries[0]), entries[1..]);
      assert SymbolsOf(entries, entries[0].isData)[1..] == SymbolsOf(entries[1..], entries[0].isData);
      assert SymbolsOf(entries, !entries[0].isData) == SymbolsOf(entries[1..], !entries[0].isData);
    }
  }

  const EMPTY_SETS := Sets([], [])

  function DataLines(data: seq<string>): string {
    if data == [] then "" else "\t" + data[0] + " \t DATA\n" + DataLines(data[1..])
  }

  function SymbolLines(symbols: seq<string>): string {
    if symbols == [] then "" else "\t" + symbols[0] + "\n" + SymbolLines(symbols[1..])
  }

  function LibraryLine(dllName: string): string {
    if dllName == "" then "" else "LIBRARY " + dllName + "\n"
  }

  /** The bytes write_def_file writes. */
  function DefText(dllName: string, sets: Sets): string {
    LibraryLine(dllName) + ("EXPORTS \n" + (DataLines(sets.data) + SymbolLines(sets.symbols)))
  }

  // ---- every reachable pair of sets

  /** One source of symbols: a line of a DEF file, or an nm symbol with its type. */
  datatype Input = DefLine(line: string) | NmSymbol(symbol: string, kind: char)

  function EntryOf(input: Input): Option<Entry> {
    match input
    case DefLine(line) => DefEntry(line)
    case NmSymbol(symbol, kind) => NmEntry(symbol, kind)
  }

  /** Lines hold no newline; an nm symbol is a C string cut out at the first white space. */
  predicate WellFormedInput(input: Input) {
    match input
    case DefLine(line) => Lacks(line, '\n')
    case NmSymbol(symbol, _) => SpaceFree(symbol) && Lacks(symbol, '\0')
  }

  /** Everything a sequence of inputs contributes, in order. */
  function Contributions(inputs: seq<Input>): seq<Entry> {
    if inputs == [] then []
    else (match EntryOf(inputs[0]) case None => [] case Some(e) => [e]) + Contributions(inputs[1..])
  }

  function Collected(inputs: seq<Input>): Sets {
    AddedAll(EMPTY_SETS, Contributions(inputs))
  }

  ghost predicate Reachable(sets: Sets) {
    && Increasing(sets.symbols) && Increasing(sets.data)
    && (forall x | x in sets.symbols :: Printable(x))
    && (forall x | x in sets.data :: Printable(x))
  }

  lemma InputPrintable(input: Input)
    requires WellFormedInput(input) && EntryOf(input).Some?
    ensures Printable(EntryOf(input).value.symbol)
  {
    hide Printable, DefEntry, NmEntry;
    match input
    case DefLine(line) => DefEntryPrintable(line);
    case NmSymbol(symbol, kind) => NmEntryPrintable(symbol, kind);
  }

  lemma {:induction false} ContributionsPrintable(inputs: seq<Input>, e: Entry)
    requires forall input | input in inputs :: WellFormedInput(input)
    requires e in Contributions(inputs)
    ensures Printable(e.symbol)
  {
    hide Printable, EntryOf, WellFormedInput;
    assert inputs[0] in inputs;
    if EntryOf(inputs[0]) == Some(e) {
      InputPrintable(inputs[0]);
    } else {
      ContributionsPrintable(inputs[1..], e);
    }
  }

  /** Any sequence of inputs leaves sorted sets of printable symbols. */
  lemma CollectedReachable(inputs: seq<Input>)
    requires forall input | input in inputs :: WellFormedInput(input)
    ensures Reachable(Collected(inputs))
  {
    hide Printable, WellFormedInput, EntryOf, InsertedAll, AddedAll, Increasing, SymbolsOf;
    var entries := Contributions(inputs);
    AddedAllSplits(EMPTY_SETS, entries);
    EmptyIncreasing();
    InsertedAllFacts([], SymbolsOf(entries, false));
    InsertedAllFacts([], SymbolsOf(entries, true));
    forall isData: bool, x | x in SymbolsOf(entries, isData) ensures Printable(x) {
      SymbolsOfMembers(entries, isData, x);
      ContributionsPrintable(inputs, Entry(x, isData));
    }
  }

  // ---- the bytes depend only on what was contributed

  /** The DEF output is a function of the set of contributed (symbol, kind) pairs. */
  lemma OutputOrderIrrelevant(dllName: string, inputs: seq<Input>, inputs': seq<Input>)
    requires forall e :: e in Contributions(inputs) <==> e in Contributions(inputs')
    ensures DefText(dllName, Collected(inputs)) == DefText(dllName, Collected(inputs'))
  {
    hide AddedAll, InsertedAll, SymbolsOf, DefText, Contributions;
    var entries, entries' := Contributions(inputs), Contributions(inputs');
    AddedAllSplits(EMPTY_SETS, entries);
    AddedAllSplits(EMPTY_SETS, entries');
    forall isData: bool, x ensures x in SymbolsOf(entries, isData) <==> x in SymbolsOf(entries', isData) {
      SymbolsOfMembers(entries, isData, x);
      SymbolsOfMembers(entries', isData, x);
    }
    InsertionOrderIrrelevant(SymbolsOf(entries, false), SymbolsOf(entries', false));
    InsertionOrderIrrelevant(SymbolsOf(entries, true), SymbolsOf(entries', true));
  }

  // ---- the printer and the parser are inverse

  lemma NoOverlap(symbol: string, j: nat)
    requires IndexOf(symbol, DATA).None? && j < |symbol|
    ensures !Occurs(symbol + DATA, DATA, j)
  {
    hide Occurs, IndexOf;
    var s := symbol + DATA;
    if Occurs(s, DATA, j) {
      if j + |DATA| <= |symbol| {
        OccursInHead(symbol, DATA, DATA, j);
        IndexOfFirst(symbol, DATA, j);
      } else {
        OccursAtEnd(symbol, DATA);
        Borderless(s, |symbol|, j);
      }
    }
  }

  lemma OccursInHead(head: string, tail: string, pattern: string, j: nat)
    requires Occurs(head + tail, pattern, j) && j + |pattern| <= |head|
    ensures Occurs(head, pattern, j)
  {
    assert head[j..j + |pattern|] == (head + tail)[j..j + |pattern|];
  }

  lemma OccursAtEnd(head: string, pattern: string)
    ensures Occurs(head + pattern, pattern, |head|)
  {
  }

  /** The data marker starts nowhere inside itself. */
  lemma Borderless(s: string, i: nat, j: nat)
    requires Occurs(s, DATA, i) && j < i < j + |DATA|
    ensures !Occurs(s, DATA, j)
  {
    OccursAt(s, DATA, i, 0);
    OccursAt(s, DATA, i, 1);
    OccursAt(s, DATA, j, i - j);
    if i - j + 1 < |DATA| {
      OccursAt(s, DATA, j, i - j + 1);
    }
  }

  lemma OccursAt(s: string, pattern: string, j: nat, k: nat)
    requires k < |pattern|
    ensures Occurs(s, pattern, j) ==> j + k < |s| && s[j + k] == pattern[k]
  {
    if Occurs(s, pattern, j) {
      assert s[j..j + |pattern|][k] == pattern[k];
    }
  }

  lemma SkipTab(symbol: string, tail: string)
    requires symbol != [] && symbol[0] != ' ' && symbol[0] != '\t'
    ensures SkipBlanks("\t" + symbol + tail) == symbol + tail
  {
    var s := "\t" + symbol + tail;
    assert s[0] == '\t' && s[1..] == symbol + tail && s[1..][0] == symbol[0];
  }

  lemma TabLine(s: string)
    requires s != [] && s[0] == '\t'
    ensures !("LIBRARY" <= s) && !("EXPORTS" <= s)
  {
  }

  /** A printed data line reads back as its symbol. */
  lemma DataLineReads(symbol: string)
    requires Printable(symbol)
    ensures DefEntry("\t" + symbol + DATA) == Some(Entry(symbol, true))
    ensures Lacks("\t" + symbol + DATA, '\n')
  {
    hide IndexOf, CString, SkipBlanks;
    var line := "\t" + symbol + DATA;
    CStringOfPlain(line);
    TabLine(line);
    SkipTab(symbol, DATA);
    forall j | 0 <= j < |symbol| ensures !Occurs(symbol + DATA, DATA, j) {
      NoOverlap(symbol, j);
    }
    IndexOfExact(symbol + DATA, DATA, |symbol|);
    assert (symbol + DATA)[..|symbol|] == symbol;
  }

  lemma SymbolLineReads(symbol: string)
    requires Printable(symbol)
    ensures DefEntry("\t" + symbol) == Some(Entry(symbol, false))
    ensures Lacks("\t" + symbol, '\n')
  {
    hide IndexOf, CString, SkipBlanks;
    var line := "\t" + symbol;
    CStringOfPlain(line);
    TabLine(line);
    SkipTab(symbol, "");
    assert line + "" == line && symbol + "" == symbol;
  }

  function Tagged(symbols: seq<string>, isData: bool): seq<Entry> {
    if symbols == [] then [] else [Entry(symbols[0], isData)] + Tagged(symbols[1..], isData)
  }

  lemma {:induction false} SymbolLinesRead(symbols: seq<string>)
    requires forall x | x in symbols :: Printable(x)
    ensures DefEntries(Lines(SymbolLines(symbols))) == Tagged(symbols, false)
  {
    hide Printable, DefEntry, Lines;
    if symbols == [] {
      NoLines();
    } else {
      assert symbols[0] in symbols;
      SymbolLineReads(symbols[0]);
      LineSplits("\t" + symbols[0], SymbolLines(symbols[1..]));
      SymbolLinesRead(symbols[1..]);
    }
  }

  lemma {:induction false} DataLinesRead(data: seq<string>, symbols: seq<string>)
    requires forall x | x in data :: Printable(x)
    ensures DefEntries(Lines(DataLines(data) + SymbolLines(symbols)))
      == Tagged(data, true) + DefEntries(Lines(SymbolLines(symbols)))
  {
    hide Printable, DefEntry, Lines, SymbolLines;
    var tail := SymbolLines(symbols);
    if data == [] {
      assert "" + tail == tail;
    } else {
      assert data[0] in data;
      DataLineReads(data[0]);
      LineSplits("\t" + data[0] + DATA, DataLines(data[1..]) + tail);
      assert "\t" + data[0] + " \t DATA\n" == "\t" + data[0] + DATA + "\n";
      Assoc("\t" + data[0] + DATA + "\n", DataLines(data[1..]), tail);
      DataLinesRead(data[1..], symbols);
    }
  }

  lemma ExportsLineReads(rest: string)
    ensures DefEntries(Lines("EXPORTS \n" + rest)) == DefEntries(Lines(rest))
  {
    hide Lines;
    var line := "EXPORTS ";
    assert "EXPORTS \n" + rest == line + "\n" + rest;
    LineSplits(line, rest);
    CStringOfPlain(line);
    assert DefEntry(line) == None;
  }

  lemma {:induction false} TaggedSymbols(symbols: seq<string>, isData: bool)
    ensures SymbolsOf(Tagged(symbols, isData), isData) == symbols
    ensures SymbolsOf(Tagged(symbols, isData), !isData) == []
  {
    if symbols != [] {
      TaggedSymbols(symbols[1..], isData);
      assert Tagged(symbols, isData)[1..] == Tagged(symbols[1..], isData);
    }
  }

  lemma SymbolsOfStep(e: Entry, rest: seq<Entry>, isData: bool)
    ensures SymbolsOf([e] + rest, isData) == (if e.isData == isData then [e.symbol] else []) + SymbolsOf(rest, isData)
  {
    assert ([e] + rest)[1..] == rest;
  }

  lemma {:induction false} SymbolsOfConcat(a: seq<Entry>, b: seq<Entry>, isData: bool)
    ensures SymbolsOf(a + b, isData) == SymbolsOf(a, isData) + SymbolsOf(b, isData)
  {
    if a == [] {
      assert a + b == b;
    } else {
      hide SymbolsOf;
      assert a + b == [a[0]] + (a[1..] + b) && a == [a[0]] + a[1..];
      SymbolsOfStep(a[0], a[1..] + b, isData);
      SymbolsOfStep(a[0], a[1..], isData);
      SymbolsOfConcat(a[1..], b, isData);
      Assoc(if a[0].isData == isData then [a[0].symbol] else [], SymbolsOf(a[1..], isData), SymbolsOf(b, isData));
    }
  }

  /** The entries read from a written file: what the library line happens to contribute, then exactly the
      two sets. */
  lemma WrittenEntries(dllName: string, sets: Sets)
    requires Reachable(sets)
    ensures DefEntries(Lines(DefText(dllName, sets)))
      == DefEntries(Lines(LibraryLine(dllName))) + (Tagged(sets.data, true) + Tagged(sets.symbols, false))
  {
    hide Lines, DataLines, SymbolLines, Printable, DefEntries;
    var body := DataLines(sets.data) + SymbolLines(sets.symbols);
    ExportsLineReads(body);
    DataLinesRead(sets.data, sets.symbols);
    SymbolLinesRead(sets.symbols);
    var rest := "EXPORTS \n" + body;
    if dllName == "" {
      assert "" + rest == rest;
      NoLines();
      NoEntries();
      assert [] + DefEntries(Lines(rest)) == DefEntries(Lines(rest));
    } else {
      LinesConcat("LIBRARY " + dllName, rest);
      DefEntriesConcat(Lines(LibraryLine(dllName)), Lines(rest));
    }
  }

  lemma NoEntries()
    ensures DefEntries([]) == []
  {
  }

  /** Merging a written file into empty sets gives the sets back exactly when the lines hidden in the
      DLL name contribute nothing new. */
  lemma RoundTripExact(dllName: string, sets: Sets)
    requires Reachable(sets)
    ensures AddedAll(EMPTY_SETS, DefEntries(Lines(DefText(dllName, sets)))) == sets
      <==> forall e | e in DefEntries(Lines(LibraryLine(dllName))) ::
             e.symbol in (if e.isData then sets.data else sets.symbols)
  {
    hide Lines, DefText, DefEntries, InsertedAll, Increasing, Printable, Tagged, SymbolsOf;
    var extra := DefEntries(Lines(LibraryLine(dllName)));
    var own := Tagged(sets.data, true) + Tagged(sets.symbols, false);
    WrittenEntries(dllName, sets);
    AddedAllSplits(EMPTY_SETS, extra + own);
    forall isData: bool
      ensures SymbolsOf(extra + own, isData) == SymbolsOf(extra, isData) + (if isData then sets.data else sets.symbols)
    {
      SymbolsOfConcat(extra, own, isData);
      SymbolsOfConcat(Tagged(sets.data, true), Tagged(sets.symbols, false), isData);
      TaggedSymbols(sets.data, true);
      TaggedSymbols(sets.symbols, false);
    }
    AbsorbExactly(SymbolsOf(extra, false), sets.symbols);
    AbsorbExactly(SymbolsOf(extra, true), sets.data);
    forall isData: bool, x ensures x in SymbolsOf(extra, isData) <==> Entry(x, isData) in extra {
      SymbolsOfMembers(extra, isData, x);
    }
    assert forall e: Entry :: e == Entry(e.symbol, e.isData);
  }

  /** The DLL name "a\nb" adds the symbol b. */
  lemma NewlineExample()
    ensures AddedAll(EMPTY_SETS, DefEntries(Lines(DefText("a\nb", EMPTY_SETS)))) != EMPTY_SETS
  {
    hide DefText, AddedAll, Lines, DefEntry, DefEntries;
    NewlineEntries();
    EmptyIncreasing();
    RoundTripExact("a\nb", EMPTY_SETS);
  }

  lemma NewlineEntries()
    ensures Entry("b", false) in DefEntries(Lines(LibraryLine("a\nb")))
  {
    hide Lines, DefEntry;
    assert LibraryLine("a\nb") == "LIBRARY a" + "\n" + ("b" + "\n" + "");
    LineSplits("LIBRARY a", "b" + "\n" + "");
    LineSplits("b", "");
    NoLines();
    PlainSymbol();
    DefEntriesStep("LIBRARY a", ["b"]);
    DefEntriesStep("b", []);
    assert ["LIBRARY a"] + (["b"] + []) == ["LIBRARY a"] + ["b"];
  }

  lemma PlainSymbol()
    ensures DefEntry("b") == Some(Entry("b", false))
  {
    assert CString("b") == "b" by { CStringOfPlain("b"); }
    assert |DATA| == 7 && IndexOf("b"[1..], DATA) == None;
    assert SkipBlanks("b") == "b";
  }

  lemma AbsorbExactly(extra: seq<string>, s: seq<string>)
    requires Increasing(s)
    ensures InsertedAll([], extra + s) == s <==> forall x | x in extra :: x in s
  {
    hide InsertedAll, Increasing;
    EmptyIncreasing();
    InsertedAllFacts([], extra + s);
    if forall x | x in extra :: x in s {
      IncreasingUnique(InsertedAll([], extra + s), s);
    } else {
      var x :| x in extra && x !in s;
      assert x in extra + s;
    }
  }

  lemma EmptyIncreasing()
    ensures Increasing([])
  {
  }

  /** For every DLL name without a newline the round trip is exact. */
  lemma RoundTrip(dllName: string, inputs: seq<Input>)
    requires Lacks(dllName, '\n') && forall input | input in inputs :: WellFormedInput(input)
    ensures var sets := Collected(inputs);
      AddedAll(EMPTY_SETS, DefEntries(Lines(DefText(dllName, sets)))) == sets
  {
    hide DefText, AddedAll, Collected;
    CollectedReachable(inputs);
    RoundTripExact(dllName, Collected(inputs));
    LibraryContributesNothing(dllName);
  }

  lemma LibraryContributesNothing(dllName: string)
    requires Lacks(dllName, '\n')
    ensures DefEntries(Lines(LibraryLine(dllName))) == []
  {
    if dllName != "" {
      var line := "LIBRARY " + dllName;
      assert LibraryLine(dllName) == line + "\n" + "";
      LineSplits(line, "");
      CStringPrefix("LIBRARY ", dllName);
      assert DefEntry(line) == None;
    }
  }

  lemma {:induction false} CStringPrefix(a: string, b: string)
    requires Lacks(a, '\0')
    ensures a <= CString(a + b)
  {
    if a != [] {
      CStringPrefix(a[1..], b);
      assert (a + b)[1..] == a[1..] + b;
      assert a == [a[0]] + a[1..];
    }
  }
}
