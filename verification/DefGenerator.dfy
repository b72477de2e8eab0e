/** The DEF file generator's loops over lines: tools/def_file_generator/def_file_generator.c. */
module DefGenerator {
  import opened CText
  import opened Results
  import opened SortedSet
  import opened DefFile

  // ---- reading lines

  class LineReader {
    const content: string
    var position: nat
    ghost var rest: seq<string>

    ghost predicate Valid()
      reads this
    {
      position <= |content| && rest == Lines(content[position..])
    }

    constructor (content: string)
      ensures Valid() && rest == Lines(content)
    {
      this.content := content;
      position := 0;
      rest := Lines(content);
      assert content[0..] == content;
    }

    /** read_line: the next line, or nothing at the end of the file. */
    method ReadLine() returns (line: Option<string>)
      requires Valid()
      modifies this
      ensures Valid()
      ensures old(rest) == if line.None? then [] else [line.value] + rest
      ensures line.None? ==> rest == []
    {
      hide Lines;
      var start := position;
      while position < |content|
        invariant start <= position <= |content|
        invariant forall k | start <= k < position :: content[k] != '\n'
        invariant rest == old(rest)
      {
        var character := content[position];
        position := position + 1;
        if character == '\n' {
          FirstLine(content, start, position - 1);
          rest := rest[1..];
          return Some(content[start..position - 1]);
        }
      }
      if position == start {
        NoLines();
        assert content[start..] == "";
        return None;
      }
      LastLine(content, start);
      NoLines();
      assert content[position..] == "";
      rest := [];
      line := Some(content[start..position]);
    }
  }

  lemma FirstLine(s: string, start: nat, i: nat)
    requires start <= i < |s| && s[i] == '\n' && forall k | start <= k < i :: s[k] != '\n'
    ensures Lines(s[start..]) == [s[start..i]] + Lines(s[i + 1..])
  {
    hide Lines;
    assert s[start..] == s[start..i] + "\n" + s[i + 1..];
    LineSplits(s[start..i], s[i + 1..]);
  }

  lemma LastLine(s: string, start: nat)
    requires start < |s| && forall k | start <= k < |s| :: s[k] != '\n'
    ensures Lines(s[start..]) == [s[start..|s|]]
  {
    var t := s[start..];
    assert ByteAt(t, '\n', 0) == |t|;
    assert t[..|t|] == s[start..|s|];
  }

  /** The line in hand and those still in the file. */
  function Pending(line: Option<string>, rest: seq<string>): seq<string> {
    if line.None? then [] else [line.value] + rest
  }

  // ---- one line

  lemma BlankSkipped(text: string, i: nat)
    requires i < |text| && (text[i] == ' ' || text[i] == '\t')
    ensures SkipBlanks(text[i..]) == SkipBlanks(text[i + 1..])
  {
    assert text[i..][1..] == text[i + 1..];
  }

  lemma NoBlank(text: string, i: nat)
    requires i <= |text| && (i < |text| ==> text[i] != ' ' && text[i] != '\t')
    ensures SkipBlanks(text[i..]) == text[i..]
  {
  }

  method ReadDefLine(line: string) returns (entry: Option<Entry>)
    ensures entry == DefEntry(line)
  {
    hide SkipBlanks, CString, IndexOf;
    var text := CString(line);
    if "LIBRARY" <= text || "EXPORTS" <= text {
      return None;
    }
    var symbol := 0;
    assert text[0..] == text;
    while symbol < |text| && (text[symbol] == ' ' || text[symbol] == '\t')
      invariant 0 <= symbol <= |text|
      invariant SkipBlanks(text[symbol..]) == SkipBlanks(text)
    {
      BlankSkipped(text, symbol);
      symbol := symbol + 1;
    }
    NoBlank(text, symbol);
    var rest := text[symbol..];
    var data := IndexOf(rest, DATA);
    if data.Some? {
      return Some(Entry(rest[..data.value], true));
    }
    if rest != [] {
      return Some(Entry(rest, false));
    }
    entry := None;
  }

  const SEPARATOR := ": "

  /** The last place before end where the separator occurs. */
  function LastSeparatorBefore(s: string, end: nat): (r: Option<nat>)
    ensures r.Some? ==> r.value < end && Occurs(s, SEPARATOR, r.value)
    ensures forall i: nat | i < end && Occurs(s, SEPARATOR, i) :: r.Some? && i <= r.value
  {
    if end == 0 then None
    else if Occurs(s, SEPARATOR, end - 1) then Some(end - 1)
    else LastSeparatorBefore(s, end - 1)
  }

  function LastSeparator(s: string): (r: Option<nat>)
    ensures r.Some? ==> Occurs(s, SEPARATOR, r.value)
    ensures forall i: nat | Occurs(s, SEPARATOR, i) :: r.Some? && i <= r.value
  {
    LastSeparatorBefore(s, |s|)
  }

  datatype NmLine = Malformed | BlankLine | NmLine(symbol: string, kind: char)

  /** What parse_nm_output makes of a line: the symbol after the last separator, and the character after
      the white space that ends it (NUL when the line ends there). */
  function NmLineOf(line: string): NmLine {
    var text := CString(line);
    match LastSeparator(text)
    case None => if NonSpaceAt(text, 0) == |text| then BlankLine else Malformed
    case Some(i) =>
      var symbol := i + 2;
      var space := SpaceAt(text, symbol);
      if space == |text| then Malformed
      else
        var kind := NonSpaceAt(text, space + 1);
        NmLine(text[symbol..space], if kind == |text| then '\0' else text[kind])
  }

  /** An object path may itself hold the separator: as long as nothing after the symbol does, the symbol
      and its type are recovered. */
  lemma NmLineRecovered(path: string, symbol: string, gap: string, kind: char, rest: string)
    requires SpaceFree(symbol) && gap != [] && AllSpace(gap) && !IsSpace(kind)
    requires Lacks(path + SEPARATOR + (symbol + (gap + ([kind] + rest))), '\0')
    requires forall i: nat :: !Occurs(symbol + (gap + ([kind] + rest)), SEPARATOR, i)
    ensures NmLineOf(path + SEPARATOR + (symbol + (gap + ([kind] + rest)))) == NmLine(symbol, kind)
  {
    hide LastSeparator, SpaceAt, NonSpaceAt, CString, Occurs, AllSpace, SpaceFree;
    var tail := symbol + (gap + ([kind] + rest));
    var line := path + SEPARATOR + tail;
    CStringOfPlain(line);
    LastIsFirst(path, tail);
    FieldsOf(line, |path| + 2, symbol, gap, kind, rest);
  }

  lemma FieldsOf(line: string, start: nat, symbol: string, gap: string, kind: char, rest: string)
    requires SpaceFree(symbol) && gap != [] && AllSpace(gap) && !IsSpace(kind)
    requires start <= |line| && line[start..] == symbol + (gap + ([kind] + rest))
    ensures var space := start + |symbol|;
      && space < |line| && SpaceAt(line, start) == space && line[start..space] == symbol
      && var at := NonSpaceAt(line, space + 1); at < |line| && line[at] == kind
  {
    hide SpaceAt, NonSpaceAt;
    var space := start + |symbol|;
    WordAt(line, start, symbol, gap + ([kind] + rest));
    assert line[space + 1..] == line[space..][1..] == gap[1..] + ([kind] + rest);
    GapAt(line, space + 1, gap[1..], [kind] + rest);
    assert line[space + |gap|] == line[space + |gap|..][0];
  }

  lemma LastIsFirst(path: string, tail: string)
    requires forall i: nat :: !Occurs(tail, SEPARATOR, i)
    ensures LastSeparator(path + SEPARATOR + tail) == Some(|path|)
  {
    var line := path + SEPARATOR + tail;
    assert line[|path|..|path| + 2] == SEPARATOR;
    assert Occurs(line, SEPARATOR, |path|);
    forall i: nat | Occurs(line, SEPARATOR, i) ensures i <= |path| {
      if i > |path| {
        SeparatorInTail(path, tail, i);
      }
    }
  }

  lemma SeparatorInTail(path: string, tail: string, i: nat)
    requires Occurs(path + SEPARATOR + tail, SEPARATOR, i) && i > |path|
    ensures i >= |path| + 2 && Occurs(tail, SEPARATOR, i - |path| - 2)
  {
    var line := path + SEPARATOR + tail;
    assert line[i] == line[i..i + 2][0] == ':';
    assert line[|path| + 1] == ' ';
    assert tail[i - |path| - 2..i - |path|] == line[i..i + 2];
  }

  lemma OccursInTail(text: string, start: nat, i: nat)
    requires start <= |text|
    ensures Occurs(text[start..], SEPARATOR, i) <==> Occurs(text, SEPARATOR, start + i)
  {
    if start + i + 2 <= |text| {
      assert text[start..][i..i + 2] == text[start + i..start + i + 2];
    }
  }

  lemma NoneFurther(text: string, candidate: nat)
    requires candidate <= |text| && IndexOf(text[candidate..], SEPARATOR).None?
    ensures forall i: nat | Occurs(text, SEPARATOR, i) :: i < candidate
  {
    hide IndexOf, Occurs;
    forall i: nat | Occurs(text, SEPARATOR, i) ensures i < candidate {
      if i >= candidate {
        OccursInTail(text, candidate, i - candidate);
        IndexOfFirst(text[candidate..], SEPARATOR, i - candidate);
      }
    }
  }

  /** Two separators cannot overlap, so none after the end of one means it is the last. */
  lemma LastSeparatorIs(text: string, i: nat)
    requires Occurs(text, SEPARATOR, i) && forall j: nat | Occurs(text, SEPARATOR, j) :: j < i + 2
    ensures LastSeparator(text) == Some(i)
  {
    assert !Occurs(text, SEPARATOR, i + 1) by {
      OccursAt(text, SEPARATOR, i, 1);
      if Occurs(text, SEPARATOR, i + 1) {
        OccursAt(text, SEPARATOR, i + 1, 0);
      }
    }
  }

  lemma IndexOfOccurs(s: string, pattern: string)
    ensures IndexOf(s, pattern).Some? ==> Occurs(s, pattern, IndexOf(s, pattern).value)
  {
  }

  /** The scan for the last separator: strstr again and again, two characters further each time. */
  method FindSeparator(text: string) returns (separator: Option<nat>)
    ensures separator == LastSeparator(text)
  {
    hide LastSeparator, Occurs, IndexOf;
    separator := None;
    var candidate := 0;
    while true
      invariant 0 <= candidate <= |text|
      invariant separator.Some? ==> Occurs(text, SEPARATOR, separator.value) && candidate == separator.value + 2
      invariant separator.None? ==> candidate == 0
      decreases |text| - candidate
    {
      var found := IndexOf(text[candidate..], SEPARATOR);
      if found.None? {
        break;
      }
      IndexOfOccurs(text[candidate..], SEPARATOR);
      OccursInTail(text, candidate, found.value);
      separator := Some(candidate + found.value);
      candidate := candidate + found.value + 2;
    }
    NoneFurther(text, candidate);
    if separator.Some? {
      LastSeparatorIs(text, separator.value);
    } else {
      NoSeparator(text);
    }
  }

  lemma NoSeparator(text: string)
    requires forall i: nat :: !Occurs(text, SEPARATOR, i)
    ensures LastSeparator(text) == None
  {
    hide Occurs;
  }

  /** One line of parse_nm_output. */
  method ReadNmLine(line: string) returns (r: NmLine)
    ensures r == NmLineOf(line)
  {
    hide LastSeparator, CString, Occurs;
    var text := CString(line);
    var separator := FindSeparator(text);
    if separator.None? {
      var blank := SkipSpaces(text, 0);
      return if blank == |text| then BlankLine else Malformed;
    }
    SeparatorFits(text);
    var symbol := separator.value + 2;
    var space := SkipWord(text, symbol);
    if space == |text| {
      return Malformed;
    }
    var kind := SkipSpaces(text, space + 1);
    r := NmLine(text[symbol..space], if kind == |text| then '\0' else text[kind]);
  }

  lemma SeparatorFits(text: string)
    ensures LastSeparator(text).Some? ==> LastSeparator(text).value + 2 <= |text|
  {
  }

  /** Whatever parse_nm_output hands to add_nm_symbol is a C string without white space. */
  lemma NmLineWellFormed(line: string)
    requires NmLineOf(line).NmLine?
    ensures SpaceFree(NmLineOf(line).symbol) && Lacks(NmLineOf(line).symbol, '\0')
  {
    CStringLacks(line);
  }

  // ---- normalising in place

  method LastIndexOf(symbol: array<char>, end: nat, c: char) returns (at: Option<nat>)
    requires end <= symbol.Length
    ensures at == LastOf(symbol[..end], c)
  {
    var i := end;
    while i > 0
      invariant 0 <= i <= end
      invariant LastOf(symbol[..end], c) == LastOf(symbol[..i], c)
    {
      assert symbol[..i][..i - 1] == symbol[..i - 1];
      if symbol[i - 1] == c {
        return Some(i - 1);
      }
      i := i - 1;
    }
    at := None;
  }

  method AllDecimal(symbol: array<char>, start: nat, end: nat) returns (r: bool)
    requires start <= end <= symbol.Length
    ensures r <==> Decimals(symbol[start..end])
  {
    var digit := start;
    while digit < end
      invariant start <= digit <= end
      invariant forall k | start <= k < digit :: IsDecimal(symbol[k])
    {
      if !IsDecimal(symbol[digit]) {
        assert symbol[digit] == symbol[start..end][digit - start];
        return false;
      }
      digit := digit + 1;
    }
    r := true;
  }

  /** normalize_stdcall on the C string symbol[..end]: cut at the '@', then shift everything down over
      the underscore. */
  method NormalizeStdcall(symbol: array<char>, end: nat) returns (newEnd: nat)
    requires end < symbol.Length && symbol[end] == '\0'
    modifies symbol
    ensures newEnd <= end && symbol[newEnd] == '\0'
    ensures symbol[..newEnd] == Normalized(old(symbol[..end]))
    ensures symbol[end..] == old(symbol[end..])
  {
    hide LastOf, Decimals;
    ghost var s := symbol[..end];
    newEnd := end;
    if end == 0 || symbol[0] != '_' {
      return;
    }
    var at := LastIndexOf(symbol, end, '@');
    if at.None? || at.value + 1 == end {
      return;
    }
    var decimal := AllDecimal(symbol, at.value + 1, end);
    assert s[at.value + 1..] == symbol[at.value + 1..end];
    if !decimal {
      return;
    }
    assert s[1..at.value] == symbol[1..at.value];
    newEnd := Undecorate(symbol, at.value, end);
  }

  /** Cut at the '@', then move the rest, its NUL included, over the underscore. */
  method Undecorate(symbol: array<char>, at: nat, end: nat) returns (newEnd: nat)
    requires 0 < at < end < symbol.Length
    modifies symbol
    ensures newEnd == at - 1 && symbol[newEnd] == '\0'
    ensures symbol[..newEnd] == old(symbol[1..at])
    ensures symbol[end..] == old(symbol[end..])
  {
    symbol[at] := '\0';
    newEnd := at - 1;
    ghost var cut := symbol[1..at + 1];
    assert cut[..newEnd] == old(symbol[1..at]) && cut[newEnd] == '\0';
    ShiftDown(symbol, at);
    assert symbol[..newEnd] == symbol[..at][..newEnd] && symbol[newEnd] == symbol[..at][newEnd];
    assert symbol[end..] == symbol[at..][end - at..];
  }

  /** memmove(symbol, symbol + 1, n). */
  method ShiftDown(symbol: array<char>, n: nat)
    requires n < symbol.Length
    modifies symbol
    ensures symbol[..n] == old(symbol[1..n + 1])
    ensures symbol[n..] == old(symbol[n..])
  {
    var i := 0;
    while i < n
      invariant 0 <= i <= n
      invariant symbol[..i] == old(symbol[1..i + 1])
      invariant symbol[i..] == old(symbol[i..])
    {
      assert symbol[i + 1] == symbol[i..][1] == old(symbol[i + 1]);
      ghost var rest := symbol[i..];
      symbol[i] := symbol[i + 1];
      i := i + 1;
      assert symbol[i..] == rest[1..];
    }
  }
}
