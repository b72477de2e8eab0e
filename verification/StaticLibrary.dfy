/** Duplicate symbols in a static library: tools/internal/static_library_validator.c. */
module StaticLibrary {
  import opened CText
  import opened Results
  import opened Sorting
  import opened Substitution
  import CiVfs

  datatype SymbolEntry = SymbolEntry(symbol: string, member: string, kind: char)

  // ---- one line

  /** should_keep_type. */
  predicate Keep(kind: char) {
    IsUpper(kind) && kind != 'U' && kind != 'V' && kind != 'W' && kind != 'C'
  }

  /** What parse_nm_line reads after the closing bracket and ": ". */
  function SymbolOf(line: string, from: nat, member: string): Option<SymbolEntry>
    requires from <= |line|
  {
    var start := NonSpaceAt(line, from);
    var end := SpaceAt(line, start);
    var kind := NonSpaceAt(line, end);
    if kind + 1 >= |line| || !IsSpace(line[kind + 1]) || !Keep(line[kind]) then None
    else Some(SymbolEntry(line[start..end], member, line[kind]))
  }

  function Parsed(line: string): Option<SymbolEntry> {
    var open := ByteAt(line, '[', 0);
    if open == |line| then None
    else
      var close := ByteAt(line, ']', open + 1);
      if close + 2 >= |line| || line[close + 1] != ':' || line[close + 2] != ' ' then None
      else SymbolOf(line, close + 3, line[open + 1..close])
  }

  /** The lines llvm-nm -A -P prints for members of an archive, with any white space between the fields
      and anything after the type. */
  ghost predicate Shaped(line: string, entry: SymbolEntry, archive: string, gap: string, gap': string, rest: string) {
    && line == archive + "[" + entry.member + "]: " + (gap + (entry.symbol + (gap' + ([entry.kind] + rest))))
    && Lacks(archive, '[') && Lacks(entry.member, ']')
    && AllSpace(gap) && AllSpace(gap') && gap' != []
    && entry.symbol != [] && SpaceFree(entry.symbol)
    && Keep(entry.kind) && rest != [] && IsSpace(rest[0])
  }

  lemma SymbolOfShaped(line: string, from: nat, member: string, gap: string, symbol: string, gap': string, kind: char,
                       rest: string)
    requires from <= |line| && line[from..] == gap + (symbol + (gap' + ([kind] + rest)))
    requires AllSpace(gap) && AllSpace(gap') && gap' != [] && symbol != [] && SpaceFree(symbol)
    requires !IsSpace(kind) && rest != [] && IsSpace(rest[0])
    ensures SymbolOf(line, from, member) == if Keep(kind) then Some(SymbolEntry(symbol, member, kind)) else None
  {
    hide SpaceAt, NonSpaceAt, AllSpace, SpaceFree, IsSpace, Keep, SymbolOf;
    var start := from + |gap|;
    var end := start + |symbol|;
    GapThenWord(line, from, gap, symbol, gap' + ([kind] + rest), gap', [kind] + rest);
    GapThenKind(line, end, gap', kind, rest);
    SymbolOfFields(line, from, member, start, end, end + |gap'|);
  }

  lemma GapThenWord(line: string, from: nat, gap: string, symbol: string, late: string, gap': string, last: string)
    requires from <= |line| && line[from..] == gap + (symbol + late) && late == gap' + last
    requires AllSpace(gap) && AllSpace(gap') && gap' != [] && symbol != [] && SpaceFree(symbol)
    ensures var start := from + |gap|;
      var end := start + |symbol|;
      && end < |line| && NonSpaceAt(line, from) == start && SpaceAt(line, start) == end
      && line[start..end] == symbol && line[end..] == late
  {
    hide SpaceAt, NonSpaceAt, AllSpace, SpaceFree, IsSpace;
    FirstIsNotSpace(symbol, late);
    FirstIsSpace(gap', last);
    GapAt(line, from, gap, symbol + late);
    WordAt(line, from + |gap|, symbol, late);
  }

  lemma GapThenKind(line: string, from: nat, gap: string, kind: char, rest: string)
    requires from <= |line| && line[from..] == gap + ([kind] + rest)
    requires AllSpace(gap) && !IsSpace(kind) && rest != []
    ensures var at := from + |gap|;
      && at + 1 < |line| && NonSpaceAt(line, from) == at && line[at] == kind && line[at + 1] == rest[0]
  {
    hide NonSpaceAt, AllSpace, IsSpace, Keep;
    GapAt(line, from, gap, [kind] + rest);
    KindAt(line, from + |gap|, kind, rest);
  }

  lemma SymbolOfFields(line: string, from: nat, member: string, start: nat, end: nat, at: nat)
    requires from <= start <= end <= at && at + 1 < |line|
    requires NonSpaceAt(line, from) == start && SpaceAt(line, start) == end && NonSpaceAt(line, end) == at
    requires IsSpace(line[at + 1])
    ensures SymbolOf(line, from, member)
      == if Keep(line[at]) then Some(SymbolEntry(line[start..end], member, line[at])) else None
  {
    hide NonSpaceAt, SpaceAt, IsSpace, Keep;
  }

  lemma KindAt(line: string, at: nat, kind: char, rest: string)
    requires at < |line| && line[at..] == [kind] + rest && rest != []
    ensures at + 1 < |line| && line[at] == kind && line[at + 1] == rest[0]
  {
    assert line[at] == line[at..][0] && line[at + 1] == line[at..][1];
  }

  lemma KeptIsNotSpace(kind: char)
    requires Keep(kind)
    ensures !IsSpace(kind)
  {
  }

  lemma FirstIsNotSpace(s: string, rest: string)
    requires s != [] && SpaceFree(s)
    ensures !IsSpace((s + rest)[0])
  {
  }

  lemma FirstIsSpace(s: string, rest: string)
    requires s != [] && AllSpace(s)
    ensures IsSpace((s + rest)[0])
  {
  }

  lemma HeadShaped(line: string, archive: string, member: string, tail: string)
    requires line == archive + "[" + member + "]: " + tail
    requires Lacks(archive, '[') && Lacks(member, ']') && tail != []
    ensures var open, close := |archive|, |archive| + 1 + |member|;
      && ByteAt(line, '[', 0) == open < |line| && ByteAt(line, ']', open + 1) == close
      && close + 3 < |line| && line[close + 1] == ':' && line[close + 2] == ' '
      && line[open + 1..close] == member && line[close + 3..] == tail
  {
    hide ByteAt;
    var open := |archive|;
    var close := open + 1 + |member|;
    assert line[open] == '[' && forall j | 0 <= j < open :: line[j] == archive[j];
    ByteAtExact(line, '[', 0, open);
    assert line[open + 1..close] == member && line[close] == ']';
    assert forall j | open + 1 <= j < close :: line[j] == member[j - open - 1];
    ByteAtExact(line, ']', open + 1, close);
  }

  /** A shaped line gives its entry. */
  lemma ShapedReads(line: string, entry: SymbolEntry, archive: string, gap: string, gap': string, rest: string)
    requires Shaped(line, entry, archive, gap, gap', rest)
    ensures Parsed(line) == Some(entry)
  {
    hide ByteAt, SymbolOf, Lacks, AllSpace, SpaceFree, Keep;
    var tail := gap + (entry.symbol + (gap' + ([entry.kind] + rest)));
    HeadShaped(line, archive, entry.member, tail);
    var close := |archive| + 1 + |entry.member|;
    KeptIsNotSpace(entry.kind);
    SymbolOfShaped(line, close + 3, entry.member, gap, entry.symbol, gap', entry.kind, rest);
  }

  lemma ShapeOfSymbol(line: string, from: nat, member: string) returns (gap: string, gap': string, rest: string)
    requires from <= |line| && SymbolOf(line, from, member).Some?
    ensures var e := SymbolOf(line, from, member).value;
      && line[from..] == gap + (e.symbol + (gap' + ([e.kind] + rest)))
      && AllSpace(gap) && AllSpace(gap') && gap' != []
      && e.symbol != [] && SpaceFree(e.symbol)
      && Keep(e.kind) && rest != [] && IsSpace(rest[0])
  {
    hide SpaceAt, NonSpaceAt;
    var start := NonSpaceAt(line, from);
    var end := SpaceAt(line, start);
    var kind := NonSpaceAt(line, end);
    gap, gap', rest := line[from..start], line[end..kind], line[kind + 1..];
    assert line[from..] == gap + (line[start..end] + (gap' + ([line[kind]] + rest)));
  }

  lemma ShapeOfHead(line: string, open: nat, close: nat)
    requires open < close && close + 2 < |line|
    requires line[open] == '[' && line[close] == ']' && line[close + 1] == ':' && line[close + 2] == ' '
    ensures line == line[..open] + "[" + line[open + 1..close] + "]: " + line[close + 3..]
  {
    assert line[close..close + 3] == "]: ";
    assert line == line[..open] + line[open..open + 1] + line[open + 1..close] + line[close..close + 3] + line[close + 3..];
    assert line[open..open + 1] == "[";
  }

  /** The lines that give an entry are exactly those of that shape. */
  lemma ParsedExact(line: string, entry: SymbolEntry)
    ensures Parsed(line) == Some(entry)
      <==> exists archive, gap, gap', rest :: Shaped(line, entry, archive, gap, gap', rest)
  {
    hide Shaped, SymbolOf, ByteAt;
    if archive, gap, gap', rest :| Shaped(line, entry, archive, gap, gap', rest) {
      ShapedReads(line, entry, archive, gap, gap', rest);
    }
    if Parsed(line) == Some(entry) {
      var archive, gap, gap', rest := ShapeOfParsed(line);
    }
  }

  lemma SymbolOfMember(line: string, from: nat, member: string)
    requires from <= |line| && SymbolOf(line, from, member).Some?
    ensures SymbolOf(line, from, member).value.member == member
  {
  }

  lemma ShapeOfParsed(line: string) returns (archive: string, gap: string, gap': string, rest: string)
    requires Parsed(line).Some?
    ensures Shaped(line, Parsed(line).value, archive, gap, gap', rest)
  {
    hide SymbolOf, ByteAt, AllSpace, SpaceFree, Keep;
    var open := ByteAt(line, '[', 0);
    var close := ByteAt(line, ']', open + 1);
    archive := line[..open];
    ShapeOfHead(line, open, close);
    SymbolOfMember(line, close + 3, line[open + 1..close]);
    gap, gap', rest := ShapeOfSymbol(line, close + 3, line[open + 1..close]);
  }

  // ---- brackets in the path of the archive

  /** What follows the closing bracket and ": ", read on its own. */
  function Fields(fields: string, member: string): Option<SymbolEntry> {
    SymbolOf(fields, 0, member)
  }

  lemma {:induction false} NonSpaceShift(prefix: string, s: string, i: nat)
    requires i <= |s|
    ensures NonSpaceAt(prefix + s, |prefix| + i) == |prefix| + NonSpaceAt(s, i)
    decreases |s| - i
  {
    if i < |s| {
      assert (prefix + s)[|prefix| + i] == s[i];
      NonSpaceShift(prefix, s, i + 1);
    }
  }

  lemma {:induction false} SpaceShift(prefix: string, s: string, i: nat)
    requires i <= |s|
    ensures SpaceAt(prefix + s, |prefix| + i) == |prefix| + SpaceAt(s, i)
    decreases |s| - i
  {
    if i < |s| {
      assert (prefix + s)[|prefix| + i] == s[i];
      SpaceShift(prefix, s, i + 1);
    }
  }

  lemma FieldsShift(prefix: string, fields: string, member: string)
    ensures SymbolOf(prefix + fields, |prefix|, member) == Fields(fields, member)
  {
    hide NonSpaceAt, SpaceAt, Keep, IsSpace;
    var start := NonSpaceAt(fields, 0);
    var end := SpaceAt(fields, start);
    NonSpaceShift(prefix, fields, 0);
    SpaceShift(prefix, fields, start);
    NonSpaceShift(prefix, fields, end);
    assert (prefix + fields)[|prefix| + start..|prefix| + end] == fields[start..end];
    var kind := NonSpaceAt(fields, end);
    if kind + 1 < |fields| {
      assert (prefix + fields)[|prefix| + kind] == fields[kind];
      assert (prefix + fields)[|prefix| + kind + 1] == fields[kind + 1];
    }
  }

  /** The brackets the scan pairs up in head + "[" + middle + "]" + tail. */
  lemma PairedAt(head: string, middle: string, tail: string)
    requires Lacks(head, '[') && Lacks(middle, ']')
    ensures var line := head + "[" + middle + "]" + tail;
      && ByteAt(line, '[', 0) == |head| < |line|
      && ByteAt(line, ']', |head| + 1) == |head| + 1 + |middle| < |line|
      && line[|head| + 1..|head| + 1 + |middle|] == middle
      && line[|head| + 2 + |middle|..] == tail
  {
    hide ByteAt;
    var line := head + "[" + middle + "]" + tail;
    var open, close := |head|, |head| + 1 + |middle|;
    assert line[open] == '[' && forall j | 0 <= j < open :: line[j] == head[j];
    ByteAtExact(line, '[', 0, open);
    assert line[open + 1..close] == middle && line[close] == ']';
    assert forall j | open + 1 <= j < close :: line[j] == middle[j - open - 1];
    ByteAtExact(line, ']', open + 1, close);
  }

  /** A line is read from its first bracket pair, whatever the archive is called. */
  lemma PairedReads(head: string, middle: string, tail: string)
    requires Lacks(head, '[') && Lacks(middle, ']')
    ensures Parsed(head + "[" + middle + "]" + tail)
      == if ": " <= tail then Fields(tail[2..], middle) else None
  {
    hide ByteAt, SymbolOf;
    var line := head + "[" + middle + "]" + tail;
    var close := |head| + 1 + |middle|;
    PairedAt(head, middle, tail);
    if |tail| >= 2 {
      assert line[close + 1] == line[close + 1..][0] && line[close + 2] == line[close + 1..][1];
      assert tail[..2] == [tail[0], tail[1]];
      assert line[close + 1] == tail[0] && line[close + 2] == tail[1];
      assert line[..close + 3] + tail[2..] == line;
      FieldsShift(line[..close + 3], tail[2..], middle);
    }
  }

  /** The line llvm-nm prints for a member of an archive. */
  function NmText(archive: string, member: string, fields: string): string {
    archive + "[" + member + "]: " + fields
  }

  /** What follows the first bracket of the archive's path. */
  function Inside(archive: string): string
    requires !Lacks(archive, '[')
  {
    archive[ByteAt(archive, '[', 0) + 1..]
  }

  /** The path up to a closing bracket after that, and what follows it on the line. */
  function Enclosed(archive: string): string
    requires !Lacks(archive, '[') && !Lacks(Inside(archive), ']')
  {
    Inside(archive)[..ByteAt(Inside(archive), ']', 0)]
  }

  function After(archive: string, member: string, fields: string): string
    requires !Lacks(archive, '[') && !Lacks(Inside(archive), ']')
  {
    Inside(archive)[|Enclosed(archive)| + 1..] + "[" + member + "]: " + fields
  }

  lemma FirstBracket(archive: string) returns (head: string)
    requires !Lacks(archive, '[')
    ensures Lacks(head, '[') && archive == head + ['['] + Inside(archive)
  {
    hide ByteAt;
    head := archive[..ByteAt(archive, '[', 0)];
  }

  /** The member's name up to its first closing bracket, and what follows that bracket on the line. */
  function Cut(member: string): string
    requires !Lacks(member, ']')
  {
    member[..ByteAt(member, ']', 0)]
  }

  function Beyond(member: string, fields: string): string
    requires !Lacks(member, ']')
  {
    member[|Cut(member)| + 1..] + "]: " + fields
  }

  /** What is read once the first bracket is open, with some of the path inside it: the fields, unless the
      member's name holds a closing bracket; then the line is dropped unless a colon and a blank follow. */
  function ReadInside(inside: string, member: string, fields: string): Option<SymbolEntry> {
    if Lacks(member, ']') then Fields(fields, inside + member)
    else if ": " <= Beyond(member, fields) then Fields(Beyond(member, fields)[2..], inside + Cut(member))
    else None
  }

  lemma InsideReads(head: string, inside: string, member: string, fields: string)
    requires Lacks(head, '[') && Lacks(inside, ']')
    ensures Parsed(head + "[" + (inside + (member + ("]: " + fields)))) == ReadInside(inside, member, fields)
  {
    hide Parsed, Fields, ByteAt, Lacks;
    var line := head + "[" + (inside + (member + ("]: " + fields)));
    if Lacks(member, ']') {
      LacksBoth(inside, member);
      assert line == head + "[" + (inside + member) + "]" + (": " + fields);
      assert (": " + fields)[2..] == fields;
      PairedReads(head, inside + member, ": " + fields);
    } else {
      CutLacks(member);
      LacksBoth(inside, Cut(member));
      var rest := member[|Cut(member)| + 1..];
      assert member == Cut(member) + "]" + rest;
      assert line == head + "[" + (inside + Cut(member)) + "]" + (rest + "]: " + fields);
      PairedReads(head, inside + Cut(member), rest + "]: " + fields);
    }
  }

  lemma LacksBoth(a: string, b: string)
    requires Lacks(a, ']') && Lacks(b, ']')
    ensures Lacks(a + b, ']')
  {
  }

  lemma NoBracket()
    ensures Lacks("", ']') && Lacks("[", ']')
  {
  }

  lemma CutLacks(member: string)
    requires !Lacks(member, ']')
    ensures Lacks(Cut(member), ']') && |Cut(member)| < |member|
    ensures member == Cut(member) + "]" + member[|Cut(member)| + 1..]
  {
    hide ByteAt;
  }

  /** Without a bracket in the path of the archive, the member's name and the fields are read from its own
      bracket. */
  lemma PlainArchiveRead(archive: string, member: string, fields: string)
    requires Lacks(archive, '[')
    ensures Parsed(NmText(archive, member, fields)) == ReadInside("", member, fields)
  {
    hide Parsed, ReadInside;
    assert NmText(archive, member, fields) == archive + "[" + ("" + (member + ("]: " + fields)));
    InsideReads(archive, "", member, fields);
  }

  /** With an opening bracket that is not closed in the path, the name that is read starts inside the path. */
  lemma OpenArchiveMisnamed(archive: string, member: string, fields: string)
    requires !Lacks(archive, '[') && Lacks(Inside(archive), ']')
    ensures Parsed(NmText(archive, member, fields)) == ReadInside(Inside(archive) + "[", member, fields)
  {
    hide Parsed, ReadInside, Inside;
    var head := FirstBracket(archive);
    assert NmText(archive, member, fields) == head + "[" + (Inside(archive) + "[" + (member + ("]: " + fields)));
    LacksBoth(Inside(archive), "[");
    InsideReads(head, Inside(archive) + "[", member, fields);
  }

  /** With a bracket pair in the path the line is dropped, unless a colon and a blank follow the pair. */
  lemma BracketedArchiveDropped(archive: string, member: string, fields: string)
    requires !Lacks(archive, '[') && !Lacks(Inside(archive), ']')
    ensures Parsed(NmText(archive, member, fields))
      == if ": " <= After(archive, member, fields) then Fields(After(archive, member, fields)[2..], Enclosed(archive))
         else None
  {
    hide Parsed, Fields, ByteAt, Inside;
    var head := FirstBracket(archive);
    var inside, middle := Inside(archive), Enclosed(archive);
    var rest := inside[|middle| + 1..];
    assert inside == middle + "]" + rest;
    var late := "[" + member + "]: " + fields;
    Assoc(head + "[" + middle + "]", rest, late);
    assert archive == head + "[" + middle + "]" + rest;
    assert NmText(archive, member, fields) == archive + late;
    assert After(archive, member, fields) == rest + late;
    PairedReads(head, middle, After(archive, member, fields));
  }

  /** The entry of a line is recovered exactly when neither the path of its archive has an opening bracket nor
      the member's name a closing one, or a bracket pair in the path happens to be followed by the very same
      entry. */
  lemma RecoveredExact(archive: string, member: string, fields: string)
    requires Fields(fields, member).Some?
    ensures Parsed(NmText(archive, member, fields)) == Fields(fields, member)
      <==> ((Lacks(archive, '[') && Lacks(member, ']'))
            || (!Lacks(archive, '[') && !Lacks(Inside(archive), ']') && ": " <= After(archive, member, fields)
                && Fields(After(archive, member, fields)[2..], Enclosed(archive)) == Fields(fields, member)))
  {
    hide Parsed, Fields, Inside, Enclosed, After, Lacks, ReadInside;
    NoBracket();
    if Lacks(archive, '[') {
      PlainArchiveRead(archive, member, fields);
      ReadInsideExact("", member, fields);
    } else if Lacks(Inside(archive), ']') {
      OpenArchiveMisnamed(archive, member, fields);
      LacksBoth(Inside(archive), "[");
      ReadInsideExact(Inside(archive) + "[", member, fields);
    } else {
      BracketedArchiveDropped(archive, member, fields);
    }
  }

  /** From an open bracket the entry is recovered exactly when nothing stands before the member's name and that
      name has no closing bracket. */
  lemma ReadInsideExact(inside: string, member: string, fields: string)
    requires Lacks(inside, ']') && Fields(fields, member).Some?
    ensures ReadInside(inside, member, fields) == Fields(fields, member) <==> inside == "" && Lacks(member, ']')
  {
    hide Fields, Beyond;
    if Lacks(member, ']') {
      if inside == "" {
        assert inside + member == member;
      } else {
        NamesDiffer(fields, inside + member, fields, member);
      }
    } else {
      CutLacks(member);
      LacksBoth(inside, Cut(member));
      NamesDiffer(Beyond(member, fields)[if ": " <= Beyond(member, fields) then 2 else 0..], inside + Cut(member),
                  fields, member);
    }
  }

  /** Entries read for different names differ. */
  lemma NamesDiffer(fields: string, name: string, fields': string, name': string)
    requires name != name' && Fields(fields', name').Some?
    ensures Fields(fields, name) != Fields(fields', name')
  {
    SymbolOfMember(fields', 0, name');
    if Fields(fields, name).Some? {
      SymbolOfMember(fields, 0, name);
    }
  }

  /** `lib.a[x[0].o]: sym T 0` is dropped, for the bracket in the member's own name. */
  lemma MemberExample()
    ensures Lacks("lib.a", '[') && Fields("sym T 0", "x[0].o") == Some(SymbolEntry("sym", "x[0].o", 'T'))
    ensures Parsed(NmText("lib.a", "x[0].o", "sym T 0")) == None
  {
    hide Parsed, Fields, ReadInside;
    var member := "x[0].o";
    SymbolExample(member);
    PlainArchiveRead("lib.a", member, "sym T 0");
    ByteAtExact(member, ']', 0, 3);
    MemberDropped();
  }

  lemma MemberDropped()
    ensures ReadInside("", "x[0].o", "sym T 0") == None
  {
    hide Fields, ByteAt;
    var member := "x[0].o";
    assert member[3] == ']';
    ByteAtExact(member, ']', 0, 3);
    assert Beyond(member, "sym T 0")[0] == member[4] == '.';
  }

  /** `a[1].a[foo.o]: sym T 0` is dropped. */
  lemma DroppedExample()
    ensures Parsed(NmText("a[1].a", "foo.o", "sym T 0")) == None
  {
    hide Parsed, Fields;
    var late := "[" + "foo.o" + "]: " + "sym T 0";
    var tail := ".a" + late;
    assert "a[1].a" == "a" + "[" + "1" + "]" + ".a";
    assert NmText("a[1].a", "foo.o", "sym T 0") == "a[1].a" + late;
    Assoc("a" + "[" + "1" + "]", ".a", late);
    assert tail[0] == '.';
    PairedReads("a", "1", tail);
  }

  /** `a[b.a[foo.o]: sym T 0` is kept for a member `b.a[foo.o`. */
  lemma MisnamedExample()
    ensures Parsed(NmText("a[b.a", "foo.o", "sym T 0")) == Some(SymbolEntry("sym", "b.a" + "[" + "foo.o", 'T'))
  {
    hide Parsed, Fields;
    var middle := "b.a" + "[" + "foo.o";
    var late := "[" + "foo.o" + "]: " + "sym T 0";
    assert "a[b.a" == "a" + "[" + "b.a";
    assert NmText("a[b.a", "foo.o", "sym T 0") == "a[b.a" + late;
    assert "a" + "[" + "b.a" + late == "a" + "[" + middle + "]" + (": " + "sym T 0");
    assert (": " + "sym T 0")[2..] == "sym T 0";
    PairedReads("a", middle, ": " + "sym T 0");
    SymbolExample(middle);
  }

  lemma SymbolExample(member: string)
    ensures Fields("sym T 0", member) == Some(SymbolEntry("sym", member, 'T'))
  {
    var fields := "sym T 0";
    assert fields[0..] == "" + ("sym" + (" " + (['T'] + " 0")));
    SymbolOfShaped(fields, 0, member, "", "sym", " ", 'T', " 0");
  }

  class SymbolList {
    var entries: array<SymbolEntry>
    var length: nat
    ghost var list: seq<SymbolEntry>

    ghost predicate Valid()
      reads this, entries
    {
      |list| == length <= entries.Length && entries[..length] == list
    }

    constructor ()
      ensures Valid() && list == [] && fresh(entries)
    {
      entries := new SymbolEntry[0];
      length, list := 0, [];
    }

    method Grow()
      requires Valid() && length == entries.Length
      modifies this`entries
      ensures Valid() && length < entries.Length && fresh(entries)
    {
      var grown := new SymbolEntry[if entries.Length == 0 then 64 else entries.Length * 2](_ => SymbolEntry("", "", ' '));
      forall i | 0 <= i < length { grown[i] := entries[i]; }
      assert grown[..length] == entries[..length];
      entries := grown;
    }

    /** add_symbol. */
    method Add(entry: SymbolEntry)
      requires Valid()
      modifies this, entries
      ensures Valid() && (entries == old(entries) || fresh(entries))
      ensures list == old(list) + [entry]
    {
      if length == entries.Length {
        Grow();
      }
      entries[length] := entry;
      length := length + 1;
      list := list + [entry];
    }

    /** parse_nm_line. */
    method ParseNmLine(line: string)
      requires Valid()
      modifies this, entries
      ensures Valid() && (entries == old(entries) || fresh(entries))
      ensures list == old(list) + Kept([line])
    {
      hide Parsed, Valid, Kept;
      KeptOne(line);
      var entry := ReadNmLine(line);
      if entry.Some? {
        Add(entry.value);
      }
    }
  }

  lemma KeptOne(line: string)
    ensures Kept([line]) == match Parsed(line) case None => [] case Some(e) => [e]
  {
    hide Parsed;
  }

  /** The fields before the symbol. */
  method ReadNmLine(line: string) returns (entry: Option<SymbolEntry>)
    ensures entry == Parsed(line)
  {
    hide ByteAt, SymbolOf;
    var open := ByteAt(line, '[', 0);
    if open == |line| {
      return None;
    }
    var close := ByteAt(line, ']', open + 1);
    if close + 2 >= |line| || line[close + 1] != ':' || line[close + 2] != ' ' {
      return None;
    }
    entry := ReadSymbol(line, close + 3, line[open + 1..close]);
  }

  /** The symbol and its type. */
  method ReadSymbol(line: string, from: nat, member: string) returns (entry: Option<SymbolEntry>)
    requires from <= |line|
    ensures entry == SymbolOf(line, from, member)
  {
    hide SpaceAt, NonSpaceAt, Keep;
    var start := SkipSpaces(line, from);
    if start == |line| {
      NothingAfter(line);
      return None;
    }
    var end := SkipWord(line, start);
    var kind := SkipSpaces(line, end);
    if kind == |line| || kind + 1 == |line| || !IsSpace(line[kind + 1]) {
      return None;
    }
    if !Keep(line[kind]) {
      return None;
    }
    entry := Some(SymbolEntry(line[start..end], member, line[kind]));
  }

  lemma NothingAfter(line: string)
    ensures SpaceAt(line, |line|) == NonSpaceAt(line, |line|) == |line|
  {
  }

  // ---- lines

  /** The pieces between newlines, the one after the last newline included. */
  function Segments(s: string): seq<string> {
    Split(s, '\n')
  }

  function Joined(lines: seq<string>): string {
    Weave(lines, "\n")
  }

  /** Splitting is the only way to undo joining with newlines. */
  lemma {:induction false} SegmentsJoin(s: string)
    ensures Segments(s) != [] && Joined(Segments(s)) == s
    ensures forall line | line in Segments(s) :: Lacks(line, '\n')
    decreases |s|
  {
    hide ByteAt;
    var i := ByteAt(s, '\n', 0);
    if i < |s| {
      SegmentsJoin(s[i + 1..]);
      assert Segments(s)[1..] == Segments(s[i + 1..]);
      assert s == s[..i] + "\n" + s[i + 1..];
    }
  }

  lemma {:induction false} JoinedSplits(lines: seq<string>)
    requires lines != [] && forall line | line in lines :: Lacks(line, '\n')
    ensures Segments(Joined(lines)) == lines
  {
    hide Segments, Joined;
    assert lines[0] in lines;
    if |lines| == 1 {
      SegmentsStep(lines[0], 0, |lines[0]|);
      AllSegments(lines[0]);
      JoinedOne(lines);
    } else {
      JoinedSplits(lines[1..]);
      JoinedStep(lines);
      SegmentsApart(lines[0], Joined(lines[1..]));
      assert lines == [lines[0]] + lines[1..];
    }
  }

  lemma JoinedOne(lines: seq<string>)
    requires |lines| == 1
    ensures Joined(lines) == lines[0] && lines == [lines[0]]
    ensures lines[0][0..|lines[0]|] == lines[0]
  {
  }

  lemma JoinedStep(lines: seq<string>)
    requires |lines| > 1
    ensures Joined(lines) == lines[0] + ("\n" + Joined(lines[1..]))
  {
  }

  lemma SegmentsApart(head: string, rest: string)
    requires Lacks(head, '\n')
    ensures Segments(head + ("\n" + rest)) == [head] + Segments(rest)
  {
    SplitApart(head, rest, '\n');
  }

  /** The entries kept from a list of lines. */
  function Kept(lines: seq<string>): seq<SymbolEntry> {
    if lines == [] then []
    else (match Parsed(lines[0]) case None => [] case Some(e) => [e]) + Kept(lines[1..])
  }

  lemma KeptStep(line: string, rest: seq<string>)
    ensures Kept([line] + rest) == Kept([line]) + Kept(rest)
  {
    hide Parsed;
    KeptOne(line);
    assert ([line] + rest)[1..] == rest;
  }

  /** The line-splitting loop of main, whose last round is at the end of the data. */
  method ParseLines(data: string, list: SymbolList)
    requires list.Valid() && list.list == []
    modifies list, list.entries
    ensures list.Valid() && (list.entries == old(list.entries) || fresh(list.entries))
    ensures list.list == Kept(Segments(data))
  {
    hide Parsed, SymbolList.Valid, Kept, SegmentsFrom, Segments;
    var lineStart, i := 0, 0;
    AllSegments(data);
    while i <= |data|
      invariant 0 <= lineStart <= i <= |data| + 1 && (i == |data| + 1 ==> lineStart > |data|)
      invariant forall k | lineStart <= k < i :: data[k] != '\n'
      invariant list.Valid() && (list.entries == old(list.entries) || fresh(list.entries))
      invariant list.list + Kept(SegmentsFrom(data, lineStart)) == Kept(Segments(data))
    {
      if i == |data| || data[i] == '\n' {
        ghost var before := list.list;
        var line := data[lineStart..i];
        SegmentsStep(data, lineStart, i);
        KeptStep(line, SegmentsFrom(data, i + 1));
        Assoc(before, Kept([line]), Kept(SegmentsFrom(data, i + 1)));
        list.ParseNmLine(line);
        lineStart := i + 1;
      }
      i := i + 1;
    }
    NoSegments(data, lineStart, list.list);
  }

  lemma AllSegments(s: string)
    ensures SegmentsFrom(s, 0) == Segments(s)
    ensures [] + Kept(Segments(s)) == Kept(Segments(s))
  {
    assert s[0..] == s;
  }

  lemma NoSegments(s: string, start: nat, list: seq<SymbolEntry>)
    requires start > |s|
    ensures list + Kept(SegmentsFrom(s, start)) == list
  {
  }

  function SegmentsFrom(s: string, start: nat): seq<string> {
    if start > |s| then [] else Segments(s[start..])
  }

  lemma SegmentsStep(s: string, start: nat, i: nat)
    requires start <= i <= |s| && (forall k | start <= k < i :: s[k] != '\n') && (i == |s| || s[i] == '\n')
    ensures SegmentsFrom(s, start) == [s[start..i]] + SegmentsFrom(s, i + 1)
  {
    hide ByteAt;
    var t := s[start..];
    if i == |s| {
      assert ByteAt(t, '\n', 0) == |t|;
      assert t == s[start..i] && [t] + [] == [t];
    } else {
      ByteAtExact(t, '\n', 0, i - start);
      assert t[..i - start] == s[start..i] && t[i - start + 1..] == s[i + 1..];
    }
  }

  // ---- order

  /** memcmp on the first n bytes. */
  function Memcmp(a: string, b: string, n: nat): int
    requires n <= |a| && n <= |b|
  {
    if n == 0 then 0
    else if a[0] != b[0] then a[0] as int - b[0] as int
    else Memcmp(a[1..], b[1..], n - 1)
  }

  /** compare_symbol_entries: the common part first, then the length. */
  function CompareSymbols(a: string, b: string): int {
    var cmp := Memcmp(a, b, if |a| < |b| then |a| else |b|);
    if cmp != 0 then cmp
    else if |a| < |b| then -1
    else if |a| != |b| then 1
    else 0
  }

  /** Comparing the common part and then the lengths is the byte order of whole strings. */
  lemma {:induction false} CompareExact(a: string, b: string)
    ensures CompareSymbols(a, b) < 0 <==> Less(a, b)
    ensures CompareSymbols(a, b) == 0 <==> a == b
  {
    if a != [] && b != [] && a[0] == b[0] {
      CompareExact(a[1..], b[1..]);
      assert a == [a[0]] + a[1..] && b == [b[0]] + b[1..];
    }
  }

  predicate SymbolAtMost(a: SymbolEntry, b: SymbolEntry) {
    CompareSymbols(a.symbol, b.symbol) <= 0
  }

  lemma SymbolOrderTotal()
    ensures TotalPreorder(SymbolAtMost)
    ensures forall a, b :: SymbolAtMost(a, b) && SymbolAtMost(b, a) ==> a.symbol == b.symbol
  {
    hide CompareSymbols, Less;
    forall a, b
      ensures SymbolAtMost(a, b) || SymbolAtMost(b, a)
      ensures SymbolAtMost(a, b) && SymbolAtMost(b, a) ==> a.symbol == b.symbol
    {
      AtMostCompares(a, b);
      AtMostCompares(b, a);
      AtMostTotalOrder(a.symbol, b.symbol, b.symbol);
    }
    forall a, b, c | SymbolAtMost(a, b) && SymbolAtMost(b, c) ensures SymbolAtMost(a, c) {
      AtMostCompares(a, b);
      AtMostCompares(b, c);
      AtMostCompares(a, c);
      AtMostTotalOrder(a.symbol, b.symbol, c.symbol);
    }
  }

  lemma AtMostCompares(a: SymbolEntry, b: SymbolEntry)
    ensures SymbolAtMost(a, b) <==> AtMost(a.symbol, b.symbol)
  {
    hide CompareSymbols, Less;
    CompareExact(a.symbol, b.symbol);
  }

  // ---- duplicates

  /** The quadratic definition: two entries, at different places, have the symbol. */
  ghost predicate Duplicated(s: seq<SymbolEntry>, symbol: string) {
    exists i, j | 0 <= i < j < |s| :: s[i].symbol == symbol && s[j].symbol == symbol
  }

  ghost predicate SymbolsDistinct(s: seq<SymbolEntry>) {
    forall symbol :: !Duplicated(s, symbol)
  }

  /** How many entries at the front share the first one's symbol, counted from j on. */
  function RunEnd(s: seq<SymbolEntry>, j: nat): (r: nat)
    requires 1 <= j <= |s|
    ensures j <= r <= |s|
    ensures forall k | j <= k < r :: s[k].symbol == s[0].symbol
    ensures r < |s| ==> s[r].symbol != s[0].symbol
    decreases |s| - j
  {
    if j < |s| && s[j].symbol == s[0].symbol then RunEnd(s, j + 1) else j
  }

  /** The entries the scan reports, in order: every run of two or more. */
  function Reported(s: seq<SymbolEntry>): seq<SymbolEntry>
    decreases |s|
  {
    if s == [] then []
    else
      var j := RunEnd(s, 1);
      (if j >= 2 then s[..j] else []) + Reported(s[j..])
  }

  /** What one entry of the report is printed as. */
  function Line(e: SymbolEntry): string {
    e.member + (": " + ([e.kind, ' '] + (e.symbol + "\n")))
  }

  function ReportText(s: seq<SymbolEntry>): string {
    if s == [] then "" else Line(s[0]) + ReportText(s[1..])
  }

  lemma ReportEmpty(s: seq<SymbolEntry>)
    ensures ReportText(s) == "" <==> s == []
  {
  }

  /** In a sorted list, equal symbols stand together: none is left after its run. */
  lemma RunIsWhole(s: seq<SymbolEntry>)
    requires s != [] && Sorted(SymbolAtMost, s)
    ensures var j := RunEnd(s, 1);
      && (forall e | e in s[..j] :: e.symbol == s[0].symbol)
      && (forall e | e in s[j..] :: e.symbol != s[0].symbol)
      && Sorted(SymbolAtMost, s[j..])
  {
    hide SymbolAtMost;
    SymbolOrderTotal();
    var j := RunEnd(s, 1);
    assert forall e | e in s[..j] :: e.symbol == s[0].symbol;
    forall k | j <= k < |s| ensures s[k].symbol != s[0].symbol {
      assert SymbolAtMost(s[0], s[j]);
      if k > j && s[k].symbol == s[0].symbol {
        assert SymbolAtMost(s[j], s[k]);
        SameSymbol(s[j], s[k], s[0]);
      }
    }
  }

  lemma SameSymbol(a: SymbolEntry, b: SymbolEntry, c: SymbolEntry)
    requires b.symbol == c.symbol
    ensures SymbolAtMost(a, b) <==> SymbolAtMost(a, c)
  {
  }

  /** On a sorted list the scan reports every entry whose symbol occurs twice, as often as it occurs. */
  lemma {:induction false} ReportedCounts(s: seq<SymbolEntry>, e: SymbolEntry)
    requires Sorted(SymbolAtMost, s)
    ensures multiset(Reported(s))[e] == if Duplicated(s, e.symbol) then multiset(s)[e] else 0
    decreases |s|
  {
    hide SymbolAtMost, Sorted, Duplicated, RunEnd;
    if s == [] {
      EmptyHasNoDuplicates(e.symbol);
    } else {
      var j := RunEnd(s, 1);
      RunIsWhole(s);
      ReportedCounts(s[j..], e);
      DuplicatedApart(s, j, e.symbol);
      CountsApart(s, j, e);
      CountsApart(Reported(s), if j >= 2 then j else 0, e);
      if e.symbol == s[0].symbol {
        NotIn(s[j..], e);
        if j == 1 {
          NotDuplicated(s[j..], e.symbol);
        }
      } else {
        NotIn(s[..j], e);
      }
    }
  }

  lemma EmptyHasNoDuplicates(symbol: string)
    ensures !Duplicated([], symbol)
  {
  }

  lemma NotIn(s: seq<SymbolEntry>, e: SymbolEntry)
    requires forall x | x in s :: x.symbol != e.symbol
    ensures multiset(s)[e] == 0
  {
    assert e !in s;
  }

  lemma NotDuplicated(s: seq<SymbolEntry>, symbol: string)
    requires forall x | x in s :: x.symbol != symbol
    ensures !Duplicated(s, symbol)
  {
  }

  lemma CountsApart(s: seq<SymbolEntry>, j: nat, e: SymbolEntry)
    requires j <= |s|
    ensures multiset(s)[e] == multiset(s[..j])[e] + multiset(s[j..])[e]
  {
    assert s == s[..j] + s[j..];
  }

  /** A symbol occurs twice when it is that of a run of two, or occurs twice after the first run. */
  lemma DuplicatedApart(s: seq<SymbolEntry>, j: nat, symbol: string)
    requires 1 <= j <= |s|
    requires forall e | e in s[..j] :: e.symbol == s[0].symbol
    requires forall e | e in s[j..] :: e.symbol != s[0].symbol
    ensures Duplicated(s, symbol) <==> if symbol == s[0].symbol then j >= 2 else Duplicated(s[j..], symbol)
  {
    assert forall k | 0 <= k < j :: s[k] == s[..j][k];
    assert forall k | j <= k < |s| :: s[k] == s[j..][k - j];
    if symbol == s[0].symbol {
      if j >= 2 {
        assert s[1].symbol == symbol;
      }
    } else {
      if a, b :| 0 <= a < b < |s| && s[a].symbol == symbol && s[b].symbol == symbol {
        assert s[j..][a - j].symbol == symbol && s[j..][b - j].symbol == symbol;
      }
      if a, b :| 0 <= a < b < |s| - j && s[j..][a].symbol == symbol && s[j..][b].symbol == symbol {
        assert s[a + j].symbol == symbol && s[b + j].symbol == symbol;
      }
    }
  }

  /** Rearranging the entries neither makes nor loses a duplicate. */
  lemma {:induction false} DuplicatedPermutation(s: seq<SymbolEntry>, t: seq<SymbolEntry>, symbol: string)
    requires multiset(s) == multiset(t) && Duplicated(s, symbol)
    ensures Duplicated(t, symbol)
    decreases |s|
  {
    var i, j :| 0 <= i < j < |s| && s[i].symbol == symbol && s[j].symbol == symbol;
    var p := MatchHead(s, t);
    var t' := t[..p] + t[p + 1..];
    if i == 0 {
      assert s[1..][j - 1] == s[j];
      MovedAlong(s[1..], t', j - 1);
      Reinserted(t, p, symbol);
    } else {
      assert s[1..][i - 1] == s[i] && s[1..][j - 1] == s[j];
      DuplicatedPermutation(s[1..], t', symbol);
      Reinserted(t, p, symbol);
    }
  }

  lemma MovedAlong(s: seq<SymbolEntry>, t: seq<SymbolEntry>, i: nat)
    requires multiset(s) == multiset(t) && i < |s|
    ensures Occurring(t, s[i].symbol)
  {
    assert s[i] in multiset(s);
    assert s[i] in multiset(t);
  }

  ghost predicate Occurring(s: seq<SymbolEntry>, symbol: string) {
    exists i | 0 <= i < |s| :: s[i].symbol == symbol
  }

  /** Putting back the entry taken out at p. */
  lemma Reinserted(t: seq<SymbolEntry>, p: nat, symbol: string)
    requires p < |t|
    ensures Duplicated(t[..p] + t[p + 1..], symbol) ==> Duplicated(t, symbol)
    ensures Occurring(t[..p] + t[p + 1..], symbol) && t[p].symbol == symbol ==> Duplicated(t, symbol)
  {
    var t' := t[..p] + t[p + 1..];
    if a, b :| 0 <= a < b < |t'| && t'[a].symbol == symbol && t'[b].symbol == symbol {
      var a', b' := if a < p then a else a + 1, if b < p then b else b + 1;
      assert t[a'] == t'[a] && t[b'] == t'[b];
    }
    if a :| 0 <= a < |t'| && t'[a].symbol == symbol {
      var a' := if a < p then a else a + 1;
      assert t[a'] == t'[a];
    }
  }

  /** However qsort breaks ties, the report holds exactly the kept entries whose symbol occurs in two or more
      of them, each as often as it was kept. */
  lemma ReportExact(kept: seq<SymbolEntry>, order: seq<SymbolEntry>, e: SymbolEntry)
    requires SortOf(SymbolAtMost, kept, order)
    ensures multiset(Reported(order))[e] == if Duplicated(kept, e.symbol) then multiset(kept)[e] else 0
  {
    hide Sorted, SymbolAtMost, Duplicated, Reported;
    ReportedCounts(order, e);
    if Duplicated(kept, e.symbol) {
      DuplicatedPermutation(kept, order, e.symbol);
    }
    if Duplicated(order, e.symbol) {
      DuplicatedPermutation(order, kept, e.symbol);
    }
  }

  /** The library passes exactly when all kept symbols differ. */
  lemma StampExact(kept: seq<SymbolEntry>, order: seq<SymbolEntry>)
    requires SortOf(SymbolAtMost, kept, order)
    ensures ReportText(Reported(order)) == "" <==> SymbolsDistinct(kept)
  {
    hide Sorted, SymbolAtMost, Reported, ReportText;
    var reported := Reported(order);
    ReportEmpty(reported);
    if symbol :| Duplicated(kept, symbol) {
      var i, j :| 0 <= i < j < |kept| && kept[i].symbol == symbol && kept[j].symbol == symbol;
      ReportExact(kept, order, kept[i]);
      assert kept[i] in multiset(kept);
      assert kept[i] in multiset(reported);
    }
    if reported != [] {
      ReportExact(kept, order, reported[0]);
      assert reported[0] in multiset(reported);
      assert Duplicated(kept, reported[0].symbol);
    }
  }

  /** The report is printed in symbol order. */
  lemma {:induction false} ReportSorted(s: seq<SymbolEntry>)
    requires Sorted(SymbolAtMost, s)
    ensures Sorted(SymbolAtMost, Reported(s))
    decreases |s|
  {
    hide SymbolAtMost, RunEnd;
    if s != [] {
      var j := RunEnd(s, 1);
      var rest := Reported(s[j..]);
      ReportSorted(s[j..]);
      forall i, k | 0 <= i < j && 0 <= k < |rest| ensures SymbolAtMost(s[i], rest[k]) {
        ReportedCounts(s[j..], rest[k]);
        assert rest[k] in multiset(rest);
        assert rest[k] in multiset(s[j..]);
      }
    }
  }

  // ---- the scan and the whole check

  lemma RunEndFrom(s: seq<SymbolEntry>, i: nat, j: nat)
    requires i < j <= |s|
    ensures j - i <= |s[i..]|
    ensures j < |s| && s[j].symbol == s[i].symbol ==> RunEnd(s[i..], j - i) == RunEnd(s[i..], j + 1 - i)
    ensures !(j < |s| && s[j].symbol == s[i].symbol) ==> RunEnd(s[i..], j - i) == j - i
  {
  }

  method FindRunEnd(s: seq<SymbolEntry>, i: nat) returns (j: nat)
    requires i < |s|
    ensures i < j <= |s| && j - i == RunEnd(s[i..], 1)
  {
    hide RunEnd;
    j := i + 1;
    while j < |s| && s[i].symbol == s[j].symbol
      invariant i < j <= |s|
      invariant RunEnd(s[i..], j - i) == RunEnd(s[i..], 1)
    {
      RunEndFrom(s, i, j);
      j := j + 1;
    }
    RunEndFrom(s, i, j);
  }

  lemma ReportStep(e: SymbolEntry, rest: seq<SymbolEntry>)
    ensures ReportText([e] + rest) == Line(e) + ReportText(rest)
  {
    hide Line;
    assert ([e] + rest)[1..] == rest;
  }

  lemma {:induction false} ReportConcat(a: seq<SymbolEntry>, b: seq<SymbolEntry>)
    ensures ReportText(a + b) == ReportText(a) + ReportText(b)
  {
    hide Line, ReportText;
    if a == [] {
      assert a + b == b;
      ReportEmpty([]);
      assert "" + ReportText(b) == ReportText(b);
    } else {
      assert a + b == [a[0]] + (a[1..] + b) && a == [a[0]] + a[1..];
      ReportStep(a[0], a[1..] + b);
      ReportStep(a[0], a[1..]);
      ReportConcat(a[1..], b);
      Assoc(Line(a[0]), ReportText(a[1..]), ReportText(b));
    }
  }

  method AppendEntry(e: SymbolEntry, output: CiVfs.TextBuffer)
    requires output.Valid()
    modifies output, output.data
    ensures output.Valid() && (output.data == old(output.data) || fresh(output.data))
    ensures output.text == old(output.text) + Line(e)
  {
    hide Line;
    ghost var before := output.text;
    output.Append(e.member);
    output.Append(": ");
    output.Append([e.kind, ' ']);
    output.Append(e.symbol);
    output.Append("\n");
    LineAppended(before, e);
  }

  lemma LineAppended(text: string, e: SymbolEntry)
    ensures text + e.member + ": " + [e.kind, ' '] + e.symbol + "\n" == text + Line(e)
  {
    var newline := "\n";
    var symbol := e.symbol + newline;
    var kind := [e.kind, ' '] + symbol;
    Assoc(text, e.member, ": " + kind);
    Assoc(text + e.member, ": ", kind);
    Assoc(text + e.member + ": ", [e.kind, ' '], symbol);
    Assoc(text + e.member + ": " + [e.kind, ' '], e.symbol, newline);
  }

  method AppendRun(s: seq<SymbolEntry>, i: nat, j: nat, output: CiVfs.TextBuffer)
    requires i <= j <= |s| && output.Valid()
    modifies output, output.data
    ensures output.Valid() && (output.data == old(output.data) || fresh(output.data))
    ensures output.text == old(output.text) + ReportText(s[i..j])
  {
    hide Line, ReportText;
    ghost var before := output.text;
    var k := i;
    ReportEmpty([]);
    assert s[i..i] == [] && before + "" == before;
    while k < j
      invariant i <= k <= j
      invariant output.Valid() && (output.data == old(output.data) || fresh(output.data))
      invariant output.text == before + ReportText(s[i..k])
    {
      OneLine(s, i, k);
      AppendEntry(s[k], output);
      Assoc(before, ReportText(s[i..k]), Line(s[k]));
      k := k + 1;
    }
  }

  lemma OneLine(s: seq<SymbolEntry>, i: nat, k: nat)
    requires i <= k < |s|
    ensures ReportText(s[i..k + 1]) == ReportText(s[i..k]) + Line(s[k])
  {
    hide Line;
    assert s[i..k + 1] == s[i..k] + [s[k]];
    ReportConcat(s[i..k], [s[k]]);
    assert Line(s[k]) + "" == Line(s[k]);
  }

  /** The duplicate-grouping loops of main. */
  method ReportDuplicates(s: seq<SymbolEntry>, output: CiVfs.TextBuffer)
    requires output.Valid()
    modifies output, output.data
    ensures output.Valid() && (output.data == old(output.data) || fresh(output.data))
    ensures output.text == old(output.text) + ReportText(Reported(s))
  {
    hide Line, ReportText, RunEnd, Reported;
    ghost var goal := output.text + ReportText(Reported(s));
    var i := 0;
    assert s[0..] == s;
    while i < |s|
      invariant 0 <= i <= |s|
      invariant output.Valid() && (output.data == old(output.data) || fresh(output.data))
      invariant output.text + ReportText(Reported(s[i..])) == goal
    {
      ghost var now := output.text;
      var j := FindRunEnd(s, i);
      ReportedStep(now, s, i, j);
      if j - i >= 2 {
        AppendRun(s, i, j, output);
      }
      i := j;
    }
    NothingReported(s[i..]);
    assert output.text + "" == output.text;
  }

  lemma NothingReported(s: seq<SymbolEntry>)
    requires s == []
    ensures ReportText(Reported(s)) == ""
  {
  }

  lemma ReportedStep(text: string, s: seq<SymbolEntry>, i: nat, j: nat)
    requires i < j <= |s| && j - i == RunEnd(s[i..], 1)
    ensures text + ReportText(Reported(s[i..]))
      == text + (if j - i >= 2 then ReportText(s[i..j]) else "") + ReportText(Reported(s[j..]))
  {
    hide ReportText, RunEnd;
    var t := s[i..];
    assert t[..j - i] == s[i..j] && t[j - i..] == s[j..];
    if j - i >= 2 {
      ReportConcat(s[i..j], Reported(s[j..]));
      Assoc(text, ReportText(s[i..j]), ReportText(Reported(s[j..])));
    } else {
      assert [] + Reported(s[j..]) == Reported(s[j..]);
      assert text + "" == text;
    }
  }

  const CHUNK := 4096

  /** read_file: whole chunks until one comes up short. */
  method ReadFile(file: string) returns (buffer: CiVfs.TextBuffer)
    ensures buffer.Valid() && fresh(buffer) && fresh(buffer.data) && buffer.text == file
  {
    buffer := new CiVfs.TextBuffer();
    var position := 0;
    while true
      invariant 0 <= position <= |file|
      invariant buffer.Valid() && fresh(buffer) && fresh(buffer.data)
      invariant buffer.text == file[..position]
      decreases |file| - position
    {
      var n := if |file| - position < CHUNK then |file| - position else CHUNK;
      assert file[..position] + file[position..position + n] == file[..position + n];
      if n != 0 {
        buffer.Append(file[position..position + n]);
      }
      position := position + n;
      if n != CHUNK {
        assert file[..|file|] == file;
        return;
      }
    }
  }

  datatype Verdict = Stamped | Rejected(report: string)

  /** The validator on the output of llvm-nm.  order is the order qsort happened to choose. */
  method Validate(nmFile: string) returns (verdict: Verdict, ghost order: seq<SymbolEntry>)
    ensures SortOf(SymbolAtMost, Kept(Segments(nmFile)), order)
    ensures verdict.Stamped? <==> SymbolsDistinct(Kept(Segments(nmFile)))
    ensures verdict.Rejected? ==> verdict.report == ReportText(Reported(order))
  {
    hide Kept, Segments, SortOf, SymbolsDistinct, Reported, ReportText;
    var nmOutput := ReadFile(nmFile);
    var list := new SymbolList();
    assert nmOutput.data[..nmOutput.length] == nmFile;
    ParseLines(nmOutput.data[..nmOutput.length], list);
    SymbolOrderTotal();
    Qsort(list.entries, list.length, SymbolAtMost);
    var entries := list.entries[..list.length];
    order := entries;
    var dupBlock := new CiVfs.TextBuffer();
    ReportDuplicates(entries, dupBlock);
    assert "" + ReportText(Reported(order)) == ReportText(Reported(order));
    StampExact(Kept(Segments(nmFile)), order);
    if dupBlock.length == 0 {
      return Stamped, order;
    }
    assert dupBlock.data[..dupBlock.length] == dupBlock.text;
    verdict := Rejected(dupBlock.data[..dupBlock.length]);
  }
}
