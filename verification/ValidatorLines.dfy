/** What the static library validator keeps and reports, said in the characters of its input and output. */
module ValidatorLines {
  import opened CText
  import opened Results
  import opened Sorting
  import opened Substitution
  import opened StaticLibrary

  // ---- the types that are kept

  lemma KeptTable(kind: char)
    ensures Keep(kind) <==> kind in "ABDEFGHIJKLMNOPQRSTXYZ"
  {
    hide IsUpper;
    CapitalCases(kind);
    KeptCases(kind);
  }

  lemma KeptCases(kind: char)
    ensures kind in "ABDEFGHIJKLMNOPQRSTXYZ" <==>
      || kind == 'A' || kind == 'B' || kind == 'D' || kind == 'E' || kind == 'F' || kind == 'G' || kind == 'H'
      || kind == 'I' || kind == 'J' || kind == 'K' || kind == 'L' || kind == 'M' || kind == 'N' || kind == 'O'
      || kind == 'P' || kind == 'Q' || kind == 'R' || kind == 'S' || kind == 'T' || kind == 'X' || kind == 'Y'
      || kind == 'Z'
  {
    assert "ABDEFGHIJKLMNOPQRSTXYZ" == "ABDEFGHI" + "JKLMNOPQ" + "RSTXYZ";
  }

  /** A line for a symbol, whatever its type: it adds its entry exactly for a capital other than U, V, W and C. */
  lemma TypeExact(archive: string, member: string, gap: string, symbol: string, gap': string, kind: char, rest: string)
    requires Lacks(archive, '[') && Lacks(member, ']') && AllSpace(gap) && AllSpace(gap') && gap' != []
    requires symbol != [] && SpaceFree(symbol) && !IsSpace(kind) && rest != [] && IsSpace(rest[0])
    ensures Parsed(NmText(archive, member, gap + (symbol + (gap' + ([kind] + rest)))))
      == if kind in "ABDEFGHIJKLMNOPQRSTXYZ" then Some(SymbolEntry(symbol, member, kind)) else None
  {
    hide Parsed, Keep, SymbolOf, Lacks, AllSpace, SpaceFree;
    var fields := gap + (symbol + (gap' + ([kind] + rest)));
    PlainArchiveRead(archive, member, fields);
    assert "" + member == member;
    assert fields[0..] == fields;
    SymbolOfShaped(fields, 0, member, gap, symbol, gap', kind, rest);
    KeptTable(kind);
  }

  /** Whatever a line looks like, the type of the entry it adds is one of these. */
  lemma EntryKind(line: string)
    ensures Parsed(line).Some? ==> Parsed(line).value.kind in "ABDEFGHIJKLMNOPQRSTXYZ"
  {
    hide Parsed, Keep;
    if e: SymbolEntry :| Parsed(line) == Some(e) {
      ParsedExact(line, e);
      var archive, gap, gap', rest :| Shaped(line, e, archive, gap, gap', rest);
      KeptTable(e.kind);
    }
  }

  // ---- lines that do not matter

  /** A line that adds no entry can be put in or taken out: the same entries are kept. */
  lemma LineIrrelevant(before: seq<string>, line: string, after: seq<string>)
    requires Parsed(line) == None && before + after != []
    requires Lacks(line, '\n') && forall l | l in before + after :: Lacks(l, '\n')
    ensures Kept(Segments(Joined(before + [line] + after))) == Kept(Segments(Joined(before + after)))
  {
    hide Parsed, Kept, Segments, Joined, Lacks;
    forall l | l in before + [line] + after ensures Lacks(l, '\n') {
      assert l in before + after || l == line;
    }
    JoinedSplits(before + [line] + after);
    JoinedSplits(before + after);
    KeptConcat(before + [line], after);
    KeptConcat(before, [line]);
    KeptConcat(before, after);
    KeptOne(line);
    assert Kept(before) + [] == Kept(before);
  }

  lemma {:induction false} KeptConcat(a: seq<string>, b: seq<string>)
    ensures Kept(a + b) == Kept(a) + Kept(b)
  {
    hide Parsed, Kept;
    if a == [] {
      assert a + b == b;
      NothingKept();
      assert [] + Kept(b) == Kept(b);
    } else {
      assert a + b == [a[0]] + (a[1..] + b) && a == [a[0]] + a[1..];
      KeptStep(a[0], a[1..] + b);
      KeptStep(a[0], a[1..]);
      KeptConcat(a[1..], b);
      Assoc(Kept([a[0]]), Kept(a[1..]), Kept(b));
    }
  }

  lemma NothingKept()
    ensures Kept([]) == []
  {
  }

  /** One symbol in two members: the library is stamped exactly when its type is not kept. */
  lemma TwoMembers(archive: string, m: string, n: string, symbol: string, kind: char, rest: string)
    requires Lacks(archive, '[') && Lacks(m, ']') && Lacks(n, ']')
    requires symbol != [] && SpaceFree(symbol) && !IsSpace(kind) && rest != [] && IsSpace(rest[0])
    ensures var fields := "" + (symbol + (" " + ([kind] + rest)));
      SymbolsDistinct(Kept([NmText(archive, m, fields), NmText(archive, n, fields)]))
      <==> kind !in "ABDEFGHIJKLMNOPQRSTXYZ"
  {
    hide Parsed, Kept, Keep, Lacks, SpaceFree, Fields, NmText;
    var fields := "" + (symbol + (" " + ([kind] + rest)));
    var x, y := NmText(archive, m, fields), NmText(archive, n, fields);
    TypeExact(archive, m, "", symbol, " ", kind, rest);
    TypeExact(archive, n, "", symbol, " ", kind, rest);
    assert [x] + [y] == [x, y];
    KeptStep(x, [y]);
    KeptOne(x);
    KeptOne(y);
    if kind in "ABDEFGHIJKLMNOPQRSTXYZ" {
      var kept := Kept([x, y]);
      assert kept == [SymbolEntry(symbol, m, kind), SymbolEntry(symbol, n, kind)];
      assert kept[0].symbol == symbol && kept[1].symbol == symbol;
      assert Duplicated(kept, symbol);
    }
  }

  // ---- the lines of the report

  /** One line for each entry. */
  function ReportTexts(s: seq<SymbolEntry>): seq<string> {
    seq(|s|, i requires 0 <= i < |s| => s[i].member + ": " + [s[i].kind] + " " + s[i].symbol)
  }

  lemma LineText(e: SymbolEntry)
    ensures Line(e) == e.member + ": " + [e.kind] + " " + e.symbol + "\n"
  {
    var head := e.member + ": ";
    assert [e.kind, ' '] == [e.kind] + " ";
    Assoc(e.member, ": ", [e.kind, ' '] + (e.symbol + "\n"));
    Assoc(head, [e.kind, ' '], e.symbol + "\n");
    Assoc(head + [e.kind, ' '], e.symbol, "\n");
    Assoc(head, [e.kind], " ");
  }

  lemma {:induction false} ReportLines(s: seq<SymbolEntry>)
    requires forall e | e in s :: Lacks(e.member, '\n') && Lacks(e.symbol, '\n') && e.kind != '\n'
    ensures Segments(ReportText(s)) == ReportTexts(s) + [""]
  {
    hide Line, Split;
    if s == [] {
      SplitWhole("", '\n');
    } else {
      var e := s[0];
      assert e in s;
      LineText(e);
      ReportLines(s[1..]);
      var text := e.member + ": " + [e.kind] + " " + e.symbol;
      assert Line(e) + ReportText(s[1..]) == text + (['\n'] + ReportText(s[1..]));
      SplitApart(text, ReportText(s[1..]), '\n');
      assert ReportTexts(s) == [text] + ReportTexts(s[1..]);
    }
  }

  /** Entries come from lines, so they hold no newline. */
  lemma KeptHasNoNewline(lines: seq<string>, e: SymbolEntry)
    requires (forall l | l in lines :: Lacks(l, '\n')) && e in Kept(lines)
    ensures Lacks(e.member, '\n') && Lacks(e.symbol, '\n') && e.kind != '\n'
  {
    hide Parsed;
    var line := KeptFrom(lines, e);
    ParsedExact(line, e);
    var archive, gap, gap', rest :| Shaped(line, e, archive, gap, gap', rest);
    ShapedFields(line, e, archive, gap, gap', rest);
  }

  lemma {:induction false} KeptFrom(lines: seq<string>, e: SymbolEntry) returns (line: string)
    requires e in Kept(lines)
    ensures line in lines && Parsed(line) == Some(e)
  {
    hide Parsed;
    if Parsed(lines[0]) == Some(e) {
      line := lines[0];
    } else {
      line := KeptFrom(lines[1..], e);
    }
  }

  lemma ShapedFields(line: string, e: SymbolEntry, archive: string, gap: string, gap': string, rest: string)
    requires Shaped(line, e, archive, gap, gap', rest) && Lacks(line, '\n')
    ensures Lacks(e.member, '\n') && Lacks(e.symbol, '\n') && e.kind != '\n'
  {
    hide AllSpace, SpaceFree;
    var tail := gap + (e.symbol + (gap' + ([e.kind] + rest)));
    forall i | 0 <= i < |e.member| ensures e.member[i] != '\n' {
      assert line[|archive| + 1 + i] == e.member[i];
    }
    var start := |archive| + 1 + |e.member| + 3;
    assert line == line[..start] + tail && line[start..] == tail;
    forall i | 0 <= i < |e.symbol| ensures e.symbol[i] != '\n' {
      assert line[start + |gap| + i] == tail[|gap| + i] == e.symbol[i];
    }
    KeptIsNotSpace(e.kind);
  }

  /** The report of a rejected library has one line for each entry it reports, and nothing else. */
  lemma ReportOfRun(nmFile: string, order: seq<SymbolEntry>)
    requires SortOf(SymbolAtMost, Kept(Segments(nmFile)), order)
    ensures Segments(ReportText(Reported(order))) == ReportTexts(Reported(order)) + [""]
  {
    hide Kept, Segments, Reported, ReportText, Sorted, SymbolAtMost, Duplicated, ReportTexts;
    var kept, reported := Kept(Segments(nmFile)), Reported(order);
    SegmentsJoin(nmFile);
    forall e | e in reported ensures Lacks(e.member, '\n') && Lacks(e.symbol, '\n') && e.kind != '\n' {
      ReportExact(kept, order, e);
      assert e in multiset(reported);
      assert e in multiset(kept);
      KeptHasNoNewline(Segments(nmFile), e);
    }
    ReportLines(reported);
  }
}
