/** The emitted overlay read back by the JSON grammar: tools/case_insensitive_vfs/vfs.c against RFC 8259. */
module CiOverlayJson {
  import opened CText
  import opened Results
  import opened CiFilesystem
  import opened CiVfs
  import opened Json

  // ---- the document an overlay stands for

  function NodeJson(t: Overlay): Json
    decreases t, 1
  {
    match t
    case FileNode(name, external) =>
      Object([Member("type", String("file")), Member("name", String(name)),
              Member("external-contents", String(external))])
    case DirNode(name, contents) =>
      Object([Member("type", String("directory")), Member("name", String(name))]
             + if contents == [] then [] else [Member("contents", Array(ItemsJson(contents, 0)))])
  }

  function ItemsJson(items: seq<Overlay>, index: nat): seq<Json>
    requires index <= |items|
    decreases items, 0, |items| - index
  {
    if index == |items| then [] else [NodeJson(items[index])] + ItemsJson(items, index + 1)
  }

  function DocumentJson(items: seq<Overlay>): Json {
    Object([Member("version", Number("0")), Member("case-sensitive", Bool(false)),
            Member("roots", Array(ItemsJson(items, 0)))])
  }

  // ---- reading one construct

  predicate Blank(ws: string) {
    forall i | 0 <= i < |ws| :: IsWs(ws[i])
  }

  lemma {:induction false} SkipBlank(ws: string, s: string)
    requires Blank(ws)
    ensures SkipWs(ws + s) == SkipWs(s)
  {
    if ws == [] {
      assert ws + s == s;
    } else {
      SkipBlank(ws[1..], s);
      assert (ws + s)[1..] == ws[1..] + s;
    }
  }

  lemma LeadingBlank(ws: string, s: string)
    requires Blank(ws)
    ensures ParseValue(ws + s) == ParseValue(s)
    ensures ParseMember(ws + s) == ParseMember(s)
    ensures ParseMembers(ws + s) == ParseMembers(s)
    ensures ParseItems(ws + s) == ParseItems(s)
  {
    hide ParseString, ParseLiteral, ParseNumber;
    SkipBlank(ws, s);
  }

  lemma ControlRoundTrip(c: char, rest: string)
    requires c < ' '
    ensures ParseUnicode(['0', '0', HexDigit(c as int / 16), HexDigit(c as int % 16)] + rest) == Some(Parsed(c, rest))
  {
    var high, low := c as int / 16, c as int % 16;
    HexRoundTrip(high);
    HexRoundTrip(low);
    HexRoundTrip(0);
    var s := ['0', '0', HexDigit(high), HexDigit(low)] + rest;
    assert s[0] == HexDigit(0) && s[1] == HexDigit(0) && s[2] == HexDigit(high) && s[3] == HexDigit(low);
    assert s[4..] == rest;
    assert Hex4(s) == Some(c as int);
  }

  lemma HexRoundTrip(n: nat)
    requires n < 16
    ensures HexValue(HexDigit(n)) == Some(n)
  {
  }

  /** The decoder undoes the escape of any one character. */
  lemma CharRoundTrip(c: char, rest: string)
    ensures ParseString(EscapeChar(c) + rest) == Prepend(c, ParseString(rest))
  {
    hide ParseString;
    if ShortEscape(c) != "" {
      ShortEscapeRoundTrip(c, rest);
    } else if c < ' ' {
      HexEscapeRoundTrip(c, rest);
    } else {
      PlainCharRoundTrip(c, rest);
    }
  }

  lemma EscapeRead(after: string, c: char, rest: string)
    requires ParseEscape(after) == Some(Parsed(c, rest))
    ensures ParseString(['\\'] + after) == Prepend(c, ParseString(rest))
  {
    hide ParseEscape;
    assert (['\\'] + after)[1..] == after;
  }

  lemma ShortEscapeReads(c: char, rest: string)
    requires ShortEscape(c) != ""
    ensures |ShortEscape(c)| == 2 && ShortEscape(c)[0] == '\\'
    ensures ParseEscape([ShortEscape(c)[1]] + rest) == Some(Parsed(c, rest))
  {
    var after := [ShortEscape(c)[1]] + rest;
    assert after[0] == ShortEscape(c)[1] && after[1..] == rest;
  }

  lemma ShortEscapeRoundTrip(c: char, rest: string)
    requires ShortEscape(c) != ""
    ensures ParseString(EscapeChar(c) + rest) == Prepend(c, ParseString(rest))
  {
    hide ParseString, ParseEscape, ShortEscape;
    ShortEscapeReads(c, rest);
    var after := [ShortEscape(c)[1]] + rest;
    EscapeRead(after, c, rest);
    assert EscapeChar(c) + rest == ['\\'] + after;
  }

  lemma HexEscapeRoundTrip(c: char, rest: string)
    requires ShortEscape(c) == "" && c < ' '
    ensures ParseString(EscapeChar(c) + rest) == Prepend(c, ParseString(rest))
  {
    hide ParseString, ParseUnicode, ShortEscape;
    var hex := ['0', '0', HexDigit(c as int / 16), HexDigit(c as int % 16)];
    var after := ['u'] + (hex + rest);
    ControlRoundTrip(c, rest);
    assert after[0] == 'u' && after[1..] == hex + rest;
    EscapeRead(after, c, rest);
    assert EscapeChar(c) + rest == ['\\'] + after;
  }

  lemma PlainCharRoundTrip(c: char, rest: string)
    requires ShortEscape(c) == "" && c >= ' '
    ensures ParseString(EscapeChar(c) + rest) == Prepend(c, ParseString(rest))
  {
    hide ParseEscape;
    var s := EscapeChar(c) + rest;
    assert s[0] == c && s[1..] == rest;
  }

  lemma {:induction false} StringRoundTrip(value: string, rest: string)
    ensures ParseString(Escape(value) + ("\"" + rest)) == Some(Parsed(value, rest))
  {
    hide EscapeChar, ParseEscape;
    if value == [] {
      assert Escape(value) + ("\"" + rest) == "\"" + rest;
    } else {
      Assoc(EscapeChar(value[0]), Escape(value[1..]), "\"" + rest);
      CharRoundTrip(value[0], Escape(value[1..]) + ("\"" + rest));
      StringRoundTrip(value[1..], rest);
      assert value == [value[0]] + value[1..];
    }
  }

  lemma QuotedValue(value: string, rest: string)
    ensures ParseValue(Quoted(value) + rest) == Some(Parsed(String(value), rest))
  {
    hide ParseString, Escape, ParseLiteral, ParseNumber, ParseMembers, ParseItems;
    var s := Quoted(value) + rest;
    assert s[0] == '"' && s[1..] == Escape(value) + ("\"" + rest);
    assert SkipWs(s) == s;
    StringRoundTrip(value, rest);
  }

  /** A plain key, a colon, and text that starts with a value. */
  lemma KeyedMember(key: string, body: string, v: Parsed<Json>)
    requires Plain(key) && ParseValue(body) == Some(v)
    ensures ParseMember("\"" + key + "\": " + body) == Some(Parsed(Member(key, v.value), v.rest))
  {
    hide ParseString, Escape, ParseValue;
    var s := "\"" + key + "\": " + body;
    PlainEscape(key);
    assert s[0] == '"' && s[1..] == Escape(key) + ("\"" + (": " + body));
    assert SkipWs(s) == s;
    StringRoundTrip(key, ": " + body);
    var u := ": " + body;
    assert u[1..] == " " + body && SkipWs(u) == u;
    LeadingBlank(" ", body);
  }

  lemma LineMember(indentation: nat, key: string, value: string, tail: string, rest: string)
    requires Plain(key)
    ensures ParseMember(Line(indentation, "\"" + key + "\": ", value, tail) + rest)
      == Some(Parsed(Member(key, String(value)), tail + rest))
  {
    hide ParseMember, Escape, ParseValue;
    var body := Quoted(value) + (tail + rest);
    QuotedValue(value, tail + rest);
    KeyedMember(key, body, Parsed(String(value), tail + rest));
    LeadingBlank(Spaces(indentation), "\"" + key + "\": " + body);
    assert Line(indentation, "\"" + key + "\": ", value, tail) + rest
      == Spaces(indentation) + ("\"" + key + "\": " + body);
  }

  lemma ObjectValue(s: string, ms: Parsed<seq<Member>>)
    requires ParseMembers(s) == Some(ms)
    ensures ParseValue("{" + s) == Some(Parsed(Object(ms.value), ms.rest))
  {
    assert ("{" + s)[1..] == s && SkipWs("{" + s) == "{" + s;
  }

  lemma ArrayValue(s: string, vs: Parsed<seq<Json>>)
    requires ParseItems(s) == Some(vs)
    ensures ParseValue("[" + s) == Some(Parsed(Array(vs.value), vs.rest))
  {
    assert ("[" + s)[1..] == s && SkipWs("[" + s) == "[" + s;
  }

  // ---- reading a node

  /** One more member, when a comma follows it. */
  lemma MembersStep(s: string, m: Member, separator: string, s': string, ms: Parsed<seq<Member>>)
    requires ParseMember(s) == Some(Parsed(m, separator + s'))
    requires separator == ",\n" && ParseMembers(s') == Some(ms)
    ensures ParseMembers(s) == Some(Parsed([m] + ms.value, ms.rest))
  {
    hide ParseMember;
    assert (separator + s')[1..] == "\n" + s';
    assert SkipWs(separator + s') == separator + s';
    LeadingBlank("\n", s');
  }

  lemma MembersEnd(s: string, m: Member, ws: string, rest: string)
    requires Blank(ws) && ParseMember(s) == Some(Parsed(m, ws + ("}" + rest)))
    ensures ParseMembers(s) == Some(Parsed([m], rest))
  {
    hide ParseMember;
    SkipBlank(ws, "}" + rest);
    assert SkipWs("}" + rest) == "}" + rest && ("}" + rest)[1..] == rest;
  }

  lemma TypeMember(indentation: nat, kind: string, rest: string)
    requires Plain(kind)
    ensures ParseMember(TypeLine(indentation, kind) + rest)
      == Some(Parsed(Member("type", String(kind)), ",\n" + rest))
  {
    hide ParseMember, Line, TypeLine;
    PlainLine(indentation, kind);
    LineMember(indentation, "type", kind, ",\n", rest);
    assert "\"" + "type" + "\": " == "\"type\": ";
  }

  lemma FileRoundTrip(name: string, external: string, indentation: nat, rest: string)
    ensures ParseValue(NodeText(FileNode(name, external), indentation) + rest)
      == Some(Parsed(NodeJson(FileNode(name, external)), rest))
  {
    hide ParseMember, ParseMembers, ParseValue, Line, TypeLine;
    var close := "}" + rest;
    var l1 := TypeLine(indentation + 2, "file");
    var l2 := Line(indentation + 2, "\"name\": ", name, ",\n");
    var l3 := Line(indentation + 2, "\"external-contents\": ", external, "\n");
    var s3 := l3 + (Spaces(indentation) + close);
    var s2 := l2 + s3;
    var s1 := l1 + s2;
    var m1, m2, m3 := Member("type", String("file")), Member("name", String(name)),
                      Member("external-contents", String(external));
    LineMember(indentation + 2, "external-contents", external, "\n", Spaces(indentation) + close);
    assert "\"" + "external-contents" + "\": " == "\"external-contents\": ";
    Assoc("\n", Spaces(indentation), close);
    MembersEnd(s3, m3, "\n" + Spaces(indentation), rest);
    LineMember(indentation + 2, "name", name, ",\n", s3);
    assert "\"" + "name" + "\": " == "\"name\": ";
    MembersStep(s2, m2, ",\n", s3, Parsed([m3], rest));
    TypeMember(indentation + 2, "file", s2);
    MembersStep(s1, m1, ",\n", s2, Parsed([m2] + [m3], rest));
    LeadingBlank("\n", s1);
    ObjectValue("\n" + s1, Parsed([m1] + ([m2] + [m3]), rest));
    Spread4(l1, l2, l3, Spaces(indentation) + "}", rest);
    Assoc(Spaces(indentation), "}", rest);
    assert [m1] + ([m2] + [m3]) == [m1, m2, m3];
  }

  lemma Spread4(a: string, b: string, c: string, d: string, rest: string)
    ensures "{\n" + a + b + c + d + rest == "{" + ("\n" + (a + (b + (c + (d + rest)))))
  {
    Assoc("{\n" + a + b + c, d, rest);
    Assoc("{\n" + a + b, c, d + rest);
    Assoc("{\n" + a, b, c + (d + rest));
    Assoc("{\n", a, b + (c + (d + rest)));
    var all := a + (b + (c + (d + rest)));
    assert "{\n" + all == "{" + ("\n" + all);
  }

  lemma ContentsMember(indentation: nat, items: string, vs: seq<Json>, after: string)
    requires ParseItems(items + (Spaces(indentation + 2) + ("]" + after))) == Some(Parsed(vs, after))
    ensures ParseMember("\n" + (Spaces(indentation + 2) + ("\"contents\": [\n" + (items + (Spaces(indentation + 2) + ("]" + after))))))
      == Some(Parsed(Member("contents", Array(vs)), after))
  {
    hide ParseMember, ParseItems, ParseValue;
    var list := items + (Spaces(indentation + 2) + ("]" + after));
    LeadingBlank("\n", list);
    ArrayValue("\n" + list, Parsed(vs, after));
    KeyedMember("contents", "[" + ("\n" + list), Parsed(Array(vs), after));
    assert "\"" + "contents" + "\": " + ("[" + ("\n" + list)) == "\"contents\": [\n" + list;
    LeadingBlank(Spaces(indentation + 2), "\"contents\": [\n" + list);
    LeadingBlank("\n", Spaces(indentation + 2) + ("\"contents\": [\n" + list));
  }

  lemma ContentsSpread(indentation: nat, items: string, after: string)
    ensures (",\n" + Spaces(indentation + 2) + "\"contents\": [\n") + items + (Spaces(indentation + 2) + "]") + after
      == "," + ("\n" + (Spaces(indentation + 2) + ("\"contents\": [\n" + (items + (Spaces(indentation + 2) + ("]" + after))))))
  {
    hide Spaces;
    var sp := Spaces(indentation + 2);
    var list := items + (sp + ("]" + after));
    Assoc(",\n" + sp + "\"contents\": [\n" + items, sp + "]", after);
    Assoc(sp, "]", after);
    Assoc(",\n" + sp + "\"contents\": [\n", items, sp + ("]" + after));
    Assoc(",\n" + sp, "\"contents\": [\n", list);
    Assoc(",\n", sp, "\"contents\": [\n" + list);
    var all := sp + ("\"contents\": [\n" + list);
    assert ",\n" + all == "," + ("\n" + all);
  }

  /** The members of a directory after its name: nothing, or its contents. */
  lemma DirTail(name: string, contents: seq<Overlay>, indentation: nat, rest: string)
    requires contents != [] ==> forall after :: ParseItems(ItemsText(contents, 0, indentation + 4)
      + (Spaces(indentation + 2) + ("]" + after))) == Some(Parsed(ItemsJson(contents, 0), after))
    ensures ParseMembers(Line(indentation + 2, "\"name\": ", name, "")
        + (ContentsText(contents, indentation) + (("\n" + Spaces(indentation) + "}") + rest)))
      == Some(Parsed([Member("name", String(name))]
        + (if contents == [] then [] else [Member("contents", Array(ItemsJson(contents, 0)))]), rest))
  {
    hide ParseMember, ParseMembers, ParseValue, ParseItems, Line, ItemsText, ItemsJson;
    var end := ("\n" + Spaces(indentation) + "}") + rest;
    var ws := "\n" + Spaces(indentation);
    Assoc(ws, "}", rest);
    var tail := ContentsText(contents, indentation) + end;
    var s := Line(indentation + 2, "\"name\": ", name, "") + tail;
    var named := Member("name", String(name));
    LineMember(indentation + 2, "name", name, "", tail);
    assert "\"" + "name" + "\": " == "\"name\": " && "" + tail == tail;
    if contents == [] {
      assert tail == end && [named] + [] == [named];
      MembersEnd(s, named, ws, rest);
    } else {
      var items := ItemsText(contents, 0, indentation + 4);
      ContentsSpread(indentation, items, end);
      ContentsMember(indentation, items, ItemsJson(contents, 0), end);
      var inner := "\n" + (Spaces(indentation + 2) + ("\"contents\": [\n" + (items + (Spaces(indentation + 2) + ("]" + end)))));
      MembersEnd(inner, Member("contents", Array(ItemsJson(contents, 0))), ws, rest);
      MembersComma(s, named, inner, Parsed([Member("contents", Array(ItemsJson(contents, 0)))], rest));
    }
  }

  lemma MembersComma(s: string, m: Member, s': string, ms: Parsed<seq<Member>>)
    requires ParseMember(s) == Some(Parsed(m, "," + s')) && ParseMembers(s') == Some(ms)
    ensures ParseMembers(s) == Some(Parsed([m] + ms.value, ms.rest))
  {
    hide ParseMember;
    assert ("," + s')[1..] == s' && SkipWs("," + s') == "," + s';
  }

  /** Parsing the text of a node, whatever follows it, gives the node's document and stops there. */
  lemma {:induction false} NodeRoundTrip(t: Overlay, indentation: nat, rest: string)
    ensures ParseValue(NodeText(t, indentation) + rest) == Some(Parsed(NodeJson(t), rest))
    decreases t, 1, 0
  {
    hide ParseMember, ParseMembers, ParseValue, ParseItems, Line, TypeLine, ItemsText, ItemsJson, ContentsText;
    match t
    case FileNode(name, external) => FileRoundTrip(name, external, indentation, rest);
    case DirNode(name, contents) =>
      forall after | contents != []
        ensures ParseItems(ItemsText(contents, 0, indentation + 4) + (Spaces(indentation + 2) + ("]" + after)))
          == Some(Parsed(ItemsJson(contents, 0), after))
      {
        ItemsRoundTrip(contents, 0, indentation + 4, Spaces(indentation + 2), after);
      }
      DirTail(name, contents, indentation, rest);
      var l1 := TypeLine(indentation + 2, "directory");
      var l2 := Line(indentation + 2, "\"name\": ", name, "");
      var l3 := ContentsText(contents, indentation);
      var l4 := "\n" + Spaces(indentation) + "}";
      var s2 := l2 + (l3 + (l4 + rest));
      TypeMember(indentation + 2, "directory", s2);
      var ms := ParseMembers(s2).value.value;
      MembersStep(l1 + s2, Member("type", String("directory")), ",\n", s2, Parsed(ms, rest));
      LeadingBlank("\n", l1 + s2);
      ObjectValue("\n" + (l1 + s2), Parsed([Member("type", String("directory"))] + ms, rest));
      Spread4(l1, l2, l3, l4, rest);
      assert NodeJson(t) == Object([Member("type", String("directory"))] + ms);
  }

  lemma {:induction false} ItemsRoundTrip(items: seq<Overlay>, index: nat, indentation: nat, ws: string, after: string)
    requires index < |items| && Blank(ws)
    ensures ParseItems(ItemsText(items, index, indentation) + (ws + ("]" + after)))
      == Some(Parsed(ItemsJson(items, index), after))
    decreases items, 0, |items| - index
  {
    hide ParseValue, NodeText, NodeJson, Spaces;
    var end := ws + ("]" + after);
    var node := NodeText(items[index], indentation);
    var separator := if index + 1 != |items| then ",\n" else "\n";
    var tail := ItemsText(items, index + 1, indentation) + end;
    ItemSpread(Spaces(indentation), node, separator, ItemsText(items, index + 1, indentation), end);
    NodeRoundTrip(items[index], indentation, separator + tail);
    SpacesBlank(indentation);
    LeadingBlank(Spaces(indentation), node + (separator + tail));
    if index + 1 == |items| {
      assert tail == end && ItemsJson(items, index) == [NodeJson(items[index])];
      SkipBlank("\n", end);
      SkipBlank(ws, "]" + after);
      ItemsEnd(node + (separator + tail), NodeJson(items[index]), separator + tail, after);
    } else {
      ItemsRoundTrip(items, index + 1, indentation, ws, after);
      ItemsComma(node + (separator + tail), NodeJson(items[index]), tail, Parsed(ItemsJson(items, index + 1), after));
    }
  }

  lemma SpacesBlank(n: nat)
    ensures Blank(Spaces(n))
  {
  }

  lemma ItemSpread(a: string, b: string, c: string, d: string, e: string)
    ensures a + b + c + d + e == a + (b + (c + (d + e)))
  {
    Assoc(a + b + c, d, e);
    Assoc(a + b, c, d + e);
    Assoc(a, b, c + (d + e));
  }

  lemma ItemsEnd(s: string, v: Json, r: string, after: string)
    requires ParseValue(s) == Some(Parsed(v, r)) && SkipWs(r) == SkipWs("]" + after)
    ensures ParseItems(s) == Some(Parsed([v], after))
  {
    hide ParseValue;
    assert SkipWs("]" + after) == "]" + after && ("]" + after)[1..] == after;
  }

  lemma ItemsComma(s: string, v: Json, s': string, vs: Parsed<seq<Json>>)
    requires ParseValue(s) == Some(Parsed(v, ",\n" + s')) && ParseItems(s') == Some(vs)
    ensures ParseItems(s) == Some(Parsed([v] + vs.value, vs.rest))
  {
    hide ParseValue;
    assert (",\n" + s')[1..] == "\n" + s' && SkipWs(",\n" + s') == ",\n" + s';
    LeadingBlank("\n", s');
  }

  // ---- the whole text

  lemma ZeroValue(rest: string)
    requires rest != [] && rest[0] == ','
    ensures ParseValue("0" + rest) == Some(Parsed(Number("0"), rest))
  {
    hide ParseMembers, ParseItems, ParseString, ParseLiteral;
    var body := "0" + rest;
    assert body[0] == '0' && body[1] == ',' && body[..1] == "0" && body[1..] == rest;
    assert SkipWs(body) == body;
    assert IntEnd(body) == Some(1) && FracEnd(body, 1) == Some(1) && ExpEnd(body, 1) == Some(1);
  }

  lemma VersionMember(s: string)
    ensures ParseMember("  \"version\": 0,\n" + s) == Some(Parsed(Member("version", Number("0")), ",\n" + s))
  {
    hide ParseMember, ParseValue;
    var body := "0" + (",\n" + s);
    ZeroValue(",\n" + s);
    KeyedMember("version", body, Parsed(Number("0"), ",\n" + s));
    var key := "\"" + "version" + "\": ";
    LeadingBlank("  ", key + body);
    assert "  " + key + "0" + ",\n" == "  \"version\": 0,\n";
    Assoc("  ", key, body);
    Assoc("  " + key, "0", ",\n" + s);
    Assoc("  " + key + "0", ",\n", s);
  }

  lemma FalseValue(rest: string)
    ensures ParseValue("false" + rest) == Some(Parsed(Bool(false), rest))
  {
    hide ParseMembers, ParseItems, ParseString, ParseNumber;
    var s := "false" + rest;
    assert s[..5] == "false" && s[5..] == rest && s[0] == 'f';
    assert SkipWs(s) == s;
  }

  lemma CaseMember(s: string)
    ensures ParseMember("  \"case-sensitive\": false,\n" + s)
      == Some(Parsed(Member("case-sensitive", Bool(false)), ",\n" + s))
  {
    hide ParseMember, ParseValue, Plain;
    var body := "false" + (",\n" + s);
    var key := "\"" + "case-sensitive" + "\": ";
    FalseValue(",\n" + s);
    CaseKey();
    KeyedMember("case-sensitive", body, Parsed(Bool(false), ",\n" + s));
    LeadingBlank("  ", key + body);
    Assoc("  ", key, body);
    Assoc("  " + key, "false", ",\n" + s);
    Assoc("  " + key + "false", ",\n", s);
  }

  lemma CaseKey()
    ensures Plain("case-sensitive")
    ensures "  " + ("\"" + "case-sensitive" + "\": ") + "false" + ",\n" == "  \"case-sensitive\": false,\n"
  {
  }

  lemma RootsMember(list: string, vs: seq<Json>)
    requires ParseItems(list + ("  " + ("]" + "\n}\n"))) == Some(Parsed(vs, "\n}\n"))
    ensures ParseMembers("  \"roots\": [\n" + (list + "  ]\n}\n")) == Some(Parsed([Member("roots", Array(vs))], "\n"))
  {
    hide ParseMember, ParseMembers, ParseItems, ParseValue;
    var text := list + "  ]\n}\n";
    assert "  " + ("]" + "\n}\n") == "  ]\n}\n";
    LeadingBlank("\n", text);
    ArrayValue("\n" + text, Parsed(vs, "\n}\n"));
    KeyedMember("roots", "[" + ("\n" + text), Parsed(Array(vs), "\n}\n"));
    var keyed := "\"" + "roots" + "\": " + ("[" + ("\n" + text));
    LeadingBlank("  ", keyed);
    assert "\n" + ("}" + "\n") == "\n}\n";
    MembersEnd(keyed, Member("roots", Array(vs)), "\n", "\n");
    assert "  " + keyed == "  \"roots\": [\n" + text;
  }

  /** The emitted text is JSON, and reading it gives back exactly the overlay tree. */
  lemma DocumentRoundTrip(items: seq<Overlay>)
    requires items != []
    ensures ParseText(DocumentText(items)) == Some(DocumentJson(items))
  {
    hide ParseMember, ParseMembers, ParseValue, ParseItems, ItemsText, ItemsJson, Header;
    var list := ItemsText(items, 0, 4);
    ItemsRoundTrip(items, 0, 4, "  ", "\n}\n");
    RootsMember(list, ItemsJson(items, 0));
    var m1, m2, m3 := Member("version", Number("0")), Member("case-sensitive", Bool(false)),
                      Member("roots", Array(ItemsJson(items, 0)));
    var s3 := "  \"roots\": [\n" + (list + "  ]\n}\n");
    var s2 := "  \"case-sensitive\": false,\n" + s3;
    var s1 := "  \"version\": 0,\n" + s2;
    CaseMember(s3);
    MembersStep(s2, m2, ",\n", s3, Parsed([m3], "\n"));
    VersionMember(s2);
    MembersStep(s1, m1, ",\n", s2, Parsed([m2] + [m3], "\n"));
    LeadingBlank("\n", s1);
    ObjectValue("\n" + s1, Parsed([m1] + ([m2] + [m3]), "\n"));
    assert [m1] + ([m2] + [m3]) == [m1, m2, m3];
    Assoc(Header(), list, "  ]\n}\n");
    HeaderSpread(list + "  ]\n}\n");
    assert SkipWs("\n") == [];
  }

  lemma HeaderSpread(s: string)
    ensures Header() + s
      == "{" + ("\n" + ("  \"version\": 0,\n" + ("  \"case-sensitive\": false,\n" + ("  \"roots\": [\n" + s))))
  {
    ItemSpread("{\n", "  \"version\": 0,\n", "  \"case-sensitive\": false,\n", "  \"roots\": [\n", s);
    var tail := "  \"version\": 0,\n" + ("  \"case-sensitive\": false,\n" + ("  \"roots\": [\n" + s));
    assert "{\n" + tail == "{" + ("\n" + tail);
  }

  // ---- distinct overlays have distinct texts

  lemma {:induction false} NodeJsonInjective(a: Overlay, b: Overlay)
    requires NodeJson(a) == NodeJson(b)
    ensures a == b
    decreases a, 1
  {
    hide ItemsJson;
    var ms, ns := NodeJson(a).members, NodeJson(b).members;
    assert ms[0].value == ns[0].value && ms[1].value == ns[1].value;
    match a
    case FileNode(_, _) =>
      assert b.FileNode? && ms[2].value == ns[2].value;
    case DirNode(_, contents) =>
      assert b.DirNode? by { assert "file" != "directory" by { assert |"file"| == 4; } }
      assert (contents == []) == (|ms| == 2) && (b.contents == []) == (|ns| == 2);
      if contents != [] {
        assert ms[2].value == ns[2].value;
        ItemsJsonInjective(contents, b.contents, 0);
      }
  }

  lemma {:induction false} ItemsJsonInjective(a: seq<Overlay>, b: seq<Overlay>, index: nat)
    requires index <= |a| && index <= |b| && ItemsJson(a, index) == ItemsJson(b, index)
    ensures a[index..] == b[index..]
    decreases a, 0, |a| - index
  {
    hide NodeJson;
    var s, t := ItemsJson(a, index), ItemsJson(b, index);
    if index < |a| && index < |b| {
      assert s[0] == NodeJson(a[index]) && t[0] == NodeJson(b[index]);
      assert s[1..] == ItemsJson(a, index + 1) && t[1..] == ItemsJson(b, index + 1);
      NodeJsonInjective(a[index], b[index]);
      ItemsJsonInjective(a, b, index + 1);
      assert a[index..] == [a[index]] + a[index + 1..] && b[index..] == [b[index]] + b[index + 1..];
    } else {
      assert |s| == |t|;
    }
  }

  lemma TextInjective(a: seq<Overlay>, b: seq<Overlay>)
    requires a != [] && b != [] && DocumentText(a) == DocumentText(b)
    ensures a == b
  {
    hide DocumentText, ItemsJson, ParseText;
    DocumentRoundTrip(a);
    DocumentRoundTrip(b);
    assert DocumentJson(a).members[2].value == DocumentJson(b).members[2].value;
    ItemsJsonInjective(a, b, 0);
  }
}
