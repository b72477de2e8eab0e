/** The case-insensitive overlay generator: tools/case_insensitive_vfs/vfs.c. */
module CiVfs {
  import opened CText
  import opened Results
  import opened Sorting
  import opened CiFilesystem
  import opened CiDisk

  // ---- the overlay as a tree

  datatype Error =
    | NoRoots
    | ReadFailed(path: string)
    | StatFailed(path: string)
    | AmbiguousEntries(directory: string, first: string, second: string)
    | DirectorySymlink(generic: string)
    | Unsupported(generic: string)
    | WalkFailed(root: string, detail: Error)

  datatype Overlay =
    | FileNode(name: string, external: string)
    | DirNode(name: string, contents: seq<Overlay>)

  ghost predicate AllListed(chosen: seq<CiEntry>) {
    forall i | 0 <= i < |chosen| :: Listed(chosen[i].name)
  }

  lemma ChosenListed(names: seq<string>)
    requires forall name | name in names :: Listed(name)
    ensures AllListed(Collapsed(Listing(names), 0))
  {
    hide Collapsed, Listed;
    var s, chosen := Listing(names), Collapsed(Listing(names), 0);
    EntryOrderTotal();
    SortIsSort(EntryAtMost, EntriesOf(names));
    CollapsedMembers(s, 0);
    forall i | 0 <= i < |chosen| ensures Listed(chosen[i].name) {
      assert chosen[i] in chosen;
      assert chosen[i] in s;
      assert chosen[i] in multiset(EntriesOf(names));
      var k :| 0 <= k < |names| && EntriesOf(names)[k] == chosen[i];
    }
  }

  /** The overlay of a directory, or the first error a depth-first walk in sorted order meets. */
  function CanonDir(at: Spot, path: string, virtualName: string): Result<Overlay, Error>
    decreases Anchor(at), Room(at), 2, 0
  {
    var node := NodeOf(at);
    if !node.Directory? || !node.readable then Err(ReadFailed(path))
    else
      var s := Listing(Names(node.entries));
      match Collision(s, 0)
      case Some((first, second)) => Err(AmbiguousEntries(path, first, second))
      case None =>
        ChosenListed(Names(node.entries));
        match CanonEntries(at, path, Collapsed(s, 0), 0)
        case Err(e) => Err(e)
        case Ok(contents) => Ok(DirNode(virtualName, contents))
  }

  /** The nodes of the selected entries from index on. */
  function CanonEntries(at: Spot, path: string, chosen: seq<CiEntry>, index: nat): (r: Result<seq<Overlay>, Error>)
    requires NodeOf(at).Directory? && index <= |chosen| && AllListed(chosen)
    ensures r.Ok? ==> |r.value| == |chosen| - index
    decreases Anchor(at), Room(at), 1, |chosen| - index
  {
    if index == |chosen| then Ok([])
    else match CanonEntry(at, path, chosen[index].name)
      case Err(e) => Err(e)
      case Ok(first) =>
        match CanonEntries(at, path, chosen, index + 1)
        case Err(e) => Err(e)
        case Ok(others) => Ok([first] + others)
  }

  /** One selected entry: lstat and stat resolve its joined path. */
  function CanonEntry(at: Spot, path: string, name: string): Result<Overlay, Error>
    requires NodeOf(at).Directory? && Listed(name)
    decreases Anchor(at), Room(at), 0, 0
  {
    var fullPath, below := Join(path, name), Below(at, name);
    match NodeOf(below)
    case Missing => Err(StatFailed(fullPath))
    case Special => Err(Unsupported(Generic(fullPath)))
    case Regular => Ok(FileNode(name, Generic(fullPath)))
    case Directory(isSymlink, _, _) =>
      if isSymlink then Err(DirectorySymlink(Generic(fullPath)))
      else
        BelowDecreases(at, name);
        CanonDir(below, fullPath, name)
  }

  // ---- the overlay as text

  function Spaces(n: nat): string {
    seq(n, _ => ' ')
  }

  /** An indented line whose format takes one JSON string. */
  function Line(indentation: nat, opening: string, value: string, tail: string): string {
    Spaces(indentation) + (opening + Quoted(value) + tail)
  }

  function TypeLine(indentation: nat, kind: string): string {
    Spaces(indentation) + ("\"type\": \"" + kind + "\",\n")
  }

  function NodeText(t: Overlay, indentation: nat): string
    decreases t, 1, 0
  {
    match t
    case FileNode(name, external) =>
      "{\n"
      + TypeLine(indentation + 2, "file")
      + Line(indentation + 2, "\"name\": ", name, ",\n")
      + Line(indentation + 2, "\"external-contents\": ", external, "\n")
      + (Spaces(indentation) + "}")
    case DirNode(name, contents) =>
      "{\n"
      + TypeLine(indentation + 2, "directory")
      + Line(indentation + 2, "\"name\": ", name, "")
      + ContentsText(contents, indentation)
      + ("\n" + Spaces(indentation) + "}")
  }

  function ContentsText(contents: seq<Overlay>, indentation: nat): string
    decreases contents, 1, 0
  {
    if contents == [] then ""
    else
      (",\n" + Spaces(indentation + 2) + "\"contents\": [\n")
      + ItemsText(contents, 0, indentation + 4)
      + (Spaces(indentation + 2) + "]")
  }

  /** The nodes from index on, each on its own line. */
  function ItemsText(items: seq<Overlay>, index: nat, indentation: nat): string
    requires index <= |items|
    decreases items, 0, |items| - index
  {
    if index == |items| then ""
    else
      Spaces(indentation) + NodeText(items[index], indentation)
      + (if index + 1 != |items| then ",\n" else "\n")
      + ItemsText(items, index + 1, indentation)
  }

  /** No character of value needs an escape. */
  predicate Plain(value: string) {
    forall i | 0 <= i < |value| :: value[i] >= ' ' && value[i] != '"' && value[i] != '\\'
  }

  lemma PlainChar(c: char)
    requires c >= ' ' && c != '"' && c != '\\'
    ensures EscapeChar(c) == [c]
  {
  }

  lemma {:induction false} PlainEscape(value: string)
    requires Plain(value)
    ensures Escape(value) == value
  {
    hide EscapeChar;
    if value != [] {
      PlainChar(value[0]);
      PlainEscape(value[1..]);
      assert value == [value[0]] + value[1..];
    }
  }

  lemma PlainLine(indentation: nat, kind: string)
    requires Plain(kind)
    ensures Line(indentation, "\"type\": ", kind, ",\n") == TypeLine(indentation, kind)
  {
    PlainEscape(kind);
    assert "\"type\": " + ("\"" + kind + "\"") + ",\n" == "\"type\": \"" + kind + "\",\n";
  }

  // ---- the growable buffer

  class TextBuffer {
    var data: array<char>
    var length: nat
    ghost var text: string

    /** data.Length is the capacity, 0 standing for the null pointer; text is what has been appended. */
    ghost predicate Valid()
      reads this, data
    {
      && |text| == length <= data.Length
      && (forall i | 0 <= i < length :: data[i] == text[i])
      && (data.Length > 0 ==> length < data.Length && data[length] == '\0')
    }

    constructor ()
      ensures Valid() && text == "" && fresh(data)
    {
      data := new char[0];
      length := 0;
      text := "";
    }

    method Reserve(extra: nat)
      requires Valid()
      modifies this`data
      ensures length + extra < data.Length
      ensures forall i | 0 <= i < length :: data[i] == text[i]
      ensures data == old(data) || fresh(data)
    {
      var needed := length + extra + 1;
      var capacity := if data.Length == 0 then 4096 else data.Length;
      if needed <= data.Length {
        return;
      }
      while capacity < needed
        invariant capacity >= data.Length && capacity > 0
      {
        capacity := capacity * 2;
      }
      var grown := new char[capacity];
      forall i | 0 <= i < length { grown[i] := data[i]; }
      data := grown;
    }

    method Append(value: string)
      requires Valid()
      modifies this, data
      ensures Valid() && (data == old(data) || fresh(data))
      ensures text == old(text) + value
    {
      Reserve(|value|);
      forall i | 0 <= i < |value| { data[length + i] := value[i]; }
      length := length + |value|;
      data[length] := '\0';
      text := text + value;
    }

    method Indent(spaces: nat)
      requires Valid()
      modifies this, data
      ensures Valid() && (data == old(data) || fresh(data))
      ensures text == old(text) + Spaces(spaces)
    {
      var left := spaces;
      while left != 0
        invariant 0 <= left <= spaces
        invariant Valid() && (data == old(data) || fresh(data))
        invariant text == old(text) + Spaces(spaces - left)
      {
        Append(" ");
        left := left - 1;
        assert Spaces(spaces - left) == Spaces(spaces - left - 1) + " ";
      }
    }

    /** An indentation, then a format whose one conversion takes a JSON string. */
    method AppendLine(indentation: nat, opening: string, value: string, tail: string)
      requires Valid()
      modifies this, data
      ensures Valid() && (data == old(data) || fresh(data))
      ensures text == old(text) + Line(indentation, opening, value, tail)
    {
      Indent(indentation);
      var json, end := JsonString(value);
      Append(opening + json[..end] + tail);
    }

    /** The same, for a value that needs no escape. */
    method AppendType(indentation: nat, kind: string)
      requires Valid() && Plain(kind)
      modifies this, data
      ensures Valid() && (data == old(data) || fresh(data))
      ensures text == old(text) + TypeLine(indentation, kind)
    {
      AppendLine(indentation, "\"type\": ", kind, ",\n");
      PlainLine(indentation, kind);
    }
  }

  // ---- rendering

  lemma NamesStep(entries: seq<Entry>, k: nat, done: seq<string>)
    requires k < |entries|
    ensures done + Names(entries[k..])
            == (if IsDot(entries[k].name) then done else done + [entries[k].name]) + Names(entries[k + 1..])
  {
    assert entries[k..][1..] == entries[k + 1..];
    if !IsDot(entries[k].name) {
      Assoc(done, [entries[k].name], Names(entries[k + 1..]));
    }
  }

  lemma EntriesOfOne(done: seq<string>, name: string)
    ensures EntriesOf(done + [name]) == EntriesOf(done) + [EntryOf(name)]
  {
    EntriesOfConcat(done, [name]);
  }

  lemma EntriesOfConcat(a: seq<string>, b: seq<string>)
    ensures EntriesOf(a + b) == EntriesOf(a) + EntriesOf(b)
  {
  }

  /** The readdir loop. */
  method ReadEntries(listing: seq<Entry>) returns (entries: DirectoryEntries)
    ensures fresh(entries) && fresh(entries.values) && entries.Valid()
    ensures entries.Contents() == EntriesOf(Names(listing))
  {
    entries := new DirectoryEntries();
    hide Names, EntriesOf;
    ghost var done: seq<string> := [];
    NoNames(listing);
    var k := 0;
    while k < |listing|
      invariant 0 <= k <= |listing|
      invariant fresh(entries) && fresh(entries.values) && entries.Valid()
      invariant entries.Contents() == EntriesOf(done)
      invariant done + Names(listing[k..]) == Names(listing)
    {
      NamesStep(listing, k, done);
      if !IsDot(listing[k].name) {
        entries.Append(listing[k].name);
        EntriesOfOne(done, listing[k].name);
        done := done + [listing[k].name];
      }
      k := k + 1;
    }
    AllNames(listing[k..], done);
  }

  lemma NoNames(listing: seq<Entry>)
    ensures EntriesOf([]) == [] && [] + Names(listing[0..]) == Names(listing)
  {
    assert listing[0..] == listing;
  }

  lemma AllNames(listing: seq<Entry>, done: seq<string>)
    requires listing == []
    ensures done + Names(listing) == done
  {
  }

  /** qsort under compare_entries leaves no freedom: equal entries are identical. */
  method SortEntries(entries: DirectoryEntries, ghost names: seq<string>)
    requires entries.Valid() && entries.Contents() == EntriesOf(names)
    modifies entries.values
    ensures entries.Contents() == Listing(names)
  {
    EntryOrderTotal();
    Qsort(entries.values, entries.count, EntryAtMost);
    SortIsSort(EntryAtMost, EntriesOf(names));
    SortUnique(EntryAtMost, entries.Contents(), Listing(names));
  }

  lemma ShortListing(names: seq<string>)
    requires |names| <= 1
    ensures Listing(names) == EntriesOf(names) == Collapsed(Listing(names), 0)
    ensures Collision(Listing(names), 0) == None
  {
    var s := EntriesOf(names);
    if |names| == 1 {
      assert s[1..] == [] && Sort(EntryAtMost, s[1..]) == [];
      assert Listing(names) == s;
      assert Collapsed(s, 1) == [];
    }
  }

  method CollectPreferredEntries(path: string, disk: Disk)
    returns (entries: DirectoryEntries, error: Option<Error>)
    ensures fresh(entries) && fresh(entries.values) && entries.Valid()
    ensures var node := Resolve(disk, path); !node.Directory? || !node.readable ==> error == Some(ReadFailed(path))
    ensures var node := Resolve(disk, path); node.Directory? && node.readable ==>
      var s := Listing(Names(node.entries));
      match Collision(s, 0)
      case Some((first, second)) => error == Some(AmbiguousEntries(path, first, second))
      case None => error == None && entries.Contents() == Collapsed(s, 0)
  {
    hide Resolve;
    var node := Resolve(disk, path);
    if !node.Directory? || !node.readable {
      entries := new DirectoryEntries();
      return entries, Some(ReadFailed(path));
    }
    entries := ReadEntries(node.entries);
    error := None;
    ghost var names := Names(node.entries);
    if entries.count > 1 {
      SortEntries(entries, names);
      var collision := entries.Validate();
      if collision.Some? {
        return entries, Some(AmbiguousEntries(path, collision.value.0, collision.value.1));
      }
      var _ := entries.Collapse();
    } else {
      assert |entries.Contents()| <= 1;
      ShortListing(names);
    }
  }

  lemma Regroup5(c: string, p1: string, p2: string, p3: string, p4: string, p5: string)
    ensures c + p1 + p2 + p3 + p4 + p5 == c + (p1 + p2 + p3 + p4 + p5)
  {
    Assoc(c, p1, p2);
    Assoc(c, p1 + p2, p3);
    Assoc(c, p1 + p2 + p3, p4);
    Assoc(c, p1 + p2 + p3 + p4, p5);
  }

  method RenderFile(name: string, fullPath: string, output: TextBuffer, indentation: nat)
    requires output.Valid()
    modifies output, output.data
    ensures output.Valid() && (output.data == old(output.data) || fresh(output.data))
    ensures output.text == old(output.text) + NodeText(FileNode(name, Generic(fullPath)), indentation)
  {
    var external := GenericPath(fullPath);
    ghost var before := output.text;
    output.Append("{\n");
    output.AppendType(indentation + 2, "file");
    output.AppendLine(indentation + 2, "\"name\": ", name, ",\n");
    output.AppendLine(indentation + 2, "\"external-contents\": ", external, "\n");
    CloseBrace(output, indentation);
    Regroup5(before, "{\n", TypeLine(indentation + 2, "file"),
      Line(indentation + 2, "\"name\": ", name, ",\n"),
      Line(indentation + 2, "\"external-contents\": ", external, "\n"), Spaces(indentation) + "}");
  }

  method CloseBrace(output: TextBuffer, indentation: nat)
    requires output.Valid()
    modifies output, output.data
    ensures output.Valid() && (output.data == old(output.data) || fresh(output.data))
    ensures output.text == old(output.text) + (Spaces(indentation) + "}")
  {
    output.Indent(indentation);
    output.Append("}");
  }

  /** One pass of the loop over the selected entries, up to the separator. */
  method RenderEntry(path: string, disk: Disk, name: string, output: TextBuffer, indentation: nat)
    returns (error: Option<Error>)
    requires Resolve(disk, path).Directory? && Listed(name) && output.Valid()
    modifies output, output.data
    ensures output.Valid() && (output.data == old(output.data) || fresh(output.data))
    ensures match CanonEntry(OnDisk(disk, path), path, name)
      case Err(e) => error == Some(e)
      case Ok(t) =>
        error == None
        && output.text == old(output.text) + (Spaces(indentation) + NodeText(t, indentation))
    decreases Anchor(OnDisk(disk, path)), Room(OnDisk(disk, path)), 0, 0
  {
    hide CanonDir, NodeText, Spaces, Generic, Join, Resolve, Anchor, Room;
    var fullPath := JoinPath(path, name);
    var child := Resolve(disk, fullPath);
    ghost var before := output.text;
    output.Indent(indentation);
    match child
    case Missing =>
      return Some(StatFailed(fullPath));
    case Directory(isSymlink, _, _) =>
      if isSymlink {
        var generic := GenericPath(fullPath);
        return Some(DirectorySymlink(generic));
      }
      BelowDecreases(OnDisk(disk, path), name);
      error := RenderDirectory(fullPath, name, disk, output, indentation);
      if error.None? {
        Assoc(before, Spaces(indentation), NodeText(CanonDir(OnDisk(disk, fullPath), fullPath, name).value, indentation));
      }
    case Regular =>
      RenderFile(name, fullPath, output, indentation);
      Assoc(before, Spaces(indentation), NodeText(FileNode(name, Generic(fullPath)), indentation));
      error := None;
    case Special =>
      var generic := GenericPath(fullPath);
      return Some(Unsupported(generic));
  }

  lemma {:induction false} EntriesPointwise(at: Spot, path: string, chosen: seq<CiEntry>, index: nat, i: nat)
    requires NodeOf(at).Directory? && index <= i < |chosen| && AllListed(chosen)
    requires CanonEntries(at, path, chosen, index).Ok?
    ensures CanonEntry(at, path, chosen[i].name) == Ok(CanonEntries(at, path, chosen, index).value[i - index])
    decreases i - index
  {
    hide CanonEntry, NodeOf, Listed;
    if index < i {
      EntriesPointwise(at, path, chosen, index + 1, i);
    }
  }

  method RenderEntries(path: string, disk: Disk, chosen: seq<CiEntry>, output: TextBuffer, indentation: nat)
    returns (error: Option<Error>)
    requires Resolve(disk, path).Directory? && AllListed(chosen) && output.Valid()
    modifies output, output.data
    ensures output.Valid() && (output.data == old(output.data) || fresh(output.data))
    ensures match CanonEntries(OnDisk(disk, path), path, chosen, 0)
      case Err(e) => error == Some(e)
      case Ok(items) =>
        error == None
        && output.text == old(output.text) + ItemsText(items, 0, indentation)
    decreases Anchor(OnDisk(disk, path)), Room(OnDisk(disk, path)), 1, 0
  {
    hide CanonEntry, NodeText, Spaces;
    ghost var canon := CanonEntries(OnDisk(disk, path), path, chosen, 0);
    ghost var before := output.text;
    error := None;
    var index := 0;
    while index < |chosen|
      invariant 0 <= index <= |chosen| && error == None
      invariant output.Valid() && (output.data == old(output.data) || fresh(output.data))
      invariant match CanonEntries(OnDisk(disk, path), path, chosen, index)
        case Err(e) => canon == Err(e)
        case Ok(items) =>
          canon.Ok?
          && output.text + ItemsText(canon.value, index, indentation)
             == before + ItemsText(canon.value, 0, indentation)
    {
      ghost var now := output.text;
      error := RenderEntry(path, disk, chosen[index].name, output, indentation);
      if error.Some? {
        return;
      }
      if index + 1 != |chosen| {
        output.Append(",\n");
      } else {
        output.Append("\n");
      }
      if canon.Ok? {
        EntriesPointwise(OnDisk(disk, path), path, chosen, 0, index);
        ItemStep(now, canon.value, index, indentation);
      }
      index := index + 1;
    }
    assert output.text + "" == output.text;
  }

  lemma ItemStep(before: string, items: seq<Overlay>, index: nat, indentation: nat)
    requires index < |items|
    ensures before + ItemsText(items, index, indentation)
      == before + (Spaces(indentation) + NodeText(items[index], indentation))
         + (if index + 1 != |items| then ",\n" else "\n") + ItemsText(items, index + 1, indentation)
  {
    hide NodeText, Spaces;
    var node := Spaces(indentation) + NodeText(items[index], indentation);
    var separator := if index + 1 != |items| then ",\n" else "\n";
    Assoc(before, node, separator);
    Assoc(before, node + separator, ItemsText(items, index + 1, indentation));
  }

  /** Appends the overlay of a directory, or reports the error that CanonDir names. */
  method RenderDirectory(path: string, virtualName: string, disk: Disk, output: TextBuffer, indentation: nat)
    returns (error: Option<Error>)
    requires output.Valid()
    modifies output, output.data
    ensures output.Valid() && (output.data == old(output.data) || fresh(output.data))
    ensures match CanonDir(OnDisk(disk, path), path, virtualName)
      case Err(e) => error == Some(e)
      case Ok(t) => error == None && output.text == old(output.text) + NodeText(t, indentation)
    decreases Anchor(OnDisk(disk, path)), Room(OnDisk(disk, path)), 2, 0
  {
    hide Listing, Collision, Collapsed, ContentsText, Line, TypeLine, CanonEntries, ItemsText, Names;
    var entries;
    entries, error := CollectPreferredEntries(path, disk);
    if error.Some? {
      return;
    }
    var chosen := entries.values[..entries.count];
    ChosenListed(Names(Resolve(disk, path).entries));
    ghost var before := output.text;
    OpenDirectory(virtualName, output, indentation);
    error := RenderContents(path, disk, chosen, output, indentation);
    if error.Some? {
      return;
    }
    output.Append("\n");
    CloseBrace(output, indentation);
  }

  method OpenDirectory(virtualName: string, output: TextBuffer, indentation: nat)
    requires output.Valid()
    modifies output, output.data
    ensures output.Valid() && (output.data == old(output.data) || fresh(output.data))
    ensures output.text
      == old(output.text) + "{\n" + TypeLine(indentation + 2, "directory") + Line(indentation + 2, "\"name\": ", virtualName, "")
  {
    output.Append("{\n");
    output.AppendType(indentation + 2, "directory");
    output.AppendLine(indentation + 2, "\"name\": ", virtualName, "");
  }

  method OpenList(output: TextBuffer, indentation: nat)
    requires output.Valid()
    modifies output, output.data
    ensures output.Valid() && (output.data == old(output.data) || fresh(output.data))
    ensures output.text
      == old(output.text) + (",\n" + Spaces(indentation + 2) + "\"contents\": [\n")
  {
    output.Append(",\n");
    output.Indent(indentation + 2);
    output.Append("\"contents\": [\n");
  }

  method CloseList(output: TextBuffer, indentation: nat)
    requires output.Valid()
    modifies output, output.data
    ensures output.Valid() && (output.data == old(output.data) || fresh(output.data))
    ensures output.text == old(output.text) + (Spaces(indentation + 2) + "]")
  {
    output.Indent(indentation + 2);
    output.Append("]");
  }

  method RenderContents(path: string, disk: Disk, chosen: seq<CiEntry>, output: TextBuffer, indentation: nat)
    returns (error: Option<Error>)
    requires Resolve(disk, path).Directory? && AllListed(chosen) && output.Valid()
    modifies output, output.data
    ensures output.Valid() && (output.data == old(output.data) || fresh(output.data))
    ensures match CanonEntries(OnDisk(disk, path), path, chosen, 0)
      case Err(e) => error == Some(e)
      case Ok(items) =>
        error == None
        && output.text == old(output.text) + ContentsText(items, indentation)
    decreases Anchor(OnDisk(disk, path)), Room(OnDisk(disk, path)), 1, 1
  {
    hide CanonEntry, ItemsText, NodeText, Spaces;
    ghost var before := output.text;
    if chosen == [] {
      return None;
    }
    ghost var canon := CanonEntries(OnDisk(disk, path), path, chosen, 0);
    OpenList(output, indentation);
    error := RenderEntries(path, disk, chosen, output, indentation + 4);
    if error.Some? {
      return;
    }
    ghost var items := ItemsText(canon.value, 0, indentation + 4);
    CloseList(output, indentation);
  }

  // ---- the whole overlay

  datatype RootEntry = RootEntry(path: string, generic: string)

  /** compare_roots(a, b) <= 0. */
  predicate RootAtMost(a: RootEntry, b: RootEntry) {
    AtMost(a.generic, b.generic)
  }

  lemma RootOrderTotal()
    ensures TotalPreorder(RootAtMost)
  {
    forall a, b ensures RootAtMost(a, b) || RootAtMost(b, a) {
      AtMostTotalOrder(a.generic, b.generic, b.generic);
    }
    forall a, b, c | RootAtMost(a, b) && RootAtMost(b, c) ensures RootAtMost(a, c) {
      AtMostTotalOrder(a.generic, b.generic, c.generic);
    }
  }

  function RootsOf(roots: seq<string>): (r: seq<RootEntry>)
    ensures |r| == |roots|
  {
    seq(|roots|, i requires 0 <= i < |roots| => RootEntry(roots[i], Generic(roots[i])))
  }

  /** An order in which qsort may leave the roots; roots of one generic form may come either way. */
  ghost predicate RootOrder(roots: seq<string>, order: seq<RootEntry>) {
    SortOf(RootAtMost, RootsOf(roots), order)
  }

  function CanonRoot(root: RootEntry, disk: Disk): Result<Overlay, Error> {
    CanonDir(OnDisk(disk, root.path), root.path, root.generic)
  }

  function CanonRoots(order: seq<RootEntry>, disk: Disk, index: nat): (r: Result<seq<Overlay>, Error>)
    requires index <= |order|
    ensures r.Ok? ==> |r.value| == |order| - index
    decreases |order| - index
  {
    if index == |order| then Ok([])
    else match CanonRoot(order[index], disk)
      case Err(e) => Err(WalkFailed(order[index].generic, e))
      case Ok(first) =>
        match CanonRoots(order, disk, index + 1)
        case Err(e) => Err(e)
        case Ok(others) => Ok([first] + others)
  }

  function Header(): string {
    "{\n" + "  \"version\": 0,\n" + "  \"case-sensitive\": false,\n" + "  \"roots\": [\n"
  }

  function DocumentText(items: seq<Overlay>): string {
    Header() + ItemsText(items, 0, 4) + "  ]\n}\n"
  }

  /** What is emitted for the roots in the given order. */
  function Emitted(order: seq<RootEntry>, disk: Disk): Result<string, Error> {
    match CanonRoots(order, disk, 0)
    case Err(e) => Err(e)
    case Ok(items) => Ok(DocumentText(items))
  }

  lemma {:induction false} RootsPointwise(order: seq<RootEntry>, disk: Disk, index: nat, i: nat)
    requires index <= i < |order| && CanonRoots(order, disk, index).Ok?
    ensures CanonRoot(order[i], disk) == Ok(CanonRoots(order, disk, index).value[i - index])
    decreases i - index
  {
    hide CanonRoot;
    if index < i {
      RootsPointwise(order, disk, index + 1, i);
    }
  }

  method SortRoots(roots: seq<string>) returns (sorted: array<RootEntry>)
    ensures fresh(sorted) && RootOrder(roots, sorted[..])
  {
    sorted := new RootEntry[|roots|];
    var index := 0;
    while index < |roots|
      invariant 0 <= index <= |roots|
      invariant sorted[..index] == RootsOf(roots)[..index]
    {
      var generic := GenericPath(roots[index]);
      sorted[index] := RootEntry(roots[index], generic);
      index := index + 1;
    }
    assert sorted[..sorted.Length] == RootsOf(roots);
    RootOrderTotal();
    Qsort(sorted, sorted.Length, RootAtMost);
    assert sorted[..] == sorted[..sorted.Length];
  }

  method RenderRoots(order: seq<RootEntry>, disk: Disk, output: TextBuffer) returns (error: Option<Error>)
    requires output.Valid()
    modifies output, output.data
    ensures output.Valid() && (output.data == old(output.data) || fresh(output.data))
    ensures match CanonRoots(order, disk, 0)
      case Err(e) => error == Some(e)
      case Ok(items) => error == None && output.text == old(output.text) + ItemsText(items, 0, 4)
  {
    hide CanonDir, NodeText, Spaces;
    ghost var canon := CanonRoots(order, disk, 0);
    ghost var before := output.text;
    error := None;
    var index := 0;
    while index < |order|
      invariant 0 <= index <= |order| && error == None
      invariant output.Valid() && (output.data == old(output.data) || fresh(output.data))
      invariant match CanonRoots(order, disk, index)
        case Err(e) => canon == Err(e)
        case Ok(items) =>
          canon.Ok?
          && output.text + ItemsText(canon.value, index, 4) == before + ItemsText(canon.value, 0, 4)
    {
      ghost var now := output.text;
      error := RenderRoot(order[index], disk, output);
      if error.Some? {
        return;
      }
      if index + 1 != |order| {
        output.Append(",\n");
      } else {
        output.Append("\n");
      }
      if canon.Ok? {
        RootsPointwise(order, disk, 0, index);
        ItemStep(now, canon.value, index, 4);
      }
      index := index + 1;
    }
    assert output.text + "" == output.text;
  }

  method RenderRoot(root: RootEntry, disk: Disk, output: TextBuffer) returns (error: Option<Error>)
    requires output.Valid()
    modifies output, output.data
    ensures output.Valid() && (output.data == old(output.data) || fresh(output.data))
    ensures match CanonRoot(root, disk)
      case Err(e) => error == Some(WalkFailed(root.generic, e))
      case Ok(t) => error == None && output.text == old(output.text) + (Spaces(4) + NodeText(t, 4))
  {
    hide CanonDir, NodeText, Spaces;
    ghost var before := output.text;
    output.Indent(4);
    error := RenderDirectory(root.path, root.generic, disk, output, 4);
    if error.Some? {
      return Some(WalkFailed(root.generic, error.value));
    }
    Assoc(before, Spaces(4), NodeText(CanonRoot(root, disk).value, 4));
  }

  /** The generator.  order is the order qsort happened to choose. */
  method Generate(roots: seq<string>, disk: Disk)
    returns (result: Result<string, Error>, ghost order: seq<RootEntry>)
    ensures roots == [] ==> result == Err(NoRoots)
    ensures roots != [] ==> RootOrder(roots, order) && result == Emitted(order, disk)
  {
    hide CanonRoots, ItemsText, RootOrder, Header;
    if roots == [] {
      return Err(NoRoots), [];
    }
    var sorted := SortRoots(roots);
    order := sorted[..];
    var output := new TextBuffer();
    OpenDocument(output);
    var error := RenderRoots(sorted[..], disk, output);
    if error.Some? {
      return Err(error.value), order;
    }
    output.Append("  ]\n}\n");
    assert output.data[..output.length] == output.text;
    result := Ok(output.data[..output.length]);
  }

  method OpenDocument(output: TextBuffer)
    requires output.Valid() && output.text == ""
    modifies output, output.data
    ensures output.Valid() && (output.data == old(output.data) || fresh(output.data))
    ensures output.text == Header()
  {
    output.Append("{\n" + "  \"version\": 0,\n" + "  \"case-sensitive\": false,\n");
    output.Append("  \"roots\": [\n");
  }
}
