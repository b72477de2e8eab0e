/** The emitted document, read as JSON by its own keys. */
module CiDocument {
  import opened CText
  import opened Results
  import opened CiFilesystem
  import opened CiDisk
  import opened CiVfs
  import opened Json
  import opened CiOverlayJson
  import opened CiOverlay

  // ---- reading a document

  function MemberValue(members: seq<Member>, key: string): Option<Json> {
    if members == [] then None
    else if members[0].name == key then Some(members[0].value)
    else MemberValue(members[1..], key)
  }

  function Field(j: Json, key: string): Option<Json> {
    match j
    case Object(members) => MemberValue(members, key)
    case _ => None
  }

  /** The nodes listed under "contents"; none when there is no such key. */
  function NodesIn(j: Json): seq<Json> {
    match Field(j, "contents")
    case Some(Array(items)) => items
    case _ => []
  }

  predicate Named(j: Json, component: string) {
    match Field(j, "name")
    case Some(String(name)) => Fold(name) == Fold(component)
    case _ => false
  }

  function FindNode(items: seq<Json>, component: string): Option<Json> {
    if items == [] then None
    else if Named(items[0], component) then Some(items[0])
    else FindNode(items[1..], component)
  }

  /** A case-insensitive lookup in the document. */
  function LookupJson(j: Json, path: seq<string>): Option<Json>
    decreases |path|
  {
    if path == [] then Some(j)
    else match FindNode(NodesIn(j), path[0])
      case None => None
      case Some(child) => LookupJson(child, path[1..])
  }

  predicate IsFile(j: Json, name: string, external: string) {
    && Field(j, "type") == Some(String("file"))
    && Field(j, "name") == Some(String(name))
    && Field(j, "external-contents") == Some(String(external))
  }

  predicate IsDirectory(j: Json, name: string) {
    && Field(j, "type") == Some(String("directory"))
    && Field(j, "name") == Some(String(name))
  }

  /** Every lookup finds what the disk has at the preferred spellings: a file under its path in generic form, or
      a directory; and nothing where the disk has nothing. */
  ghost predicate Answers(j: Json, place: Place) {
    forall path :: AnswersAt(j, place, path)
  }

  ghost predicate AnswersAt(j: Json, place: Place, path: seq<string>) {
    match Descend(place, path)
    case None => LookupJson(j, path) == None
    case Some(found) =>
      && LookupJson(j, path).Some?
      && if NodeOf(found.at).Regular? then IsFile(LookupJson(j, path).value, found.name, Generic(found.path))
         else IsDirectory(LookupJson(j, path).value, found.name)
  }

  // ---- a node of the overlay as a document

  lemma Keys()
    ensures "type" != "name" && "type" != "external-contents" && "type" != "contents"
    ensures "name" != "external-contents" && "name" != "contents" && "contents" != "external-contents"
  {
    assert |"type"| == 4 && |"name"| == 4 && |"contents"| == 8 && |"external-contents"| == 17;
    assert "type"[0] != "name"[0];
  }

  lemma {:induction false} MemberAt(members: seq<Member>, i: nat)
    requires i < |members| && forall k | 0 <= k < i :: members[k].name != members[i].name
    ensures MemberValue(members, members[i].name) == Some(members[i].value)
  {
    if i > 0 {
      MemberAt(members[1..], i - 1);
    }
  }

  lemma {:induction false} NoMember(members: seq<Member>, key: string)
    requires forall k | 0 <= k < |members| :: members[k].name != key
    ensures MemberValue(members, key) == None
  {
    if members != [] {
      NoMember(members[1..], key);
    }
  }

  lemma FileFields(name: string, external: string)
    ensures IsFile(NodeJson(FileNode(name, external)), name, external)
    ensures NodesIn(NodeJson(FileNode(name, external))) == []
  {
    hide MemberValue;
    Keys();
    var members := NodeJson(FileNode(name, external)).members;
    MemberAt(members, 0);
    MemberAt(members, 1);
    MemberAt(members, 2);
    NoMember(members, "contents");
  }

  lemma DirFields(name: string, contents: seq<Overlay>)
    ensures IsDirectory(NodeJson(DirNode(name, contents)), name)
    ensures NodesIn(NodeJson(DirNode(name, contents))) == ItemsJson(contents, 0)
  {
    hide MemberValue, ItemsJson;
    Keys();
    var members := NodeJson(DirNode(name, contents)).members;
    MemberAt(members, 0);
    MemberAt(members, 1);
    if contents != [] {
      MemberAt(members, 2);
    } else {
      NoMember(members, "contents");
      NoItems();
    }
  }

  lemma NoItems()
    ensures ItemsJson([], 0) == []
  {
  }

  lemma NamedNode(t: Overlay, component: string)
    ensures Named(NodeJson(t), component) <==> Fold(t.name) == Fold(component)
  {
    hide NodeJson, Fold;
    match t
    case FileNode(name, external) => FileFields(name, external);
    case DirNode(name, contents) => DirFields(name, contents);
  }

  lemma {:induction false} ItemsJsonAt(items: seq<Overlay>, index: nat, i: nat)
    requires index <= i < |items|
    ensures |ItemsJson(items, index)| == |items| - index && ItemsJson(items, index)[i - index] == NodeJson(items[i])
    decreases |items| - index
  {
    hide NodeJson;
    if index < i {
      ItemsJsonAt(items, index + 1, i);
    } else if index + 1 < |items| {
      ItemsJsonAt(items, index + 1, index + 1);
    }
  }

  lemma {:induction false} FindNodeAgrees(items: seq<Overlay>, index: nat, component: string)
    requires index <= |items|
    ensures FindNode(ItemsJson(items, index), component)
      == match Find(items[index..], component) case None => None case Some(t) => Some(NodeJson(t))
    decreases |items| - index
  {
    hide NodeJson, Named, Fold;
    if index < |items| {
      NamedNode(items[index], component);
      FindNodeAgrees(items, index + 1, component);
      assert items[index..][1..] == items[index + 1..];
      assert ItemsJson(items, index)[1..] == ItemsJson(items, index + 1);
    }
  }

  /** Looking up in the document of an overlay is looking up in the overlay. */
  lemma {:induction false} LookupJsonAgrees(t: Overlay, path: seq<string>)
    ensures LookupJson(NodeJson(t), path)
      == match Lookup(t, path) case None => None case Some(u) => Some(NodeJson(u))
    decreases |path|
  {
    hide NodeJson, FindNode, Find, NodesIn, ItemsJson;
    if path != [] {
      match t
      case FileNode(name, external) =>
        FileFields(name, external);
        FindNothingIn(path[0]);
      case DirNode(name, contents) =>
        DirFields(name, contents);
        FindNodeAgrees(contents, 0, path[0]);
        assert contents[0..] == contents;
        if Find(contents, path[0]).Some? {
          LookupJsonAgrees(Find(contents, path[0]).value, path[1..]);
        }
    }
  }

  lemma FindNothingIn(component: string)
    ensures FindNode([], component) == None
  {
  }

  // ---- the emitted text

  lemma ShownFields(found: Place)
    requires Shown(found).Ok?
    ensures var j := NodeJson(Shown(found).value);
      if NodeOf(found.at).Regular? then IsFile(j, found.name, Generic(found.path)) else IsDirectory(j, found.name)
  {
    hide NodeJson, CanonDir, NodeOf, IsFile, IsDirectory, Generic;
    if NodeOf(found.at).Regular? {
      FileFields(found.name, Generic(found.path));
    } else {
      RenderedIsDir(found.at, found.path, found.name);
      CanonNames(found.at, found.path, found.name);
      DirFields(found.name, Shown(found).value.contents);
    }
  }

  lemma NodeAnswers(place: Place)
    requires ProperAt(place.at) && Shown(place).Ok?
    ensures Answers(NodeJson(Shown(place).value), place)
  {
    hide Shown, NodeJson, LookupJson, Lookup, Descend, ProperAt, NodeOf, IsFile, IsDirectory;
    var t := Shown(place).value;
    forall path ensures AnswersAt(NodeJson(t), place, path) {
      LookupAgrees(place, path);
      LookupJsonAgrees(t, path);
      if Descend(place, path).Some? {
        ShownFields(Descend(place, path).value);
      }
    }
  }

  /** The place of a root. */
  function RootPlaceOf(disk: Disk, path: string): Place {
    Place(OnDisk(disk, path), path, Generic(path))
  }

  /** What is emitted is a document of this form, with a directory for each root in the sorted order, under the
      root's path in generic form; and lookups in it answer as the disk does. */
  lemma EmittedDocument(roots: seq<string>, order: seq<RootEntry>, disk: Disk) returns (items: seq<Json>)
    requires roots != [] && RootOrder(roots, order) && ProperDisk(disk) && Emitted(order, disk).Ok?
    ensures ParseText(Emitted(order, disk).value)
      == Some(Object([Member("version", Number("0")), Member("case-sensitive", Bool(false)), Member("roots", Array(items))]))
    ensures |items| == |order|
    ensures forall i | 0 <= i < |order| ::
      order[i].generic == Generic(order[i].path)
      && IsDirectory(items[i], Generic(order[i].path)) && Answers(items[i], RootPlaceOf(disk, order[i].path))
  {
    hide CanonRoots, CanonDir, RootOrder, ProperDisk, DocumentText, ParseText, NodeJson, ItemsJson, Answers, IsDirectory;
    hide Generic;
    var overlays := CanonRoots(order, disk, 0).value;
    items := ItemsJson(overlays, 0);
    GenerationExact(roots, order, disk);
    if overlays == [] {
      NoItems();
    } else {
      ItemsJsonAt(overlays, 0, 0);
    }
    forall i | 0 <= i < |order|
      ensures order[i].generic == Generic(order[i].path)
      ensures IsDirectory(items[i], Generic(order[i].path))
      ensures Answers(items[i], RootPlaceOf(disk, order[i].path))
    {
      OrderedRoots(roots, order, i);
      RootsPointwise(order, disk, 0, i);
      ItemsJsonAt(overlays, 0, i);
      RootAnswers(disk, order[i].path, overlays[i]);
    }
  }

  lemma RootAnswers(disk: Disk, path: string, t: Overlay)
    requires ProperDisk(disk) && CanonDir(OnDisk(disk, path), path, Generic(path)) == Ok(t)
    ensures IsDirectory(NodeJson(t), Generic(path)) && Answers(NodeJson(t), RootPlaceOf(disk, path))
  {
    hide CanonDir, ProperDisk, NodeJson, Answers, IsDirectory, Renderable, Resolve;
    var place := RootPlaceOf(disk, path);
    SucceedsExactly(place.at, path, Generic(path));
    RenderableIsDir(place.at);
    ShownDirectory(place);
    NodeAnswers(place);
    ShownFields(place);
  }

  /** The roots come in the byte order of their generic forms, each as often as it was given. */
  lemma RootsInOrder(roots: seq<string>, order: seq<RootEntry>, i: nat, j: nat)
    requires RootOrder(roots, order) && i < j < |order|
    ensures Generic(order[i].path) == Generic(order[j].path) || Less(Generic(order[i].path), Generic(order[j].path))
  {
    hide Generic;
    OrderedRoots(roots, order, i);
    OrderedRoots(roots, order, j);
  }

  lemma {:induction false} PathsKept(roots: seq<string>, order: seq<RootEntry>, path: string)
    requires RootOrder(roots, order)
    ensures multiset(order)[RootEntry(path, Generic(path))] == multiset(roots)[path]
  {
    hide Generic;
    RootsCounted(roots, path);
  }

  lemma {:induction false} RootsCounted(roots: seq<string>, path: string)
    ensures multiset(RootsOf(roots))[RootEntry(path, Generic(path))] == multiset(roots)[path]
  {
    hide Generic;
    if roots != [] {
      RootsCounted(roots[1..], path);
      assert RootsOf(roots) == [RootEntry(roots[0], Generic(roots[0]))] + RootsOf(roots[1..]);
      assert roots == [roots[0]] + roots[1..];
    }
  }

  /** A control character without a short escape is four hexadecimal digits, in lower case. */
  lemma ControlEscapes()
    ensures EscapeChar('\U{1f}') == "\\u001f" && EscapeChar('\U{b}') == "\\u000b" && EscapeChar('\U{0}') == "\\u0000"
  {
  }
}
