/** The disk as the overlay generator sees it: a tree in which stat, lstat and opendir resolve path strings. */
module CiDisk {
  import opened Sequences
  import opened CText
  import opened CiFilesystem

  // ---- nodes

  /** A name readdir can return: not empty, and without a slash. */
  predicate ValidName(name: string) {
    name != "" && Lacks(name, '/')
  }

  type FileName = name: string | ValidName(name) witness "."

  /** What stat and opendir find at a path.  A regular file may be reached through a symlink; a
      directory lists its entries in readdir's order, "." and ".." included, unless it cannot be read. */
  datatype Node =
    | Regular
    | Special
    | Missing
    | Directory(isSymlink: bool, readable: bool, entries: seq<Entry>)

  datatype Entry = Entry(name: FileName, node: Node)

  predicate IsDot(name: string) {
    name == "." || name == ".."
  }

  /** A name append_entry receives. */
  predicate Listed(name: string) {
    ValidName(name) && !IsDot(name)
  }

  /** The names append_entry receives, in enumeration order. */
  function Names(entries: seq<Entry>): (r: seq<string>)
    ensures forall name | name in r :: Listed(name)
  {
    if entries == [] then []
    else (if IsDot(entries[0].name) then [] else [entries[0].name]) + Names(entries[1..])
  }

  /** The node listed under a name. */
  function Child(entries: seq<Entry>, name: string): Node {
    if entries == [] then Missing
    else if entries[0].name == name then entries[0].node
    else Child(entries[1..], name)
  }

  lemma {:induction false} ChildIsListed(entries: seq<Entry>, name: string)
    ensures Child(entries, name) == Missing
      || exists i | 0 <= i < |entries| :: entries[i].node == Child(entries, name) && entries[i].name == name
  {
    if entries != [] && entries[0].name != name {
      ChildIsListed(entries[1..], name);
      if i :| 0 <= i < |entries[1..]| && entries[1..][i].node == Child(entries, name) && entries[1..][i].name == name {
        assert entries[i + 1].node == Child(entries, name);
      }
    }
  }

  // ---- resolving a path

  /** The tree below "/", and the working directory's.  "." stays where it is; ".." leads where the
      directory lists it to lead. */
  datatype Disk = Disk(root: Node, cwd: Node)

  function Step(node: Node, component: string): Node {
    if !node.Directory? then Missing
    else if component == "" || component == "." then node
    else Child(node.entries, component)
  }

  function Walk(node: Node, components: seq<string>): Node {
    if components == [] then node else Step(Walk(node, Front(components)), Final(components))
  }

  function Start(disk: Disk, path: string): Node {
    if path != "" && path[0] == '/' then disk.root else disk.cwd
  }

  /** The directory in which the last component of a path is looked up. */
  function ParentOf(disk: Disk, path: string): Node {
    Walk(Start(disk, path), Front(Split(path, '/')))
  }

  function LastComponent(path: string): string {
    Final(Split(path, '/'))
  }

  /** What a path leads to. */
  function Resolve(disk: Disk, path: string): Node {
    if path == "" then Missing else Step(ParentOf(disk, path), LastComponent(path))
  }

  predicate EndsIn(path: string, c: char) {
    path != "" && path[|path| - 1] == c
  }

  /** ci_join_path: a path that ends in a backslash gets no separator, so its last component and the name
      become one component. */
  lemma JoinSplits(path: string, name: string)
    requires path != "" && ValidName(name)
    ensures var components, joined := Split(path, '/'), Split(Join(path, name), '/');
      if EndsIn(path, '/') then Final(components) == "" && joined == Front(components) + [name]
      else if EndsIn(path, '\\') then
        EndsIn(Final(components), '\\') && joined == Front(components) + [Final(components) + name]
      else joined == components + [name] && Final(components) != ""
  {
    hide Split, Lacks;
    SplitFinal(path, '/');
    if EndsIn(path, '/') || EndsIn(path, '\\') {
      SplitAppend(path, name, '/');
      assert Final(Split(path, '/')) == "" ==> Final(Split(path, '/')) + name == name;
    } else {
      SplitExtend(path, name, '/');
      assert Join(path, name) == path + (['/'] + name);
    }
  }

  lemma WalkOne(node: Node, components: seq<string>, component: string)
    ensures Walk(node, components + [component]) == Step(Walk(node, components), component)
    ensures Front(components + [component]) == components && Final(components + [component]) == component
  {
    assert Front(components + [component]) == components;
  }

  lemma StartOfJoin(disk: Disk, path: string, name: string)
    requires path != ""
    ensures Join(path, name) != "" && Start(disk, Join(path, name)) == Start(disk, path)
  {
  }

  /** Where the joined path leads: to the entry of the directory, unless the directory's path ends in a
      backslash.  Then it leads to what its parent lists under the two names glued together. */
  lemma JoinResolves(disk: Disk, path: string, name: string)
    requires path != "" && ValidName(name)
    ensures Resolve(disk, Join(path, name))
      == if EndsIn(path, '\\') then Step(ParentOf(disk, path), LastComponent(path) + name)
         else Step(Resolve(disk, path), name)
    ensures ParentOf(disk, Join(path, name))
      == if EndsIn(path, '\\') || EndsIn(path, '/') then ParentOf(disk, path) else Resolve(disk, path)
    ensures LastComponent(Join(path, name)) == if EndsIn(path, '\\') then LastComponent(path) + name else name
  {
    hide Split, Walk, Start, Join, Step;
    JoinSplits(path, name);
    StartOfJoin(disk, path, name);
    var start, components := Start(disk, path), Split(path, '/');
    WalkOne(start, Front(components), name);
    WalkOne(start, Front(components), Final(components) + name);
    WalkOne(start, components, name);
    WalkParts(start, components);
    if EndsIn(path, '/') && !EndsIn(path, '\\') {
      StepTwice(ParentOf(disk, path), name);
    }
  }

  lemma WalkParts(start: Node, components: seq<string>)
    requires components != []
    ensures Walk(start, components) == Step(Walk(start, Front(components)), Final(components))
  {
  }

  lemma StepTwice(node: Node, name: string)
    ensures Step(Step(node, ""), name) == Step(node, name)
  {
  }

  // ---- places to walk from

  /** Where the walk stands: at a path of a disk, as the program does, or at a node of a tree, descending
      from entry to entry. */
  datatype Spot = OnDisk(disk: Disk, path: string) | Bare(tree: Node)

  function NodeOf(at: Spot): Node {
    match at
    case OnDisk(disk, path) => Resolve(disk, path)
    case Bare(node) => node
  }

  function Below(at: Spot, name: string): Spot {
    match at
    case OnDisk(disk, path) => OnDisk(disk, Join(path, name))
    case Bare(node) => Bare(Step(node, name))
  }

  // ---- every walk ends

  function Longest(entries: seq<Entry>): nat {
    if entries == [] then 0
    else
      var rest := Longest(entries[1..]);
      if |entries[0].name| > rest then |entries[0].name| else rest
  }

  lemma {:induction false} LongestIsLongest(entries: seq<Entry>, i: nat)
    requires i < |entries|
    ensures |entries[i].name| <= Longest(entries)
  {
    if i > 0 {
      LongestIsLongest(entries[1..], i - 1);
    }
  }

  function Anchor(at: Spot): Node {
    match at
    case OnDisk(disk, path) => ParentOf(disk, path)
    case Bare(node) => node
  }

  /** How much longer the last component can still grow in the same directory; "." can be left once. */
  function Room(at: Spot): nat {
    match at
    case OnDisk(disk, path) =>
      var parent, last := ParentOf(disk, path), LastComponent(path);
      if !parent.Directory? then 0
      else
        var longest := Longest(parent.entries);
        (if last == "." then longest + 1 else 0) + if |last| < longest then longest - |last| else 0
    case Bare(_) => 0
  }

  /** Going down from directory to directory, the directory that holds the last component gets smaller, or it
      stays and the component gets longer. */
  lemma BelowDecreases(at: Spot, name: string)
    requires Listed(name) && NodeOf(at).Directory? && NodeOf(Below(at, name)).Directory?
    ensures Anchor(at).Directory?
    ensures (Anchor(Below(at, name)) == Anchor(at) && Room(Below(at, name)) < Room(at))
      || exists i | 0 <= i < |Anchor(at).entries| :: Anchor(at).entries[i].node == Anchor(Below(at, name))
  {
    hide Split, Join, Walk, Start, Longest;
    match at
    case Bare(node) => ChildIsListed(node.entries, name);
    case OnDisk(disk, path) =>
      JoinResolves(disk, path, name);
      JoinSplits(path, name);
      var parent, last := ParentOf(disk, path), LastComponent(path);
      if EndsIn(path, '\\') {
        Grows(parent, last, last + name);
      } else if EndsIn(path, '/') {
        Grows(parent, last, name);
      } else if last == "." {
        Grows(parent, "", name);
      } else {
        ChildIsListed(parent.entries, last);
      }
  }

  lemma Grows(parent: Node, last: string, next: string)
    requires Step(parent, next).Directory? && !IsDot(next) && |last| < |next|
    ensures parent.Directory? && |last| < Longest(parent.entries) && |next| <= Longest(parent.entries)
  {
    ChildIsListed(parent.entries, next);
    var i :| 0 <= i < |parent.entries| && parent.entries[i].name == next;
    LongestIsLongest(parent.entries, i);
  }
}
