/** What the generator promises about a disk: when it succeeds, what it does not depend on, and that the
overlay answers a case-insensitive lookup as the disk would. */
module CiOverlay {
  import opened Sequences
  import opened CText
  import opened Results
  import opened Sorting
  import opened CiFilesystem
  import opened CiDisk
  import opened CiVfs
  import opened Json
  import opened CiOverlayJson

  // ---- directories as a file system keeps them

  ghost function DirNames(node: Node): (r: set<string>)
    requires node.Directory?
    ensures forall name | name in r :: Listed(name)
  {
    NameSet(Names(node.entries))
  }

  /** Every entry but "." and ".." is listed, hidden files included. */
  lemma DirNamesExact(node: Node, name: string)
    requires node.Directory?
    ensures name in DirNames(node)
       <==> name != "." && name != ".." && exists i | 0 <= i < |node.entries| :: node.entries[i].name == name
  {
    NamesExact(node.entries, name);
  }

  lemma {:induction false} NamesExact(entries: seq<Entry>, name: string)
    ensures name in Names(entries)
       <==> name != "." && name != ".." && exists i | 0 <= i < |entries| :: entries[i].name == name
  {
    if entries != [] {
      NamesExact(entries[1..], name);
      if i :| 0 <= i < |entries[1..]| && entries[1..][i].name == name {
        assert entries[i + 1].name == name;
      }
      assert forall i | 0 < i < |entries| :: entries[i] == entries[1..][i - 1];
    }
  }

  /** A directory lists each name once, at every depth. */
  ghost predicate Proper(node: Node) {
    node.Directory? ==>
      Distinct(Names(node.entries)) && forall i | 0 <= i < |node.entries| :: Proper(node.entries[i].node)
  }

  ghost predicate ProperDisk(disk: Disk) {
    Proper(disk.root) && Proper(disk.cwd)
  }

  ghost predicate ProperAt(at: Spot) {
    match at
    case OnDisk(disk, _) => ProperDisk(disk)
    case Bare(node) => Proper(node)
  }

  lemma ProperStep(node: Node, component: string)
    requires Proper(node)
    ensures Proper(Step(node, component))
  {
    if node.Directory? {
      ChildIsListed(node.entries, component);
    }
  }

  lemma {:induction false} ProperWalk(node: Node, components: seq<string>)
    requires Proper(node)
    ensures Proper(Walk(node, components))
    decreases |components|
  {
    hide Proper, Step;
    if components != [] {
      ProperWalk(node, Front(components));
      ProperStep(Walk(node, Front(components)), Final(components));
    }
  }

  lemma ProperNode(at: Spot, name: string)
    requires ProperAt(at)
    ensures Proper(NodeOf(at)) && ProperAt(Below(at, name)) && Proper(NodeOf(Below(at, name)))
  {
    hide Proper, Walk, Step, Split, Join;
    match at
    case Bare(node) => ProperStep(node, name);
    case OnDisk(disk, path) =>
      ProperResolve(disk, path);
      ProperResolve(disk, Join(path, name));
  }

  lemma ProperResolve(disk: Disk, path: string)
    requires ProperDisk(disk)
    ensures Proper(Resolve(disk, path))
  {
    hide Walk, Step, Split;
    ProperWalk(Start(disk, path), Front(Split(path, '/')));
    ProperStep(ParentOf(disk, path), LastComponent(path));
  }

  /** The selection of a directory, ready for the walk. */
  ghost function Chosen(node: Node): (r: seq<CiEntry>)
    requires node.Directory?
    ensures AllListed(r)
  {
    ChosenListed(Names(node.entries));
    Collapsed(Listing(Names(node.entries)), 0)
  }

  lemma ChosenPreferred(node: Node, i: nat)
    requires node.Directory? && Proper(node) && Unambiguous(DirNames(node)) && i < |Chosen(node)|
    ensures Preferred(DirNames(node), Chosen(node)[i].name) && Chosen(node)[i] == EntryOf(Chosen(node)[i].name)
  {
    hide Collapsed, Listing, Preferred, Unambiguous;
    PreferredListing(Names(node.entries));
    assert Chosen(node)[i] in Chosen(node);
  }

  lemma PreferredChosen(node: Node, name: string) returns (i: nat)
    requires node.Directory? && Proper(node) && Unambiguous(DirNames(node)) && Preferred(DirNames(node), name)
    ensures i < |Chosen(node)| && Chosen(node)[i].name == name
  {
    hide Collapsed, Listing, Preferred, Unambiguous;
    PreferredListing(Names(node.entries));
    assert EntryOf(name) in Chosen(node);
    i :| 0 <= i < |Chosen(node)| && Chosen(node)[i] == EntryOf(name);
  }

  lemma CanonDirUnfold(at: Spot, path: string, virtualName: string)
    requires ProperAt(at)
    ensures var node := NodeOf(at);
      CanonDir(at, path, virtualName).Ok? <==>
        node.Directory? && node.readable && Unambiguous(DirNames(node)) && CanonEntries(at, path, Chosen(node), 0).Ok?
    ensures CanonDir(at, path, virtualName).Ok? ==>
      CanonDir(at, path, virtualName) == Ok(DirNode(virtualName, CanonEntries(at, path, Chosen(NodeOf(at)), 0).value))
  {
    hide Collapsed, Listing, CanonEntries, Unambiguous, Collision, NodeOf, ProperAt;
    ProperNode(at, ".");
    if NodeOf(at).Directory? {
      PreferredListing(Names(NodeOf(at).entries));
    }
  }

  // ---- exact success

  /** Every directory the walk enters can be read and is unambiguous, and the joined path of every selected
      entry leads to a regular file or a directory that is not a symlink. */
  ghost predicate Renderable(at: Spot)
    decreases Anchor(at), Room(at), 1
  {
    var node := NodeOf(at);
    && node.Directory? && node.readable && Unambiguous(DirNames(node))
    && forall name | Preferred(DirNames(node), name) :: RenderableEntry(at, name)
  }

  ghost predicate RenderableEntry(at: Spot, name: string)
    requires NodeOf(at).Directory? && Listed(name)
    decreases Anchor(at), Room(at), 0
  {
    match NodeOf(Below(at, name))
    case Regular => true
    case Directory(isSymlink, _, _) =>
      BelowDecreases(at, name);
      !isSymlink && Renderable(Below(at, name))
    case _ => false
  }

  lemma {:induction false} EntriesAllOk(at: Spot, path: string, chosen: seq<CiEntry>, index: nat)
    requires NodeOf(at).Directory? && index <= |chosen| && AllListed(chosen)
    ensures CanonEntries(at, path, chosen, index).Ok? <==>
      forall i | index <= i < |chosen| :: CanonEntry(at, path, chosen[i].name).Ok?
    decreases |chosen| - index
  {
    hide CanonEntry, NodeOf;
    if index < |chosen| {
      EntriesAllOk(at, path, chosen, index + 1);
    }
  }

  /** Generation of a directory succeeds exactly on a renderable one. */
  lemma {:induction false} SucceedsExactly(at: Spot, path: string, virtualName: string)
    requires ProperAt(at)
    ensures CanonDir(at, path, virtualName).Ok? <==> Renderable(at)
    decreases Anchor(at), Room(at), 1
  {
    hide Unambiguous, Preferred, CanonDir, CanonEntry, CanonEntries, Chosen, NodeOf, ProperAt, RenderableEntry, DirNames;
    CanonDirUnfold(at, path, virtualName);
    ProperNode(at, ".");
    var node := NodeOf(at);
    if node.Directory? && node.readable && Unambiguous(DirNames(node)) {
      var chosen := Chosen(node);
      EntriesAllOk(at, path, chosen, 0);
      forall name | Listed(name) ensures CanonEntry(at, path, name).Ok? <==> RenderableEntry(at, name) {
        EntrySucceedsExactly(at, path, name);
      }
      forall i | 0 <= i < |chosen| ensures Preferred(DirNames(node), chosen[i].name) {
        ChosenPreferred(node, i);
      }
      forall name | Preferred(DirNames(node), name)
        ensures Listed(name) && exists i | 0 <= i < |chosen| :: chosen[i].name == name
      {
        var i := PreferredChosen(node, name);
      }
    }
  }

  lemma EntrySucceedsExactly(at: Spot, path: string, name: string)
    requires NodeOf(at).Directory? && Listed(name) && ProperAt(at)
    ensures CanonEntry(at, path, name).Ok? <==> RenderableEntry(at, name)
    decreases Anchor(at), Room(at), 0
  {
    hide CanonDir, Renderable, NodeOf, ProperAt, Below, Anchor, Room, Listed;
    ProperNode(at, name);
    if NodeOf(Below(at, name)).Directory? {
      BelowDecreases(at, name);
      SucceedsExactly(Below(at, name), Join(path, name), name);
    }
  }

  // ---- what the overlay does not depend on

  /** Two places whose walks meet the same names and nodes, whatever the enumeration order and whatever
      stands at entries nobody selects. */
  ghost predicate SameView(a: Spot, b: Spot)
    decreases Anchor(a), Room(a), 1
  {
    var x, y := NodeOf(a), NodeOf(b);
    if !x.Directory? || !y.Directory? then x == y
    else
      && x.readable == y.readable && DirNames(x) == DirNames(y)
      && forall name | Preferred(DirNames(x), name) :: SameEntry(a, b, name)
  }

  ghost predicate SameEntry(a: Spot, b: Spot, name: string)
    requires NodeOf(a).Directory? && NodeOf(b).Directory? && Listed(name)
    decreases Anchor(a), Room(a), 0
  {
    var x, y := NodeOf(Below(a, name)), NodeOf(Below(b, name));
    if !x.Directory? || !y.Directory? then x == y
    else
      BelowDecreases(a, name);
      x.isSymlink == y.isSymlink && (x.isSymlink || SameView(Below(a, name), Below(b, name)))
  }

  lemma SameNamesSameListing(a: seq<string>, b: seq<string>)
    requires Distinct(a) && Distinct(b) && NameSet(a) == NameSet(b)
    ensures Listing(a) == Listing(b)
  {
    hide Sort;
    ListingIsProper(a);
    ListingIsProper(b);
    EntryOrderTotal();
    var s, t := Listing(a), Listing(b);
    assert forall e :: e in s <==> e in t;
    DistinctSameElements(s, t);
    SortUnique(EntryAtMost, s, t);
  }

  /** Same view, same overlay.  The spelling of the path matters only to the text of an error. */
  lemma {:induction false} ViewDecides(a: Spot, b: Spot, path: string, path': string, virtualName: string)
    requires ProperAt(a) && ProperAt(b) && SameView(a, b) && Generic(path) == Generic(path')
    ensures CanonDir(a, path, virtualName).Ok? <==> CanonDir(b, path', virtualName).Ok?
    ensures CanonDir(a, path, virtualName).Ok? ==> CanonDir(a, path, virtualName) == CanonDir(b, path', virtualName)
    ensures path == path' ==> CanonDir(a, path, virtualName) == CanonDir(b, path', virtualName)
    decreases Anchor(a), Room(a), 1, 0
  {
    hide Unambiguous, Preferred, CanonEntry, CanonEntries, Collision, Listing, Collapsed, DirNames, NodeOf, ProperAt, Generic;
    hide SameEntry, Anchor, Room;
    ProperNode(a, ".");
    ProperNode(b, ".");
    var x, y := NodeOf(a), NodeOf(b);
    if x.Directory? && y.Directory? && x.readable {
      DirNamesAre(x);
      DirNamesAre(y);
      SameNamesSameListing(Names(x.entries), Names(y.entries));
      PreferredListing(Names(x.entries));
      if Unambiguous(DirNames(x)) {
        ChosenListed(Names(x.entries));
        forall i | 0 <= i < |Chosen(x)| ensures SameEntry(a, b, Chosen(x)[i].name) {
          ChosenPreferred(x, i);
        }
        EntriesDecide(a, b, path, path', Chosen(x), 0);
      }
    }
  }

  lemma DirNamesAre(node: Node)
    requires node.Directory?
    ensures DirNames(node) == NameSet(Names(node.entries))
  {
  }

  lemma {:induction false} EntriesDecide(a: Spot, b: Spot, path: string, path': string, chosen: seq<CiEntry>, index: nat)
    requires NodeOf(a).Directory? && NodeOf(b).Directory? && ProperAt(a) && ProperAt(b)
    requires index <= |chosen| && AllListed(chosen) && Generic(path) == Generic(path')
    requires forall i | index <= i < |chosen| :: SameEntry(a, b, chosen[i].name)
    ensures CanonEntries(a, path, chosen, index).Ok? <==> CanonEntries(b, path', chosen, index).Ok?
    ensures CanonEntries(a, path, chosen, index).Ok? ==>
      CanonEntries(a, path, chosen, index) == CanonEntries(b, path', chosen, index)
    ensures path == path' ==> CanonEntries(a, path, chosen, index) == CanonEntries(b, path', chosen, index)
    decreases Anchor(a), Room(a), 0, |chosen| - index
  {
    hide CanonEntry, SameEntry, ProperAt, NodeOf, Generic, Listed;
    if index < |chosen| {
      EntryDecides(a, b, path, path', chosen[index].name);
      EntriesDecide(a, b, path, path', chosen, index + 1);
    }
  }

  lemma {:induction false} EntryDecides(a: Spot, b: Spot, path: string, path': string, name: string)
    requires NodeOf(a).Directory? && NodeOf(b).Directory? && ProperAt(a) && ProperAt(b) && Listed(name)
    requires Generic(path) == Generic(path') && SameEntry(a, b, name)
    ensures CanonEntry(a, path, name).Ok? <==> CanonEntry(b, path', name).Ok?
    ensures CanonEntry(a, path, name).Ok? ==> CanonEntry(a, path, name) == CanonEntry(b, path', name)
    ensures path == path' ==> CanonEntry(a, path, name) == CanonEntry(b, path', name)
    decreases Anchor(a), Room(a), 0, 0
  {
    hide CanonDir, Join, Generic, NodeOf, Below, ProperAt, Anchor, Room, SameView, Listed;
    ProperNode(a, name);
    ProperNode(b, name);
    GenericJoin(path, name);
    GenericJoin(path', name);
    var x, y := NodeOf(Below(a, name)), NodeOf(Below(b, name));
    if x.Directory? && y.Directory? && !x.isSymlink {
      BelowDecreases(a, name);
      ViewDecides(Below(a, name), Below(b, name), Join(path, name), Join(path', name), name);
    }
  }

  /** Two trees that list the same names and, under each name, again such trees. */
  ghost predicate Reordered(a: Node, b: Node)
    decreases a, 1
  {
    if !a.Directory? || !b.Directory? then a == b
    else
      && a.isSymlink == b.isSymlink && a.readable == b.readable && DirNames(a) == DirNames(b)
      && forall name :: ReorderedEntry(a, b, name)
  }

  ghost predicate ReorderedEntry(a: Node, b: Node, name: string)
    requires a.Directory? && b.Directory?
    decreases a, 0
  {
    ChildIsListed(a.entries, name);
    if Child(a.entries, name) == Missing then Child(b.entries, name) == Missing
    else Reordered(Child(a.entries, name), Child(b.entries, name))
  }

  lemma ReorderedStep(a: Node, b: Node, component: string)
    requires Reordered(a, b)
    ensures Reordered(Step(a, component), Step(b, component))
  {
    hide DirNames;
    if a.Directory? && b.Directory? {
      assert ReorderedEntry(a, b, component);
    }
  }

  lemma {:induction false} ReorderedWalk(a: Node, b: Node, components: seq<string>)
    requires Reordered(a, b)
    ensures Reordered(Walk(a, components), Walk(b, components))
    decreases |components|
  {
    hide Reordered, Step;
    if components != [] {
      ReorderedWalk(a, b, Front(components));
      ReorderedStep(Walk(a, Front(components)), Walk(b, Front(components)), Final(components));
    }
  }

  ghost predicate ReorderedDisk(disk: Disk, disk': Disk) {
    Reordered(disk.root, disk'.root) && Reordered(disk.cwd, disk'.cwd)
  }

  lemma ReorderedResolve(disk: Disk, disk': Disk, path: string)
    requires ReorderedDisk(disk, disk')
    ensures Reordered(Resolve(disk, path), Resolve(disk', path))
  {
    hide Reordered, Step, Walk, Split;
    assert Reordered(Missing, Missing) by { ReorderedMissing(); }
    ReorderedWalk(Start(disk, path), Start(disk', path), Front(Split(path, '/')));
    ReorderedStep(ParentOf(disk, path), ParentOf(disk', path), LastComponent(path));
  }

  lemma ReorderedMissing()
    ensures Reordered(Missing, Missing)
  {
  }

  lemma ReorderedParts(a: Node, b: Node)
    requires Reordered(a, b)
    ensures !a.Directory? || !b.Directory? ==> a == b
    ensures a.Directory? && b.Directory? ==>
      a.isSymlink == b.isSymlink && a.readable == b.readable && DirNames(a) == DirNames(b)
  {
  }

  /** On two such disks every path shows the same. */
  lemma {:induction false} ReorderedView(disk: Disk, disk': Disk, path: string)
    requires ReorderedDisk(disk, disk')
    ensures SameView(OnDisk(disk, path), OnDisk(disk', path))
    decreases Anchor(OnDisk(disk, path)), Room(OnDisk(disk, path))
  {
    hide Reordered, DirNames, Resolve, Join, ReorderedDisk, Preferred, Listed, Anchor, Room;
    ReorderedResolve(disk, disk', path);
    ReorderedParts(Resolve(disk, path), Resolve(disk', path));
    var a, b := OnDisk(disk, path), OnDisk(disk', path);
    var x, y := NodeOf(a), NodeOf(b);
    if x.Directory? && y.Directory? {
      forall name | Preferred(DirNames(x), name) ensures Listed(name) && SameEntry(a, b, name) {
        PreferredIsListed(DirNames(x), name);
        ReorderedResolve(disk, disk', Join(path, name));
        ReorderedParts(Resolve(disk, Join(path, name)), Resolve(disk', Join(path, name)));
        if NodeOf(Below(a, name)).Directory? && NodeOf(Below(b, name)).Directory? {
          BelowDecreases(a, name);
          ReorderedView(disk, disk', Join(path, name));
        }
      }
    }
  }

  lemma ReorderedIrrelevant(disk: Disk, disk': Disk, path: string, virtualName: string)
    requires ProperDisk(disk) && ProperDisk(disk') && ReorderedDisk(disk, disk')
    ensures CanonDir(OnDisk(disk, path), path, virtualName) == CanonDir(OnDisk(disk', path), path, virtualName)
  {
    hide CanonDir, SameView, Reordered, Proper, Resolve;
    ReorderedView(disk, disk', path);
    ViewDecides(OnDisk(disk, path), OnDisk(disk', path), path, path, virtualName);
  }

  // ---- listings in another order

  /** The numbers below n, each once. */
  ghost predicate IsPermutation(p: seq<nat>, n: nat) {
    |p| == n && multiset(p) == multiset(seq(n, i => i))
  }

  lemma PermutationFacts(p: seq<nat>, n: nat)
    requires IsPermutation(p, n)
    ensures |p| == n && Distinct(p) && forall i | 0 <= i < n :: p[i] < n
  {
    var s := seq<nat>(n, i => i);
    assert Distinct(s);
    DistinctPermutation(s, p);
    forall i | 0 <= i < n ensures p[i] < n {
      assert p[i] in p;
      assert p[i] in s;
    }
  }

  /** Where the permutation takes a number from. */
  lemma PermutedFrom(p: seq<nat>, n: nat, j: nat) returns (i: nat)
    requires IsPermutation(p, n) && j < n
    ensures i < n && i < |p| && p[i] == j
  {
    var s := seq<nat>(n, i => i);
    assert Distinct(s);
    DistinctPermutation(s, p);
    assert s[j] in s;
    i :| 0 <= i < |p| && p[i] == j;
  }

  ghost predicate OnceEach(entries: seq<Entry>) {
    forall i, j | 0 <= i < j < |entries| :: entries[i].name != entries[j].name
  }

  /** The same tree, except that every directory, at every depth, may list its entries in another order. */
  ghost predicate Permuted(a: Node, b: Node)
    decreases a
  {
    if !a.Directory? || !b.Directory? then a == b
    else
      && a.isSymlink == b.isSymlink && a.readable == b.readable
      && OnceEach(a.entries) && |a.entries| == |b.entries|
      && exists p | IsPermutation(p, |a.entries|) :: PermutedBy(a, b, p)
  }

  ghost predicate PermutedBy(a: Node, b: Node, p: seq<nat>)
    requires a.Directory? && b.Directory? && |a.entries| == |b.entries| && IsPermutation(p, |a.entries|)
    decreases a, 0
  {
    PermutationFacts(p, |a.entries|);
    forall i | 0 <= i < |a.entries| ::
      a.entries[i].name == b.entries[p[i]].name && Permuted(a.entries[i].node, b.entries[p[i]].node)
  }

  ghost predicate PermutedDisk(disk: Disk, disk': Disk) {
    Permuted(disk.root, disk'.root) && Permuted(disk.cwd, disk'.cwd)
  }

  lemma {:induction false} ChildAt(entries: seq<Entry>, i: nat)
    requires OnceEach(entries) && i < |entries|
    ensures Child(entries, entries[i].name) == entries[i].node
  {
    if i > 0 {
      assert entries[0].name != entries[i].name;
      ChildAt(entries[1..], i - 1);
    }
  }

  lemma {:induction false} ChildOfNone(entries: seq<Entry>, name: string)
    requires forall i | 0 <= i < |entries| :: entries[i].name != name
    ensures Child(entries, name) == Missing
  {
    if entries != [] {
      ChildOfNone(entries[1..], name);
    }
  }

  /** The entry of a that stands at place j of b. */
  lemma PermutedEntry(a: Node, b: Node, p: seq<nat>, j: nat) returns (i: nat)
    requires a.Directory? && b.Directory? && |a.entries| == |b.entries|
    requires IsPermutation(p, |a.entries|) && PermutedBy(a, b, p)
    requires j < |b.entries|
    ensures i < |a.entries| && i < |p| && p[i] == j
    ensures a.entries[i].name == b.entries[j].name && Permuted(a.entries[i].node, b.entries[j].node)
  {
    hide Permuted, IsPermutation;
    PermutationFacts(p, |a.entries|);
    i := PermutedFrom(p, |a.entries|, j);
  }

  /** The place in b of an entry of a. */
  lemma PermutedPlace(a: Node, b: Node, p: seq<nat>, i: nat) returns (j: nat)
    requires a.Directory? && b.Directory? && |a.entries| == |b.entries|
    requires IsPermutation(p, |a.entries|) && PermutedBy(a, b, p)
    requires i < |a.entries|
    ensures j < |b.entries|
    ensures a.entries[i].name == b.entries[j].name && Permuted(a.entries[i].node, b.entries[j].node)
  {
    hide Permuted, IsPermutation;
    PermutationFacts(p, |a.entries|);
    j := p[i];
  }

  /** The listing of b is that of a in another order, so it lists each name once too. */
  lemma PermutedOnce(a: Node, b: Node, p: seq<nat>)
    requires a.Directory? && b.Directory? && |a.entries| == |b.entries|
    requires IsPermutation(p, |a.entries|) && PermutedBy(a, b, p)
    requires OnceEach(a.entries)
    ensures OnceEach(b.entries)
  {
    hide Permuted, IsPermutation, PermutedBy;
    forall j, k | 0 <= j < k < |b.entries| ensures b.entries[j].name != b.entries[k].name {
      var i := PermutedEntry(a, b, p, j);
      var l := PermutedEntry(a, b, p, k);
      assert i < l || l < i;
    }
  }

  lemma PermutedNames(a: Node, b: Node, p: seq<nat>)
    requires a.Directory? && b.Directory? && |a.entries| == |b.entries|
    requires IsPermutation(p, |a.entries|) && PermutedBy(a, b, p)
    ensures forall name :: name in Names(a.entries) <==> name in Names(b.entries)
  {
    hide Permuted, IsPermutation, PermutedBy;
    forall name ensures name in Names(a.entries) <==> name in Names(b.entries) {
      NamesListed(a.entries, name);
      NamesListed(b.entries, name);
      if i :| 0 <= i < |a.entries| && a.entries[i].name == name {
        var j := PermutedPlace(a, b, p, i);
        assert b.entries[j].name == name;
      }
      if j :| 0 <= j < |b.entries| && b.entries[j].name == name {
        var i := PermutedEntry(a, b, p, j);
        assert a.entries[i].name == name;
      }
    }
  }

  lemma PermutedChild(a: Node, b: Node, p: seq<nat>, name: string)
    requires a.Directory? && b.Directory? && |a.entries| == |b.entries|
    requires IsPermutation(p, |a.entries|) && PermutedBy(a, b, p)
    requires OnceEach(a.entries)
    ensures Permuted(Child(a.entries, name), Child(b.entries, name))
    ensures Child(a.entries, name) == Missing <==> Child(b.entries, name) == Missing
  {
    hide Permuted, IsPermutation, PermutedBy;
    PermutedOnce(a, b, p);
    if i :| 0 <= i < |a.entries| && a.entries[i].name == name {
      var j := PermutedPlace(a, b, p, i);
      ChildAt(a.entries, i);
      ChildAt(b.entries, j);
      PermutedKind(a.entries[i].node, b.entries[j].node);
    } else {
      forall j | 0 <= j < |b.entries| ensures b.entries[j].name != name {
        var i := PermutedEntry(a, b, p, j);
      }
      ChildOfNone(a.entries, name);
      ChildOfNone(b.entries, name);
      PermutedMissing();
    }
  }

  lemma PermutedKind(a: Node, b: Node)
    requires Permuted(a, b)
    ensures a == Missing <==> b == Missing
  {
  }

  lemma PermutedMissing()
    ensures Permuted(Missing, Missing)
  {
  }

  /** Permuted trees are reordered ones. */
  lemma {:induction false} PermutedReordered(a: Node, b: Node)
    requires Permuted(a, b)
    ensures Reordered(a, b)
    decreases a
  {
    hide DirNames, IsPermutation, PermutedBy;
    if a.Directory? && b.Directory? {
      var p :| IsPermutation(p, |a.entries|) && PermutedBy(a, b, p);
      PermutedNames(a, b, p);
      DirNamesAre(a);
      DirNamesAre(b);
      assert DirNames(a) == DirNames(b);
      forall name ensures ReorderedEntry(a, b, name) {
        PermutedChild(a, b, p, name);
        ChildIsListed(a.entries, name);
        if Child(a.entries, name) != Missing {
          PermutedReordered(Child(a.entries, name), Child(b.entries, name));
        }
      }
    }
  }

  lemma {:induction false} OnceEachNames(entries: seq<Entry>)
    requires OnceEach(entries)
    ensures Distinct(Names(entries))
  {
    if entries != [] {
      OnceEachNames(entries[1..]);
      NamesListed(entries[1..], entries[0].name);
      var names, tail := Names(entries), Names(entries[1..]);
      if IsDot(entries[0].name) {
        assert names == tail;
      } else {
        assert names == [entries[0].name] + tail;
      }
    }
  }

  /** And they are as proper as each other. */
  lemma {:induction false} PermutedProper(a: Node, b: Node)
    requires Permuted(a, b) && Proper(a)
    ensures Proper(b)
    decreases a
  {
    hide IsPermutation, PermutedBy;
    if a.Directory? && b.Directory? {
      var p :| IsPermutation(p, |a.entries|) && PermutedBy(a, b, p);
      PermutedOnce(a, b, p);
      OnceEachNames(b.entries);
      forall j | 0 <= j < |b.entries| ensures Proper(b.entries[j].node) {
        var i := PermutedEntry(a, b, p, j);
        PermutedProper(a.entries[i].node, b.entries[j].node);
      }
    }
  }

  lemma PermutedDiskFacts(disk: Disk, disk': Disk)
    requires ProperDisk(disk) && PermutedDisk(disk, disk')
    ensures ProperDisk(disk') && ReorderedDisk(disk, disk')
  {
    hide Permuted, Proper, Reordered;
    PermutedReordered(disk.root, disk'.root);
    PermutedReordered(disk.cwd, disk'.cwd);
    PermutedProper(disk.root, disk'.root);
    PermutedProper(disk.cwd, disk'.cwd);
  }

  /** Listing directories in another order, all over the disk, leaves every overlay alone. */
  lemma EnumerationIrrelevant(disk: Disk, disk': Disk, path: string, virtualName: string)
    requires ProperDisk(disk) && PermutedDisk(disk, disk')
    ensures CanonDir(OnDisk(disk, path), path, virtualName) == CanonDir(OnDisk(disk', path), path, virtualName)
  {
    hide CanonDir, PermutedDisk, ReorderedDisk, ProperDisk;
    PermutedDiskFacts(disk, disk');
    ReorderedIrrelevant(disk, disk', path, virtualName);
  }

  lemma PreferredIsListed(names: set<string>, name: string)
    requires Preferred(names, name)
    ensures name in names
  {
  }

  lemma {:induction false} NamesListed(entries: seq<Entry>, name: string)
    ensures name in Names(entries) <==> !IsDot(name) && exists e | e in entries :: e.name == name
  {
    if entries != [] {
      NamesListed(entries[1..], name);
    }
  }

  // ---- when the walk follows the tree

  /** The path of no directory that is entered and lists anything ends in a backslash. */
  ghost predicate Straight(path: string, node: Node)
    decreases node
  {
    node.Directory? ==>
      forall name | Preferred(DirNames(node), name) ::
        && !EndsIn(path, '\\')
        && (Child(node.entries, name).Directory? ==>
              (ChildIsListed(node.entries, name);
               Straight(name, Child(node.entries, name))))
  }

  lemma StraightEnding(path: string, path': string, node: Node)
    requires Straight(path, node) && EndsIn(path, '\\') == EndsIn(path', '\\')
    ensures Straight(path', node)
  {
  }

  /** Then the program, which resolves joined paths, meets just what descending the tree meets. */
  lemma {:induction false} StraightView(disk: Disk, path: string)
    requires Straight(path, Resolve(disk, path))
    ensures SameView(OnDisk(disk, path), Bare(Resolve(disk, path)))
    decreases Anchor(OnDisk(disk, path)), Room(OnDisk(disk, path))
  {
    hide DirNames, Resolve, Preferred, Anchor, Room, Join, Listed;
    var a, b := OnDisk(disk, path), Bare(Resolve(disk, path));
    var node := Resolve(disk, path);
    if node.Directory? {
      forall name | Preferred(DirNames(node), name) ensures Listed(name) && SameEntry(a, b, name) {
        PreferredIsListed(DirNames(node), name);
        StraightStep(disk, path, name);
        if NodeOf(Below(a, name)).Directory? {
          BelowDecreases(a, name);
          StraightView(disk, Join(path, name));
        }
      }
    }
  }

  lemma StraightStep(disk: Disk, path: string, name: string)
    requires Straight(path, Resolve(disk, path)) && Resolve(disk, path).Directory?
    requires Preferred(DirNames(Resolve(disk, path)), name)
    ensures Resolve(disk, Join(path, name)) == Step(Resolve(disk, path), name)
    ensures Straight(Join(path, name), Resolve(disk, Join(path, name)))
  {
    hide DirNames, Preferred, ParentOf, LastComponent, Start, Walk;
    PreferredIsListed(DirNames(Resolve(disk, path)), name);
    assert path != "";
    JoinResolves(disk, path, name);
    StraightEnding(name, Join(path, name), Step(Resolve(disk, path), name));
  }

  /** A path that ends in a backslash loses every entry its parent does not list under the glued name. */
  lemma BackslashLoses(disk: Disk, path: string, virtualName: string, name: string)
    requires ProperDisk(disk) && EndsIn(path, '\\')
    requires Resolve(disk, path).Directory? && Preferred(DirNames(Resolve(disk, path)), name)
    requires Step(ParentOf(disk, path), LastComponent(path) + name) == Missing
    ensures CanonDir(OnDisk(disk, path), path, virtualName).Err?
  {
    hide CanonDir, DirNames, Preferred, ParentOf, LastComponent, Step;
    PreferredIsListed(DirNames(Resolve(disk, path)), name);
    JoinResolves(disk, path, name);
    SucceedsExactly(OnDisk(disk, path), path, virtualName);
    assert !RenderableEntry(OnDisk(disk, path), name);
  }

  // ---- rewriting unselected entries

  /** Rewriting what an unselected alias leads to leaves the overlay alone, as long as no path ends in a
      backslash. */
  lemma AliasIrrelevant(disk: Disk, disk': Disk, path: string, virtualName: string, i: nat, alias: Node)
    requires ProperDisk(disk) && ProperDisk(disk')
    requires var node := Resolve(disk, path);
      && node.Directory? && i < |node.entries| && Straight(path, node)
      && !IsDot(node.entries[i].name) && !Preferred(DirNames(node), node.entries[i].name)
      && Resolve(disk', path) == node.(entries := node.entries[i := Entry(node.entries[i].name, alias)])
    ensures CanonDir(OnDisk(disk, path), path, virtualName) == CanonDir(OnDisk(disk', path), path, virtualName)
  {
    hide CanonDir, Resolve, Preferred, DirNames, Straight, Proper;
    var node, changed := Resolve(disk, path), Resolve(disk', path);
    AliasSameView(node, i, alias);
    AliasStraight(path, node, i, alias);
    StraightIsTree(disk, path, virtualName);
    StraightIsTree(disk', path, virtualName);
    ProperResolve(disk, path);
    ProperResolve(disk', path);
    ViewDecides(Bare(node), Bare(changed), path, path, virtualName);
  }

  /** The overlay of the disk is the overlay of the tree. */
  lemma StraightIsTree(disk: Disk, path: string, virtualName: string)
    requires ProperDisk(disk) && Straight(path, Resolve(disk, path))
    ensures CanonDir(OnDisk(disk, path), path, virtualName) == CanonDir(Bare(Resolve(disk, path)), path, virtualName)
  {
    hide CanonDir, Resolve, Straight, Proper, SameView;
    StraightView(disk, path);
    ProperResolve(disk, path);
    ViewDecides(OnDisk(disk, path), Bare(Resolve(disk, path)), path, path, virtualName);
  }

  lemma AliasParts(node: Node, i: nat, alias: Node, name: string)
    requires node.Directory? && i < |node.entries| && !Preferred(DirNames(node), node.entries[i].name)
    ensures var changed := node.(entries := node.entries[i := Entry(node.entries[i].name, alias)]);
      && DirNames(changed) == DirNames(node)
      && (Preferred(DirNames(node), name) ==> Child(changed.entries, name) == Child(node.entries, name))
  {
    hide Preferred;
    UpdateNames(node.entries, i, alias);
    if Preferred(DirNames(node), name) {
      UpdateChild(node.entries, i, alias, name);
    }
  }

  lemma AliasStraight(path: string, node: Node, i: nat, alias: Node)
    requires node.Directory? && i < |node.entries| && !Preferred(DirNames(node), node.entries[i].name)
    requires Straight(path, node)
    ensures Straight(path, node.(entries := node.entries[i := Entry(node.entries[i].name, alias)]))
  {
    hide DirNames, Preferred;
    var changed := node.(entries := node.entries[i := Entry(node.entries[i].name, alias)]);
    forall name | Preferred(DirNames(changed), name)
      ensures !EndsIn(path, '\\')
      ensures Child(changed.entries, name).Directory? ==> Straight(name, Child(changed.entries, name))
    {
      AliasParts(node, i, alias, name);
      ChildIsListed(node.entries, name);
    }
  }

  lemma AliasSameView(node: Node, i: nat, alias: Node)
    requires node.Directory? && i < |node.entries| && !Preferred(DirNames(node), node.entries[i].name)
    ensures SameView(Bare(node), Bare(node.(entries := node.entries[i := Entry(node.entries[i].name, alias)])))
  {
    hide DirNames, Preferred, Listed, Step;
    var changed := node.(entries := node.entries[i := Entry(node.entries[i].name, alias)]);
    AliasParts(node, i, alias, "");
    forall name | Preferred(DirNames(node), name) ensures Listed(name) && SameEntry(Bare(node), Bare(changed), name) {
      PreferredIsListed(DirNames(node), name);
      AliasParts(node, i, alias, name);
      StepOfListed(node, name);
      StepOfListed(changed, name);
      SameViewReflexive(Bare(Child(node.entries, name)));
      SameViewEntry(node, changed, name);
    }
  }

  lemma StepOfListed(node: Node, name: string)
    requires node.Directory? && Listed(name)
    ensures Step(node, name) == Child(node.entries, name)
  {
  }

  lemma SameViewEntry(a: Node, b: Node, name: string)
    requires a.Directory? && b.Directory? && Listed(name) && Step(a, name) == Step(b, name)
    requires SameView(Bare(Step(a, name)), Bare(Step(a, name)))
    ensures SameEntry(Bare(a), Bare(b), name)
  {
    hide SameView, Step, Listed;
  }

  lemma {:induction false} SameViewReflexive(at: Spot)
    ensures SameView(at, at)
    decreases Anchor(at), Room(at)
  {
    hide Preferred, DirNames, NodeOf, Below, Anchor, Room, Listed;
    if NodeOf(at).Directory? {
      forall name | Preferred(DirNames(NodeOf(at)), name) ensures Listed(name) && SameEntry(at, at, name) {
        PreferredIsListed(DirNames(NodeOf(at)), name);
        if NodeOf(Below(at, name)).Directory? {
          BelowDecreases(at, name);
          SameViewReflexive(Below(at, name));
        }
      }
    }
  }

  lemma {:induction false} UpdateNames(entries: seq<Entry>, i: nat, alias: Node)
    requires i < |entries|
    ensures Names(entries[i := Entry(entries[i].name, alias)]) == Names(entries)
  {
    var changed := entries[i := Entry(entries[i].name, alias)];
    if i == 0 {
      assert changed[1..] == entries[1..];
    } else {
      UpdateNames(entries[1..], i - 1, alias);
      assert changed[1..] == entries[1..][i - 1 := Entry(entries[i].name, alias)];
    }
  }

  lemma {:induction false} UpdateChild(entries: seq<Entry>, i: nat, alias: Node, other: string)
    requires i < |entries| && other != entries[i].name
    ensures Child(entries[i := Entry(entries[i].name, alias)], other) == Child(entries, other)
  {
    var changed := entries[i := Entry(entries[i].name, alias)];
    if i == 0 {
      assert changed[1..] == entries[1..];
    } else {
      UpdateChild(entries[1..], i - 1, alias, other);
      assert changed[1..] == entries[1..][i - 1 := Entry(entries[i].name, alias)];
    }
  }

  // ---- exactly when two overlays are equal

  /** Both directories can be rendered, and have the same preferred names and, at those, the same kinds of
      node: files, or again such directories. */
  ghost predicate Alike(a: Spot, b: Spot)
    decreases Anchor(a), Room(a), 1
  {
    var x, y := NodeOf(a), NodeOf(b);
    && x.Directory? && x.readable && Unambiguous(DirNames(x))
    && y.Directory? && y.readable && Unambiguous(DirNames(y))
    && (forall name :: Preferred(DirNames(x), name) <==> Preferred(DirNames(y), name))
    && forall name | Preferred(DirNames(x), name) :: AlikeEntry(a, b, name)
  }

  ghost predicate AlikeEntry(a: Spot, b: Spot, name: string)
    requires NodeOf(a).Directory? && NodeOf(b).Directory? && Listed(name)
    decreases Anchor(a), Room(a), 0
  {
    var x, y := NodeOf(Below(a, name)), NodeOf(Below(b, name));
    if x.Directory? && y.Directory? then
      BelowDecreases(a, name);
      !x.isSymlink && !y.isSymlink && Alike(Below(a, name), Below(b, name))
    else x.Regular? && y.Regular?
  }

  lemma StrictUnique(s: seq<CiEntry>, t: seq<CiEntry>)
    requires StrictlyFolded(s) && StrictlyFolded(t) && forall e :: e in s <==> e in t
    ensures s == t
  {
    StrictSorted(s);
    StrictSorted(t);
    EntryOrderTotal();
    DistinctSameElements(s, t);
    SortUnique(EntryAtMost, s, t);
  }

  lemma StrictSorted(s: seq<CiEntry>)
    requires StrictlyFolded(s)
    ensures Sorted(EntryAtMost, s) && Distinct(s)
  {
    forall i, j | 0 <= i < j < |s| ensures s[i] != s[j] {
      LessIrreflexive(s[i].folded);
    }
  }

  lemma ChosenStrict(node: Node)
    requires node.Directory? && Proper(node)
    ensures StrictlyFolded(Chosen(node))
  {
    hide Collapsed, Listing, StrictlyFolded;
    PreferredListing(Names(node.entries));
  }

  lemma ChosenSame(x: Node, y: Node)
    requires x.Directory? && Proper(x) && Unambiguous(DirNames(x))
    requires y.Directory? && Proper(y) && Unambiguous(DirNames(y))
    requires forall name :: Preferred(DirNames(x), name) <==> Preferred(DirNames(y), name)
    ensures Chosen(x) == Chosen(y)
  {
    hide Collapsed, Listing, Preferred, Unambiguous, StrictlyFolded;
    PreferredListing(Names(x.entries));
    PreferredListing(Names(y.entries));
    StrictUnique(Chosen(x), Chosen(y));
  }

  lemma ChosenNames(x: Node, y: Node, name: string)
    requires x.Directory? && Proper(x) && Unambiguous(DirNames(x))
    requires y.Directory? && Proper(y) && Unambiguous(DirNames(y))
    requires |Chosen(x)| == |Chosen(y)| && forall i | 0 <= i < |Chosen(x)| :: Chosen(x)[i].name == Chosen(y)[i].name
    ensures Preferred(DirNames(x), name) ==> Preferred(DirNames(y), name)
  {
    hide Chosen, Preferred, Unambiguous, DirNames;
    if Preferred(DirNames(x), name) {
      var i := PreferredChosen(x, name);
      ChosenPreferred(y, i);
    }
  }

  lemma EntryName(at: Spot, path: string, name: string)
    requires NodeOf(at).Directory? && Listed(name)
    ensures CanonEntry(at, path, name).Ok? ==> CanonEntry(at, path, name).value.name == name
  {
    hide CanonDir, NodeOf, Below, Join, Generic, Listed;
    if NodeOf(Below(at, name)).Directory? {
      CanonNames(Below(at, name), Join(path, name), name);
    }
  }

  lemma CanonNames(at: Spot, path: string, virtualName: string)
    ensures CanonDir(at, path, virtualName).Ok? ==> CanonDir(at, path, virtualName).value.name == virtualName
  {
    hide CanonEntries, Collision, Collapsed, Listing, NodeOf;
  }

  /** Two directories give one and the same overlay exactly when they are alike; only their path, and at the
      top their name, have to agree in spelling. */
  lemma {:induction false} AlikeExact(a: Spot, b: Spot, path: string, path': string, virtualName: string)
    requires ProperAt(a) && ProperAt(b) && Generic(path) == Generic(path')
    ensures CanonDir(a, path, virtualName).Ok? && CanonDir(a, path, virtualName) == CanonDir(b, path', virtualName)
      <==> Alike(a, b)
    decreases Anchor(a), Room(a), 1
  {
    hide Unambiguous, Preferred, CanonDir, CanonEntry, CanonEntries, Chosen, NodeOf, ProperAt, AlikeEntry, DirNames;
    hide Generic, Listed, Anchor, Room;
    CanonDirUnfold(a, path, virtualName);
    CanonDirUnfold(b, path', virtualName);
    ProperNode(a, ".");
    ProperNode(b, ".");
    var x, y := NodeOf(a), NodeOf(b);
    if x.Directory? && x.readable && Unambiguous(DirNames(x)) && y.Directory? && y.readable && Unambiguous(DirNames(y)) {
      forall name | Listed(name)
        ensures CanonEntry(a, path, name).Ok? && CanonEntry(a, path, name) == CanonEntry(b, path', name)
          <==> AlikeEntry(a, b, name)
      {
        EntryAlikeExact(a, b, path, path', name);
      }
      if Alike(a, b) {
        ChosenSame(x, y);
        forall i | 0 <= i < |Chosen(x)| ensures Preferred(DirNames(x), Chosen(x)[i].name) {
          ChosenPreferred(x, i);
        }
        EntriesEqual(a, b, path, path', Chosen(x), 0);
      }
      if CanonDir(a, path, virtualName).Ok? && CanonDir(a, path, virtualName) == CanonDir(b, path', virtualName) {
        EqualEntries(a, b, path, path');
      }
    }
  }

  lemma {:induction false} EntriesEqual(a: Spot, b: Spot, path: string, path': string, chosen: seq<CiEntry>, index: nat)
    requires NodeOf(a).Directory? && NodeOf(b).Directory? && index <= |chosen| && AllListed(chosen)
    requires forall i | index <= i < |chosen| ::
      CanonEntry(a, path, chosen[i].name).Ok? && CanonEntry(a, path, chosen[i].name) == CanonEntry(b, path', chosen[i].name)
    ensures CanonEntries(a, path, chosen, index).Ok?
    ensures CanonEntries(a, path, chosen, index) == CanonEntries(b, path', chosen, index)
    decreases |chosen| - index
  {
    hide CanonEntry, NodeOf, Listed;
    if index < |chosen| {
      EntriesEqual(a, b, path, path', chosen, index + 1);
    }
  }

  lemma SlotOf(at: Spot, path: string, chosen: seq<CiEntry>, items: seq<Overlay>, i: nat)
    requires NodeOf(at).Directory? && AllListed(chosen) && i < |chosen|
    requires CanonEntries(at, path, chosen, 0) == Ok(items)
    ensures |items| == |chosen| && items[i].name == chosen[i].name
    ensures CanonEntry(at, path, chosen[i].name) == Ok(items[i])
  {
    hide CanonEntry, CanonEntries, NodeOf, Listed;
    EntriesPointwise(at, path, chosen, 0, i);
    EntryName(at, path, chosen[i].name);
  }

  /** Equal contents come from equal names and equal entries. */
  lemma EqualEntries(a: Spot, b: Spot, path: string, path': string)
    requires ProperAt(a) && ProperAt(b)
    requires NodeOf(a).Directory? && Unambiguous(DirNames(NodeOf(a)))
    requires NodeOf(b).Directory? && Unambiguous(DirNames(NodeOf(b)))
    requires CanonEntries(a, path, Chosen(NodeOf(a)), 0).Ok?
    requires CanonEntries(a, path, Chosen(NodeOf(a)), 0) == CanonEntries(b, path', Chosen(NodeOf(b)), 0)
    ensures forall name :: Preferred(DirNames(NodeOf(a)), name) <==> Preferred(DirNames(NodeOf(b)), name)
    ensures forall name | Preferred(DirNames(NodeOf(a)), name) ::
      Listed(name) && CanonEntry(a, path, name).Ok? && CanonEntry(a, path, name) == CanonEntry(b, path', name)
  {
    hide Unambiguous, Preferred, CanonEntry, CanonEntries, Chosen, NodeOf, ProperAt, DirNames, Listed;
    var x, y := NodeOf(a), NodeOf(b);
    ProperNode(a, ".");
    ProperNode(b, ".");
    var items := CanonEntries(a, path, Chosen(x), 0).value;
    forall i | 0 <= i < |Chosen(x)|
      ensures Chosen(x)[i].name == Chosen(y)[i].name
      ensures CanonEntry(a, path, Chosen(x)[i].name).Ok?
      ensures CanonEntry(a, path, Chosen(x)[i].name) == CanonEntry(b, path', Chosen(x)[i].name)
    {
      SlotOf(a, path, Chosen(x), items, i);
      SlotOf(b, path', Chosen(y), items, i);
    }
    forall name ensures Preferred(DirNames(x), name) <==> Preferred(DirNames(y), name) {
      ChosenNames(x, y, name);
      ChosenNames(y, x, name);
    }
    forall name | Preferred(DirNames(x), name)
      ensures Listed(name) && CanonEntry(a, path, name).Ok? && CanonEntry(a, path, name) == CanonEntry(b, path', name)
    {
      var i := PreferredChosen(x, name);
    }
  }

  lemma EntryAlikeExact(a: Spot, b: Spot, path: string, path': string, name: string)
    requires ProperAt(a) && ProperAt(b) && Generic(path) == Generic(path')
    requires NodeOf(a).Directory? && NodeOf(b).Directory? && Listed(name)
    ensures CanonEntry(a, path, name).Ok? && CanonEntry(a, path, name) == CanonEntry(b, path', name)
      <==> AlikeEntry(a, b, name)
    decreases Anchor(a), Room(a), 0
  {
    hide CanonDir, Alike, NodeOf, ProperAt, Below, Anchor, Room, Listed, Join, Generic;
    ProperNode(a, name);
    ProperNode(b, name);
    GenericJoin(path, name);
    GenericJoin(path', name);
    var x, y := NodeOf(Below(a, name)), NodeOf(Below(b, name));
    if x.Directory? {
      RenderedIsDir(Below(a, name), Join(path, name), name);
    }
    if y.Directory? {
      RenderedIsDir(Below(b, name), Join(path', name), name);
    }
    if x.Directory? && y.Directory? {
      BelowDecreases(a, name);
      AlikeExact(Below(a, name), Below(b, name), Join(path, name), Join(path', name), name);
    }
  }

  lemma RenderedIsDir(at: Spot, path: string, virtualName: string)
    ensures CanonDir(at, path, virtualName).Ok? ==> CanonDir(at, path, virtualName).value.DirNode?
  {
    hide CanonEntries, Collision, Collapsed, Listing, NodeOf;
  }

  /** The program's overlay is that of the tree exactly when what its joined paths lead to is alike what the
      tree lists; in particular when no path ends in a backslash. */
  lemma PathsExact(disk: Disk, path: string, virtualName: string)
    requires ProperDisk(disk)
    ensures var tree := CanonDir(Bare(Resolve(disk, path)), path, virtualName);
      (tree.Ok? && CanonDir(OnDisk(disk, path), path, virtualName) == tree)
      <==> Alike(OnDisk(disk, path), Bare(Resolve(disk, path)))
    ensures Straight(path, Resolve(disk, path)) && Renderable(Bare(Resolve(disk, path))) ==>
      Alike(OnDisk(disk, path), Bare(Resolve(disk, path)))
  {
    hide CanonDir, Resolve, Straight, Proper, Alike, Renderable;
    ProperResolve(disk, path);
    AlikeExact(OnDisk(disk, path), Bare(Resolve(disk, path)), path, path, virtualName);
    if Straight(path, Resolve(disk, path)) {
      StraightIsTree(disk, path, virtualName);
      SucceedsExactly(Bare(Resolve(disk, path)), path, virtualName);
    }
  }

  /** The directory `r` holds the directory `d\\`, which holds the file `x`. */
  function BackslashDisk(): Disk {
    var inner := Directory(false, true, [Entry("x", Regular)]);
    var root := Directory(false, true, [Entry("d\\", inner)]);
    Disk(Missing, Directory(false, true, [Entry("r", root)]))
  }

  lemma OnlyName(node: Node, name: string)
    requires node.Directory? && |node.entries| == 1 && node.entries[0].name == name && Listed(name)
    ensures DirNames(node) == {name} && Unambiguous(DirNames(node))
    ensures forall other :: Preferred(DirNames(node), other) <==> other == name
    ensures Step(node, name) == node.entries[0].node
    ensures Proper(node.entries[0].node) ==> Proper(node)
  {
    assert node.entries[1..] == [];
    assert Names(node.entries) == [name];
  }

  /** Descending the tree, `r` can be rendered; the program looks for `r/d\\x` and fails. */
  lemma BackslashExample()
    ensures ProperDisk(BackslashDisk()) && Renderable(Bare(Resolve(BackslashDisk(), "r")))
    ensures CanonDir(OnDisk(BackslashDisk(), "r"), "r", "r").Err?
    ensures !Alike(OnDisk(BackslashDisk(), "r"), Bare(Resolve(BackslashDisk(), "r")))
  {
    hide CanonDir, DirNames, Preferred, Unambiguous, Proper, Walk, Alike, Renderable;
    var disk := BackslashDisk();
    var root := disk.cwd.entries[0].node;
    var inner := root.entries[0].node;
    BackslashProper();
    SplitWhole("r", '/');
    WalkNothing(disk.cwd);
    OnlyName(disk.cwd, "r");
    OnlyName(root, "d\\");
    OnlyName(inner, "x");
    assert Resolve(disk, "r") == root;
    JoinResolves(disk, "r", "d\\");
    assert Join("r", "d\\") == "r/d\\";
    NoOther(root, "d\\", "d\\" + "x");
    BackslashLoses(disk, "r/d\\", "d\\", "x");
    SucceedsExactly(OnDisk(disk, "r/d\\"), "r/d\\", "d\\");
    SucceedsExactly(OnDisk(disk, "r"), "r", "r");
    BackslashRenderable();
    EntryNeeded(OnDisk(disk, "r"), "d\\");
    PathsExact(disk, "r", "r");
  }

  lemma NoOther(node: Node, name: string, other: string)
    requires node.Directory? && |node.entries| == 1 && node.entries[0].name == name
    requires Listed(other) && |other| != |name|
    ensures Step(node, other) == Missing
  {
    assert node.entries[1..] == [] && node.entries[0].name != other;
    assert Child(node.entries[1..], other) == Missing;
    assert other != "" && other != ".";
  }

  lemma EntryNeeded(at: Spot, name: string)
    requires NodeOf(at).Directory? && Preferred(DirNames(NodeOf(at)), name)
    requires NodeOf(Below(at, name)).Directory? && !Renderable(Below(at, name))
    ensures !Renderable(at)
  {
    hide DirNames, Preferred, Unambiguous, NodeOf, Below;
    PreferredIsListed(DirNames(NodeOf(at)), name);
    assert RenderableEntry(at, name) ==> Renderable(Below(at, name));
  }

  lemma WalkNothing(node: Node)
    ensures Walk(node, []) == node
  {
  }

  lemma BackslashProper()
    ensures ProperDisk(BackslashDisk())
  {
    hide DirNames, Preferred;
    var disk := BackslashDisk();
    OnlyName(disk.cwd.entries[0].node.entries[0].node, "x");
    OnlyName(disk.cwd.entries[0].node, "d\\");
    OnlyName(disk.cwd, "r");
  }

  lemma BackslashRenderable()
    ensures Renderable(Bare(BackslashDisk().cwd.entries[0].node))
  {
    hide DirNames, Preferred, Unambiguous;
    var root := BackslashDisk().cwd.entries[0].node;
    var inner := root.entries[0].node;
    OnlyName(root, "d\\");
    OnlyName(inner, "x");
    assert RenderableEntry(Bare(inner), "x");
    assert Renderable(Bare(inner));
    assert RenderableEntry(Bare(root), "d\\");
  }

  /** The directory `r` holds the directory `D\\` with a file `x`, and beside it `d\\x` and its alias `D\\x`. */
  function AliasDisk(alias: Node): Disk {
    var inner := Directory(false, true, [Entry("x", Regular)]);
    var root := Directory(false, true, [Entry("D\\", inner), Entry("D\\x", alias), Entry("d\\x", Regular)]);
    Disk(Missing, Directory(false, true, [Entry("r", root)]))
  }

  function AliasRoot(alias: Node): Node {
    AliasDisk(alias).cwd.entries[0].node
  }

  lemma AliasFolds()
    ensures Fold("D\\") == "d\\" && Fold("D\\x") == "d\\x" && Fold("d\\x") == "d\\x"
    ensures "D\\" != "d\\" && "D\\x" != "d\\x" && "D\\" != "D\\x" && "D\\" != "d\\x" && "d\\" != "d\\x"
  {
    assert "D\\"[0] != "d\\"[0] && "D\\x"[0] != "d\\x"[0];
    assert |"D\\"| == |"d\\"| == 2 && |"D\\x"| == |"d\\x"| == 3;
  }

  lemma AliasNames(alias: Node)
    ensures var names := DirNames(AliasRoot(alias));
      && names == {"D\\", "D\\x", "d\\x"} && Unambiguous(names)
      && (forall name :: Preferred(names, name) <==> name == "D\\" || name == "d\\x")
    ensures Proper(alias) ==> Proper(AliasRoot(alias))
  {
    hide Fold;
    AliasFolds();
    var root := AliasRoot(alias);
    assert root.entries[1..][1..][1..] == [];
    assert Names(root.entries[1..][1..]) == ["d\\x"];
    assert Names(root.entries[1..]) == ["D\\x", "d\\x"];
    assert Names(root.entries) == ["D\\", "D\\x", "d\\x"];
    OnlyName(root.entries[0].node, "x");
  }

  lemma AliasSteps(alias: Node)
    ensures var root := AliasRoot(alias);
      && Step(root, "D\\") == Directory(false, true, [Entry("x", Regular)])
      && Step(root, "D\\x") == alias && Step(root, "d\\x") == Regular
  {
    AliasFolds();
    var root := AliasRoot(alias);
    var tail := root.entries[1..];
    assert tail[1..][0] == root.entries[2];
    assert Child(tail[1..], "d\\x") == Regular;
    assert Child(tail, "d\\x") == Regular && Child(tail, "D\\x") == alias;
    assert |"D\\x"| != |"."| && |"d\\x"| != |"."|;
  }

  lemma AliasPaths(alias: Node)
    ensures var disk := AliasDisk(alias);
      && Resolve(disk, "r") == AliasRoot(alias)
      && Resolve(disk, Join("r", "D\\")) == Directory(false, true, [Entry("x", Regular)])
      && Resolve(disk, Join("r", "d\\x")) == Regular
      && Resolve(disk, Join(Join("r", "D\\"), "x")) == alias
  {
    hide Split, DirNames, Preferred, Resolve, Step, ParentOf, LastComponent, AliasDisk;
    var disk := AliasDisk(alias);
    AliasRootPath(alias);
    AliasSteps(alias);
    assert Join("r", "D\\") == "r/D\\" && "D\\" + "x" == "D\\x";
    JoinResolves(disk, "r", "D\\");
    JoinResolves(disk, "r", "d\\x");
    JoinResolves(disk, "r/D\\", "x");
  }

  lemma AliasRootPath(alias: Node)
    ensures Resolve(AliasDisk(alias), "r") == AliasRoot(alias)
  {
    hide Walk, Split, DirNames, Preferred;
    var disk := AliasDisk(alias);
    SplitWhole("r", '/');
    WalkNothing(disk.cwd);
    OnlyName(disk.cwd, "r");
  }

  /** Nobody selects `D\\x`, but it stands where the program looks for the file in `D\\`. */
  lemma AliasExample()
    ensures !Preferred(DirNames(AliasRoot(Regular)), "D\\x")
    ensures Renderable(OnDisk(AliasDisk(Regular), "r")) && !Renderable(OnDisk(AliasDisk(Special), "r"))
  {
    hide DirNames, Preferred, Unambiguous, Resolve, Join;
    AliasFolds();
    forall alias | alias == Regular || alias == Special
      ensures Renderable(OnDisk(AliasDisk(alias), "r")) <==> alias == Regular
    {
      AliasRenders(alias);
    }
    AliasNames(Regular);
  }

  lemma AliasRenders(alias: Node)
    requires alias == Regular || alias == Special
    ensures Renderable(OnDisk(AliasDisk(alias), "r")) <==> alias == Regular
  {
    hide DirNames, Preferred, Unambiguous, Resolve, Join;
    AliasFolds();
    AliasPaths(alias);
    AliasNames(alias);
    var at := OnDisk(AliasDisk(alias), "r");
    var inner := Below(at, "D\\");
    OnlyName(NodeOf(inner), "x");
    PreferredIsListed(DirNames(NodeOf(inner)), "x");
    PreferredIsListed(DirNames(NodeOf(at)), "D\\");
    PreferredIsListed(DirNames(NodeOf(at)), "d\\x");
    assert RenderableEntry(inner, "x") <==> alias == Regular;
    assert Renderable(inner) <==> alias == Regular;
    assert RenderableEntry(at, "D\\") <==> alias == Regular;
    assert RenderableEntry(at, "d\\x");
  }

  // ---- the order of the roots

  /** When no two roots have one generic form, the emitted overlay depends neither on the sort, nor on the
      order of the command line, nor on the order of any directory. */
  lemma OverlayDeterministic(roots: seq<string>, roots': seq<string>, order: seq<RootEntry>, order': seq<RootEntry>,
                             disk: Disk, disk': Disk)
    requires multiset(roots) == multiset(roots')
    requires RootOrder(roots, order) && RootOrder(roots', order')
    requires ProperDisk(disk) && PermutedDisk(disk, disk')
    requires forall r, r' | r in roots && r' in roots && Generic(r) == Generic(r') :: r == r'
    ensures Emitted(order, disk) == Emitted(order', disk')
  {
    hide CanonRoots, RootOrder, ProperDisk, PermutedDisk, DocumentText, Generic, CanonDir;
    OrdersAgree(roots, roots', order, order');
    forall i | 0 <= i < |order| ensures CanonRoot(order[i], disk) == CanonRoot(order'[i], disk') {
      OrderedRoots(roots, order, i);
      OrderedRoots(roots', order', i);
      assert order'[i].path in multiset(roots');
      EnumerationIrrelevant(disk, disk', order[i].path, order[i].generic);
    }
    RootsAgree(order, order', disk, disk', 0);
  }

  lemma OrderedRoots(roots: seq<string>, order: seq<RootEntry>, i: nat)
    requires RootOrder(roots, order) && i < |order|
    ensures order[i].path in roots && order[i].generic == Generic(order[i].path)
  {
    assert order[i] in multiset(order);
    assert order[i] in RootsOf(roots);
  }

  function Generics(order: seq<RootEntry>): (r: seq<string>)
    ensures |r| == |order|
  {
    seq(|order|, i requires 0 <= i < |order| => order[i].generic)
  }

  /** Two sorted orders of the same roots spell the same generic path in every position. */
  lemma OrdersAgree(roots: seq<string>, roots': seq<string>, order: seq<RootEntry>, order': seq<RootEntry>)
    requires multiset(roots) == multiset(roots') && RootOrder(roots, order) && RootOrder(roots', order')
    ensures |order| == |order'| && forall i | 0 <= i < |order| :: order[i].generic == order'[i].generic
  {
    hide Generic;
    RootsOfMultiset(roots, roots');
    GenericsMultiset(order, order');
    var s, t := Generics(order), Generics(order');
    forall x, y | AtMost(x, y) && AtMost(y, x) ensures x == y {
      AtMostTotalOrder(x, y, x);
    }
    SortUnique(AtMost, s, t);
    assert forall i | 0 <= i < |order| :: s[i] == order[i].generic && t[i] == order'[i].generic;
  }

  lemma {:induction false} RootsOfMultiset(s: seq<string>, t: seq<string>)
    requires multiset(s) == multiset(t)
    ensures multiset(RootsOf(s)) == multiset(RootsOf(t))
  {
    hide Generic;
    assert |s| == |multiset(s)| == |t|;
    if s != [] {
      var j := MatchHead(s, t);
      var s', t' := s[1..], t[..j] + t[j + 1..];
      assert s == [s[0]] + s' && t == t[..j] + [t[j]] + t[j + 1..];
      RootsOfMultiset(s', t');
      assert RootsOf(s) == RootsOf([s[0]]) + RootsOf(s');
      assert RootsOf(t) == RootsOf(t[..j]) + RootsOf([s[0]]) + RootsOf(t[j + 1..]);
      assert RootsOf(t') == RootsOf(t[..j]) + RootsOf(t[j + 1..]);
    }
  }

  lemma {:induction false} GenericsMultiset(s: seq<RootEntry>, t: seq<RootEntry>)
    requires multiset(s) == multiset(t)
    ensures multiset(Generics(s)) == multiset(Generics(t))
  {
    assert |s| == |multiset(s)| == |t|;
    if s != [] {
      var j := MatchHead(s, t);
      var s', t' := s[1..], t[..j] + t[j + 1..];
      assert s == [s[0]] + s' && t == t[..j] + [t[j]] + t[j + 1..];
      GenericsMultiset(s', t');
      assert Generics(s) == Generics([s[0]]) + Generics(s');
      assert Generics(t) == Generics(t[..j]) + Generics([s[0]]) + Generics(t[j + 1..]);
      assert Generics(t') == Generics(t[..j]) + Generics(t[j + 1..]);
    }
  }

  lemma {:induction false} RootsAgree(order: seq<RootEntry>, order': seq<RootEntry>, disk: Disk, disk': Disk, index: nat)
    requires |order| == |order'| && index <= |order|
    requires forall i | 0 <= i < |order| :: order[i].generic == order'[i].generic
    requires forall i | 0 <= i < |order| :: CanonRoot(order[i], disk) == CanonRoot(order'[i], disk')
    ensures CanonRoots(order, disk, index) == CanonRoots(order', disk', index)
    decreases |order| - index
  {
    hide CanonRoot;
    if index < |order| {
      RootsAgree(order, order', disk, disk', index + 1);
    }
  }

  // ---- exactly when the order of the roots shows

  function RootEntryOf(path: string): RootEntry {
    RootEntry(path, Generic(path))
  }

  /** Roots of one generic form lead to directories that are alike. */
  ghost predicate AgreeingTwins(roots: seq<string>, disk: Disk) {
    forall r, r' | r in roots && r' in roots && Generic(r) == Generic(r') :: Alike(OnDisk(disk, r), OnDisk(disk, r'))
  }

  ghost predicate EqualTwins(roots: seq<string>, disk: Disk) {
    forall r, r' | r in roots && r' in roots && Generic(r) == Generic(r') ::
      CanonRoot(RootEntryOf(r), disk) == CanonRoot(RootEntryOf(r'), disk)
  }

  ghost predicate AllRender(roots: seq<string>, disk: Disk) {
    forall r | r in roots :: Renderable(OnDisk(disk, r))
  }

  /** Whatever order the sort leaves, the same bytes are emitted, or none at all. */
  ghost predicate OneText(roots: seq<string>, disk: Disk) {
    forall o, o' | RootOrder(roots, o) && RootOrder(roots, o') ::
      Emitted(o, disk) == Emitted(o', disk) || (Emitted(o, disk).Err? && Emitted(o', disk).Err?)
  }

  lemma {:induction false} RootsAllOk(order: seq<RootEntry>, disk: Disk, index: nat)
    requires index <= |order|
    ensures CanonRoots(order, disk, index).Ok? <==> forall i | index <= i < |order| :: CanonRoot(order[i], disk).Ok?
    decreases |order| - index
  {
    hide CanonRoot;
    if index < |order| {
      RootsAllOk(order, disk, index + 1);
    }
  }

  lemma TwinsAgreeOneText(roots: seq<string>, disk: Disk, o: seq<RootEntry>, o': seq<RootEntry>)
    requires EqualTwins(roots, disk) && RootOrder(roots, o) && RootOrder(roots, o')
    ensures Emitted(o, disk) == Emitted(o', disk)
  {
    hide CanonRoots, CanonRoot, RootOrder, DocumentText, Generic;
    OrdersAgree(roots, roots, o, o');
    forall i | 0 <= i < |o| ensures CanonRoot(o[i], disk) == CanonRoot(o'[i], disk) {
      OrderedRoots(roots, o, i);
      OrderedRoots(roots, o', i);
      assert o[i] == RootEntryOf(o[i].path) && o'[i] == RootEntryOf(o'[i].path);
    }
    RootsAgree(o, o', disk, disk, 0);
  }

  lemma SwapTwins(order: seq<RootEntry>, i: nat, j: nat) returns (swapped: seq<RootEntry>)
    requires i < j < |order| && Sorted(RootAtMost, order) && order[i].generic == order[j].generic
    ensures swapped == order[i := order[j]][j := order[i]]
    ensures Sorted(RootAtMost, swapped) && multiset(swapped) == multiset(order)
  {
    swapped := order[i := order[j]][j := order[i]];
    forall p, q | 0 <= p < q < |swapped| ensures RootAtMost(swapped[p], swapped[q]) {
      assert RootAtMost(order[p], order[q]);
      assert swapped[p].generic == order[p].generic && swapped[q].generic == order[q].generic;
    }
    assert order == order[..i] + ([order[i]] + order[i + 1..j] + [order[j]]) + order[j + 1..];
    assert swapped == order[..i] + ([order[j]] + order[i + 1..j] + [order[i]]) + order[j + 1..];
  }

  lemma SwapShows(order: seq<RootEntry>, i: nat, j: nat, disk: Disk, swapped: seq<RootEntry>)
    requires i < j < |order| && swapped == order[i := order[j]][j := order[i]]
    requires CanonRoots(order, disk, 0).Ok? && CanonRoots(swapped, disk, 0).Ok?
    requires CanonRoot(order[i], disk) != CanonRoot(order[j], disk)
    ensures Emitted(order, disk) != Emitted(swapped, disk)
  {
    hide CanonRoot, CanonRoots, DocumentText;
    RootsPointwise(order, disk, 0, i);
    RootsPointwise(swapped, disk, 0, i);
    var a, b := CanonRoots(order, disk, 0).value, CanonRoots(swapped, disk, 0).value;
    assert a[i] != b[i];
    if DocumentText(a) == DocumentText(b) {
      TextInjective(a, b);
    }
  }

  lemma OneTextEqualTwins(roots: seq<string>, disk: Disk)
    requires forall r | r in roots :: CanonRoot(RootEntryOf(r), disk).Ok?
    requires OneText(roots, disk)
    ensures EqualTwins(roots, disk)
  {
    hide CanonRoot, CanonRoots, Generic, DocumentText;
    var order := Sort(RootAtMost, RootsOf(roots));
    RootOrderTotal();
    SortIsSort(RootAtMost, RootsOf(roots));
    forall r, r' | r in roots && r' in roots && Generic(r) == Generic(r')
      ensures CanonRoot(RootEntryOf(r), disk) == CanonRoot(RootEntryOf(r'), disk)
    {
      var i := RootPlace(roots, order, r);
      var j := RootPlace(roots, order, r');
      if CanonRoot(order[i], disk) != CanonRoot(order[j], disk) {
        var lo, hi := if i < j then i else j, if i < j then j else i;
        var swapped := SwapTwins(order, lo, hi);
        assert RootOrder(roots, order) && RootOrder(roots, swapped);
        OrderedAllOk(roots, order, disk);
        OrderedAllOk(roots, swapped, disk);
        SwapShows(order, lo, hi, disk, swapped);
      }
    }
  }

  lemma OrderedAllOk(roots: seq<string>, order: seq<RootEntry>, disk: Disk)
    requires RootOrder(roots, order)
    requires forall r | r in roots :: CanonRoot(RootEntryOf(r), disk).Ok?
    ensures CanonRoots(order, disk, 0).Ok?
  {
    hide CanonRoot, CanonRoots, RootOrder, Generic;
    RootsAllOk(order, disk, 0);
    forall i | 0 <= i < |order| ensures CanonRoot(order[i], disk).Ok? {
      OrderedRoots(roots, order, i);
      assert order[i] == RootEntryOf(order[i].path);
    }
  }

  lemma RootPlace(roots: seq<string>, order: seq<RootEntry>, r: string) returns (i: nat)
    requires r in roots && multiset(order) == multiset(RootsOf(roots))
    ensures i < |order| && order[i] == RootEntryOf(r)
  {
    var k :| 0 <= k < |roots| && roots[k] == r;
    assert RootsOf(roots)[k] == RootEntryOf(r);
    assert RootEntryOf(r) in multiset(RootsOf(roots));
    assert RootEntryOf(r) in order;
    i :| 0 <= i < |order| && order[i] == RootEntryOf(r);
  }

  lemma RootRenders(disk: Disk, r: string)
    requires ProperDisk(disk)
    ensures CanonRoot(RootEntryOf(r), disk).Ok? <==> Renderable(OnDisk(disk, r))
  {
    hide CanonDir, Renderable, Proper, Generic;
    SucceedsExactly(OnDisk(disk, r), r, Generic(r));
  }

  lemma TwinsAlike(roots: seq<string>, disk: Disk)
    requires ProperDisk(disk) && AllRender(roots, disk)
    ensures EqualTwins(roots, disk) <==> AgreeingTwins(roots, disk)
  {
    hide CanonDir, Renderable, Proper, Generic, Alike;
    forall r, r' | r in roots && r' in roots && Generic(r) == Generic(r')
      ensures CanonRoot(RootEntryOf(r), disk) == CanonRoot(RootEntryOf(r'), disk)
        <==> Alike(OnDisk(disk, r), OnDisk(disk, r'))
    {
      RootRenders(disk, r);
      AlikeExact(OnDisk(disk, r), OnDisk(disk, r'), r, r', Generic(r));
    }
  }

  /** The emitted bytes depend on how the sort breaks ties exactly when every root can be rendered and two
      roots of one generic form lead to directories that are not alike. */
  lemma RootOrderExact(roots: seq<string>, disk: Disk)
    requires ProperDisk(disk)
    ensures OneText(roots, disk) <==> (AllRender(roots, disk) ==> AgreeingTwins(roots, disk))
  {
    hide CanonRoot, AgreeingTwins, EqualTwins, RootOrder, CanonRoots, Renderable, DocumentText, Proper;
    forall r | r in roots ensures CanonRoot(RootEntryOf(r), disk).Ok? <==> Renderable(OnDisk(disk, r)) {
      RootRenders(disk, r);
    }
    if AllRender(roots, disk) {
      TwinsAlike(roots, disk);
      if EqualTwins(roots, disk) {
        forall o, o' | RootOrder(roots, o) && RootOrder(roots, o') ensures Emitted(o, disk) == Emitted(o', disk) {
          TwinsAgreeOneText(roots, disk, o, o');
        }
      } else if OneText(roots, disk) {
        OneTextEqualTwins(roots, disk);
      }
    } else {
      var r :| r in roots && !Renderable(OnDisk(disk, r));
      forall o | RootOrder(roots, o) ensures Emitted(o, disk).Err? {
        FailingRoot(roots, o, disk, r);
      }
    }
  }

  lemma FailingRoot(roots: seq<string>, order: seq<RootEntry>, disk: Disk, r: string)
    requires RootOrder(roots, order) && r in roots && CanonRoot(RootEntryOf(r), disk).Err?
    ensures Emitted(order, disk).Err?
  {
    hide CanonRoot, CanonRoots, RootOrder, DocumentText;
    OrderIsPermutation(roots, order);
    var i := RootPlace(roots, order, r);
    RootsAllOk(order, disk, 0);
  }

  /** `a/b` is a directory with a file, `a\\b` an empty one. */
  function TwinDisk(): Disk {
    var b := Directory(false, true, [Entry("x", Regular)]);
    var a := Directory(false, true, [Entry("b", b)]);
    Disk(Missing, Directory(false, true, [Entry("a", a), Entry("a\\b", Directory(false, true, []))]))
  }

  /** Given these two roots, qsort decides which bytes are emitted. */
  lemma TwinExample()
    ensures ProperDisk(TwinDisk()) && Generic("a/b") == Generic("a\\b")
    ensures !OneText(["a/b", "a\\b"], TwinDisk())
  {
    hide CanonDir, Preferred, Unambiguous, Alike, Renderable, OneText, AgreeingTwins, AllRender, Walk, DirNames, Proper;
    var disk, roots := TwinDisk(), ["a/b", "a\\b"];
    TwinNodes();
    assert Generic("a/b") == Generic("a\\b") == "a/b";
    TwinsRender();
    TwinsDiffer();
    assert roots[0] in roots && roots[1] in roots;
    assert AllRender(roots, disk) by {
      AllOfTwo(disk);
    }
    assert !AgreeingTwins(roots, disk) by {
      NotAgreeing(roots, disk, roots[0], roots[1]);
    }
    RootOrderExact(roots, disk);
  }

  lemma AllOfTwo(disk: Disk)
    requires Renderable(OnDisk(disk, "a/b")) && Renderable(OnDisk(disk, "a\\b"))
    ensures AllRender(["a/b", "a\\b"], disk)
  {
    hide Renderable;
  }

  lemma NotAgreeing(roots: seq<string>, disk: Disk, r: string, r': string)
    requires r in roots && r' in roots && Generic(r) == Generic(r') && !Alike(OnDisk(disk, r), OnDisk(disk, r'))
    ensures !AgreeingTwins(roots, disk)
  {
    hide Alike, Generic;
  }

  lemma EmptyDirectory(node: Node)
    requires node.Directory? && node.entries == []
    ensures Proper(node) && DirNames(node) == {} && Unambiguous(DirNames(node))
    ensures forall name :: !Preferred(DirNames(node), name)
  {
  }

  lemma TwinNodes()
    ensures ProperDisk(TwinDisk())
    ensures Resolve(TwinDisk(), "a/b") == Directory(false, true, [Entry("x", Regular)])
    ensures Resolve(TwinDisk(), "a\\b") == Directory(false, true, [])
  {
    hide Walk, DirNames, Preferred, Unambiguous, Split, Proper;
    var disk := TwinDisk();
    var a := disk.cwd.entries[0].node;
    var b := a.entries[0].node;
    TwinProper();
    SplitWhole("a", '/');
    SplitWhole("a\\b", '/');
    WalkNothing(disk.cwd);
    assert Resolve(disk, "a") == a;
    JoinResolves(disk, "a", "b");
    assert Join("a", "b") == "a/b";
    OnlyName(a, "b");
    assert disk.cwd.entries[1..][0].name == "a\\b";
    assert |"a"| != |"a\\b"|;
  }

  lemma TwinProper()
    ensures ProperDisk(TwinDisk())
  {
    hide DirNames, Preferred, Unambiguous;
    var disk := TwinDisk();
    var a := disk.cwd.entries[0].node;
    OnlyName(a.entries[0].node, "x");
    OnlyName(a, "b");
    EmptyDirectory(disk.cwd.entries[1].node);
    assert disk.cwd.entries[1..][1..] == [];
    assert Names(disk.cwd.entries) == ["a", "a\\b"];
    assert |"a"| != |"a\\b"|;
  }

  lemma TwinsRender()
    ensures Renderable(OnDisk(TwinDisk(), "a/b")) && Renderable(OnDisk(TwinDisk(), "a\\b"))
  {
    hide DirNames, Preferred, Unambiguous, Walk, Split, Proper, LastComponent, ParentOf;
    TwinNodes();
    var disk := TwinDisk();
    OnlyName(Resolve(disk, "a/b"), "x");
    EmptyDirectory(Resolve(disk, "a\\b"));
    JoinResolves(disk, "a/b", "x");
    assert RenderableEntry(OnDisk(disk, "a/b"), "x");
  }

  lemma TwinsDiffer()
    ensures !Alike(OnDisk(TwinDisk(), "a/b"), OnDisk(TwinDisk(), "a\\b"))
  {
    hide DirNames, Preferred, Unambiguous, Resolve;
    TwinNodes();
    var disk := TwinDisk();
    OnlyName(Resolve(disk, "a/b"), "x");
    EmptyDirectory(Resolve(disk, "a\\b"));
    assert Preferred(DirNames(Resolve(disk, "a/b")), "x");
  }

  // ---- the text a caller receives

  /** Generation fails without roots or when some root is not renderable, and in no other case; what it
      emits is JSON whose document is the overlay of the sorted roots. */
  lemma GenerationExact(roots: seq<string>, order: seq<RootEntry>, disk: Disk)
    requires roots != [] && RootOrder(roots, order) && ProperDisk(disk)
    ensures Emitted(order, disk).Ok? <==> AllRender(roots, disk)
    ensures Emitted(order, disk).Ok? ==>
      ParseText(Emitted(order, disk).value) == Some(DocumentJson(CanonRoots(order, disk, 0).value))
  {
    hide CanonRoots, CanonDir, RootOrder, Proper, Renderable, DocumentText, ParseText, DocumentJson, Generic, CanonRoot;
    RootsAllOk(order, disk, 0);
    OrderIsPermutation(roots, order);
    forall r | r in roots ensures CanonRoot(RootEntryOf(r), disk).Ok? <==> Renderable(OnDisk(disk, r)) {
      RootRenders(disk, r);
    }
    if AllRender(roots, disk) {
      OrderedAllOk(roots, order, disk);
    } else {
      var r :| r in roots && !Renderable(OnDisk(disk, r));
      FailingRoot(roots, order, disk, r);
    }
    if Emitted(order, disk).Ok? {
      var i := RootPlace(roots, order, roots[0]);
      DocumentRoundTrip(CanonRoots(order, disk, 0).value);
    }
  }

  /** When no path ends in a backslash, that is decided by the trees below the roots. */
  lemma GenerationFollowsTree(roots: seq<string>, order: seq<RootEntry>, disk: Disk)
    requires roots != [] && RootOrder(roots, order) && ProperDisk(disk)
    requires forall r | r in roots :: Straight(r, Resolve(disk, r))
    ensures Emitted(order, disk).Ok? <==> forall r | r in roots :: Renderable(Bare(Resolve(disk, r)))
  {
    hide CanonRoots, CanonDir, RootOrder, Proper, Renderable, DocumentText, Straight, Resolve;
    GenerationExact(roots, order, disk);
    forall r | r in roots ensures Renderable(OnDisk(disk, r)) <==> Renderable(Bare(Resolve(disk, r))) {
      StraightIsTree(disk, r, r);
      ProperResolve(disk, r);
      SucceedsExactly(OnDisk(disk, r), r, r);
      SucceedsExactly(Bare(Resolve(disk, r)), r, r);
    }
  }

  lemma OrderIsPermutation(roots: seq<string>, order: seq<RootEntry>)
    requires RootOrder(roots, order)
    ensures multiset(order) == multiset(RootsOf(roots))
  {
  }

  // ---- case-insensitive lookup

  /** The first child whose name folds like the component. */
  function Find(contents: seq<Overlay>, component: string): Option<Overlay> {
    if contents == [] then None
    else if Fold(contents[0].name) == Fold(component) then Some(contents[0])
    else Find(contents[1..], component)
  }

  function Lookup(t: Overlay, path: seq<string>): Option<Overlay>
    decreases |path|
  {
    if path == [] then Some(t)
    else if t.FileNode? then None
    else match Find(t.contents, path[0])
      case None => None
      case Some(child) => Lookup(child, path[1..])
  }

  /** No two children of a directory answer to the same component, at any depth. */
  ghost predicate OneAnswer(t: Overlay) {
    t.DirNode? ==>
      && (forall i, j | 0 <= i < j < |t.contents| :: Fold(t.contents[i].name) != Fold(t.contents[j].name))
      && (forall i | 0 <= i < |t.contents| :: OneAnswer(t.contents[i]))
  }

  /** The spelling the disk is searched for: the lowercase one if it is there, else any one that folds
      like the component. */
  ghost function DiskName(names: set<string>, component: string): Option<string> {
    if Fold(component) in names then Some(Fold(component))
    else if exists n :: n in names && Fold(n) == Fold(component) then
      var n :| n in names && Fold(n) == Fold(component);
      Some(n)
    else None
  }

  /** A node on disk, with its path and the name it was found under. */
  datatype Place = Place(at: Spot, path: string, name: string)

  function ChildPlace(place: Place, name: string): Place {
    Place(Below(place.at, name), Join(place.path, name), name)
  }

  /** Going down to the disk's own spelling of each component. */
  ghost function Descend(place: Place, path: seq<string>): Option<Place>
    decreases |path|
  {
    if path == [] then Some(place)
    else if !NodeOf(place.at).Directory? then None
    else match DiskName(DirNames(NodeOf(place.at)), path[0])
      case None => None
      case Some(name) => Descend(ChildPlace(place, name), path[1..])
  }

  /** How the overlay shows a node. */
  function Shown(place: Place): Result<Overlay, Error> {
    if NodeOf(place.at).Regular? then Ok(FileNode(place.name, Generic(place.path)))
    else CanonDir(place.at, place.path, place.name)
  }

  lemma {:induction false} FindUnique(contents: seq<Overlay>, component: string, i: nat)
    requires i < |contents| && Fold(contents[i].name) == Fold(component)
    requires forall p, q | 0 <= p < q < |contents| :: Fold(contents[p].name) != Fold(contents[q].name)
    ensures Find(contents, component) == Some(contents[i])
  {
    hide Fold;
    if i > 0 {
      FindUnique(contents[1..], component, i - 1);
    }
  }

  lemma {:induction false} FindNothing(contents: seq<Overlay>, component: string)
    requires forall i | 0 <= i < |contents| :: Fold(contents[i].name) != Fold(component)
    ensures Find(contents, component) == None
  {
    hide Fold;
    if contents != [] {
      FindNothing(contents[1..], component);
    }
  }

  /** The contents of a rendered directory, slot by slot. */
  lemma ContentsOf(place: Place, i: nat)
    requires NodeOf(place.at).Directory? && ProperAt(place.at) && Shown(place).Ok?
    requires i < |Chosen(NodeOf(place.at))|
    ensures Shown(place).value.DirNode? && |Shown(place).value.contents| == |Chosen(NodeOf(place.at))|
    ensures Shown(place).value.contents[i].name == Chosen(NodeOf(place.at))[i].name
    ensures Chosen(NodeOf(place.at))[i].folded == Fold(Chosen(NodeOf(place.at))[i].name)
    ensures Shown(ChildPlace(place, Chosen(NodeOf(place.at))[i].name)) == Ok(Shown(place).value.contents[i])
  {
    hide CanonDir, CanonEntries, Chosen, Unambiguous, Preferred, Generic, Join, Fold, NodeOf, Below, ProperAt, DirNames;
    CanonDirUnfold(place.at, place.path, place.name);
    ProperNode(place.at, ".");
    EntriesPointwise(place.at, place.path, Chosen(NodeOf(place.at)), 0, i);
    ChosenPreferred(NodeOf(place.at), i);
    EntryName(place.at, place.path, Chosen(NodeOf(place.at))[i].name);
  }

  lemma ContentsDistinct(place: Place)
    requires NodeOf(place.at).Directory? && ProperAt(place.at) && Shown(place).Ok?
    ensures Shown(place).value.DirNode? && |Shown(place).value.contents| == |Chosen(NodeOf(place.at))|
    ensures var contents := Shown(place).value.contents;
      forall i, j | 0 <= i < j < |contents| :: Fold(contents[i].name) != Fold(contents[j].name)
  {
    hide CanonDir, Chosen, Unambiguous, Preferred, Fold, Shown, NodeOf, ProperAt, DirNames;
    assert Shown(place) == CanonDir(place.at, place.path, place.name) by { ShownDirectory(place); }
    CanonDirUnfold(place.at, place.path, place.name);
    ProperNode(place.at, ".");
    ChosenStrict(NodeOf(place.at));
    var contents, chosen := Shown(place).value.contents, Chosen(NodeOf(place.at));
    forall i, j | 0 <= i < j < |contents| ensures Fold(contents[i].name) != Fold(contents[j].name) {
      ContentsOf(place, i);
      ContentsOf(place, j);
      LessIrreflexive(chosen[i].folded);
    }
  }

  lemma ShownDirectory(place: Place)
    requires NodeOf(place.at).Directory?
    ensures Shown(place) == CanonDir(place.at, place.path, place.name)
  {
  }

  /** Among unambiguous names the name the disk is searched for is the preferred one of its class. */
  lemma DiskNamePreferred(names: set<string>, component: string)
    requires Unambiguous(names) && DiskName(names, component).Some?
    ensures Preferred(names, DiskName(names, component).value)
    ensures Fold(DiskName(names, component).value) == Fold(component)
  {
    FoldIdempotent(component);
  }

  /** Looking a path up in the overlay, ignoring case, finds exactly what the disk has at the preferred
      spellings, and nothing where the disk has nothing. */
  lemma {:induction false} LookupAgrees(place: Place, path: seq<string>)
    requires ProperAt(place.at) && Shown(place).Ok?
    ensures match Descend(place, path)
      case None => Lookup(Shown(place).value, path) == None
      case Some(found) => Shown(found).Ok? && Lookup(Shown(place).value, path) == Some(Shown(found).value)
    decreases |path|
  {
    hide Shown, Chosen, Unambiguous, Preferred, DiskName, Fold, Find, ProperAt, NodeOf, DirNames, ChildPlace;
    if path != [] && NodeOf(place.at).Directory? {
      ShownDirectory(place);
      CanonDirUnfold(place.at, place.path, place.name);
      ContentsDistinct(place);
      ProperNode(place.at, ".");
      var contents, names := Shown(place).value.contents, DirNames(NodeOf(place.at));
      match DiskName(names, path[0])
      case None =>
        forall i | 0 <= i < |contents| ensures Fold(contents[i].name) != Fold(path[0]) {
          ContentsOf(place, i);
          ChosenPreferred(NodeOf(place.at), i);
          NoDiskName(names, path[0], contents[i].name);
        }
        FindNothing(contents, path[0]);
      case Some(name) =>
        DiskNamePreferred(names, path[0]);
        var i := PreferredChosen(NodeOf(place.at), name);
        ContentsOf(place, i);
        FindUnique(contents, path[0], i);
        ProperChildPlace(place, name);
        LookupAgrees(ChildPlace(place, name), path[1..]);
    } else if path != [] {
      ShownFile(place);
    }
  }

  lemma ProperChildPlace(place: Place, name: string)
    requires ProperAt(place.at)
    ensures ProperAt(ChildPlace(place, name).at)
  {
    hide ProperAt;
    ProperNode(place.at, name);
  }

  lemma NoDiskName(names: set<string>, component: string, name: string)
    requires DiskName(names, component) == None && Preferred(names, name)
    ensures Fold(name) != Fold(component)
  {
  }

  lemma ShownFile(place: Place)
    requires !NodeOf(place.at).Directory? && Shown(place).Ok?
    ensures Shown(place).value.FileNode?
  {
  }

  /** When no path ends in a backslash, the overlay of a root answers as the tree below it does, and what a
      node's path leads to is that node. */
  lemma LookupFollowsTree(disk: Disk, root: string, name: string, path: seq<string>)
    requires ProperDisk(disk) && Straight(root, Resolve(disk, root))
    requires CanonDir(OnDisk(disk, root), root, name).Ok?
    ensures var overlay := CanonDir(OnDisk(disk, root), root, name).value;
      match Descend(Place(Bare(Resolve(disk, root)), root, name), path)
      case None => Lookup(overlay, path) == None
      case Some(found) =>
        Shown(found).Ok? && Lookup(overlay, path) == Some(Shown(found).value)
        && Resolve(disk, found.path) == NodeOf(found.at)
  {
    hide CanonDir, Straight, Proper, Resolve, Descend, Lookup, Shown;
    var tree := Place(Bare(Resolve(disk, root)), root, name);
    StraightIsTree(disk, root, name);
    ProperResolve(disk, root);
    SucceedsExactly(tree.at, root, name);
    RenderableIsDir(tree.at);
    ShownDirectory(tree);
    LookupAgrees(tree, path);
    DescendFollowsTree(disk, root, name, path);
  }

  lemma RenderableIsDir(at: Spot)
    requires Renderable(at)
    ensures NodeOf(at).Directory? && Unambiguous(DirNames(NodeOf(at)))
  {
  }

  lemma RenderableBelow(node: Node, name: string)
    requires node.Directory? && Renderable(Bare(node)) && Preferred(DirNames(node), name)
    ensures Step(node, name).Directory? ==> Renderable(Bare(Step(node, name)))
  {
    hide DirNames, Preferred, Unambiguous, Step, Listed;
    PreferredIsListed(DirNames(node), name);
    assert RenderableEntry(Bare(node), name);
  }

  lemma {:induction false} DescendFollowsTree(disk: Disk, root: string, name: string, path: seq<string>)
    requires Straight(root, Resolve(disk, root))
    requires Resolve(disk, root).Directory? ==> Renderable(Bare(Resolve(disk, root)))
    ensures match Descend(Place(Bare(Resolve(disk, root)), root, name), path)
      case None => true
      case Some(found) => Resolve(disk, found.path) == NodeOf(found.at)
    decreases |path|
  {
    hide Straight, Resolve, Renderable, DirNames, DiskName, Preferred, Unambiguous, Step, Join;
    var node := Resolve(disk, root);
    if path != [] && node.Directory? && DiskName(DirNames(node), path[0]).Some? {
      var n := DiskName(DirNames(node), path[0]).value;
      RenderableIsDir(Bare(node));
      DiskNamePreferred(DirNames(node), path[0]);
      StraightStep(disk, root, n);
      RenderableBelow(node, n);
      DescendFollowsTree(disk, Join(root, n), n, path[1..]);
    }
  }

  /** Every path has at most one answer. */
  lemma {:induction false} AtMostOneAnswer(place: Place)
    requires ProperAt(place.at) && Shown(place).Ok?
    ensures OneAnswer(Shown(place).value)
    decreases Anchor(place.at), Room(place.at), if NodeOf(place.at).Directory? then 1 else 0
  {
    hide Shown, Chosen, Fold, ProperAt, Preferred, Unambiguous, NodeOf, Below, Anchor, Room, DirNames, Listed;
    if NodeOf(place.at).Directory? {
      ContentsDistinct(place);
      var contents := Shown(place).value.contents;
      forall i | 0 <= i < |contents| ensures OneAnswer(contents[i]) {
        ContentsOf(place, i);
        var name := Chosen(NodeOf(place.at))[i].name;
        ProperChildPlace(place, name);
        if NodeOf(Below(place.at, name)).Directory? {
          BelowDecreases(place.at, name);
          AtMostOneAnswer(ChildPlace(place, name));
        } else {
          ShownFile(ChildPlace(place, name));
        }
      }
    } else {
      ShownFile(place);
    }
  }
}
