/** Which error the overlay generator reports. */
module CiErrors {
  import opened Sequences
  import opened CText
  import opened Results
  import opened Sorting
  import opened CiFilesystem
  import opened CiDisk
  import opened CiVfs
  import opened CiOverlay

  // ---- ambiguous names

  /** a and b are the two smallest spellings of the first class of names that has several but no lowercase
      one. */
  ghost predicate FirstAmbiguous(names: set<string>, a: string, b: string) {
    && a in names && b in names && Fold(a) == Fold(b) && Fold(a) !in names && Less(a, b)
    && (forall c | c in names && Fold(c) == Fold(a) :: c == a || c == b || Less(b, c))
    && (forall x, y | x in names && y in names && x != y && Fold(x) == Fold(y) && Fold(x) !in names ::
          AtMost(Fold(a), Fold(x)))
  }

  /** The first two places of the first colliding class. */
  ghost predicate CollidesAt(s: seq<CiEntry>, start: nat, i: nat) {
    && start <= i && i + 1 < |s| && s[i].folded == s[i + 1].folded && !LowerFrom(s, start, s[i].folded)
    && (forall k | start <= k < i :: Less(s[k].folded, s[i].folded))
    && (forall j, k | start <= j < k < i && s[j].folded == s[k].folded :: LowerFrom(s, start, s[j].folded))
  }

  lemma {:induction false} CollisionAt(s: seq<CiEntry>, start: nat) returns (i: nat)
    requires start <= |s| && Sorted(EntryAtMost, s) && Collision(s, start).Some?
    ensures CollidesAt(s, start, i) && Collision(s, start) == Some((s[i].name, s[i + 1].name))
    decreases |s| - start
  {
    hide EntryAtMost, CollidesAt, LowerFrom, Collision, ClassEnd, FirstLower, Less, Sorted;
    CollisionStep(s, start);
    var end := ClassEnd(s, start, start + 1);
    forall k | end <= k < |s| ensures Less(s[start].folded, s[k].folded) {
      ClassEndLarger(s, start, k);
    }
    if end - start > 1 && FirstLower(s, start, end) == end {
      i := start;
      FirstClass(s, start, end);
    } else {
      i := CollisionAt(s, end);
      LaterClass(s, start, end, i);
    }
  }

  lemma CollisionStep(s: seq<CiEntry>, start: nat)
    requires start <= |s| && Collision(s, start).Some?
    ensures start < |s|
    ensures var end := ClassEnd(s, start, start + 1);
      Collision(s, start)
        == if end - start > 1 && FirstLower(s, start, end) == end then Some((s[start].name, s[start + 1].name))
           else Collision(s, end)
  {
    hide ClassEnd, FirstLower;
  }

  lemma FirstClass(s: seq<CiEntry>, start: nat, end: nat)
    requires start + 1 < end <= |s| && FirstLower(s, start, end) == end
    requires forall k | start <= k < end :: s[k].folded == s[start].folded
    requires forall k | end <= k < |s| :: Less(s[start].folded, s[k].folded)
    ensures CollidesAt(s, start, start)
  {
    LessIrreflexive(s[start].folded);
  }

  lemma LaterClass(s: seq<CiEntry>, start: nat, end: nat, i: nat)
    requires start < end <= |s| && CollidesAt(s, end, i)
    requires forall k | start <= k < end :: s[k].folded == s[start].folded
    requires forall k | end <= k < |s| :: Less(s[start].folded, s[k].folded)
    requires !(end - start > 1 && FirstLower(s, start, end) == end)
    ensures CollidesAt(s, start, i)
  {
    LessIrreflexive(s[start].folded);
    var low := FirstLower(s, start, end);
    assert end - start > 1 ==> LowerFrom(s, start, s[start].folded);
    assert forall k | end <= k < |s| :: LowerFrom(s, end, s[k].folded) <==> LowerFrom(s, start, s[k].folded);
  }

  lemma AmbiguousAt(s: seq<CiEntry>, names: set<string>, i: nat)
    requires ProperListing(s, names) && CollidesAt(s, 0, i)
    ensures FirstAmbiguous(names, s[i].name, s[i + 1].name)
  {
    hide CollidesAt;
    CollidesAtParts(s, i);
    var a, b := s[i].name, s[i + 1].name;
    assert s[i] in s && s[i + 1] in s;
    forall k, l | 0 <= k < l < |s| && s[k].folded == s[l].folded ensures Less(s[k].name, s[l].name) {
      assert s[k] in s && s[l] in s;
      SortedNames(s, names, k, l);
    }
    ListedLower(s, names, a);
    forall c | c in names && Fold(c) == Fold(a) ensures c == a || c == b || Less(b, c) {
      assert EntryOf(c) in s;
      var k :| 0 <= k < |s| && s[k] == EntryOf(c);
      LessIrreflexive(s[i].folded);
      assert k >= i;
    }
    forall x, y | x in names && y in names && x != y && Fold(x) == Fold(y) && Fold(x) !in names
      ensures AtMost(Fold(a), Fold(x))
    {
      NotBefore(s, names, i, x, y);
    }
  }

  lemma ListedLower(s: seq<CiEntry>, names: set<string>, name: string)
    requires Lists(s, names)
    ensures Fold(name) in names ==> LowerFrom(s, 0, Fold(name))
  {
    if Fold(name) in names {
      assert EntryOf(Fold(name)) in s;
      var k :| 0 <= k < |s| && s[k] == EntryOf(Fold(name));
      FoldIdempotent(name);
      assert s[k].folded == Fold(name) && s[k].name == Fold(name);
    }
  }

  lemma EarlierPair(s: seq<CiEntry>, i: nat, j: nat, k: nat)
    requires CollidesAt(s, 0, i) && j < i && k < i && j != k && s[j].folded == s[k].folded
    ensures LowerFrom(s, 0, s[j].folded)
  {
    var lo, hi := if j < k then j else k, if j < k then k else j;
    assert s[lo].folded == s[hi].folded;
  }

  lemma CollidesAtParts(s: seq<CiEntry>, i: nat)
    requires CollidesAt(s, 0, i)
    ensures i + 1 < |s| && s[i].folded == s[i + 1].folded && !LowerFrom(s, 0, s[i].folded)
    ensures forall k | 0 <= k < i :: Less(s[k].folded, s[i].folded)
  {
  }

  lemma SortedNames(s: seq<CiEntry>, names: set<string>, k: nat, l: nat)
    requires ProperListing(s, names) && k < l < |s| && s[k].folded == s[l].folded
    ensures Less(s[k].name, s[l].name)
  {
    assert EntryAtMost(s[k], s[l]);
    LessIrreflexive(s[k].folded);
    assert s[k] in s && s[l] in s;
    assert s[k] == EntryOf(s[k].name) && s[l] == EntryOf(s[l].name);
  }

  /** A class that has no lowercase member does not come before the first such class. */
  lemma NotBefore(s: seq<CiEntry>, names: set<string>, i: nat, x: string, y: string)
    requires ProperListing(s, names) && CollidesAt(s, 0, i)
    requires x in names && y in names && x != y && Fold(x) == Fold(y) && Fold(x) !in names
    ensures AtMost(s[i].folded, Fold(x))
  {
    hide CollidesAt, Less, Fold, Sorted;
    assert EntryOf(x) in s && EntryOf(y) in s;
    var j :| 0 <= j < |s| && s[j] == EntryOf(x);
    var k :| 0 <= k < |s| && s[k] == EntryOf(y);
    EarlierIsListed(s, names, i, j, k);
    LaterAtMost(s, i, j);
    LaterAtMost(s, i, k);
  }

  lemma EarlierIsListed(s: seq<CiEntry>, names: set<string>, i: nat, j: nat, k: nat)
    requires ProperListing(s, names) && CollidesAt(s, 0, i) && j < |s| && k < |s| && j != k
    requires s[j].folded == s[k].folded
    ensures j < i && k < i ==> s[j].folded in names
  {
    hide CollidesAt, Less, LowerFrom;
    if j < i && k < i {
      EarlierPair(s, i, j, k);
      assert s[j] in s;
      LowerIsListed(s, names, s[j].folded);
    }
  }

  lemma LaterAtMost(s: seq<CiEntry>, i: nat, m: nat)
    requires Sorted(EntryAtMost, s) && i < |s| && m < |s|
    ensures i <= m ==> AtMost(s[i].folded, s[m].folded)
  {
    hide Less;
    if i < m {
      assert EntryAtMost(s[i], s[m]);
    }
  }

  lemma FirstAmbiguousUnique(names: set<string>, a: string, b: string, a': string, b': string)
    requires FirstAmbiguous(names, a, b) && FirstAmbiguous(names, a', b')
    ensures a == a' && b == b'
  {
    LessIrreflexive(a);
    LessIrreflexive(a');
    AtMostTotalOrder(Fold(a), Fold(a'), Fold(a));
    LessTrichotomy(a, a');
    LessTrichotomy(a, b');
    LessTrichotomy(b, a');
    LessTrichotomy(b, b');
    if Less(b, a') {
      LessTransitive(a, b, a');
    }
    if Less(b', a) {
      LessTransitive(a', b', a);
    }
  }

  /** The scan names exactly those two spellings. */
  lemma CollisionNames(names: seq<string>, a: string, b: string)
    requires Distinct(names)
    ensures Collision(Listing(names), 0) == Some((a, b)) <==> FirstAmbiguous(NameSet(names), a, b)
  {
    hide FirstAmbiguous, Collision, CollidesAt, Listing;
    var s := Listing(names);
    ListingIsProper(names);
    CollisionMeansAmbiguous(s, NameSet(names));
    if Collision(s, 0).Some? {
      var i := CollisionAt(s, 0);
      AmbiguousAt(s, NameSet(names), i);
      CollidesAtParts(s, i);
      if FirstAmbiguous(NameSet(names), a, b) {
        FirstAmbiguousUnique(NameSet(names), a, b, s[i].name, s[i + 1].name);
      }
    } else {
      NoneAmbiguous(NameSet(names), a, b);
    }
  }

  lemma NoneAmbiguous(names: set<string>, a: string, b: string)
    requires Unambiguous(names)
    ensures !FirstAmbiguous(names, a, b)
  {
    LessIrreflexive(a);
  }

  // ---- the first thing that cannot be rendered

  /** What is wrong with a directory that cannot be rendered: it cannot be read, its names are ambiguous, or
      else it is the first preferred entry, in folded order, that cannot be rendered. */
  ghost predicate Blames(at: Spot, path: string, e: Error)
    decreases Anchor(at), Room(at), 1
  {
    var node := NodeOf(at);
    if !node.Directory? || !node.readable then e == ReadFailed(path)
    else if !Unambiguous(DirNames(node)) then
      e.AmbiguousEntries? && e.directory == path && FirstAmbiguous(DirNames(node), e.first, e.second)
    else
      exists name | Preferred(DirNames(node), name) :: BlamesEntry(at, path, name, e) && FirstFailing(at, name)
  }

  ghost predicate BlamesEntry(at: Spot, path: string, name: string, e: Error)
    requires NodeOf(at).Directory? && Listed(name)
    decreases Anchor(at), Room(at), 0
  {
    match NodeOf(Below(at, name))
    case Regular => false
    case Missing => e == StatFailed(Join(path, name))
    case Special => e == Unsupported(Generic(Join(path, name)))
    case Directory(isSymlink, _, _) =>
      if isSymlink then e == DirectorySymlink(Generic(Join(path, name)))
      else
        BelowDecreases(at, name);
        Blames(Below(at, name), Join(path, name), e)
  }

  ghost predicate FirstFailing(at: Spot, name: string)
    requires NodeOf(at).Directory?
  {
    forall other | Preferred(DirNames(NodeOf(at)), other) && Less(Fold(other), Fold(name)) :: RenderableEntry(at, other)
  }

  lemma {:induction false} FirstError(at: Spot, path: string, chosen: seq<CiEntry>, index: nat) returns (i: nat)
    requires NodeOf(at).Directory? && index <= |chosen| && AllListed(chosen)
    requires CanonEntries(at, path, chosen, index).Err?
    ensures index <= i < |chosen|
    ensures CanonEntries(at, path, chosen, index).error == CanonEntryError(at, path, chosen[i].name)
    ensures CanonEntry(at, path, chosen[i].name).Err?
    ensures forall j | index <= j < i :: CanonEntry(at, path, chosen[j].name).Ok?
    decreases |chosen| - index
  {
    hide CanonEntry, NodeOf, Listed;
    if CanonEntry(at, path, chosen[index].name).Err? {
      i := index;
    } else {
      i := FirstError(at, path, chosen, index + 1);
    }
  }

  ghost function CanonEntryError(at: Spot, path: string, name: string): Error
    requires NodeOf(at).Directory? && Listed(name)
  {
    match CanonEntry(at, path, name)
    case Err(e) => e
    case Ok(_) => NoRoots
  }

  lemma ErrorCases(at: Spot, path: string, virtualName: string)
    requires ProperAt(at) && CanonDir(at, path, virtualName).Err?
    ensures var node, e := NodeOf(at), CanonDir(at, path, virtualName).error;
      if !node.Directory? || !node.readable then e == ReadFailed(path)
      else if !Unambiguous(DirNames(node)) then
        e.AmbiguousEntries? && e.directory == path && FirstAmbiguous(DirNames(node), e.first, e.second)
      else CanonEntries(at, path, Chosen(node), 0) == Err(e)
  {
    hide Collapsed, Listing, CanonEntries, Unambiguous, Collision, NodeOf, ProperAt, FirstAmbiguous;
    ProperNode(at, ".");
    var node := NodeOf(at);
    if node.Directory? && node.readable {
      PreferredListing(Names(node.entries));
      match Collision(Listing(Names(node.entries)), 0)
      case Some((a, b)) => CollisionNames(Names(node.entries), a, b);
      case None =>
    }
  }

  /** The reported error blames just that. */
  lemma {:induction false} ErrorBlames(at: Spot, path: string, virtualName: string)
    requires ProperAt(at) && CanonDir(at, path, virtualName).Err?
    ensures Blames(at, path, CanonDir(at, path, virtualName).error)
    decreases Anchor(at), Room(at), 1
  {
    hide Unambiguous, Preferred, CanonDir, CanonEntry, CanonEntries, Chosen, NodeOf, ProperAt, BlamesEntry, DirNames;
    hide FirstFailing, FirstAmbiguous, Listed;
    ErrorCases(at, path, virtualName);
    ProperNode(at, ".");
    var node := NodeOf(at);
    if node.Directory? && node.readable && Unambiguous(DirNames(node)) {
      var i := FirstError(at, path, Chosen(node), 0);
      var name := Chosen(node)[i].name;
      ChosenPreferred(node, i);
      FailsFirst(at, path, i);
      EntryBlames(at, path, name);
    }
  }

  lemma FailsFirst(at: Spot, path: string, i: nat)
    requires ProperAt(at) && NodeOf(at).Directory? && Unambiguous(DirNames(NodeOf(at)))
    requires i < |Chosen(NodeOf(at))|
    requires forall j | 0 <= j < i :: CanonEntry(at, path, Chosen(NodeOf(at))[j].name).Ok?
    ensures FirstFailing(at, Chosen(NodeOf(at))[i].name)
  {
    hide Unambiguous, Preferred, CanonEntry, Chosen, NodeOf, ProperAt, DirNames, Listed, RenderableEntry, Fold;
    var node := NodeOf(at);
    ProperNode(at, ".");
    ChosenStrict(node);
    ChosenPreferred(node, i);
    forall other | Preferred(DirNames(node), other) && Less(Fold(other), Fold(Chosen(node)[i].name))
      ensures Listed(other) && RenderableEntry(at, other)
    {
      var j := PreferredChosen(node, other);
      ChosenPreferred(node, j);
      LessIrreflexive(Fold(other));
      if j > i {
        LessTrichotomy(Chosen(node)[i].folded, Chosen(node)[j].folded);
      }
      EntrySucceedsExactly(at, path, other);
    }
  }

  lemma EntryBlames(at: Spot, path: string, name: string)
    requires ProperAt(at) && NodeOf(at).Directory? && Listed(name) && CanonEntry(at, path, name).Err?
    ensures BlamesEntry(at, path, name, CanonEntryError(at, path, name))
    decreases Anchor(at), Room(at), 0
  {
    hide CanonDir, Blames, NodeOf, ProperAt, Below, Anchor, Room, Listed, Join, Generic;
    ProperNode(at, name);
    if NodeOf(Below(at, name)).Directory? {
      BelowDecreases(at, name);
      if !NodeOf(Below(at, name)).isSymlink {
        ErrorBlames(Below(at, name), Join(path, name), name);
      }
    }
  }

  /** When nothing is emitted, the first root in the sorted order that cannot be rendered is blamed, under its
      generic form. */
  lemma FailureBlames(roots: seq<string>, order: seq<RootEntry>, disk: Disk) returns (i: nat)
    requires RootOrder(roots, order) && ProperDisk(disk) && Emitted(order, disk).Err?
    ensures i < |order|
    ensures Emitted(order, disk).error.WalkFailed? && Emitted(order, disk).error.root == Generic(order[i].path)
    ensures Blames(OnDisk(disk, order[i].path), order[i].path, Emitted(order, disk).error.detail)
    ensures forall j | 0 <= j < i :: Renderable(OnDisk(disk, order[j].path))
  {
    hide CanonDir, RootOrder, ProperDisk, DocumentText, Renderable, Blames, Generic;
    i := FirstRoot(order, disk, 0);
    OrderedRoots(roots, order, i);
    ErrorBlames(OnDisk(disk, order[i].path), order[i].path, order[i].generic);
    forall j | 0 <= j < i ensures Renderable(OnDisk(disk, order[j].path)) {
      SucceedsExactly(OnDisk(disk, order[j].path), order[j].path, order[j].generic);
    }
  }

  lemma {:induction false} FirstRoot(order: seq<RootEntry>, disk: Disk, index: nat) returns (i: nat)
    requires index <= |order| && CanonRoots(order, disk, index).Err?
    ensures index <= i < |order|
    ensures CanonDir(OnDisk(disk, order[i].path), order[i].path, order[i].generic).Err?
    ensures CanonRoots(order, disk, index).error
      == WalkFailed(order[i].generic, CanonDir(OnDisk(disk, order[i].path), order[i].path, order[i].generic).error)
    ensures forall j | index <= j < i ::
      CanonDir(OnDisk(disk, order[j].path), order[j].path, order[j].generic).Ok?
    decreases |order| - index
  {
    hide CanonDir;
    if CanonRoot(order[index], disk).Err? {
      i := index;
    } else {
      i := FirstRoot(order, disk, index + 1);
    }
  }
}
