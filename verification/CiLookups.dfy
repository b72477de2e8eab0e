/** Which entries of a disk the overlay generator looks at, and where the paths it emits lead. */
module CiLookups {
  import opened Sequences
  import opened CText
  import opened Results
  import opened CiFilesystem
  import opened CiDisk
  import opened CiVfs
  import opened CiOverlay

  // ---- where external-contents leads

  lemma GenericExact(path: string)
    ensures Generic(path) == path <==> Lacks(path, '\\')
  {
    if Generic(path) == path {
      forall i | 0 <= i < |path| ensures path[i] != '\\' {
        assert Generic(path)[i] == path[i];
      }
    }
  }

  lemma {:induction false} SplitConcat(s: string, t: string, c: char)
    ensures Split(s + ([c] + t), c) == Split(s, c) + Split(t, c)
    decreases |s|
  {
    hide Split;
    if Lacks(s, c) {
      SplitWhole(s, c);
      SplitApart(s, t, c);
    } else {
      var head, rest := SplitHead(s, c);
      SplitConcat(rest, t, c);
      assert s + ([c] + t) == head + ([c] + (rest + ([c] + t)));
      SplitApart(head, rest + ([c] + t), c);
    }
  }

  lemma {:induction false} WalkConcat(node: Node, a: seq<string>, b: seq<string>)
    ensures Walk(node, a + b) == Walk(Walk(node, a), b)
    decreases |b|
  {
    if b == [] {
      assert a + b == a;
    } else {
      WalkConcat(node, a, Front(b));
      assert Front(a + b) == a + Front(b) && Final(a + b) == Final(b);
    }
  }

  lemma ResolveIsWalk(disk: Disk, path: string)
    requires path != ""
    ensures Resolve(disk, path) == Walk(Start(disk, path), Split(path, '/'))
  {
    hide Split;
  }

  /** Below a directory whose path has no backslash, the emitted path of a name leads through the pieces of the
      name between its backslashes. */
  lemma ExternalResolves(disk: Disk, path: string, name: string)
    requires path != "" && Lacks(path, '\\')
    ensures Resolve(disk, Generic(Join(path, name))) == Walk(Resolve(disk, path), Split(Generic(name), '/'))
  {
    hide Split, Walk, Step, Resolve, Lacks;
    var pieces := Split(Generic(name), '/');
    GenericExact(path);
    var joined := Generic(Join(path, name));
    NoBackslashAtEnd(path);
    if EndsIn(path, '/') {
      var front := Front(path);
      assert path == front + (['/'] + "") && joined == front + (['/'] + Generic(name));
      SplitConcat(front, "", '/');
      SplitConcat(front, Generic(name), '/');
      SplitNothing();
      var start := Start(disk, path);
      ResolveIsWalk(disk, path);
      ResolveIsWalk(disk, joined);
      WalkConcat(start, Split(front, '/'), [""]);
      WalkConcat(start, Split(front, '/'), pieces);
      StayThenWalk(Walk(start, Split(front, '/')), pieces);
    } else {
      assert joined == path + (['/'] + Generic(name));
      SplitConcat(path, Generic(name), '/');
      ResolveIsWalk(disk, path);
      ResolveIsWalk(disk, joined);
      WalkConcat(Start(disk, path), Split(path, '/'), pieces);
    }
  }

  lemma NoBackslashAtEnd(path: string)
    requires path != "" && Lacks(path, '\\')
    ensures !EndsIn(path, '\\')
  {
  }

  lemma SplitNothing()
    ensures Split("", '/') == [""]
  {
  }

  /** Walking on from a directory's own path with a slash at its end changes nothing. */
  lemma {:induction false} StayThenWalk(node: Node, pieces: seq<string>)
    requires pieces != []
    ensures Walk(Walk(node, [""]), pieces) == Walk(node, pieces)
    decreases |pieces|
  {
    assert Walk(node, [""]) == Step(Walk(node, []), "");
    if |pieces| == 1 {
      assert Front(pieces) == [];
    } else {
      StayThenWalk(node, Front(pieces));
    }
  }

  /** The emitted path of a file leads to it exactly when those pieces do; a name without a backslash is one
      piece. */
  lemma ExternalExact(disk: Disk, path: string, name: string)
    requires path != "" && Lacks(path, '\\') && ValidName(name)
    ensures Resolve(disk, Generic(Join(path, name))) == Resolve(disk, Join(path, name))
      <==> Walk(Resolve(disk, path), Split(Generic(name), '/')) == Step(Resolve(disk, path), name)
    ensures Lacks(name, '\\') ==> Resolve(disk, Generic(Join(path, name))) == Resolve(disk, Join(path, name))
  {
    hide Split, Walk, Step, Resolve;
    ExternalResolves(disk, path, name);
    NoBackslashAtEnd(path);
    JoinResolves(disk, path, name);
    if Lacks(name, '\\') {
      GenericExact(path);
      GenericExact(name);
      GenericExact(Join(path, name));
    }
  }

  /** No name selected anywhere below has a backslash. */
  ghost predicate Unslashed(node: Node)
    decreases node
  {
    node.Directory? ==>
      forall name | Preferred(DirNames(node), name) ::
        && Lacks(name, '\\')
        && (Child(node.entries, name).Directory? ==>
              (ChildIsListed(node.entries, name);
               Unslashed(Child(node.entries, name))))
  }

  lemma {:induction false} UnslashedStraight(path: string, node: Node)
    requires Unslashed(node) && Lacks(path, '\\')
    ensures Straight(path, node)
    decreases node
  {
    hide DirNames, Preferred;
    if node.Directory? {
      forall name | Preferred(DirNames(node), name)
        ensures !EndsIn(path, '\\')
        ensures Child(node.entries, name).Directory? ==> Straight(name, Child(node.entries, name))
      {
        if Child(node.entries, name).Directory? {
          ChildIsListed(node.entries, name);
          UnslashedStraight(name, Child(node.entries, name));
        }
      }
    }
  }

  lemma UnslashedChild(node: Node, name: string)
    requires node.Directory? && Unslashed(node) && Preferred(DirNames(node), name)
    ensures Lacks(name, '\\') && Unslashed(Step(node, name))
  {
    hide DirNames, Preferred;
    PreferredIsListed(DirNames(node), name);
    StepOfListed(node, name);
  }

  lemma {:induction false} DescendUnslashed(place: Place, path: seq<string>)
    requires place.at.Bare? && Unslashed(place.at.tree) && Lacks(place.path, '\\')
    requires place.at.tree.Directory? ==> Renderable(place.at)
    ensures Descend(place, path).Some? ==> Lacks(Descend(place, path).value.path, '\\')
    decreases |path|
  {
    hide Unslashed, Renderable, DirNames, DiskName, Preferred, Unambiguous, Step;
    var node := place.at.tree;
    if path != [] && node.Directory? && DiskName(DirNames(node), path[0]).Some? {
      var name := DiskName(DirNames(node), path[0]).value;
      RenderableIsDir(place.at);
      DiskNamePreferred(DirNames(node), path[0]);
      UnslashedChild(node, name);
      RenderableBelow(node, name);
      DescendUnslashed(ChildPlace(place, name), path[1..]);
    }
  }

  /** When no path has a backslash anywhere, every emitted external-contents leads to the file the tree lists
      there. */
  lemma ExternalLeads(disk: Disk, root: string, name: string, path: seq<string>)
    requires ProperDisk(disk) && Lacks(root, '\\') && Unslashed(Resolve(disk, root))
    requires CanonDir(OnDisk(disk, root), root, name).Ok?
    ensures match Descend(Place(Bare(Resolve(disk, root)), root, name), path)
      case None => Lookup(CanonDir(OnDisk(disk, root), root, name).value, path) == None
      case Some(found) =>
        && Shown(found).Ok?
        && Lookup(CanonDir(OnDisk(disk, root), root, name).value, path) == Some(Shown(found).value)
        && (NodeOf(found.at).Regular? ==>
              Shown(found).value == FileNode(found.name, found.path) && Resolve(disk, found.path) == Regular)
  {
    hide CanonDir, Straight, Proper, Resolve, Descend, Lookup, Unslashed, Renderable;
    var tree := Place(Bare(Resolve(disk, root)), root, name);
    UnslashedStraight(root, Resolve(disk, root));
    LookupFollowsTree(disk, root, name, path);
    StraightIsTree(disk, root, name);
    ProperResolve(disk, root);
    SucceedsExactly(tree.at, root, name);
    DescendUnslashed(tree, path);
    match Descend(tree, path)
    case None =>
    case Some(found) => GenericExact(found.path);
  }

  /** The directory `r` holds one file, `a\\b`. */
  function SlashedDisk(): Disk {
    Disk(Missing, Directory(false, true, [Entry("r", Directory(false, true, [Entry("a\\b", Regular)]))]))
  }

  /** It is emitted as `r/a/b`, where there is nothing. */
  lemma SlashedExample()
    ensures var disk := SlashedDisk();
      && Straight("r", Resolve(disk, "r")) && Resolve(disk, Join("r", "a\\b")) == Regular
      && CanonEntry(OnDisk(disk, "r"), "r", "a\\b") == Ok(FileNode("a\\b", "r/a/b"))
      && Resolve(disk, "r/a/b") == Missing
  {
    hide DirNames, Preferred, Unambiguous, Walk, Split, ParentOf, LastComponent, Resolve;
    var disk := SlashedDisk();
    var root := disk.cwd.entries[0].node;
    SlashedRoot();
    OnlyName(root, "a\\b");
    JoinResolves(disk, "r", "a\\b");
    ExternalResolves(disk, "r", "a\\b");
    assert Generic(Join("r", "a\\b")) == "r/a/b";
    SlashedWalk(root);
  }

  lemma SlashedRoot()
    ensures Resolve(SlashedDisk(), "r") == SlashedDisk().cwd.entries[0].node
  {
    hide DirNames, Preferred, Unambiguous, Walk, Split;
    SplitWhole("r", '/');
    WalkNothing(SlashedDisk().cwd);
    OnlyName(SlashedDisk().cwd, "r");
  }

  lemma SlashedWalk(root: Node)
    requires root == SlashedDisk().cwd.entries[0].node
    ensures Walk(root, Split(Generic("a\\b"), '/')) == Missing
  {
    hide Split, Step;
    assert Generic("a\\b") == "a" + (['/'] + "b");
    SplitApart("a", "b", '/');
    SplitWhole("b", '/');
    NoOther(root, "a\\b", "a");
    var pieces := ["a"] + ["b"];
    assert Front(pieces) == ["a"] && Final(pieces) == "b" && Front(["a"]) == [];
    assert Walk(root, ["a"]) == Step(root, "a");
    StepOfMissing("b");
  }

  lemma StepOfMissing(name: string)
    ensures Step(Missing, name) == Missing
  {
  }

  // ---- which entries are looked at

  /** Components that do not stay where they are. */
  function Moves(components: seq<string>): seq<string> {
    if components == [] then []
    else
      Moves(Front(components))
      + if Final(components) == "" || Final(components) == "." then [] else [Final(components)]
  }

  function SetChild(entries: seq<Entry>, name: string, node: Node): seq<Entry> {
    if entries == [] then []
    else if entries[0].name == name then [Entry(entries[0].name, node)] + entries[1..]
    else [entries[0]] + SetChild(entries[1..], name, node)
  }

  /** A tree in which the entry reached by these names leads to another node. */
  function Rewritten(tree: Node, names: seq<string>, node: Node): Node
    decreases |names|
  {
    if names == [] then node
    else if !tree.Directory? then tree
    else
      tree.(entries := SetChild(tree.entries, names[0], Rewritten(Child(tree.entries, names[0]), names[1..], node)))
  }

  function RewrittenDisk(disk: Disk, absolute: bool, names: seq<string>, node: Node): Disk {
    if absolute then Disk(Rewritten(disk.root, names, node), disk.cwd)
    else Disk(disk.root, Rewritten(disk.cwd, names, node))
  }

  lemma {:induction false} SetChildNames(entries: seq<Entry>, name: string, node: Node)
    ensures Names(SetChild(entries, name, node)) == Names(entries)
  {
    if entries != [] && entries[0].name != name {
      SetChildNames(entries[1..], name, node);
      assert SetChild(entries, name, node)[1..] == SetChild(entries[1..], name, node);
    } else if entries != [] {
      assert SetChild(entries, name, node)[1..] == entries[1..];
    }
  }

  lemma {:induction false} SetChildReads(entries: seq<Entry>, name: string, node: Node, other: string)
    ensures other != name ==> Child(SetChild(entries, name, node), other) == Child(entries, other)
    ensures Child(SetChild(entries, name, node), name) == node || Child(entries, name) == Missing
    ensures Child(entries, name) == Missing && node == Missing ==> Child(SetChild(entries, name, node), name) == Missing
  {
    if entries != [] {
      var set' := SetChild(entries, name, node);
      if entries[0].name == name {
        assert set'[1..] == entries[1..];
      } else {
        assert set'[1..] == SetChild(entries[1..], name, node);
        SetChildReads(entries[1..], name, node, other);
      }
    }
  }

  lemma RewrittenParts(tree: Node, names: seq<string>, node: Node)
    requires names != []
    ensures tree.Directory? <==> Rewritten(tree, names, node).Directory?
    ensures !tree.Directory? ==> Rewritten(tree, names, node) == tree
    ensures tree.Directory? ==>
      var tree' := Rewritten(tree, names, node);
      && tree'.isSymlink == tree.isSymlink && tree'.readable == tree.readable && DirNames(tree') == DirNames(tree)
  {
    if tree.Directory? {
      SetChildNames(tree.entries, names[0], Rewritten(Child(tree.entries, names[0]), names[1..], node));
    }
  }

  /** What a walk meets in the rewritten tree, while it has not gone through the entry. */
  function Met(node: Node, names: seq<string>, moves: seq<string>, x: Node): Node {
    if moves < names then Rewritten(node, names[|moves|..], x) else node
  }

  lemma RewrittenStay(node: Node, names: seq<string>, x: Node, c: string)
    requires names != [] && (c == "" || c == ".")
    ensures Step(Rewritten(node, names, x), c) == Rewritten(Step(node, c), names, x)
  {
    RewrittenParts(node, names, x);
  }

  /** One component further, along the rewritten entry's own way or off it. */
  lemma RewrittenStep(node: Node, names: seq<string>, x: Node, c: string)
    requires names != [] && c != "" && c != "." && names != [c]
    ensures Step(Rewritten(node, names, x), c)
      == if names[0] == c then Rewritten(Step(node, c), names[1..], x) else Step(node, c)
  {
    if node.Directory? {
      var child := Child(node.entries, names[0]);
      SetChildReads(node.entries, names[0], Rewritten(child, names[1..], x), c);
      if names[0] == c {
        assert names[1..] != [] by {
          assert names == [names[0]] + names[1..];
        }
      }
    }
  }

  lemma {:induction false} MetWalk(tree: Node, names: seq<string>, x: Node, components: seq<string>)
    requires names != [] && !(names <= Moves(components))
    ensures Walk(Rewritten(tree, names, x), components) == Met(Walk(tree, components), names, Moves(components), x)
    decreases |components|
  {
    hide Step, Rewritten;
    if components == [] {
      assert names[0..] == names;
    } else {
      var front, c := Moves(Front(components)), Final(components);
      var node := Walk(tree, Front(components));
      assert front <= Moves(components);
      MetWalk(tree, names, x, Front(components));
      if c == "" || c == "." {
        assert Moves(components) == front;
        if front < names {
          RewrittenStay(node, names[|front|..], x, c);
        }
      } else {
        MetFurther(node, names, x, front, c);
      }
    }
  }

  lemma MetFurther(node: Node, names: seq<string>, x: Node, front: seq<string>, c: string)
    requires names != [] && c != "" && c != "." && !(names <= front + [c])
    ensures Step(Met(node, names, front, x), c) == Met(Step(node, c), names, front + [c], x)
  {
    hide Step, Rewritten;
    if front < names {
      var rest := names[|front|..];
      assert names == front + rest;
      assert rest != [c];
      RewrittenStep(node, rest, x, c);
      if rest[0] == c {
        assert rest == [c] + rest[1..] && names == front + [c] + rest[1..];
        assert front + [c] < names && names[|front| + 1..] == rest[1..];
      } else {
        assert names[|front|] == rest[0];
        assert !(front + [c] <= names);
      }
    } else {
      assert front <= front + [c];
    }
  }

  predicate Absolute(path: string) {
    path != "" && path[0] == '/'
  }

  /** The path leads to the entry reached by these names, or through it. */
  predicate Through(path: string, absolute: bool, names: seq<string>) {
    Absolute(path) == absolute && names <= Moves(Split(path, '/'))
  }

  /** Some joined path of the walk from path does. */
  ghost predicate LooksAt(disk: Disk, path: string, absolute: bool, names: seq<string>)
    decreases Anchor(OnDisk(disk, path)), Room(OnDisk(disk, path)), 1
  {
    var node := Resolve(disk, path);
    node.Directory? && exists name | Preferred(DirNames(node), name) :: LooksAtEntry(disk, path, name, absolute, names)
  }

  ghost predicate LooksAtEntry(disk: Disk, path: string, name: string, absolute: bool, names: seq<string>)
    requires Resolve(disk, path).Directory? && Listed(name)
    decreases Anchor(OnDisk(disk, path)), Room(OnDisk(disk, path)), 0
  {
    || Through(Join(path, name), absolute, names)
    || (var below := Resolve(disk, Join(path, name));
        below.Directory?
        && (BelowDecreases(OnDisk(disk, path), name);
            !below.isSymlink && LooksAt(disk, Join(path, name), absolute, names)))
  }

  lemma RewrittenResolves(disk: Disk, absolute: bool, names: seq<string>, x: Node, path: string)
    requires names != [] && !Through(path, absolute, names)
    ensures Resolve(RewrittenDisk(disk, absolute, names, x), path)
      == if path != "" && Absolute(path) == absolute then Met(Resolve(disk, path), names, Moves(Split(path, '/')), x)
         else Resolve(disk, path)
  {
    hide Split, Walk, Rewritten, Step, Resolve;
    if path != "" {
      ResolveIsWalk(disk, path);
      ResolveIsWalk(RewrittenDisk(disk, absolute, names, x), path);
      if Absolute(path) == absolute {
        MetWalk(Start(disk, path), names, x, Split(path, '/'));
      }
    } else {
      NowhereToGo(disk);
      NowhereToGo(RewrittenDisk(disk, absolute, names, x));
    }
  }

  lemma NowhereToGo(disk: Disk)
    ensures Resolve(disk, "") == Missing
  {
  }

  /** A node reached beside the rewritten entry is the same, up to what lies beyond it. */
  lemma ResolvedParts(disk: Disk, absolute: bool, names: seq<string>, x: Node, path: string)
    requires names != [] && !Through(path, absolute, names)
    ensures var a, b := Resolve(disk, path), Resolve(RewrittenDisk(disk, absolute, names, x), path);
      && (a.Directory? <==> b.Directory?) && (!a.Directory? ==> a == b)
      && (a.Directory? ==> a.isSymlink == b.isSymlink && a.readable == b.readable && DirNames(a) == DirNames(b))
  {
    hide Split, Rewritten, Resolve, DirNames, RewrittenDisk;
    RewrittenResolves(disk, absolute, names, x, path);
    var moves := Moves(Split(path, '/'));
    if moves < names {
      RewrittenParts(Resolve(disk, path), names[|moves|..], x);
    }
  }

  lemma {:induction false} UnlookedSameView(disk: Disk, path: string, absolute: bool, names: seq<string>, x: Node)
    requires names != [] && !Through(path, absolute, names) && !LooksAt(disk, path, absolute, names)
    ensures SameView(OnDisk(disk, path), OnDisk(RewrittenDisk(disk, absolute, names, x), path))
    decreases Anchor(OnDisk(disk, path)), Room(OnDisk(disk, path))
  {
    hide Resolve, DirNames, Preferred, Anchor, Room, Join, Listed, RewrittenDisk, Through;
    var disk' := RewrittenDisk(disk, absolute, names, x);
    var a, b := OnDisk(disk, path), OnDisk(disk', path);
    ResolvedParts(disk, absolute, names, x, path);
    if Resolve(disk, path).Directory? {
      forall name | Preferred(DirNames(Resolve(disk, path)), name) ensures Listed(name) && SameEntry(a, b, name) {
        PreferredIsListed(DirNames(Resolve(disk, path)), name);
        assert !LooksAtEntry(disk, path, name, absolute, names);
        ResolvedParts(disk, absolute, names, x, Join(path, name));
        if Resolve(disk, Join(path, name)).Directory? && !Resolve(disk, Join(path, name)).isSymlink {
          BelowDecreases(a, name);
          UnlookedSameView(disk, Join(path, name), absolute, names, x);
        }
      }
    }
  }

  /** What an entry leads to, at any depth of the disk, matters only if some joined path of the walk leads to it
      or through it. */
  lemma UnlookedIrrelevant(disk: Disk, path: string, virtualName: string, absolute: bool, names: seq<string>, x: Node)
    requires ProperDisk(disk) && ProperDisk(RewrittenDisk(disk, absolute, names, x))
    requires names != [] && !Through(path, absolute, names) && !LooksAt(disk, path, absolute, names)
    ensures CanonDir(OnDisk(disk, path), path, virtualName)
      == CanonDir(OnDisk(RewrittenDisk(disk, absolute, names, x), path), path, virtualName)
  {
    hide CanonDir, SameView, LooksAt, RewrittenDisk, Through, ProperDisk;
    UnlookedSameView(disk, path, absolute, names, x);
    ViewDecides(OnDisk(disk, path), OnDisk(RewrittenDisk(disk, absolute, names, x), path), path, path, virtualName);
  }

  /** The names a joined path goes through: those of the directory and the name, or, when the directory's path
      ends in a backslash, the two last glued together. */
  lemma JoinMoves(path: string, name: string)
    requires path != "" && Listed(name)
    ensures EndsIn(path, '\\') ==> Moves(Split(path, '/')) != []
    ensures var moves := Moves(Split(path, '/'));
      Moves(Split(Join(path, name), '/'))
        == if EndsIn(path, '\\') then Front(moves) + [Final(moves) + name] else moves + [name]
    ensures Absolute(Join(path, name)) == Absolute(path)
  {
    hide Split, Lacks;
    JoinSplits(path, name);
    var components := Split(path, '/');
    MovesOne(Front(components), name);
    MovesOne(Front(components), Final(components) + name);
    MovesOne(components, name);
    if EndsIn(path, '\\') {
      GluedIsNoDot(Final(components), name);
    }
  }

  lemma MovesOne(components: seq<string>, component: string)
    ensures Moves(components + [component])
      == Moves(components) + if component == "" || component == "." then [] else [component]
  {
    assert Front(components + [component]) == components;
  }

  lemma GluedIsNoDot(last: string, name: string)
    requires EndsIn(last, '\\') && name != ""
    ensures last != "" && last != "." && last + name != "" && last + name != "."
  {
    assert last != ".";
    assert |last + name| >= 2;
  }
}
