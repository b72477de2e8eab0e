/** Copying the overlay over a checkout: copy_overlay of private/llvm_project_common.bzl, for the targets of
private/llvm_project_from_git.bzl. */
module OverlayCopy {
  import opened Sequences
  import opened Results
  import opened LinkFarm

  // ---- the target before the copy

  /** The state of a repository directory. */
  datatype Target = Target(source: Tree, links: map<Path, Path>, dirs: set<Path>, files: map<Path, string>,
                           touched: set<Path>)

  ghost function Snapshot(r: Repository): Target
    reads r
  {
    Target(r.source, r.links, r.dirs, r.files, r.touched)
  }

  ghost predicate BlockedIn(t: Target, p: Path) {
    Blocked(t.source, t.links, t.dirs, t.files, p)
  }

  ghost function Seen(t: Target, p: Path): Option<string> {
    Open(t.source, t.links, t.files, p, 0)
  }

  /** Links lead to the source's entry of the same path.  A checkout without strip_prefix is a target whose
      root is such a link; with strip_prefix every top-level entry is one. */
  ghost predicate Identity(links: map<Path, Path>) {
    forall p | p in links :: links[p] == p
  }

  ghost predicate OverlayFile(t: Target, p: Path)
    requires HasOverlay(t.source)
  {
    FileAt(OverlayOf(t.source), p).Some?
  }

  /** What the copy would store below the overlay's own directory is there already. */
  ghost predicate Stable(t: Target)
    requires HasOverlay(t.source)
  {
    forall p | OverlayFile(t, p) && BehindLink(t.links, p) && OVERLAY <= p ::
      FileAt(OverlayOf(t.source), p[|OVERLAY|..]) == FileAt(OverlayOf(t.source), p)
  }

  /** No file of the overlay meets a directory that is not empty, or lies below a file. */
  ghost predicate Clear(t: Target)
    requires HasOverlay(t.source)
  {
    forall p | OverlayFile(t, p) :: !BlockedIn(t, p)
  }

  // ---- when a write reaches the overlay

  lemma {:induction false} PutWithin(t: Tree, p: Path, rest: Path, content: string)
    requires IsDir(t, p)
    ensures At(Put(t, p + rest, content), p) == Some(Put(At(t, p).value, rest, content))
    decreases |p|
  {
    if p == [] {
      assert p + rest == rest;
    } else {
      assert (p + rest)[0] == p[0] && (p + rest)[1..] == p[1..] + rest;
      PutWithin(t.children[p[0]], p[1..], rest, content);
    }
  }

  lemma PutReads(t: Tree, p: Path, content: string)
    ensures t.Dir? && !PutBlocked(t, p) ==> FileAt(Put(t, p, content), p) == Some(content)
  {
    if !PutBlocked(t, p) {
      PutFileAt(t, p, content, p);
    }
  }

  lemma BlockedWithin(source: Tree, rest: Path)
    requires HasOverlay(source) && !PutBlocked(source, OVERLAY + rest)
    ensures !PutBlocked(OverlayOf(source), rest)
  {
    var p := OVERLAY + rest;
    AtOverlay(source, rest);
    forall i | 0 <= i < |rest| ensures FileAt(OverlayOf(source), rest[..i]).None? {
      AtOverlay(source, rest[..i]);
      assert p[..|OVERLAY| + i] == OVERLAY + rest[..i];
    }
  }

  /** A write into the source leaves the overlay as it is read exactly when it lands outside the overlay's
      directory or stores what is there. */
  lemma OverlayReadExact(source: Tree, q: Path, content: string)
    requires HasOverlay(source) && !PutBlocked(source, q)
    ensures var source' := Put(source, q, content);
      (HasOverlay(source') && OverlayOf(source') == OverlayOf(source))
      <==> (!(OVERLAY <= q) || FileAt(source, q) == Some(content))
  {
    hide PutBlocked, Put;
    if OVERLAY <= q {
      var rest := q[|OVERLAY|..];
      assert q == OVERLAY + rest;
      PutWithin(source, OVERLAY, rest, content);
      BlockedWithin(source, rest);
      PutReads(OverlayOf(source), rest, content);
      AtOverlay(source, rest);
      OverlayIsTree(source);
      if FileAt(source, q) == Some(content) {
        PutSame(source, q, content);
      }
    } else if q <= OVERLAY {
      NotAboveOverlay(source, q);
    } else {
      PutApart(source, q, content, OVERLAY);
    }
  }

  lemma OverlayIsTree(source: Tree)
    requires HasOverlay(source)
    ensures OverlayOf(source).Dir? && At(source, OVERLAY) == Some(OverlayOf(source))
  {
  }

  /** A directory above the overlay is not empty. */
  lemma NotAboveOverlay(source: Tree, q: Path)
    requires HasOverlay(source) && q < OVERLAY
    ensures PutBlocked(source, q)
  {
    assert OVERLAY == q + OVERLAY[|q|..];
    assert OVERLAY[..|q|] == q;
    PrefixIsDir(source, OVERLAY, |q|);
    AtConcat(source, q, OVERLAY[|q|..]);
  }

  /** Stable targets are those where no write of the copy changes what the copy reads. */
  lemma StableExact(t: Target)
    requires HasOverlay(t.source)
    requires forall p | OverlayFile(t, p) && BehindLink(t.links, p) :: !PutBlocked(t.source, p)
    ensures Stable(t) <==>
      forall p | OverlayFile(t, p) && BehindLink(t.links, p) ::
        var source' := Put(t.source, p, FileAt(OverlayOf(t.source), p).value);
        HasOverlay(source') && OverlayOf(source') == OverlayOf(t.source)
  {
    hide PutBlocked, Put, HasOverlay, OverlayOf, IsDir;
    forall p | OverlayFile(t, p) && BehindLink(t.links, p)
      ensures (OVERLAY <= p ==> FileAt(OverlayOf(t.source), p[|OVERLAY|..]) == FileAt(OverlayOf(t.source), p))
        <==> var source' := Put(t.source, p, FileAt(OverlayOf(t.source), p).value);
             HasOverlay(source') && OverlayOf(source') == OverlayOf(t.source)
    {
      OverlayReadExact(t.source, p, FileAt(OverlayOf(t.source), p).value);
      if OVERLAY <= p {
        assert p == OVERLAY + p[|OVERLAY|..];
        AtOverlay(t.source, p[|OVERLAY|..]);
      }
    }
  }

  // ---- one file after another

  /** What the target shows once these files of the overlay have been copied over view. */
  ghost function Laid(overlay: Tree, copied: set<Path>, view: Option<string>, p: Path): Option<string> {
    if p in copied then FileAt(overlay, p)
    else if exists i | 0 <= i < |p| :: p[..i] in copied then None
    else view
  }

  ghost predicate Stored(t: Target, copied: set<Path>, p: Path) {
    p in copied && BehindLink(t.links, p)
  }

  /** The copy has got as far as these files. */
  ghost predicate Advanced(t: Target, r: Repository, copied: set<Path>)
    requires HasOverlay(t.source)
    reads r
  {
    && HasOverlay(r.source) && OverlayOf(r.source) == OverlayOf(t.source) && Sound(r) && Identity(r.links)
    && (forall p | p in copied :: OverlayFile(t, p) && !BlockedIn(t, p))
    && (forall p | OverlayFile(t, p) :: BehindLink(r.links, p) <==> BehindLink(t.links, p))
    && (forall p | OverlayFile(t, p) && p !in copied ::
          Blocked(r.source, r.links, r.dirs, r.files, p) <==> BlockedIn(t, p))
    && (forall p :: r.View(p) == Laid(OverlayOf(t.source), copied, Seen(t, p), p))
    && r.touched == t.touched + (set p | p in copied && BehindLink(t.links, p))
    && (forall x :: FileAt(r.source, x) == if Stored(t, copied, x) then FileAt(OverlayOf(t.source), x) else FileAt(t.source, x))
  }

  lemma FilesApart(t: Tree, p: Path, q: Path)
    requires FileAt(t, p).Some? && FileAt(t, q).Some? && p != q
    ensures !(p <= q) && !(q <= p)
  {
    if p < q {
      NotBelowFile(t, p, q);
    }
    if q < p {
      NotBelowFile(t, q, p);
    }
  }

  lemma NotBelowFile(t: Tree, p: Path, q: Path)
    requires p < q && FileAt(t, p).Some?
    ensures FileAt(t, q).None?
  {
    if At(t, q).Some? {
      assert q[..|p|] == p;
      PrefixIsDir(t, q, |p|);
    }
  }

  lemma {:induction false} IdentityLanding(links: map<Path, Path>, p: Path, i: nat)
    requires Identity(links) && i <= |p|
    ensures Landing(links, p, i).Some? ==> Landing(links, p, i).value == p
    decreases |p| - i
  {
    if p[..i] in links {
      assert p[..i] + p[i..] == p;
    } else if i < |p| {
      IdentityLanding(links, p, i + 1);
    }
  }

  lemma BehindLanding(links: map<Path, Path>, p: Path)
    requires Identity(links) && BehindLink(links, p)
    ensures Landing(links, p, 0) == Some(p) && LandsAlone(links, p)
  {
    hide Landing;
    LandingBehind(links, p, 0);
    IdentityLanding(links, p, 0);
    forall q | Landing(links, q, 0) == Landing(links, p, 0) ensures q == p {
      IdentityLanding(links, q, 0);
    }
  }

  lemma PutBlockedApart(t: Tree, q: Path, content: string, p: Path)
    requires !(p <= q) && !(q <= p) && !PutBlocked(t, q)
    ensures PutBlocked(Put(t, q, content), p) <==> PutBlocked(t, p)
  {
    PutApart(t, q, content, p);
    forall i | 0 <= i < |p| ensures FileAt(Put(t, q, content), p[..i]) == FileAt(t, p[..i]) {
      assert p[..i] == q ==> q <= p;
      PutFileAt(t, q, content, p[..i]);
    }
  }

  lemma OccupiedApart(links: map<Path, Path>, dirs: set<Path>, files: map<Path, string>,
                      links': map<Path, Path>, dirs': set<Path>, files': map<Path, string>, q: Path, p: Path)
    requires !(p <= q) && !(q <= p)
    requires links'.Keys == links.Keys - {q} && files'.Keys == files.Keys + {q}
    requires dirs' == (dirs - {q}) + ProperPrefixes(q)
    ensures Occupied(links', dirs', files', p) <==> Occupied(links, dirs, files, p)
  {
    forall x | x in ProperPrefixes(q) + {q} ensures !(p <= x) {
      assert x <= q;
    }
    assert p in dirs' <==> p in dirs;
    forall x | p < x
      ensures x in links'.Keys + files'.Keys + dirs' <==> x in links.Keys + files.Keys + dirs
    {
    }
  }

  lemma BehindApart(links: map<Path, Path>, links': map<Path, Path>, files: map<Path, string>, files': map<Path, string>,
                    q: Path, p: Path)
    requires !(q <= p) && links'.Keys == links.Keys - {q} && files'.Keys == files.Keys + {q}
    ensures BehindLink(links', p) <==> BehindLink(links, p)
    ensures BehindFile(files', p) <==> BehindFile(files, p)
  {
    forall i | 0 <= i < |p|
      ensures p[..i] in links' <==> p[..i] in links
      ensures p[..i] in files' <==> p[..i] in files
    {
      assert p[..i] <= p;
    }
  }

  lemma BlockedThrough(source: Tree, links: map<Path, Path>, dirs: set<Path>, files: map<Path, string>,
                       q: Path, content: string, p: Path)
    requires Identity(links) && BehindLink(links, q) && !Blocked(source, links, dirs, files, q)
    requires !(p <= q) && !(q <= p)
    ensures Blocked(Put(source, q, content), links, dirs, files, p) <==> Blocked(source, links, dirs, files, p)
  {
    hide PutBlocked, Put, Landing, Occupied;
    BehindLanding(links, q);
    PutBlockedApart(source, q, content, p);
    if BehindLink(links, p) {
      BehindLanding(links, p);
    }
  }

  lemma BlockedHere(source: Tree, links: map<Path, Path>, dirs: set<Path>, files: map<Path, string>,
                    links': map<Path, Path>, dirs': set<Path>, files': map<Path, string>, q: Path, p: Path)
    requires Identity(links) && Identity(links') && !(p <= q) && !(q <= p)
    requires links'.Keys == links.Keys - {q} && files'.Keys == files.Keys + {q}
    requires dirs' == (dirs - {q}) + ProperPrefixes(q)
    ensures Blocked(source, links', dirs', files', p) <==> Blocked(source, links, dirs, files, p)
  {
    hide PutBlocked, Landing, Occupied, BehindFile, BehindLink;
    BehindApart(links, links', files, files', q, p);
    OccupiedApart(links, dirs, files, links', dirs', files', q, p);
    if BehindLink(links, p) {
      BehindLanding(links, p);
      BehindLanding(links', p);
    }
  }

  lemma LaidStep(overlay: Tree, copied: set<Path>, q: Path, content: string, view: Option<string>, p: Path)
    requires FileAt(overlay, q) == Some(content) && forall x | x in copied :: FileAt(overlay, x).Some?
    ensures Laid(overlay, copied + {q}, view, p)
      == if p == q then Some(content) else if q <= p then None else Laid(overlay, copied, view, p)
  {
    if q < p && p in copied {
      FilesApart(overlay, q, p);
    }
    if q < p {
      assert p[..|q|] == q;
    } else if !(q <= p) {
      forall i | 0 <= i < |p| ensures p[..i] in copied + {q} <==> p[..i] in copied {
        assert p[..i] <= p;
      }
    }
  }

  /** Storing one more file through a link. */
  lemma AdvancedThrough(t: Target, r: Repository, copied: set<Path>, q: Path, content: string)
    requires HasOverlay(t.source) && Stable(t) && Advanced(t, r, copied) && q !in copied
    requires FileAt(OverlayOf(t.source), q) == Some(content)
    requires BehindLink(r.links, q) && !Blocked(r.source, r.links, r.dirs, r.files, q)
    ensures Landing(r.links, q, 0) == Some(q) && !PutBlocked(r.source, q)
    ensures var source' := Put(r.source, q, content);
      && HasOverlay(source') && OverlayOf(source') == OverlayOf(t.source)
      && (forall p | OverlayFile(t, p) && p != q && p !in copied ::
            Blocked(source', r.links, r.dirs, r.files, p) <==> BlockedIn(t, p))
      && (forall x :: FileAt(source', x)
            == if Stored(t, copied + {q}, x) then FileAt(OverlayOf(t.source), x) else FileAt(t.source, x))
  {
    hide PutBlocked, Put, Landing, HasOverlay, OverlayOf, Blocked, BehindLink, IsDir;
    ghost var source, source' := r.source, Put(r.source, q, content);
    BehindLanding(r.links, q);
    UnblockedLanding(r, q);
    OverlayReadExact(source, q, content);
    if OVERLAY <= q {
      assert q == OVERLAY + q[|OVERLAY|..];
      AtOverlay(source, q[|OVERLAY|..]);
    }
    forall p | OverlayFile(t, p) && p != q && p !in copied
      ensures Blocked(source', r.links, r.dirs, r.files, p) <==> BlockedIn(t, p)
    {
      FilesApart(OverlayOf(t.source), p, q);
      BlockedThrough(source, r.links, r.dirs, r.files, q, content, p);
    }
    forall x ensures FileAt(source', x)
      == if Stored(t, copied + {q}, x) then FileAt(OverlayOf(t.source), x) else FileAt(t.source, x)
    {
      PutFileAt(source, q, content, x);
    }
  }

  lemma UnblockedLanding(r: Repository, q: Path)
    requires BehindLink(r.links, q) && Landing(r.links, q, 0) == Some(q)
    requires !Blocked(r.source, r.links, r.dirs, r.files, q)
    ensures !PutBlocked(r.source, q)
  {
  }

  /** Storing one more file in the target itself. */
  lemma AdvancedHere(t: Target, r: Repository, copied: set<Path>, links': map<Path, Path>, dirs': set<Path>,
                     files': map<Path, string>, q: Path)
    requires HasOverlay(t.source) && Advanced(t, r, copied) && q !in copied && OverlayFile(t, q)
    requires !BehindLink(r.links, q)
    requires links' == r.links - {q} && files'.Keys == r.files.Keys + {q}
    requires dirs' == (r.dirs - {q}) + ProperPrefixes(q)
    ensures Identity(links')
    ensures forall p | OverlayFile(t, p) :: BehindLink(links', p) <==> BehindLink(t.links, p)
    ensures forall p | OverlayFile(t, p) && p != q && p !in copied ::
      Blocked(r.source, links', dirs', files', p) <==> BlockedIn(t, p)
  {
    hide PutBlocked, HasOverlay, OverlayOf, Blocked, BehindLink;
    forall p | OverlayFile(t, p) ensures BehindLink(links', p) <==> BehindLink(t.links, p) {
      if p != q {
        FilesApart(OverlayOf(t.source), p, q);
        BehindApart(r.links, links', r.files, files', q, p);
      } else {
        NotBehindItself(r.links, links', q);
      }
    }
    forall p | OverlayFile(t, p) && p != q && p !in copied
      ensures Blocked(r.source, links', dirs', files', p) <==> BlockedIn(t, p)
    {
      FilesApart(OverlayOf(t.source), p, q);
      BlockedHere(r.source, r.links, r.dirs, r.files, links', dirs', files', q, p);
    }
  }

  lemma NotBehindItself(links: map<Path, Path>, links': map<Path, Path>, q: Path)
    requires links' == links - {q}
    ensures BehindLink(links', q) <==> BehindLink(links, q)
  {
    forall i | 0 <= i < |q| ensures q[..i] in links' <==> q[..i] in links {
      assert |q[..i]| == i;
    }
  }

  /** One rctx.file of the copy: it fails exactly where the target was blocked to begin with. */
  method CopyFile(r: Repository, path: Path, content: string, ghost t: Target, ghost copied: set<Path>, ghost stable: bool)
    returns (ok: bool)
    requires stable ==>
      HasOverlay(t.source) && Stable(t) && Advanced(t, r, copied) && path !in copied
      && FileAt(OverlayOf(t.source), path) == Some(content)
    modifies r
    ensures ok <==> !old(BlockedIn(Snapshot(r), path))
    ensures ok ==> Snapshot(r) == old(Written(Snapshot(r), path, content))
    ensures stable ==> (ok <==> !BlockedIn(t, path))
    ensures stable && ok ==> Advanced(t, r, copied + {path})
  {
    hide PutBlocked, Put, Landing, HasOverlay, OverlayOf, Blocked, BehindLink, Stable, Open, Laid, FileAt, ProperPrefixes;
    hide LandsAlone;
    ghost var before := Records(r.source, r.links, r.dirs, r.files);
    ghost var through := BehindLink(r.links, path);
    if stable && through && !Blocked(r.source, r.links, r.dirs, r.files, path) {
      AdvancedThrough(t, r, copied, path, content);
      BehindLanding(r.links, path);
    }
    if stable && !through && !Blocked(r.source, r.links, r.dirs, r.files, path) {
      AdvancedHere(t, r, copied, r.links - {path}, (r.dirs - {path}) + ProperPrefixes(path), r.files[path := content], path);
    }
    ok := r.Write(path, content);
    if stable && ok {
      WriteShows(before, r, path, content);
      forall p ensures r.View(p) == Laid(OverlayOf(t.source), copied + {path}, Seen(t, p), p) {
        LaidStep(OverlayOf(t.source), copied, path, content, Seen(t, p), p);
      }
    }
  }

  // ---- one directory after another

  /** The files copied when the processed directories, and in d the names done, have been copied. */
  ghost predicate Copied(overlay: Tree, processed: set<Path>, d: Path, done: set<string>, p: Path) {
    p != [] && FileAt(overlay, p).Some? && (Front(p) in processed || (Front(p) == d && Final(p) in done))
  }

  ghost predicate CopiedSo(overlay: Tree, copied: set<Path>, processed: set<Path>, d: Path, done: set<string>) {
    forall p :: p in copied <==> Copied(overlay, processed, d, done, p)
  }

  lemma CopiedStep(overlay: Tree, copied: set<Path>, processed: set<Path>, d: Path, done: set<string>, name: string)
    requires IsDir(overlay, d) && d !in processed && name !in done && name in ChildrenAt(overlay, d)
    requires CopiedSo(overlay, copied, processed, d, done)
    ensures d + [name] !in copied
    ensures CopiedSo(overlay, if ChildrenAt(overlay, d)[name].Dir? then copied else copied + {d + [name]},
                     processed, d, done + {name})
    ensures At(overlay, d + [name]) == Some(ChildrenAt(overlay, d)[name])
  {
    hide IsDir, ChildrenAt, Front, Final;
    var q := d + [name];
    AtChild(overlay, d, name);
    ChildPath(d, name);
    forall p ensures Copied(overlay, processed, d, done + {name}, p)
      <==> Copied(overlay, processed, d, done, p) || (p == q && FileAt(overlay, q).Some?)
    {
      CopiedOne(overlay, processed, d, done, name, p);
    }
  }

  lemma CopiedOne(overlay: Tree, processed: set<Path>, d: Path, done: set<string>, name: string, p: Path)
    requires d !in processed && name !in done
    ensures Copied(overlay, processed, d, done + {name}, p)
      <==> Copied(overlay, processed, d, done, p) || (p == d + [name] && FileAt(overlay, p).Some?)
  {
    ChildPath(d, name);
    if p != [] {
      PathOfChild(p);
    }
  }

  lemma CopiedNext(overlay: Tree, copied: set<Path>, processed: set<Path>, d: Path)
    requires IsDir(overlay, d) && CopiedSo(overlay, copied, processed, d, ChildrenAt(overlay, d).Keys)
    ensures CopiedSo(overlay, copied, processed + {d}, [], {})
  {
    forall p | p != [] && Front(p) == d && FileAt(overlay, p).Some? ensures Final(p) in ChildrenAt(overlay, d) {
      PathOfChild(p);
      AtChild(overlay, d, Final(p));
    }
  }

  lemma CopiedAnyDirectory(overlay: Tree, copied: set<Path>, processed: set<Path>, d: Path)
    requires CopiedSo(overlay, copied, processed, [], {})
    ensures CopiedSo(overlay, copied, processed, d, {})
  {
    assert forall p :: Copied(overlay, processed, [], {}, p) <==> Copied(overlay, processed, d, {}, p);
  }

  /** Everything copied, once every directory has been processed. */
  lemma CopiedAll(t: Target, copied: set<Path>, processed: set<Path>, p: Path)
    requires HasOverlay(t.source) && processed == Dirs(OverlayOf(t.source))
    requires CopiedSo(OverlayOf(t.source), copied, processed, [], {})
    ensures p in copied <==> OverlayFile(t, p)
  {
    var overlay := OverlayOf(t.source);
    OverlayIsTree(t.source);
    if FileAt(overlay, p).Some? {
      assert p != [];
      PrefixIsDir(overlay, p, |p| - 1);
      DirsExact(overlay, Front(p));
    }
  }

  /** What the traversal finds where the overlay is as it was. */
  lemma OverlayReads(t: Target, r: Repository, copied: set<Path>, d: Path)
    requires HasOverlay(t.source) && Advanced(t, r, copied) && IsDir(OverlayOf(t.source), d)
    ensures IsDir(r.source, OVERLAY + d) && ChildrenAt(r.source, OVERLAY + d) == ChildrenAt(OverlayOf(t.source), d)
  {
    AtOverlay(r.source, d);
  }

  lemma OverlayEntry(t: Target, r: Repository, copied: set<Path>, p: Path)
    requires HasOverlay(t.source) && Advanced(t, r, copied)
    ensures At(r.source, OVERLAY + p) == At(OverlayOf(t.source), p)
  {
    AtOverlay(r.source, p);
  }

  lemma NotClear(t: Target, p: Path)
    requires HasOverlay(t.source) && OverlayFile(t, p) && BlockedIn(t, p)
    ensures !Clear(t)
  {
  }

  // ---- the traversal, step by step

  /** The target after a write that is not blocked. */
  ghost function Written(t: Target, p: Path, content: string): Target
    requires !BlockedIn(t, p)
  {
    if BehindLink(t.links, p) then
      LandingBehind(t.links, p, 0);
      t.(source := Put(t.source, Landing(t.links, p, 0).value, content), touched := t.touched + {p})
    else
      t.(links := t.links - {p}, files := t.files[p := content], dirs := (t.dirs - {p}) + ProperPrefixes(p))
  }

  /** An order in which readdir may list an overlay directory. */
  ghost predicate Listing(t: Target, d: Path, names: seq<string>) {
    && IsDir(t.source, OVERLAY + d)
    && (forall n :: n in names <==> n in ChildrenAt(t.source, OVERLAY + d))
    && forall i, j | 0 <= i < j < |names| :: names[i] != names[j]
  }

  /** The loop over the names of one directory, from i on: directories are pushed, files are written, each as it
      is read when its turn comes. */
  ghost predicate DirRun(t: Target, d: Path, names: seq<string>, i: nat, t': Target, pushed: seq<Path>)
    requires i <= |names|
    decreases |names| - i
  {
    if i == |names| then t' == t && pushed == []
    else
      var path := d + [names[i]];
      match At(t.source, OVERLAY + path)
      case None => false
      case Some(Dir(_)) => pushed != [] && pushed[0] == path && DirRun(t, d, names, i + 1, t', pushed[1..])
      case Some(File(content)) =>
        !BlockedIn(t, path) && DirRun(Written(t, path, content), d, names, i + 1, t', pushed)
  }

  /** At most n directories, from the top of the stack down, until the stack is empty. */
  ghost predicate CopyRun(t: Target, stack: seq<Path>, n: nat, t': Target)
    decreases n
  {
    n > 0 && stack != []
    && exists names, t1, pushed | Listing(t, Final(stack), names) && DirRun(t, Final(stack), names, 0, t1, pushed) ::
         if Front(stack) + pushed == [] then t' == t1 else CopyRun(t1, Front(stack) + pushed, n - 1, t')
  }

  /** Whatever the rest of the loop does completes what has been done so far. */
  ghost predicate Leads(start: Target, d: Path, names: seq<string>, i: nat, now: Target, pushed: seq<Path>)
    requires i <= |names|
  {
    forall t', more :: DirRun(now, d, names, i, t', more) ==> DirRun(start, d, names, 0, t', pushed + more)
  }

  lemma RunFromHere(start: Target, d: Path, names: seq<string>)
    ensures Leads(start, d, names, 0, start, [])
  {
    forall t', more | DirRun(start, d, names, 0, t', more) ensures DirRun(start, d, names, 0, t', [] + more) {
      assert [] + more == more;
    }
  }

  lemma LeadsOn(start: Target, d: Path, names: seq<string>, i: nat, now: Target, pushed: seq<Path>)
    requires i < |names| && Leads(start, d, names, i, now, pushed)
    ensures var path := d + [names[i]];
      match At(now.source, OVERLAY + path)
      case None => true
      case Some(Dir(_)) => Leads(start, d, names, i + 1, now, pushed + [path])
      case Some(File(content)) =>
        !BlockedIn(now, path) ==> Leads(start, d, names, i + 1, Written(now, path, content), pushed)
  {
    hide BlockedIn, Written;
    var path := d + [names[i]];
    match At(now.source, OVERLAY + path)
    case None =>
    case Some(Dir(_)) =>
      forall t', more | DirRun(now, d, names, i + 1, t', more) ensures DirRun(start, d, names, 0, t', pushed + [path] + more) {
        assert ([path] + more)[1..] == more;
        assert DirRun(now, d, names, i, t', [path] + more);
        assert pushed + ([path] + more) == pushed + [path] + more;
      }
    case Some(File(content)) =>
      if !BlockedIn(now, path) {
        forall t', more | DirRun(Written(now, path, content), d, names, i + 1, t', more)
          ensures DirRun(start, d, names, 0, t', pushed + more)
        {
          assert DirRun(now, d, names, i, t', more);
        }
      }
  }

  lemma LeadsToEnd(start: Target, d: Path, names: seq<string>, now: Target, pushed: seq<Path>)
    requires Leads(start, d, names, |names|, now, pushed)
    ensures DirRun(start, d, names, 0, now, pushed)
  {
    assert DirRun(now, d, names, |names|, now, []);
    assert pushed + [] == pushed;
  }

  ghost predicate Completes(start: Target, now: Target, stack: seq<Path>, n: nat) {
    forall t' :: CopyRun(now, stack, n, t') ==> CopyRun(start, [[]], MAX_OVERLAY_DIRECTORIES, t')
  }

  lemma CompletesOn(start: Target, now: Target, rest: seq<Path>, d: Path, n: nat, names: seq<string>, next: Target,
                    pushed: seq<Path>)
    requires n > 0 && Completes(start, now, rest + [d], n)
    requires Listing(now, d, names) && DirRun(now, d, names, 0, next, pushed)
    ensures rest + pushed == [] ==> CopyRun(start, [[]], MAX_OVERLAY_DIRECTORIES, next)
    ensures rest + pushed != [] ==> Completes(start, next, rest + pushed, n - 1)
  {
    hide Listing, DirRun;
    var stack := rest + [d];
    assert Front(stack) == rest && Final(stack) == d;
    if rest + pushed == [] {
      assert CopyRun(now, stack, n, next);
    } else {
      forall t' | CopyRun(next, rest + pushed, n - 1, t') ensures CopyRun(start, [[]], MAX_OVERLAY_DIRECTORIES, t') {
        assert CopyRun(now, stack, n, t');
      }
    }
  }

  /** The loop over one overlay directory, as it is read at that moment. */
  method CopyDirectory(r: Repository, d: Path, stack: seq<Path>,
                       ghost t: Target, ghost processed: set<Path>, ghost copied: set<Path>, ghost stable: bool)
    returns (ok: bool, stack': seq<Path>, ghost pushed: seq<Path>, ghost copied': set<Path>, ghost listed: seq<string>)
    requires stable ==>
      HasOverlay(t.source) && Stable(t) && Advanced(t, r, copied) && IsDir(OverlayOf(t.source), d)
      && d !in processed && CopiedSo(OverlayOf(t.source), copied, processed, d, {})
    modifies r
    ensures stack' == stack + pushed
    ensures ok ==> Listing(old(Snapshot(r)), d, listed) && DirRun(old(Snapshot(r)), d, listed, 0, Snapshot(r), pushed)
    ensures stable && ok ==>
      Pushes(OverlayOf(t.source), d, pushed) && Advanced(t, r, copied')
      && CopiedSo(OverlayOf(t.source), copied', processed, d, ChildrenAt(OverlayOf(t.source), d).Keys)
    ensures stable && !ok ==> !Clear(t)
  {
    hide Stable, Advanced, CopiedSo, IsDir, HasOverlay, OverlayOf, DirNames, PushedFor, Pushes, NameSet, ChildrenAt, Clear;
    hide Written, BlockedIn, DirRun;
    ghost var start := Snapshot(r);
    stack', pushed, copied', listed := stack, [], copied, [];
    if stable {
      OverlayReads(t, r, copied, d);
    }
    if !IsDir(r.source, OVERLAY + d) {
      return false, stack', pushed, copied', [];
    }
    ghost var children := ChildrenAt(r.source, OVERLAY + d);
    var names := Readdir(ChildrenAt(r.source, OVERLAY + d));
    listed := names;
    ghost var overlayDirs: set<string> := {};
    NothingPushed(children, names, d);
    RunFromHere(start, d, names);
    var i := 0;
    while i < |names|
      invariant 0 <= i <= |names| && stack' == stack + pushed
      invariant Leads(start, d, names, i, Snapshot(r), pushed)
      invariant stable ==> DirNames(children, names[..i], overlayDirs) && PushedFor(d, overlayDirs, pushed)
      invariant stable ==> Advanced(t, r, copied')
      invariant stable ==> CopiedSo(OverlayOf(t.source), copied', processed, d, NameSet(names[..i]))
    {
      var name := names[i];
      var path := d + [name];
      NextName(names, i);
      if stable {
        NextDir(children, names, i, overlayDirs);
        CopiedStep(OverlayOf(t.source), copied', processed, d, NameSet(names[..i]), name);
        OverlayEntry(t, r, copied', path);
      }
      var entry := At(r.source, OVERLAY + path);
      LeadsOn(start, d, names, i, Snapshot(r), pushed);
      if entry.None? {
        return false, stack', pushed, copied', listed;
      }
      if entry.value.Dir? {
        if stable {
          PushOne(d, overlayDirs, pushed, name);
        }
        stack', pushed, overlayDirs := stack' + [path], pushed + [path], overlayDirs + {name};
      } else {
        ok := CopyFile(r, path, entry.value.content, t, copied', stable);
        if !ok {
          if stable {
            NotClear(t, path);
          }
          return;
        }
        copied' := copied' + {path};
      }
      i := i + 1;
    }
    LeadsToEnd(start, d, names, Snapshot(r), pushed);
    AllNames(children, names);
    if stable {
      PushedDirs(OverlayOf(t.source), d, names, overlayDirs, pushed);
    }
    ok := true;
  }

  /** copy_overlay.  When the copy does not rewrite what it reads, it returns normally exactly when the overlay
      has no more directories than the bound and nothing stands in the way of a file; then every overlay file
      has replaced what was there and nothing else shows a change.  What lies behind a link is stored in the
      source. */
  method CopyOverlay(r: Repository) returns (ok: bool)
    requires HasOverlay(r.source) && Identity(r.links) && Sound(r)
    modifies r
    ensures ok ==> CopyRun(old(Snapshot(r)), [[]], MAX_OVERLAY_DIRECTORIES, Snapshot(r))
    ensures old(Stable(Snapshot(r))) ==>
      (ok <==> old(|Dirs(OverlayOf(r.source))| <= 1000000 && Clear(Snapshot(r))))
    ensures old(Stable(Snapshot(r))) && ok ==> forall p :: r.View(p) == old(AfterCopy(Snapshot(r), p))
    ensures old(Stable(Snapshot(r))) && ok ==> forall x :: FileAt(r.source, x) == old(SourceAfterCopy(Snapshot(r), x))
    ensures old(Stable(Snapshot(r))) && ok ==>
      forall p :: p in r.touched <==> p in old(r.touched) || old(OverlayFile(Snapshot(r), p) && BehindLink(r.links, p))
  {
    hide Dirs, IsDir, HasOverlay, OverlayOf, Frontier, Stable, Advanced, CopiedSo, Clear, Identity, Laid;
    hide CopyRun, Listing, DirRun, Pushes, FileAt, BehindLink;
    ghost var t := Snapshot(r);
    ghost var stable := Stable(t);
    ghost var overlay := OverlayOf(t.source);
    var stack: seq<Path> := [[]];
    ghost var processed: set<Path> := {};
    ghost var copied: set<Path> := {};
    FrontierInitial(r.source);
    NothingCopied(r);
    for i := 0 to MAX_OVERLAY_DIRECTORIES
      invariant stack != [] && Completes(t, Snapshot(r), stack, MAX_OVERLAY_DIRECTORIES - i)
      invariant stable ==> |processed| == i && Frontier(overlay, stack, processed)
      invariant stable ==> Advanced(t, r, copied) && CopiedSo(overlay, copied, processed, [], {})
    {
      var d, rest := stack[|stack| - 1], stack[..|stack| - 1];
      assert stack == rest + [d];
      if stable {
        FrontierTop(overlay, rest, d, processed);
        CopiedAnyDirectory(overlay, copied, processed, d);
      }
      ghost var pushed, names;
      ghost var now := Snapshot(r);
      ok, stack, pushed, copied, names := CopyDirectory(r, d, rest, t, processed, copied, stable);
      if !ok {
        return;
      }
      CompletesOn(t, now, rest, d, MAX_OVERLAY_DIRECTORIES - i, names, Snapshot(r), pushed);
      if stable {
        FrontierStep(overlay, rest, d, pushed, processed);
        CopiedNext(overlay, copied, processed, d);
      }
      processed := processed + {d};
      if stack == [] {
        if stable {
          ProcessedBound(overlay, stack, processed);
          EverythingCopied(t, r, copied, processed);
        }
        return true;
      }
    }
    if stable {
      ProcessedBound(overlay, stack, processed);
    }
    ok := false;
  }

  /** What the target shows afterwards. */
  ghost function AfterCopy(t: Target, p: Path): Option<string>
    requires HasOverlay(t.source)
  {
    if OverlayFile(t, p) then FileAt(OverlayOf(t.source), p)
    else if exists i | 0 <= i < |p| :: OverlayFile(t, p[..i]) then None
    else Seen(t, p)
  }

  ghost function SourceAfterCopy(t: Target, x: Path): Option<string>
    requires HasOverlay(t.source)
  {
    if OverlayFile(t, x) && BehindLink(t.links, x) then FileAt(OverlayOf(t.source), x) else FileAt(t.source, x)
  }

  /** A target that shows the source shows, after the copy, the overlay laid over the source, just as the link
      farm does; except for a file of the source where the overlay has a directory. */
  lemma CopyShowsMerge(t: Target, p: Path)
    requires HasOverlay(t.source) && Seen(t, p) == FileAt(t.source, p)
    ensures AfterCopy(t, p) == FileAt(Merge(OverlayOf(t.source), t.source), p)
      <==> !(IsDir(OverlayOf(t.source), p) && FileAt(t.source, p).Some?)
  {
    hide Merge, HasOverlay, OverlayOf, Seen;
    var overlay := OverlayOf(t.source);
    MergeExact(overlay, t.source, p);
    if At(overlay, p).Some? {
      forall i | 0 <= i < |p| ensures FileAt(overlay, p[..i]).None? {
        NoFileAbove(overlay, p, i);
      }
    }
  }

  lemma NoFileAbove(t: Tree, p: Path, i: nat)
    requires i < |p| && At(t, p).Some?
    ensures FileAt(t, p[..i]).None?
  {
    AtConcat(t, p[..i], p[i..]);
    assert p[..i] + p[i..] == p;
  }

  lemma NothingCopied(r: Repository)
    requires HasOverlay(r.source) && Identity(r.links) && Sound(r)
    ensures Advanced(Snapshot(r), r, {}) && CopiedSo(OverlayOf(r.source), {}, {}, [], {})
  {
  }

  lemma EverythingCopied(t: Target, r: Repository, copied: set<Path>, processed: set<Path>)
    requires HasOverlay(t.source) && processed == Dirs(OverlayOf(t.source))
    requires Advanced(t, r, copied) && CopiedSo(OverlayOf(t.source), copied, processed, [], {})
    ensures Clear(t)
    ensures forall p :: r.View(p) == AfterCopy(t, p)
    ensures forall x :: FileAt(r.source, x) == SourceAfterCopy(t, x)
    ensures forall p :: p in r.touched <==> p in t.touched || (OverlayFile(t, p) && BehindLink(t.links, p))
  {
    hide Dirs, CopiedSo, HasOverlay, OverlayOf, BehindLink, Open, Blocked, OverlayFile;
    forall p ensures p in copied <==> OverlayFile(t, p) {
      CopiedAll(t, copied, processed, p);
    }
  }

  // ---- the targets of the rule

  /** Without strip_prefix the target is the checkout: everything is read from it and stored in it. */
  lemma PlainCheckout(source: Tree, p: Path)
    requires source.Dir?
    ensures var t := Target(source, map[[] := []], {}, map[], {});
      && Identity(t.links) && Seen(t, p) == FileAt(source, p)
      && (BehindLink(t.links, p) <==> p != [])
      && (p != [] ==> (BlockedIn(t, p) <==> PutBlocked(source, p)))
  {
    hide PutBlocked;
    var t := Target(source, map[[] := []], {}, map[], {});
    assert p[..0] == [] && [] + p[0..] == p;
    assert Landing(t.links, p, 0) == Some(p);
    OpenLanding(source, t.links, t.files, p, 0);
    if p != [] {
      assert p[..0] in t.links;
    }
  }

  function TopPaths(source: Tree): set<Path>
    requires source.Dir?
  {
    set n | n in source.children :: [n]
  }

  function TopLinks(source: Tree): map<Path, Path>
    requires source.Dir?
  {
    map p | p in TopPaths(source) :: p
  }

  /** With strip_prefix its top-level entries are links into the checkout: every file copied into one of
      those directories is stored in the checkout, every other one in the target. */
  lemma StrippedCheckout(source: Tree, p: Path)
    requires source.Dir? && p != []
    ensures var t := Target(source, TopLinks(source), {[]}, map[], {});
      && Identity(t.links) && Seen(t, p) == FileAt(source, p)
      && (BehindLink(t.links, p) <==> |p| >= 2 && p[0] in source.children)
      && (BehindLink(t.links, p) ==> (BlockedIn(t, p) <==> PutBlocked(source, p)))
  {
    hide PutBlocked;
    var t := Target(source, TopLinks(source), {[]}, map[], {});
    assert p[..0] == [] && p[..1] == [p[0]] && [p[0]] + p[1..] == p;
    assert Landing(t.links, p, 0) == Landing(t.links, p, 1);
    TopLinkKeys(source, p);
    if p[0] in source.children {
      assert Landing(t.links, p, 1) == Some(p);
    } else {
      NoLanding(t.links, p, 1);
    }
    OpenLanding(source, t.links, t.files, p, 0);
  }

  lemma TopLinkKeys(source: Tree, p: Path)
    requires source.Dir? && p != []
    ensures forall i | 0 <= i <= |p| :: p[..i] in TopLinks(source) <==> i == 1 && p[0] in source.children
  {
    forall i | 0 <= i <= |p| ensures p[..i] in TopLinks(source) <==> i == 1 && p[0] in source.children {
      assert |p[..i]| == i;
      if i == 1 {
        assert p[..1] == [p[0]];
      }
    }
  }

  lemma {:induction false} NoLanding(links: map<Path, Path>, p: Path, i: nat)
    requires i <= |p| && forall j | i <= j <= |p| :: p[..j] !in links
    ensures Landing(links, p, i).None?
    decreases |p| - i
  {
    if i < |p| {
      NoLanding(links, p, i + 1);
    }
  }

  function AtOverlayPath(t: Tree): Tree {
    Dir(map["utils" := Dir(map["bazel" := Dir(map["llvm-project-overlay" := t])])])
  }

  lemma AtOverlayPathReads(t: Tree)
    ensures At(AtOverlayPath(t), OVERLAY) == Some(t)
  {
    assert OVERLAY[1..] == ["bazel", "llvm-project-overlay"] && OVERLAY[1..][1..] == ["llvm-project-overlay"];
    assert OVERLAY[1..][1..][1..] == [];
    var bazel := Dir(map["llvm-project-overlay" := t]);
    var utils := Dir(map["bazel" := bazel]);
    assert At(bazel, ["llvm-project-overlay"]) == Some(t);
    assert At(utils, ["bazel", "llvm-project-overlay"]) == Some(t);
  }

  /** An overlay that holds a file below its own path in the checkout: copying it adds to what is copied. */
  lemma NestedOverlayExample()
    ensures var source := AtOverlayPath(AtOverlayPath(Dir(map["f" := File("")])));
      HasOverlay(source) && !Stable(Target(source, map[[] := []], {}, map[], {}))
  {
    var inner := Dir(map["f" := File("")]);
    var overlay := AtOverlayPath(inner);
    var source := AtOverlayPath(overlay);
    AtOverlayPathReads(inner);
    AtOverlayPathReads(overlay);
    var t := Target(source, map[[] := []], {}, map[], {});
    var p := OVERLAY + ["f"];
    AtConcat(overlay, OVERLAY, ["f"]);
    assert ["f"][1..] == [] && At(inner, ["f"]) == Some(File(""));
    PlainCheckout(source, p);
    assert p[|OVERLAY|..] == ["f"] && |"f"| == 1 && |"utils"| == 5;
    assert OverlayFile(t, p) && BehindLink(t.links, p) && OVERLAY <= p;
    assert FileAt(overlay, ["f"]).None?;
  }

  // ---- a copy that goes wrong

  /** A directory that holds the file b/f. */
  function HoldsFile(content: string): Tree {
    Dir(map["b" := Dir(map["f" := File(content)])])
  }

  /** An overlay with b/f, and with another b/f below its own path. */
  function TwoFiles(): Tree {
    Dir(HoldsFile("1").children["utils" := Dir(map["bazel" := Dir(map["llvm-project-overlay" := HoldsFile("2")])])])
  }

  const B_FILE: Path := ["b", "f"]

  /** The checkout itself is the target. */
  ghost function Checkout(): Target {
    Target(AtOverlayPath(TwoFiles()), map[[] := []], {}, map[], {})
  }

  lemma ReadAt(x: Tree, d: Path)
    ensures At(AtOverlayPath(x), OVERLAY + d) == At(x, d)
  {
    AtOverlayPathReads(x);
    AtConcat(AtOverlayPath(x), OVERLAY, d);
  }

  lemma EntryAt(t: Target, d: Path, n: string)
    requires IsDir(t.source, OVERLAY + d) && n in ChildrenAt(t.source, OVERLAY + d)
    ensures At(t.source, OVERLAY + (d + [n])) == Some(ChildrenAt(t.source, OVERLAY + d)[n])
  {
    AtChild(t.source, OVERLAY + d, n);
    assert OVERLAY + d + [n] == OVERLAY + (d + [n]);
  }

  lemma PushOnly(t: Target, d: Path, n: string, child: Tree)
    requires At(t.source, OVERLAY + d) == Some(Dir(map[n := child])) && child.Dir?
    ensures Listing(t, d, [n]) && DirRun(t, d, [n], 0, t, [d + [n]])
  {
    EntryAt(t, d, n);
    assert [d + [n]][1..] == [];
    assert DirRun(t, d, [n], 1, t, []);
  }

  lemma PushTwo(t: Target, d: Path, m: string, n: string, x: Tree, y: Tree)
    requires At(t.source, OVERLAY + d) == Some(Dir(map[m := x, n := y])) && m != n && x.Dir? && y.Dir?
    ensures Listing(t, d, [m, n]) && DirRun(t, d, [m, n], 0, t, [d + [m], d + [n]])
  {
    EntryAt(t, d, m);
    EntryAt(t, d, n);
    assert [d + [m], d + [n]][1..] == [d + [n]] && [d + [n]][1..] == [];
    assert DirRun(t, d, [m, n], 2, t, []);
    assert DirRun(t, d, [m, n], 1, t, [d + [n]]);
  }

  lemma WriteOnly(t: Target, d: Path, n: string, content: string)
    requires At(t.source, OVERLAY + d) == Some(Dir(map[n := File(content)])) && !BlockedIn(t, d + [n])
    ensures Listing(t, d, [n]) && DirRun(t, d, [n], 0, Written(t, d + [n], content), [])
  {
    hide BlockedIn, Written;
    EntryAt(t, d, n);
    assert DirRun(Written(t, d + [n], content), d, [n], 1, Written(t, d + [n], content), []);
  }

  lemma RunOne(t: Target, rest: seq<Path>, d: Path, names: seq<string>, t1: Target, pushed: seq<Path>, n: nat, t': Target)
    requires n > 0 && Listing(t, d, names) && DirRun(t, d, names, 0, t1, pushed)
    requires if rest + pushed == [] then t' == t1 else CopyRun(t1, rest + pushed, n - 1, t')
    ensures CopyRun(t, rest + [d], n, t')
  {
    hide Listing, DirRun;
    assert Front(rest + [d]) == rest && Final(rest + [d]) == d;
  }

  lemma FileNotBlocked(t: Tree, p: Path)
    requires FileAt(t, p).Some?
    ensures !PutBlocked(t, p)
  {
    forall i | 0 <= i < |p| ensures FileAt(t, p[..i]).None? {
      PrefixIsDir(t, p, i);
    }
  }

  lemma TwoFilesRead()
    ensures var overlay := TwoFiles();
      && overlay.children == map["b" := Dir(map["f" := File("1")]), "utils" := AtOverlayPath(HoldsFile("2")).children["utils"]]
      && At(overlay, OVERLAY) == Some(HoldsFile("2"))
      && FileAt(overlay, B_FILE) == Some("1") && At(overlay, ["b"]) == Some(Dir(map["f" := File("1")]))
      && At(overlay, []) == Some(overlay)
  {
    var overlay := TwoFiles();
    assert |"b"| == 1 && |"utils"| == 5;
    AtOverlayPathReads(HoldsFile("2"));
    assert At(overlay, OVERLAY) == At(AtOverlayPath(HoldsFile("2")), OVERLAY);
    assert B_FILE[1..] == ["f"] && ["f"][1..] == [] && ["b"][1..] == [];
    assert At(Dir(map["f" := File("1")]), ["f"]) == Some(File("1"));
  }

  /** After the nested file is copied, the overlay's own b/f is another. */
  lemma NestedWrite()
    ensures var source := AtOverlayPath(TwoFiles());
      var source' := Put(source, OVERLAY + B_FILE, "2");
      && !PutBlocked(source, OVERLAY + B_FILE)
      && At(source', OVERLAY + ["b"]) == Some(Dir(map["f" := File("2")]))
      && At(source', ["b"]) == None && source'.Dir?
  {
    hide PutBlocked;
    var overlay, source := TwoFiles(), AtOverlayPath(TwoFiles());
    TwoFilesRead();
    ReadAt(overlay, B_FILE);
    FileNotBlocked(source, OVERLAY + B_FILE);
    AtOverlayPathReads(overlay);
    PutWithin(source, OVERLAY, B_FILE, "2");
    var source' := Put(source, OVERLAY + B_FILE, "2");
    AtConcat(source', OVERLAY, ["b"]);
    PutB(overlay);
    assert |"b"| == 1 && |"utils"| == 5;
    assert !(OVERLAY + B_FILE <= ["b"]) && !(["b"] <= OVERLAY + B_FILE) by {
      assert (OVERLAY + B_FILE)[0] == "utils";
    }
    PutApart(source, OVERLAY + B_FILE, "2", ["b"]);
  }

  lemma PutB(overlay: Tree)
    requires overlay.Dir? && "b" in overlay.children && overlay.children["b"] == Dir(map["f" := File("1")])
    ensures At(Put(overlay, B_FILE, "2"), ["b"]) == Some(Dir(map["f" := File("2")]))
  {
    assert B_FILE[1..] == ["f"] && ["f"][1..] == [] && ["b"][1..] == [];
    var b := Dir(map["f" := File("1")]);
    assert Put(b, ["f"], "2") == Dir(map["f" := File("2")]);
  }

  /** The target after the nested file, and after both. */
  ghost function Halfway(): Target {
    Target(Put(AtOverlayPath(TwoFiles()), OVERLAY + B_FILE, "2"), map[[] := []], {}, map[], {OVERLAY + B_FILE})
  }

  ghost function Wrong(): Target {
    Target(Put(Halfway().source, B_FILE, "2"), map[[] := []], {}, map[], {OVERLAY + B_FILE, B_FILE})
  }

  lemma PlainWrite(t: Target, p: Path, content: string)
    requires t.links == map[[] := []] && p != [] && !PutBlocked(t.source, p)
    ensures !BlockedIn(t, p)
    ensures Written(t, p, content) == t.(source := Put(t.source, p, content), touched := t.touched + {p})
  {
    hide PutBlocked, Put;
    assert p[..0] == [] && [] + p[0..] == p;
    assert p[..0] in t.links;
    assert Landing(t.links, p, 0) == Some(p);
  }

  lemma BFree(t: Tree)
    requires t.Dir? && At(t, ["b"]) == None
    ensures !PutBlocked(t, B_FILE)
  {
    assert B_FILE[..0] == [] && B_FILE[..1] == ["b"];
    if At(t, B_FILE).Some? {
      PrefixIsDir(t, B_FILE, 1);
    }
    assert FileAt(t, []).None?;
  }

  /** The run: the nested file is copied over the overlay's b/f, which is read only then. */
  lemma WrongRun()
    ensures CopyRun(Checkout(), [[]], MAX_OVERLAY_DIRECTORIES, Wrong())
  {
    hide Put, PutBlocked, BlockedIn, Written, Listing, DirRun, CopyRun, At, TwoFiles, HoldsFile;
    var n := MAX_OVERLAY_DIRECTORIES;
    var t, half := Checkout(), Halfway();
    var b, nested: Path := ["b"], OVERLAY + ["b"];
    NestedWrite();
    assert OVERLAY + ["b"] + ["f"] == OVERLAY + B_FILE && ["b"] + ["f"] == B_FILE;
    BFree(half.source);
    PlainWrite(half, B_FILE, "2");
    assert Written(half, B_FILE, "2") == Wrong();
    WriteOnly(half, b, "f", "2");
    RunOne(half, [], b, ["f"], Wrong(), [], n - 5, Wrong());
    PlainWrite(t, OVERLAY + B_FILE, "2");
    assert Written(t, OVERLAY + B_FILE, "2") == half;
    NestedDirs();
    WriteOnly(t, nested, "f", "2");
    assert [b] + [] == [] + [b];
    RunOne(t, [b], nested, ["f"], half, [], n - 4, Wrong());
    PushOnly(t, OVERLAY, "b", Dir(map["f" := File("2")]));
    RunOne(t, [b], OVERLAY, ["b"], t, [nested], n - 3, Wrong());
    PushDown();
    RunOne(t, [b], ["utils", "bazel"], ["llvm-project-overlay"], t, [OVERLAY], n - 2, Wrong());
    RunOne(t, [b], ["utils"], ["bazel"], t, [["utils", "bazel"]], n - 1, Wrong());
    assert [] + [b, ["utils"]] == [b] + [["utils"]];
    RunOne(t, [], [], ["b", "utils"], t, [b, ["utils"]], n, Wrong());
    var top: seq<Path> := [[]];
    assert [] + top == top;
  }

  lemma NestedDirs()
    ensures At(Checkout().source, OVERLAY + OVERLAY) == Some(Dir(map["b" := Dir(map["f" := File("2")])]))
    ensures At(Checkout().source, OVERLAY + (OVERLAY + ["b"])) == Some(Dir(map["f" := File("2")]))
  {
    var overlay := TwoFiles();
    TwoFilesRead();
    ReadAt(overlay, OVERLAY);
    ReadAt(overlay, OVERLAY + ["b"]);
    AtChild(overlay, OVERLAY, "b");
  }

  lemma PushDown()
    ensures var t := Checkout();
      && Listing(t, ["utils", "bazel"], ["llvm-project-overlay"])
      && DirRun(t, ["utils", "bazel"], ["llvm-project-overlay"], 0, t, [OVERLAY])
      && Listing(t, ["utils"], ["bazel"]) && DirRun(t, ["utils"], ["bazel"], 0, t, [["utils", "bazel"]])
      && Listing(t, [], ["b", "utils"]) && DirRun(t, [], ["b", "utils"], 0, t, [["b"], ["utils"]])
  {
    hide Listing, DirRun, HoldsFile;
    var t, overlay := Checkout(), TwoFiles();
    var inner := HoldsFile("2");
    var bazel := Dir(map["llvm-project-overlay" := inner]);
    var utils := Dir(map["bazel" := bazel]);
    TwoFilesRead();
    assert overlay.children["utils"] == utils;
    assert ["utils"][1..] == [] && ["utils", "bazel"][1..] == ["bazel"] && ["bazel"][1..] == [];
    assert At(utils, ["bazel"]) == Some(bazel);
    ReadAt(overlay, ["utils", "bazel"]);
    ReadAt(overlay, ["utils"]);
    ReadAt(overlay, []);
    InnerIsDir();
    PushOnly(t, ["utils", "bazel"], "llvm-project-overlay", inner);
    assert ["utils", "bazel"] + ["llvm-project-overlay"] == OVERLAY;
    PushOnly(t, ["utils"], "bazel", bazel);
    assert ["utils"] + ["bazel"] == ["utils", "bazel"];
    assert |"b"| == 1 && |"utils"| == 5;
    PushTwo(t, [], "b", "utils", Dir(map["f" := File("1")]), utils);
    assert [] + ["b"] == ["b"] && [] + ["utils"] == ["utils"];
  }

  lemma InnerIsDir()
    ensures HoldsFile("2").Dir?
  {
  }

  /** The copy returns normally with the nested file's content at b/f, where the overlay had another. */
  lemma UnstableExample()
    ensures var t, t' := Checkout(), Wrong();
      && HasOverlay(t.source) && !Stable(t) && CopyRun(t, [[]], MAX_OVERLAY_DIRECTORIES, t')
      && AfterCopy(t, B_FILE) == Some("1") && Seen(t', B_FILE) == Some("2")
      && HasOverlay(Halfway().source) && OverlayOf(Halfway().source) != OverlayOf(t.source)
  {
    hide CopyRun, Put, PutBlocked, TwoFiles, HoldsFile;
    var t, overlay := Checkout(), TwoFiles();
    WrongRun();
    TwoFilesRead();
    AtOverlayPathReads(overlay);
    NestedWrite();
    BFree(Halfway().source);
    PutFileAt(Halfway().source, B_FILE, "2", B_FILE);
    PlainCheckout(Wrong().source, B_FILE);
    HalfwayDiffers();
    PlainCheckout(t.source, OVERLAY + B_FILE);
    NestedFile();
    NotStable(t, B_FILE);
  }

  lemma NestedFile()
    ensures FileAt(TwoFiles(), OVERLAY + B_FILE) == Some("2")
  {
    TwoFilesRead();
    AtConcat(TwoFiles(), OVERLAY, B_FILE);
    assert B_FILE[1..] == ["f"] && ["f"][1..] == [];
    assert At(Dir(map["f" := File("2")]), ["f"]) == Some(File("2"));
  }

  lemma NotStable(t: Target, rest: Path)
    requires HasOverlay(t.source) && OverlayFile(t, OVERLAY + rest) && BehindLink(t.links, OVERLAY + rest)
    requires FileAt(OverlayOf(t.source), rest) != FileAt(OverlayOf(t.source), OVERLAY + rest)
    ensures !Stable(t)
  {
    assert (OVERLAY + rest)[|OVERLAY|..] == rest;
    assert OVERLAY <= OVERLAY + rest;
  }

  lemma HalfwayDiffers()
    ensures HasOverlay(Halfway().source) && OverlayOf(Halfway().source) != OverlayOf(Checkout().source)
  {
    hide Put, TwoFiles;
    NestedWrite();
    TwoFilesRead();
    AtOverlayPathReads(TwoFiles());
    BelowOverlay(Halfway().source);
    ReadAt(TwoFiles(), ["b"]);
  }

  lemma BelowOverlay(source: Tree)
    requires IsDir(source, OVERLAY + ["b"])
    ensures HasOverlay(source) && At(OverlayOf(source), ["b"]) == At(source, OVERLAY + ["b"])
  {
    PrefixIsDir(source, OVERLAY + ["b"], |OVERLAY|);
    assert (OVERLAY + ["b"])[..|OVERLAY|] == OVERLAY;
    AtConcat(source, OVERLAY, ["b"]);
  }
}
