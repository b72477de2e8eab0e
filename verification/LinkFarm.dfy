/** The merge of an LLVM source tree with its Bazel overlay: private/llvm_project_common.bzl and
private/llvm_project_from_path.bzl. */
module LinkFarm {
  import opened Sequences
  import opened Results

  type Path = seq<string>

  datatype Tree = File(content: string) | Dir(children: map<string, Tree>)

  const OVERLAY: Path := ["utils", "bazel", "llvm-project-overlay"]

  const MAX_OVERLAY_DIRECTORIES: nat := 1000000

  // ---- trees

  function At(t: Tree, p: Path): Option<Tree>
    decreases |p|
  {
    if p == [] then Some(t)
    else if t.Dir? && p[0] in t.children then At(t.children[p[0]], p[1..])
    else None
  }

  /** What reading the file at p gives. */
  function FileAt(t: Tree, p: Path): Option<string> {
    match At(t, p)
    case Some(File(content)) => Some(content)
    case _ => None
  }

  predicate IsDir(t: Tree, p: Path) {
    At(t, p).Some? && At(t, p).value.Dir?
  }

  function ChildrenAt(t: Tree, p: Path): map<string, Tree>
    requires IsDir(t, p)
  {
    At(t, p).value.children
  }

  lemma {:induction false} AtConcat(t: Tree, p: Path, q: Path)
    ensures At(t, p + q) == if At(t, p).None? then None else At(At(t, p).value, q)
  {
    if p == [] {
      assert p + q == q;
    } else {
      assert (p + q)[1..] == p[1..] + q;
      if t.Dir? && p[0] in t.children {
        AtConcat(t.children[p[0]], p[1..], q);
      }
    }
  }

  lemma AtChild(t: Tree, d: Path, name: string)
    requires IsDir(t, d)
    ensures At(t, d + [name]) == if name in ChildrenAt(t, d) then Some(ChildrenAt(t, d)[name]) else None
  {
    AtConcat(t, d, [name]);
    assert [name][1..] == [];
  }

  lemma PrefixIsDir(t: Tree, p: Path, i: nat)
    requires i < |p| && At(t, p).Some?
    ensures IsDir(t, p[..i])
  {
    assert p == p[..i] + p[i..];
    AtConcat(t, p[..i], p[i..]);
  }

  /** Every directory of a tree, the root included. */
  function Dirs(t: Tree): set<Path> {
    if t.File? then {}
    else {[]} + set n, p | n in t.children && p in Dirs(t.children[n]) :: [n] + p
  }

  lemma {:induction false} DirsExact(t: Tree, p: Path)
    ensures p in Dirs(t) <==> IsDir(t, p)
    decreases |p|
  {
    if p != [] && t.Dir? {
      assert p == [p[0]] + p[1..];
      if p[0] in t.children {
        DirsExact(t.children[p[0]], p[1..]);
      }
      if p in Dirs(t) {
        var n, q :| n in t.children && q in Dirs(t.children[n]) && p == [n] + q;
        assert p[1..] == q;
      }
    }
  }

  /** The overlay laid over the source. */
  function Merge(overlay: Tree, source: Tree): Tree {
    if overlay.File? || source.File? then overlay
    else Dir(map n | n in overlay.children.Keys + source.children.Keys ::
      if n !in overlay.children then source.children[n]
      else if n !in source.children then overlay.children[n]
      else Merge(overlay.children[n], source.children[n]))
  }

  // ---- relative paths

  /** How the rules spell a relative directory. */
  function Spell(p: Path): string {
    if p == [] then "." else if |p| == 1 then p[0] else Spell(p[..|p| - 1]) + "/" + p[|p| - 1]
  }

  function RelativePath(relativeDir: string, basename: string): string {
    if relativeDir == "." then basename else relativeDir + "/" + basename
  }

  /** Extending a relative path by a name, as text and as a list of names.  No name is "." itself. */
  lemma RelativePathExtends(d: Path, name: string)
    requires forall i | 0 <= i < |d| :: d[i] != "."
    ensures RelativePath(Spell(d), name) == Spell(d + [name])
  {
    var p := d + [name];
    assert p[..|p| - 1] == d;
    if |d| >= 2 {
      assert |Spell(d)| >= 1 + |d[|d| - 1]|;
      assert Spell(d) != "." by {
        if Spell(d) == "." {
          assert Spell(d)[|Spell(d[..|d| - 1])|] == '/';
        }
      }
    }
  }

  // ---- the repository directory

  predicate BehindLink(links: map<Path, Path>, p: Path) {
    exists i | 0 <= i < |p| :: p[..i] in links
  }

  predicate BehindFile(files: map<Path, string>, p: Path) {
    exists i | 0 <= i < |p| :: p[..i] in files
  }

  function ProperPrefixes(p: Path): set<Path> {
    set i | 0 <= i < |p| :: p[..i]
  }

  /** The first link on the way to p decides; with none, a real file. */
  function Open(source: Tree, links: map<Path, Path>, files: map<Path, string>, p: Path, i: nat): Option<string>
    requires i <= |p|
    decreases |p| - i
  {
    if p[..i] in links then FileAt(source, links[p[..i]] + p[i..])
    else if i == |p| then (if p in files then Some(files[p]) else None)
    else Open(source, links, files, p, i + 1)
  }

  /** Writing at p inside a tree is refused below a file, and where a directory that is not empty stands. */
  predicate PutBlocked(t: Tree, p: Path) {
    (exists i | 0 <= i < |p| :: FileAt(t, p[..i]).Some?) || (IsDir(t, p) && ChildrenAt(t, p) != map[])
  }

  /** A file stored at p, with the directories above it. */
  function Put(t: Tree, p: Path, content: string): Tree
    decreases |p|
  {
    if p == [] then File(content)
    else if t.File? then t
    else Dir(t.children[p[0] := Put(if p[0] in t.children then t.children[p[0]] else Dir(map[]), p[1..], content)])
  }

  /** Where the first link on the way to p, or at p, leads. */
  function Landing(links: map<Path, Path>, p: Path, i: nat): Option<Path>
    requires i <= |p|
    decreases |p| - i
  {
    if p[..i] in links then Some(links[p[..i]] + p[i..])
    else if i == |p| then None
    else Landing(links, p, i + 1)
  }

  lemma {:induction false} LandingBehind(links: map<Path, Path>, p: Path, i: nat)
    requires i < |p| && BehindLink(links, p) && forall j | 0 <= j < i :: p[..j] !in links
    ensures Landing(links, p, i).Some?
    decreases |p| - i
  {
    if p[..i] !in links {
      assert i + 1 < |p| by {
        var j :| 0 <= j < |p| && p[..j] in links;
        assert j > i;
      }
      LandingBehind(links, p, i + 1);
    }
  }

  /** A real directory with something in it. */
  predicate Occupied(links: map<Path, Path>, dirs: set<Path>, files: map<Path, string>, p: Path) {
    p in dirs && exists q | q in links.Keys + files.Keys + dirs :: p < q
  }

  /** rctx.file fails below a file and on a directory that is not empty, seen through links. */
  predicate Blocked(source: Tree, links: map<Path, Path>, dirs: set<Path>, files: map<Path, string>, p: Path) {
    if BehindLink(links, p) then
      LandingBehind(links, p, 0);
      PutBlocked(source, Landing(links, p, 0).value)
    else BehindFile(files, p) || Occupied(links, dirs, files, p)
  }

  /** The directory a repository rule fills: links into the source tree, real directories and real files.
      A file written through a link lands in the source.  touched records every path whose creation or
      removal went through a link; the rules never create a link or delete through one. */
  class Repository {
    var source: Tree
    var links: map<Path, Path>
    var dirs: set<Path>
    var files: map<Path, string>
    var touched: set<Path>

    constructor (source: Tree)
      ensures this.source == source && links == map[] && dirs == {} && files == map[] && touched == {}
    {
      this.source := source;
      links, dirs, files, touched := map[], {}, map[], {};
    }

    /** What opening p finds, from its i-th directory on. */
    function ViewFrom(p: Path, i: nat): Option<string>
      requires i <= |p|
      reads this
    {
      Open(source, links, files, p, i)
    }

    function View(p: Path): Option<string>
      reads this
    {
      ViewFrom(p, 0)
    }

    /** rctx.path(p).exists: a file or a directory, seen through links. */
    predicate Exists(p: Path)
      reads this
    {
      match Landing(links, p, 0)
      case Some(q) => At(source, q).Some?
      case None => p in files || p in dirs
    }

    /** rctx.symlink: makes missing parent directories, and fails if anything is there already. */
    method Symlink(dest: Path, link: Path) returns (ok: bool)
      modifies this
      ensures BehindLink(old(links), link) ==>
        ok && links == old(links) && dirs == old(dirs) && touched == old(touched) + {link}
      ensures !BehindLink(old(links), link) ==>
        touched == old(touched)
        && ok == (link !in old(links) && link !in old(dirs) && link !in old(files) && !BehindFile(old(files), link))
      ensures !BehindLink(old(links), link) && ok ==>
        links == old(links)[link := dest] && dirs == old(dirs) + ProperPrefixes(link)
      ensures !ok ==> links == old(links) && dirs == old(dirs)
      ensures files == old(files) && source == old(source)
    {
      if BehindLink(links, link) {
        touched := touched + {link};
        return true;
      }
      if link in links || link in dirs || link in files || BehindFile(files, link) {
        return false;
      }
      links := links[link := dest];
      dirs := dirs + ProperPrefixes(link);
      ok := true;
    }

    /** rctx.delete: the path and everything below it. */
    method Delete(path: Path)
      modifies this
      ensures BehindLink(old(links), path) ==>
        links == old(links) && dirs == old(dirs) && files == old(files) && touched == old(touched) + {path}
      ensures !BehindLink(old(links), path) ==>
        touched == old(touched)
        && links == (map p | p in old(links) && !(path <= p) :: old(links)[p])
        && dirs == (set p | p in old(dirs) && !(path <= p))
        && files == (map p | p in old(files) && !(path <= p) :: old(files)[p])
      ensures source == old(source)
    {
      if BehindLink(links, path) {
        touched := touched + {path};
        return;
      }
      links := map p | p in links && !(path <= p) :: links[p];
      dirs := set p | p in dirs && !(path <= p);
      files := map p | p in files && !(path <= p) :: files[p];
    }

    /** rctx.file: makes missing parent directories and replaces a file, a link or an empty directory. */
    method Write(path: Path, content: string) returns (ok: bool)
      modifies this
      ensures ok <==> !Blocked(old(source), old(links), old(dirs), old(files), path)
      ensures !ok || BehindLink(old(links), path) ==> links == old(links) && dirs == old(dirs) && files == old(files)
      ensures !ok || !BehindLink(old(links), path) ==> source == old(source) && touched == old(touched)
      ensures ok && BehindLink(old(links), path) ==>
        Landing(old(links), path, 0).Some?
        && source == Put(old(source), Landing(old(links), path, 0).value, content)
        && touched == old(touched) + {path}
      ensures ok && !BehindLink(old(links), path) ==>
        links == old(links) - {path} && files == old(files)[path := content]
        && dirs == (old(dirs) - {path}) + ProperPrefixes(path)
    {
      if Blocked(source, links, dirs, files, path) {
        return false;
      }
      ok := true;
      if BehindLink(links, path) {
        LandingBehind(links, path, 0);
        source := Put(source, Landing(links, path, 0).value, content);
        touched := touched + {path};
      } else {
        links := links - {path};
        files := files[path := content];
        dirs := (dirs - {path}) + ProperPrefixes(path);
      }
    }
  }

  // ---- what a write shows

  lemma NotBlockedBelow(t: Tree, n: string, rest: Path)
    requires !PutBlocked(t, [n] + rest)
    ensures t.Dir? && !PutBlocked(if n in t.children then t.children[n] else Dir(map[]), rest)
  {
    var p := [n] + rest;
    assert p[..0] == [] && p[1..] == rest;
    assert FileAt(t, p[..0]).None?;
    if n in t.children {
      forall i | 0 <= i < |rest| ensures FileAt(t.children[n], rest[..i]).None? {
        assert p[..i + 1][1..] == rest[..i];
      }
    }
  }

  /** Storing a file changes what is read at its path alone. */
  lemma {:induction false} PutFileAt(t: Tree, p: Path, content: string, q: Path)
    requires !PutBlocked(t, p)
    ensures FileAt(Put(t, p, content), q) == if q == p then Some(content) else FileAt(t, q)
    decreases |p|
  {
    hide PutBlocked;
    if p == [] {
      PutAtRoot(t, content, q);
    } else {
      assert p == [p[0]] + p[1..];
      NotBlockedBelow(t, p[0], p[1..]);
      if q != [] && q[0] == p[0] {
        PutFileAt(if p[0] in t.children then t.children[p[0]] else Dir(map[]), p[1..], content, q[1..]);
        assert q == [q[0]] + q[1..];
      }
    }
  }

  lemma PutAtRoot(t: Tree, content: string, q: Path)
    requires !PutBlocked(t, [])
    ensures FileAt(Put(t, [], content), q) == if q == [] then Some(content) else FileAt(t, q)
  {
  }

  /** Elsewhere the tree stays as it is. */
  lemma {:induction false} PutApart(t: Tree, p: Path, content: string, q: Path)
    requires !(p <= q) && !(q <= p)
    ensures At(Put(t, p, content), q) == At(t, q)
    decreases |p|
  {
    if t.Dir? && p[0] == q[0] {
      assert p == [p[0]] + p[1..] && q == [q[0]] + q[1..];
      if p[0] in t.children {
        PutApart(t.children[p[0]], p[1..], content, q[1..]);
      } else {
        PutApart(Dir(map[]), p[1..], content, q[1..]);
      }
    }
  }

  /** Storing what is there already changes nothing. */
  lemma {:induction false} PutSame(t: Tree, p: Path, content: string)
    requires FileAt(t, p) == Some(content)
    ensures Put(t, p, content) == t
    decreases |p|
  {
    if p != [] {
      PutSame(t.children[p[0]], p[1..], content);
    }
  }

  /** Opening a path is reading the source where the path lands, or a file of the target's own. */
  lemma {:induction false} OpenLanding(source: Tree, links: map<Path, Path>, files: map<Path, string>, p: Path, i: nat)
    requires i <= |p|
    ensures Open(source, links, files, p, i) == match Landing(links, p, i)
      case Some(q) => FileAt(source, q)
      case None => if p in files then Some(files[p]) else None
    decreases |p| - i
  {
    if i < |p| && p[..i] !in links {
      OpenLanding(source, links, files, p, i + 1);
    }
  }

  /** No other path lands where this one does. */
  ghost predicate LandsAlone(links: map<Path, Path>, path: Path) {
    forall p | Landing(links, p, 0) == Landing(links, path, 0) :: p == path
  }

  lemma WrittenThrough(source: Tree, links: map<Path, Path>, files: map<Path, string>, path: Path, content: string,
                       q: Path, p: Path)
    requires Landing(links, path, 0) == Some(q) && !PutBlocked(source, q)
    requires LandsAlone(links, path)
    ensures Open(Put(source, q, content), links, files, p, 0)
      == if p == path then Some(content) else Open(source, links, files, p, 0)
  {
    hide PutBlocked, Put, Open, Landing;
    OpenLanding(source, links, files, p, 0);
    OpenLanding(Put(source, q, content), links, files, p, 0);
    if Landing(links, p, 0).Some? {
      PutFileAt(source, q, content, Landing(links, p, 0).value);
    }
  }

  /** Below a path that is not a directory there is nothing to open. */
  lemma {:induction false} LandingBelow(links: map<Path, Path>, p: Path, q: Path, i: nat)
    requires i < |p| && p <= q && BehindLink(links, p) && forall j | 0 <= j < i :: p[..j] !in links
    ensures Landing(links, p, i).Some? && Landing(links, q, i) == Some(Landing(links, p, i).value + q[|p|..])
    decreases |p| - i
  {
    assert p[..i] == q[..i];
    if p[..i] in links {
      assert q[i..] == p[i..] + q[|p|..];
      assert links[p[..i]] + (p[i..] + q[|p|..]) == links[p[..i]] + p[i..] + q[|p|..];
    } else {
      assert i + 1 < |p| by {
        var j :| 0 <= j < |p| && p[..j] in links;
        assert j > i;
      }
      LandingBelow(links, p, q, i + 1);
    }
  }

  lemma NothingInside(t: Tree, p: Path, rest: Path)
    requires !PutBlocked(t, p) && rest != []
    ensures FileAt(t, p + rest).None?
  {
    AtConcat(t, p, rest);
  }

  lemma WrittenBelow(source: Tree, links: map<Path, Path>, files: map<Path, string>, path: Path, p: Path)
    requires BehindLink(links, path) && Landing(links, path, 0).Some?
    requires !PutBlocked(source, Landing(links, path, 0).value) && path < p
    ensures Open(source, links, files, p, 0).None?
  {
    hide PutBlocked, Open, Landing;
    LandingBelow(links, path, p, 0);
    OpenLanding(source, links, files, p, 0);
    NothingInside(source, Landing(links, path, 0).value, p[|path|..]);
  }

  /** Everything recorded has its directories recorded. */
  ghost predicate Sound(r: Repository)
    reads r
  {
    forall q | q in r.links.Keys + r.files.Keys :: ProperPrefixes(q) <= r.dirs
  }

  /** rctx.file with what it shows: the new file, nothing below it, everything else as before. */
  method WriteShown(r: Repository, path: Path, content: string) returns (ok: bool)
    requires Sound(r)
    requires BehindLink(r.links, path) && !Blocked(r.source, r.links, r.dirs, r.files, path) ==> LandsAlone(r.links, path)
    modifies r
    ensures ok <==> !old(Blocked(r.source, r.links, r.dirs, r.files, path))
    ensures !ok || BehindLink(old(r.links), path) ==>
      r.links == old(r.links) && r.dirs == old(r.dirs) && r.files == old(r.files)
    ensures !ok || !BehindLink(old(r.links), path) ==> r.source == old(r.source) && r.touched == old(r.touched)
    ensures ok && BehindLink(old(r.links), path) ==>
      Landing(old(r.links), path, 0).Some?
      && r.source == Put(old(r.source), Landing(old(r.links), path, 0).value, content)
      && r.touched == old(r.touched) + {path}
    ensures ok && !BehindLink(old(r.links), path) ==>
      r.links == old(r.links) - {path} && r.files == old(r.files)[path := content]
      && r.dirs == (old(r.dirs) - {path}) + ProperPrefixes(path)
    ensures Sound(r)
    ensures ok ==>
      forall p :: r.View(p) == if p == path then Some(content) else if path <= p then None else old(r.View(p))
  {
    hide PutBlocked, Put, Open, Landing;
    ghost var before := Records(r.source, r.links, r.dirs, r.files);
    ok := r.Write(path, content);
    if ok {
      WriteShows(before, r, path, content);
    }
  }

  datatype Records = Records(source: Tree, links: map<Path, Path>, dirs: set<Path>, files: map<Path, string>)

  /** What a write that succeeded shows. */
  lemma WriteShows(before: Records, r: Repository, path: Path, content: string)
    requires forall q | q in before.links.Keys + before.files.Keys :: ProperPrefixes(q) <= before.dirs
    requires !Blocked(before.source, before.links, before.dirs, before.files, path)
    requires BehindLink(before.links, path) ==>
      && LandsAlone(before.links, path) && Landing(before.links, path, 0).Some?
      && r.source == Put(before.source, Landing(before.links, path, 0).value, content)
      && r.links == before.links && r.dirs == before.dirs && r.files == before.files
    requires !BehindLink(before.links, path) ==>
      && r.source == before.source
      && r.links == before.links - {path} && r.files == before.files[path := content]
      && r.dirs == (before.dirs - {path}) + ProperPrefixes(path)
    ensures Sound(r)
    ensures forall p ::
      r.View(p) == if p == path then Some(content) else if path <= p then None
                   else Open(before.source, before.links, before.files, p, 0)
  {
    hide PutBlocked, Put, Open, Landing;
    var source, links, dirs, files := before.source, before.links, before.dirs, before.files;
    if BehindLink(links, path) {
      forall p ensures r.View(p)
        == if p == path then Some(content) else if path <= p then None else Open(source, links, files, p, 0)
      {
        WrittenThrough(source, links, files, path, content, Landing(links, path, 0).value, p);
        if path < p {
          WrittenBelow(source, links, files, path, p);
        }
      }
    } else {
      NothingRecordedBelow(links, dirs, files, path);
      forall p ensures r.View(p)
        == if p == path then Some(content) else if path <= p then None else Open(source, links, files, p, 0)
      {
        RewrittenView(source, links, r.links, files, r.files, path, content, p);
      }
    }
  }

  lemma NothingRecordedBelow(links: map<Path, Path>, dirs: set<Path>, files: map<Path, string>, path: Path)
    requires forall q | q in links.Keys + files.Keys :: ProperPrefixes(q) <= dirs
    requires !Occupied(links, dirs, files, path)
    ensures forall q | q in links :: path <= q ==> q == path
    ensures forall q | q in files :: path <= q ==> q == path
  {
    forall q | q in links.Keys + files.Keys ensures path <= q ==> q == path {
      if path < q {
        RecordedBelow(links, dirs, files, path, q);
      }
    }
    assert forall q | q in links :: q in links.Keys + files.Keys;
    assert forall q | q in files :: q in links.Keys + files.Keys;
  }

  lemma RecordedBelow(links: map<Path, Path>, dirs: set<Path>, files: map<Path, string>, path: Path, q: Path)
    requires q in links.Keys + files.Keys && ProperPrefixes(q) <= dirs && path < q
    ensures Occupied(links, dirs, files, path)
  {
    assert q[..|path|] == path;
    assert path in ProperPrefixes(q);
    assert q in links.Keys + files.Keys + dirs;
  }

  /** Both ways, the real directories are those above a link. */
  ghost predicate Filled(links: map<Path, Path>, dirs: set<Path>) {
    && (forall q | q in links :: ProperPrefixes(q) <= dirs)
    && forall p | p in dirs :: exists q | q in links :: p < q
  }

  lemma FilledStep(links: map<Path, Path>, dirs: set<Path>, link: Path, dest: Path)
    requires Filled(links, dirs)
    ensures Filled(links[link := dest], dirs + ProperPrefixes(link))
  {
    var links' := links[link := dest];
    forall p | p in dirs + ProperPrefixes(link) ensures exists q | q in links' :: p < q {
      if p in dirs {
        var q :| q in links && p < q;
        assert q in links';
      } else {
        assert p < link && link in links';
      }
    }
  }

  /** readdir: the names of a directory, each once, in no particular order. */
  method Readdir(children: map<string, Tree>) returns (names: seq<string>)
    ensures forall n :: n in names <==> n in children
    ensures forall i, j | 0 <= i < j < |names| :: names[i] != names[j]
  {
    names := [];
    var left := children.Keys;
    while left != {}
      invariant left <= children.Keys
      invariant forall n :: n in names <==> n in children && n !in left
      invariant forall i, j | 0 <= i < j < |names| :: names[i] != names[j]
      decreases left
    {
      var n :| n in left;
      names := names + [n];
      left := left - {n};
    }
  }

  // ---- what the farm should contain

  predicate HasOverlay(source: Tree) {
    IsDir(source, OVERLAY)
  }

  function OverlayOf(source: Tree): Tree
    requires HasOverlay(source)
  {
    At(source, OVERLAY).value
  }

  lemma OverlayPlace(source: Tree)
    ensures HasOverlay(source) <==> IsDir(source, ["utils", "bazel", "llvm-project-overlay"])
    ensures HasOverlay(source) ==> Some(OverlayOf(source)) == At(source, ["utils", "bazel", "llvm-project-overlay"])
  {
  }

  /** Where the link at p leads, when the rules make one there. */
  ghost function Planned(source: Tree, p: Path): Option<Path>
    requires HasOverlay(source)
  {
    var overlay := OverlayOf(source);
    if p == [] || !IsDir(overlay, Front(p)) then None
    else
      var beside := ChildrenAt(overlay, Front(p));
      if Final(p) in beside then (if beside[Final(p)].File? then Some(OVERLAY + p) else None)
      else if At(source, p).Some? then Some(p) else None
  }

  /** The source has the overlay's directory, and nothing beside it is named like an overlay file. */
  ghost predicate CompatibleAt(source: Tree, d: Path)
    requires HasOverlay(source) && IsDir(OverlayOf(source), d)
  {
    var beside := ChildrenAt(OverlayOf(source), d);
    IsDir(source, d)
    && forall n | n in beside && beside[n].File? :: n !in ChildrenAt(source, d)
  }

  ghost predicate Compatible(source: Tree)
    requires HasOverlay(source)
  {
    forall d | IsDir(OverlayOf(source), d) :: CompatibleAt(source, d)
  }

  /** The farm has been built for the processed directories and, in d, for the names done. */
  ghost predicate Built(r: Repository, processed: set<Path>, d: Path, done: set<string>)
    requires HasOverlay(r.source)
    reads r
  {
    && r.touched == {} && r.files == map[]
    && (forall p | p in r.links :: Planned(r.source, p) == Some(r.links[p]))
    && (forall p :: p in r.links <==>
          p != [] && Planned(r.source, p).Some? && (Front(p) in processed || (Front(p) == d && Final(p) in done)))
    && (forall p | p in r.dirs :: IsDir(OverlayOf(r.source), p))
    && Filled(r.links, r.dirs)
  }

  lemma ChildPath(d: Path, name: string)
    ensures Front(d + [name]) == d && Final(d + [name]) == name
  {
  }

  lemma PathOfChild(p: Path)
    requires p != []
    ensures p == Front(p) + [Final(p)]
  {
  }

  /** Nothing planned is an overlay directory, so no link stands above or at one. */
  lemma PlannedIsNoDir(source: Tree, p: Path)
    requires HasOverlay(source) && Planned(source, p).Some?
    ensures !IsDir(OverlayOf(source), p)
  {
    PathOfChild(p);
    AtChild(OverlayOf(source), Front(p), Final(p));
  }

  lemma NotBehindLink(r: Repository, processed: set<Path>, d: Path, done: set<string>, name: string)
    requires HasOverlay(r.source) && Built(r, processed, d, done) && IsDir(OverlayOf(r.source), d)
    ensures !BehindLink(r.links, d + [name])
  {
    forall i | 0 <= i < |d + [name]| ensures (d + [name])[..i] !in r.links {
      var q := (d + [name])[..i];
      assert q == d[..i];
      if i < |d| {
        PrefixIsDir(OverlayOf(r.source), d, i);
      } else {
        assert d[..i] == d;
      }
      if q in r.links {
        PlannedIsNoDir(r.source, q);
      }
    }
  }

  /** One symlink call for a planned path of the current directory. */
  method LinkEntry(r: Repository, dest: Path, d: Path, name: string, ghost processed: set<Path>, ghost done: set<string>)
    returns (ok: bool)
    requires HasOverlay(r.source) && IsDir(OverlayOf(r.source), d) && d !in processed
    requires Built(r, processed, d, done) && Planned(r.source, d + [name]) == Some(dest)
    modifies r
    ensures r.source == old(r.source)
    ensures ok <==> name !in done
    ensures Built(r, processed, d, done + {name})
  {
    hide Planned, IsDir, HasOverlay, OverlayOf;
    var p := d + [name];
    ChildPath(d, name);
    NotBehindLink(r, processed, d, done, name);
    PlannedIsNoDir(r.source, p);
    DirPrefixes(OverlayOf(r.source), d, name);
    assert forall q | q != [] && q != p && Front(q) == d :: Final(q) != name by {
      forall q | q != [] && q != p && Front(q) == d ensures Final(q) != name {
        PathOfChild(q);
      }
    }
    FilledStep(r.links, r.dirs, p, dest);
    ok := r.Symlink(dest, p);
  }

  lemma DirPrefixes(t: Tree, d: Path, name: string)
    requires IsDir(t, d)
    ensures forall q | q in ProperPrefixes(d + [name]) :: IsDir(t, q)
  {
    forall i | 0 <= i < |d + [name]| ensures IsDir(t, (d + [name])[..i]) {
      assert (d + [name])[..i] == d[..i];
      if i < |d| {
        PrefixIsDir(t, d, i);
      } else {
        assert d[..i] == d;
      }
    }
  }

  // ---- the worklist

  /** Every overlay directory is processed, waiting on the stack, or below one that waits; none twice. */
  ghost predicate Frontier(overlay: Tree, stack: seq<Path>, processed: set<Path>) {
    && (forall i, j | 0 <= i < j < |stack| :: stack[i] != stack[j])
    && (forall p | p in stack :: p !in processed && IsDir(overlay, p))
    && (forall p | p in processed :: IsDir(overlay, p))
    && ([] in processed || [] in stack)
    && (forall p | IsDir(overlay, p) && p != [] && Front(p) in processed :: p in processed || p in stack)
    && (forall p | p != [] && (p in stack || p in processed) :: Front(p) in processed)
  }

  /** The directories pushed while visiting d: its overlay subdirectories, each once. */
  ghost predicate Pushes(overlay: Tree, d: Path, pushed: seq<Path>)
    requires IsDir(overlay, d)
  {
    && (forall i, j | 0 <= i < j < |pushed| :: pushed[i] != pushed[j])
    && (forall p :: p in pushed <==> p != [] && Front(p) == d && IsDir(overlay, p))
  }

  lemma FrontierStep(overlay: Tree, rest: seq<Path>, d: Path, pushed: seq<Path>, processed: set<Path>)
    requires Frontier(overlay, rest + [d], processed) && IsDir(overlay, d) && Pushes(overlay, d, pushed)
    ensures Frontier(overlay, rest + pushed, processed + {d})
  {
    hide IsDir;
    var stack := rest + [d];
    assert stack[|rest|] == d && d in stack;
    assert forall p | p in rest :: p in stack && p != d by {
      forall p | p in rest ensures p in stack && p != d {
        var i :| 0 <= i < |rest| && rest[i] == p;
        assert stack[i] == p;
      }
    }
    forall p | p in pushed ensures p !in processed && p !in stack {
    }
    var stack' := rest + pushed;
    forall i, j | 0 <= i < j < |stack'| ensures stack'[i] != stack'[j] {
      if j < |rest| {
        assert stack[i] == stack'[i] && stack[j] == stack'[j];
      } else if i < |rest| {
        assert stack'[i] in stack && stack'[j] in pushed;
      }
    }
  }

  /** An empty stack means that every overlay directory has been visited. */
  lemma {:induction false} FrontierDone(overlay: Tree, processed: set<Path>, p: Path)
    requires Frontier(overlay, [], processed) && IsDir(overlay, p)
    ensures p in processed
    decreases |p|
  {
    if p != [] {
      PrefixIsDir(overlay, p, |p| - 1);
      FrontierDone(overlay, processed, Front(p));
    }
  }

  lemma ProcessedBound(overlay: Tree, stack: seq<Path>, processed: set<Path>)
    requires Frontier(overlay, stack, processed)
    ensures |processed| <= |Dirs(overlay)|
    ensures stack != [] ==> |processed| < |Dirs(overlay)|
    ensures stack == [] ==> processed == Dirs(overlay)
  {
    forall p ensures p in Dirs(overlay) <==> IsDir(overlay, p) {
      DirsExact(overlay, p);
    }
    assert processed <= Dirs(overlay);
    SubsetSize(processed, Dirs(overlay));
    if stack == [] {
      forall p | p in Dirs(overlay) ensures p in processed {
        FrontierDone(overlay, processed, p);
      }
    } else {
      assert stack[0] in stack;
      SubsetSize(processed, Dirs(overlay) - {stack[0]});
    }
  }

  lemma {:induction false} SubsetSize<T>(a: set<T>, b: set<T>)
    requires a <= b
    ensures |a| <= |b|
  {
    if a != {} {
      var x :| x in a;
      SubsetSize(a - {x}, b - {x});
    }
  }

  lemma PlannedInOverlay(source: Tree, d: Path, name: string)
    requires HasOverlay(source) && IsDir(OverlayOf(source), d) && name in ChildrenAt(OverlayOf(source), d)
    ensures Planned(source, d + [name])
      == if ChildrenAt(OverlayOf(source), d)[name].File? then Some(OVERLAY + (d + [name])) else None
  {
    ChildPath(d, name);
  }

  lemma PlannedInSource(source: Tree, d: Path, name: string)
    requires HasOverlay(source) && IsDir(OverlayOf(source), d) && IsDir(source, d)
    requires name !in ChildrenAt(OverlayOf(source), d)
    ensures Planned(source, d + [name]) == if name in ChildrenAt(source, d) then Some(d + [name]) else None
  {
    ChildPath(d, name);
    AtChild(source, d, name);
  }

  /** A name for which no link is planned needs no work. */
  lemma BuiltSkip(r: Repository, processed: set<Path>, d: Path, done: set<string>, name: string)
    requires HasOverlay(r.source) && Built(r, processed, d, done) && Planned(r.source, d + [name]).None?
    ensures Built(r, processed, d, done + {name})
  {
    hide Planned, IsDir, HasOverlay, OverlayOf;
    forall p | p != [] && Front(p) == d && Final(p) == name ensures p == d + [name] {
      PathOfChild(p);
    }
  }

  /** The loop over the overlay entries of one directory. */
  method VisitOverlay(r: Repository, d: Path, stack: seq<Path>, ghost processed: set<Path>)
    returns (stack': seq<Path>, overlayDirs: set<string>, ghost pushed: seq<Path>)
    requires HasOverlay(r.source) && IsDir(OverlayOf(r.source), d) && d !in processed
    requires Built(r, processed, d, {})
    modifies r
    ensures r.source == old(r.source)
    ensures stack' == stack + pushed && Pushes(OverlayOf(r.source), d, pushed)
    ensures forall n :: n in overlayDirs <==>
      n in ChildrenAt(OverlayOf(r.source), d) && ChildrenAt(OverlayOf(r.source), d)[n].Dir?
    ensures Built(r, processed, d, ChildrenAt(OverlayOf(r.source), d).Keys)
  {
    hide Planned, Built, IsDir, HasOverlay, OverlayOf, DirNames, PushedFor, Pushes, NameSet, ChildrenAt;
    var children := ChildrenAt(OverlayOf(r.source), d);
    var names := Readdir(children);
    stack', overlayDirs, pushed := stack, {}, [];
    NothingPushed(children, names, d);
    var i := 0;
    while i < |names|
      invariant 0 <= i <= |names| && r.source == old(r.source)
      invariant stack' == stack + pushed
      invariant DirNames(children, names[..i], overlayDirs) && PushedFor(d, overlayDirs, pushed)
      invariant Built(r, processed, d, NameSet(names[..i]))
    {
      var name := names[i];
      ghost var done := NameSet(names[..i]);
      NextName(names, i);
      NextDir(children, names, i, overlayDirs);
      PlannedInOverlay(r.source, d, name);
      if children[name].Dir? {
        BuiltSkip(r, processed, d, done, name);
        PushOne(d, overlayDirs, pushed, name);
        stack' := stack' + [d + [name]];
        pushed := pushed + [d + [name]];
        overlayDirs := overlayDirs + {name};
      } else {
        var _ := LinkEntry(r, OVERLAY + (d + [name]), d, name, processed, done);
      }
      i := i + 1;
    }
    AllNames(children, names);
    PushedDirs(OverlayOf(r.source), d, names, overlayDirs, pushed);
  }

  lemma NextName(names: seq<string>, i: nat)
    requires i < |names| && forall k, l | 0 <= k < l < |names| :: names[k] != names[l]
    ensures names[i] in names && names[i] !in names[..i] && names[i] !in NameSet(names[..i])
    ensures NameSet(names[..i + 1]) == NameSet(names[..i]) + {names[i]}
    ensures forall n :: n in names[..i + 1] <==> n in names[..i] || n == names[i]
  {
    assert names[..i + 1] == names[..i] + [names[i]];
  }

  ghost predicate DirNames(children: map<string, Tree>, names: seq<string>, dirs: set<string>) {
    forall n :: n in dirs <==> n in names && n in children && children[n].Dir?
  }

  /** One path for each of the directories, which all lie in d. */
  ghost predicate PushedFor(d: Path, dirs: set<string>, pushed: seq<Path>) {
    && (forall k, l | 0 <= k < l < |pushed| :: pushed[k] != pushed[l])
    && (forall p :: p in pushed <==> p != [] && Front(p) == d && Final(p) in dirs)
  }

  lemma NothingPushed(children: map<string, Tree>, names: seq<string>, d: Path)
    ensures DirNames(children, names[..0], {}) && PushedFor(d, {}, []) && NameSet(names[..0]) == {}
  {
  }

  lemma AllNames(children: map<string, Tree>, names: seq<string>)
    requires forall n :: n in names <==> n in children
    ensures names[..|names|] == names && NameSet(names) == children.Keys
  {
  }

  lemma NextDir(children: map<string, Tree>, names: seq<string>, i: nat, dirs: set<string>)
    requires i < |names| && names[i] in children && forall k, l | 0 <= k < l < |names| :: names[k] != names[l]
    requires DirNames(children, names[..i], dirs)
    ensures names[i] !in dirs
    ensures DirNames(children, names[..i + 1], if children[names[i]].Dir? then dirs + {names[i]} else dirs)
  {
    NextName(names, i);
  }

  lemma PushOne(d: Path, dirs: set<string>, pushed: seq<Path>, name: string)
    requires PushedFor(d, dirs, pushed) && name !in dirs
    ensures PushedFor(d, dirs + {name}, pushed + [d + [name]])
  {
    ChildPath(d, name);
    forall p | p != [] && Front(p) == d && Final(p) == name ensures p == d + [name] {
      PathOfChild(p);
    }
  }

  lemma PushedDirs(overlay: Tree, d: Path, names: seq<string>, overlayDirs: set<string>, pushed: seq<Path>)
    requires IsDir(overlay, d) && (forall n :: n in names <==> n in ChildrenAt(overlay, d))
    requires DirNames(ChildrenAt(overlay, d), names, overlayDirs) && PushedFor(d, overlayDirs, pushed)
    ensures Pushes(overlay, d, pushed)
    ensures forall n :: n in overlayDirs <==> n in ChildrenAt(overlay, d) && ChildrenAt(overlay, d)[n].Dir?
  {
    forall p | p != [] && Front(p) == d ensures Final(p) in overlayDirs <==> IsDir(overlay, p) {
      PathOfChild(p);
      AtChild(overlay, d, Final(p));
    }
  }

  /** The loop over the source entries of one directory; it stops at a name the overlay already holds. */
  method VisitSource(r: Repository, d: Path, overlayDirs: set<string>, ghost processed: set<Path>) returns (ok: bool)
    requires HasOverlay(r.source) && IsDir(OverlayOf(r.source), d) && IsDir(r.source, d) && d !in processed
    requires forall n :: n in overlayDirs <==>
      n in ChildrenAt(OverlayOf(r.source), d) && ChildrenAt(OverlayOf(r.source), d)[n].Dir?
    requires Built(r, processed, d, ChildrenAt(OverlayOf(r.source), d).Keys)
    modifies r
    ensures r.source == old(r.source)
    ensures ok <==> CompatibleAt(r.source, d)
    ensures r.touched == {}
    ensures ok ==> Built(r, processed, d, ChildrenAt(OverlayOf(r.source), d).Keys + ChildrenAt(r.source, d).Keys)
  {
    hide Planned, Built, IsDir, HasOverlay, OverlayOf, CompatibleAt, ChildrenAt, NameSet;
    ghost var overlay := ChildrenAt(OverlayOf(r.source), d);
    ghost var source := ChildrenAt(r.source, d);
    var names := Readdir(ChildrenAt(r.source, d));
    assert names[..0] == [] && overlay.Keys + NameSet([]) == overlay.Keys by { AllNames(map[], []); }
    var i := 0;
    while i < |names|
      invariant 0 <= i <= |names| && r.source == old(r.source)
      invariant forall n | n in names[..i] :: n in overlay ==> overlay[n].Dir?
      invariant Built(r, processed, d, overlay.Keys + NameSet(names[..i]))
    {
      var name := names[i];
      ghost var done := overlay.Keys + NameSet(names[..i]);
      NextName(names, i);
      assert done + {name} == overlay.Keys + NameSet(names[..i + 1]);
      if name !in overlayDirs {
        ok := LinkSource(r, d, name, processed, done);
        if !ok {
          NotCompatible(r.source, d, name);
          return;
        }
      } else {
        assert done + {name} == done;
      }
      i := i + 1;
    }
    AllNames(source, names);
    CompatibleThere(r.source, d);
    Untouched(r, processed, d, overlay.Keys + source.Keys);
    ok := true;
  }

  lemma Untouched(r: Repository, processed: set<Path>, d: Path, done: set<string>)
    requires HasOverlay(r.source) && Built(r, processed, d, done)
    ensures r.touched == {}
  {
  }

  lemma NotCompatible(source: Tree, d: Path, name: string)
    requires HasOverlay(source) && IsDir(OverlayOf(source), d) && IsDir(source, d) && name in ChildrenAt(source, d)
    requires name in ChildrenAt(OverlayOf(source), d) && ChildrenAt(OverlayOf(source), d)[name].File?
    ensures !CompatibleAt(source, d)
  {
  }

  lemma CompatibleThere(source: Tree, d: Path)
    requires HasOverlay(source) && IsDir(OverlayOf(source), d) && IsDir(source, d)
    requires forall n | n in ChildrenAt(source, d) ::
      n in ChildrenAt(OverlayOf(source), d) ==> ChildrenAt(OverlayOf(source), d)[n].Dir?
    ensures CompatibleAt(source, d)
  {
  }

  /** One symlink call for a source entry; it fails where an overlay file of that name is linked already. */
  method LinkSource(r: Repository, d: Path, name: string, ghost processed: set<Path>, ghost done: set<string>)
    returns (ok: bool)
    requires HasOverlay(r.source) && IsDir(OverlayOf(r.source), d) && IsDir(r.source, d) && d !in processed
    requires Built(r, processed, d, done) && name in ChildrenAt(r.source, d)
    requires var beside := ChildrenAt(OverlayOf(r.source), d);
      beside.Keys <= done && (name in done <==> name in beside) && (name in beside ==> beside[name].File?)
    modifies r
    ensures r.source == old(r.source)
    ensures ok <==> name !in ChildrenAt(OverlayOf(r.source), d)
    ensures r.touched == {}
    ensures ok ==> Built(r, processed, d, done + {name})
  {
    hide Planned, IsDir, HasOverlay, OverlayOf;
    ghost var beside := ChildrenAt(OverlayOf(r.source), d);
    var p := d + [name];
    ChildPath(d, name);
    NotBehindLink(r, processed, d, done, name);
    DirPrefixes(OverlayOf(r.source), d, name);
    if name in beside {
      PlannedInOverlay(r.source, d, name);
    } else {
      PlannedInSource(r.source, d, name);
      PlannedIsNoDir(r.source, p);
    }
    forall q | q != [] && q != p && Front(q) == d ensures Final(q) != name {
      PathOfChild(q);
    }
    FilledStep(r.links, r.dirs, p, p);
    ok := r.Symlink(p, p);
  }

  lemma SuccessExact(source: Tree, processed: set<Path>, limit: nat)
    requires HasOverlay(source) && Frontier(OverlayOf(source), [], processed)
    requires |processed| <= limit && forall d | d in processed :: IsDir(OverlayOf(source), d) && CompatibleAt(source, d)
    ensures |Dirs(OverlayOf(source))| <= limit && Compatible(source) && processed == Dirs(OverlayOf(source))
  {
    hide CompatibleAt, Dirs, IsDir;
    ProcessedBound(OverlayOf(source), [], processed);
    forall d | IsDir(OverlayOf(source), d) ensures CompatibleAt(source, d) {
      FrontierDone(OverlayOf(source), processed, d);
    }
  }

  lemma BuiltNext(r: Repository, processed: set<Path>, d: Path)
    requires HasOverlay(r.source) && IsDir(OverlayOf(r.source), d) && IsDir(r.source, d)
    requires Built(r, processed, d, ChildrenAt(OverlayOf(r.source), d).Keys + ChildrenAt(r.source, d).Keys)
    ensures Built(r, processed + {d}, [], {})
  {
    forall p | p != [] && Front(p) == d && Planned(r.source, p).Some?
      ensures Final(p) in ChildrenAt(OverlayOf(r.source), d).Keys + ChildrenAt(r.source, d).Keys
    {
      PathOfChild(p);
      AtChild(r.source, d, Final(p));
    }
  }

  lemma BuiltAnyDirectory(r: Repository, processed: set<Path>, d: Path, d': Path)
    requires HasOverlay(r.source) && Built(r, processed, d, {})
    ensures Built(r, processed, d', {})
  {
  }

  /** The farm is built exactly when the overlay and the source are compatible and the overlay has no
      more directories than the bound; and the source is never written through a link. */
  method SymlinkSourceAndOverlay(r: Repository) returns (ok: bool)
    requires HasOverlay(r.source)
    requires r.links == map[] && r.dirs == {} && r.files == map[] && r.touched == {}
    modifies r
    ensures r.source == old(r.source)
    ensures ok <==> Compatible(r.source) && |Dirs(OverlayOf(r.source))| <= 1000000
    ensures r.touched == {}
    ensures ok ==> Built(r, Dirs(OverlayOf(r.source)), [], {})
  {
    hide Planned, CompatibleAt, Dirs, IsDir, HasOverlay, OverlayOf, Frontier;
    ghost var overlay := OverlayOf(r.source);
    var stack: seq<Path> := [[]];
    ghost var processed: set<Path> := {};
    FrontierInitial(r.source);
    for i := 0 to MAX_OVERLAY_DIRECTORIES
      invariant |processed| == i && stack != [] && r.source == old(r.source)
      invariant Frontier(overlay, stack, processed)
      invariant forall d | d in processed :: IsDir(overlay, d) && CompatibleAt(r.source, d)
      invariant Built(r, processed, [], {})
    {
      var d, rest := stack[|stack| - 1], stack[..|stack| - 1];
      assert stack == rest + [d];
      FrontierTop(overlay, rest, d, processed);
      BuiltAnyDirectory(r, processed, [], d);
      var overlayDirs;
      ghost var pushed;
      stack, overlayDirs, pushed := VisitOverlay(r, d, rest, processed);
      FrontierStep(overlay, rest, d, pushed, processed);
      if !IsDir(r.source, d) {
        Incompatible(r.source, d);
        return false;
      }
      ok := VisitSource(r, d, overlayDirs, processed);
      if !ok {
        return false;
      }
      BuiltNext(r, processed, d);
      processed := processed + {d};
      if stack == [] {
        SuccessExact(r.source, processed, MAX_OVERLAY_DIRECTORIES);
        return true;
      }
    }
    ProcessedBound(overlay, stack, processed);
    ok := false;
  }

  lemma FrontierInitial(source: Tree)
    requires HasOverlay(source)
    ensures Frontier(OverlayOf(source), [[]], {})
  {
  }

  lemma FrontierTop(overlay: Tree, rest: seq<Path>, d: Path, processed: set<Path>)
    requires Frontier(overlay, rest + [d], processed)
    ensures IsDir(overlay, d) && d !in processed
  {
    assert (rest + [d])[|rest|] == d;
  }

  lemma Incompatible(source: Tree, d: Path)
    requires HasOverlay(source) && IsDir(OverlayOf(source), d) && !IsDir(source, d)
    ensures !Compatible(source)
  {
    assert !CompatibleAt(source, d);
  }

  // ---- the view through the links

  ghost predicate Farm(r: Repository)
    requires HasOverlay(r.source)
    reads r
  {
    Compatible(r.source) && Built(r, Dirs(OverlayOf(r.source)), [], {})
  }

  lemma FarmLinks(r: Repository, p: Path)
    requires HasOverlay(r.source) && Farm(r)
    ensures p in r.links <==> Planned(r.source, p).Some?
    ensures p in r.links ==> Planned(r.source, p) == Some(r.links[p])
  {
    hide Dirs, IsDir, Compatible, HasOverlay;
    if Planned(r.source, p).Some? {
      DirsExact(OverlayOf(r.source), Front(p));
    }
  }

  lemma {:induction false} NothingBelow(r: Repository, p: Path, i: nat, j: nat)
    requires HasOverlay(r.source) && Farm(r)
    requires i < j <= |p| && !IsDir(OverlayOf(r.source), p[..i]) && r.files == map[]
    ensures r.ViewFrom(p, j) == None
    decreases |p| - j
  {
    hide Farm, HasOverlay, Planned;
    FarmLinks(r, p[..j]);
    NotPlannedBelow(r.source, p, i, j);
    if j < |p| {
      NothingBelow(r, p, i, j + 1);
    }
  }

  lemma NotPlannedBelow(source: Tree, p: Path, i: nat, j: nat)
    requires HasOverlay(source) && i < j <= |p| && !IsDir(OverlayOf(source), p[..i])
    ensures Planned(source, p[..j]).None?
  {
    var d := p[..j - 1];
    assert Front(p[..j]) == d && d[..i] == p[..i];
    if IsDir(OverlayOf(source), d) && i < |d| {
      PrefixIsDir(OverlayOf(source), d, i);
    }
  }

  lemma PlannedBelowDir(source: Tree, p: Path)
    requires HasOverlay(source) && Planned(source, p).Some?
    ensures p != [] && IsDir(OverlayOf(source), Front(p))
  {
  }

  lemma MergeAt(overlay: Tree, source: Tree, p: Path)
    requires overlay.Dir? && source.Dir? && p != []
    ensures var n := p[0];
      FileAt(Merge(overlay, source), p) ==
        if n in overlay.children && n in source.children then
          FileAt(Merge(overlay.children[n], source.children[n]), p[1..])
        else if n in overlay.children then FileAt(overlay.children[n], p[1..])
        else if n in source.children then FileAt(source.children[n], p[1..])
        else None
  {
  }

  /** Where the overlay has an entry it alone decides; below a file of the overlay there is nothing; everywhere
      else the source decides. */
  lemma {:induction false} MergeExact(overlay: Tree, source: Tree, p: Path)
    ensures At(overlay, p).Some? ==> FileAt(Merge(overlay, source), p) == FileAt(overlay, p)
    ensures At(overlay, p).None? && (exists i | 0 <= i < |p| :: FileAt(overlay, p[..i]).Some?)
      ==> FileAt(Merge(overlay, source), p).None?
    ensures At(overlay, p).None? && (forall i | 0 <= i < |p| :: FileAt(overlay, p[..i]).None?)
      ==> FileAt(Merge(overlay, source), p) == FileAt(source, p)
    decreases |p|
  {
    hide Merge;
    if overlay.File? || source.File? {
      MergeOfFile(overlay, source, p);
    } else if p == [] {
      MergeOfDirs(overlay, source);
    } else {
      MergeAt(overlay, source, p);
      var n, rest := p[0], p[1..];
      FilesAbove(overlay, p);
      if n in overlay.children && n in source.children {
        MergeExact(overlay.children[n], source.children[n], rest);
      }
    }
  }

  lemma MergeOfFile(overlay: Tree, source: Tree, p: Path)
    requires overlay.File? || source.File?
    ensures Merge(overlay, source) == overlay
    ensures source.File? && p != [] ==> FileAt(source, p).None?
    ensures overlay.File? && p != [] ==> p[..0] == [] && FileAt(overlay, p[..0]).Some? && FileAt(overlay, p).None?
    ensures At(overlay, []) == Some(overlay)
  {
  }

  /** The files on the way to p, told by its first name. */
  lemma FilesAbove(overlay: Tree, p: Path)
    requires overlay.Dir? && p != []
    ensures p[0] !in overlay.children ==> forall i | 0 <= i < |p| :: FileAt(overlay, p[..i]).None?
    ensures p[0] in overlay.children ==>
      ((exists i | 0 <= i < |p| :: FileAt(overlay, p[..i]).Some?)
       <==> (exists i | 0 <= i < |p[1..]| :: FileAt(overlay.children[p[0]], p[1..][..i]).Some?))
  {
    assert FileAt(overlay, p[..0]).None?;
    forall i | 0 < i < |p|
      ensures FileAt(overlay, p[..i])
        == if p[0] in overlay.children then FileAt(overlay.children[p[0]], p[1..][..i - 1]) else None
    {
      assert p[..i][0] == p[0] && p[..i][1..] == p[1..][..i - 1];
    }
    if p[0] in overlay.children {
      var t, q := overlay.children[p[0]], p[1..];
      if i :| 0 <= i < |q| && FileAt(t, q[..i]).Some? {
        assert FileAt(overlay, p[..i + 1]) == FileAt(t, q[..i + 1 - 1]);
      }
    }
  }

  /** From an overlay directory on, the target resolves as the merge of the two directories does. */
  lemma {:induction false} ViewFromDir(r: Repository, p: Path, i: nat)
    requires HasOverlay(r.source) && Farm(r) && i <= |p| && IsDir(OverlayOf(r.source), p[..i])
    ensures IsDir(r.source, p[..i])
    ensures r.ViewFrom(p, i)
      == FileAt(Merge(At(OverlayOf(r.source), p[..i]).value, At(r.source, p[..i]).value), p[i..])
    decreases |p| - i
  {
    hide Farm, Planned, HasOverlay, Merge;
    var overlay, d := OverlayOf(r.source), p[..i];
    FarmCompatible(r, d);
    FarmLinks(r, d);
    if Planned(r.source, d).Some? {
      PlannedIsNoDir(r.source, d);
    }
    if i == |p| {
      assert p[i..] == [];
      MergeOfDirs(At(overlay, d).value, At(r.source, d).value);
    } else {
      var n, q, rest := p[i], p[..i + 1], p[i + 1..];
      assert q == d + [n] && p[i..][0] == n && p[i..][1..] == rest;
      MergeAt(At(overlay, d).value, At(r.source, d).value, p[i..]);
      AtChild(overlay, d, n);
      AtChild(r.source, d, n);
      if IsDir(overlay, q) {
        ViewFromDir(r, p, i + 1);
      } else {
        ViewOfEntry(r, p, i);
      }
    }
  }

  lemma FarmCompatible(r: Repository, d: Path)
    requires HasOverlay(r.source) && Farm(r) && IsDir(OverlayOf(r.source), d)
    ensures CompatibleAt(r.source, d) && r.files == map[]
  {
  }

  lemma MergeOfDirs(overlay: Tree, source: Tree)
    requires overlay.Dir? && source.Dir?
    ensures Merge(overlay, source).Dir?
  {
  }

  /** Below an overlay directory, at a name that is not an overlay directory itself. */
  lemma ViewOfEntry(r: Repository, p: Path, i: nat)
    requires HasOverlay(r.source) && Farm(r) && i < |p|
    requires IsDir(OverlayOf(r.source), p[..i]) && IsDir(r.source, p[..i]) && !IsDir(OverlayOf(r.source), p[..i + 1])
    requires CompatibleAt(r.source, p[..i]) && r.files == map[]
    ensures var beside, below := ChildrenAt(OverlayOf(r.source), p[..i]), ChildrenAt(r.source, p[..i]);
      p[i] in beside ==> p[i] !in below
    ensures var beside, below := ChildrenAt(OverlayOf(r.source), p[..i]), ChildrenAt(r.source, p[..i]);
      r.ViewFrom(p, i + 1) ==
        if p[i] in beside then FileAt(beside[p[i]], p[i + 1..])
        else if p[i] in below then FileAt(below[p[i]], p[i + 1..])
        else None
  {
    hide Farm, HasOverlay, Planned;
    var overlay, d, n, q, rest := OverlayOf(r.source), p[..i], p[i], p[..i + 1], p[i + 1..];
    assert q == d + [n];
    AtChild(overlay, d, n);
    AtChild(r.source, d, n);
    FarmLinks(r, q);
    if n in ChildrenAt(overlay, d) {
      PlannedInOverlay(r.source, d, n);
      AtOverlay(r.source, q);
      AtConcat(r.source, OVERLAY + q, rest);
    } else {
      PlannedInSource(r.source, d, n);
      if n in ChildrenAt(r.source, d) {
        AtConcat(r.source, q, rest);
      } else if i + 1 < |p| {
        NothingBelow(r, p, i + 1, i + 2);
      }
    }
  }

  lemma AtOverlay(source: Tree, q: Path)
    requires HasOverlay(source)
    ensures At(source, OVERLAY + q) == At(OverlayOf(source), q)
  {
    AtConcat(source, OVERLAY, q);
  }

  /** At every path the target opens the file that the overlay laid over the source has there. */
  lemma ViewIsMerge(r: Repository, p: Path)
    requires HasOverlay(r.source) && Farm(r)
    ensures r.View(p) == FileAt(Merge(OverlayOf(r.source), r.source), p)
  {
    hide Farm, Merge;
    assert p[..0] == [] && p[0..] == p;
    ViewFromDir(r, p, 0);
  }

  /** No link stands below another, so nothing the rules create is reached through a link. */
  lemma LinksAreApart(r: Repository, p: Path)
    requires HasOverlay(r.source) && Farm(r) && p in r.links
    ensures !BehindLink(r.links, p)
  {
    hide Farm, Planned, HasOverlay;
    FarmLinks(r, p);
    PlannedBelowDir(r.source, p);
    forall i | 0 <= i < |p| ensures p[..i] !in r.links {
      FarmLinks(r, p[..i]);
      if i < |p| - 1 {
        PrefixIsDir(OverlayOf(r.source), Front(p), i);
        assert Front(p)[..i] == p[..i];
      }
      if p[..i] in r.links {
        PlannedIsNoDir(r.source, p[..i]);
      }
    }
  }

  // ---- replacing a linked directory by a directory of links

  /** links' is links with everything at or below dir replaced by one link for each child of the
      source directory dir. */
  ghost predicate Replaced(source: Tree, links: map<Path, Path>, links': map<Path, Path>, dir: Path, done: set<string>) {
    && (forall p :: p in links' <==>
          (p in links && !(dir <= p)) || (p != [] && Front(p) == dir && Final(p) in done))
    && (forall p | p in links' :: links'[p] == if dir <= p then p else links[p])
  }

  lemma {:induction false} OpenUnchanged(source: Tree, links: map<Path, Path>, links': map<Path, Path>,
                                         files: map<Path, string>, files': map<Path, string>, p: Path, i: nat)
    requires i <= |p|
    requires forall j | i <= j <= |p| :: p[..j] in links <==> p[..j] in links'
    requires forall j | i <= j <= |p| && p[..j] in links :: links[p[..j]] == links'[p[..j]]
    requires p in files <==> p in files'
    requires p in files ==> files[p] == files'[p]
    ensures Open(source, links, files, p, i) == Open(source, links', files', p, i)
    decreases |p| - i
  {
    assert p[..|p|] == p;
    if i < |p| && p[..i] !in links {
      OpenUnchanged(source, links, links', files, files', p, i + 1);
    }
  }

  /** Links that are not met do not matter. */
  lemma {:induction false} OpenSkips(source: Tree, links: map<Path, Path>, files: map<Path, string>, p: Path, i: nat, k: nat)
    requires i <= k <= |p| && forall j | i <= j < k :: p[..j] !in links
    ensures Open(source, links, files, p, i) == Open(source, links, files, p, k)
    decreases k - i
  {
    if i < k {
      OpenSkips(source, links, files, p, i + 1, k);
    }
  }

  lemma ReplacedOutside(source: Tree, links: map<Path, Path>, links': map<Path, Path>, dir: Path, done: set<string>,
                        files: map<Path, string>, p: Path)
    requires Replaced(source, links, links', dir, done) && !(dir <= p)
    ensures Open(source, links', files, p, 0) == Open(source, links, files, p, 0)
  {
    forall j | 0 <= j <= |p| ensures !(dir <= p[..j]) && !(p[..j] != [] && Front(p[..j]) == dir) {
      assert dir <= p[..j] ==> dir <= p;
      assert p[..j] != [] && Front(p[..j]) == dir ==> dir <= p;
    }
    OpenUnchanged(source, links', links, files, files, p, 0);
  }

  lemma ReplacedInside(source: Tree, links: map<Path, Path>, links': map<Path, Path>, dir: Path, p: Path)
    requires IsDir(source, dir) && Replaced(source, links, links', dir, ChildrenAt(source, dir).Keys)
    requires dir <= p && !BehindLink(links, dir)
    ensures Open(source, links', map[], p, 0) == FileAt(source, p)
  {
    var k := |dir|;
    assert p[..k] == dir && p == dir + p[k..];
    forall j | 0 <= j <= k ensures p[..j] !in links' {
      assert p[..j] == dir[..j];
      if j < k {
        assert dir[..j] !in links;
        assert !(dir <= dir[..j]);
      } else {
        assert dir[..j] == dir;
      }
    }
    if k == |p| {
      assert p == dir;
      OpenSkips(source, links', map[], p, 0, k);
    } else {
      var q := p[..k + 1];
      assert q == dir + [p[k]] && p == q + p[k + 1..];
      ChildPath(dir, p[k]);
      assert p[..k + 1] == q;
      OpenSkips(source, links', map[], p, 0, k + 1);
      AtChild(source, dir, p[k]);
      AtConcat(source, q, p[k + 1..]);
      if q !in links' {
        forall j | k + 1 <= j <= |p| ensures p[..j] !in links' {
          assert dir <= p[..j];
          if j > k + 1 {
            assert |Front(p[..j])| == j - 1 != |dir|;
          }
        }
        OpenSkips(source, links', map[], p, k + 1, |p|);
      }
    }
  }

  /** Deletes dir and fills it with links to the children of the source directory of that name. */
  method ReplaceDirectory(r: Repository, dir: Path) returns (ok: bool)
    requires dir != [] && !BehindLink(r.links, dir) && r.files == map[] && Sound(r)
    modifies r
    ensures r.source == old(r.source) && Sound(r)
    ensures ok <==> IsDir(r.source, dir)
    ensures r.touched == old(r.touched) && r.files == map[]
    ensures ok ==> Replaced(r.source, old(r.links), r.links, dir, ChildrenAt(r.source, dir).Keys)
    ensures ok && ChildrenAt(r.source, dir) != map[] ==> dir in r.dirs
    ensures forall p | p in old(r.dirs) && !(dir <= p) :: p in r.dirs
    ensures forall p | p in r.dirs && !(p <= dir) && !(dir <= p) :: p in old(r.dirs)
    ensures forall p | p in r.dirs && dir <= p :: p == dir
  {
    hide IsDir, BehindFile;
    DeleteKeepsSound(r.links, r.dirs, dir);
    r.Delete(dir);
    if !IsDir(r.source, dir) {
      return false;
    }
    var children := ChildrenAt(r.source, dir);
    var names := Readdir(children);
    ghost var links := old(r.links);
    var i := 0;
    while i < |names|
      invariant 0 <= i <= |names| && r.source == old(r.source) && Sound(r)
      invariant r.touched == old(r.touched) && r.files == map[]
      invariant Replaced(r.source, links, r.links, dir, NameSet(names[..i]))
      invariant i > 0 ==> dir in r.dirs
      invariant forall p | p in r.dirs && dir <= p :: p == dir
      invariant forall p | p in old(r.dirs) && !(dir <= p) :: p in r.dirs
      invariant forall p | p in r.dirs && !(p <= dir) && !(dir <= p) :: p in old(r.dirs)
    {
      NextName(names, i);
      LinkChild(r, dir, names[i], links, NameSet(names[..i]));
      i := i + 1;
    }
    assert names[..i] == names;
    assert NameSet(names) == children.Keys;
    ok := true;
  }

  lemma DeleteKeepsSound(links: map<Path, Path>, dirs: set<Path>, dir: Path)
    requires forall q | q in links :: ProperPrefixes(q) <= dirs
    ensures forall q | q in links && !(dir <= q) :: ProperPrefixes(q) <= set p | p in dirs && !(dir <= p)
  {
    forall q, p | q in links && !(dir <= q) && p in ProperPrefixes(q) ensures p in dirs && !(dir <= p) {
      assert p <= q;
      assert dir <= p ==> dir <= q;
    }
  }

  method LinkChild(r: Repository, dir: Path, name: string, ghost links: map<Path, Path>, ghost done: set<string>)
    requires dir != [] && !BehindLink(links, dir) && r.files == map[] && name !in done
    requires Replaced(r.source, links, r.links, dir, done)
    requires Sound(r) && forall p | p in r.dirs && dir <= p :: p == dir
    modifies r
    ensures r.source == old(r.source) && Sound(r)
    ensures forall p | p in r.dirs && !(p <= dir) :: p in old(r.dirs)
    ensures r.touched == old(r.touched) && r.files == map[]
    ensures Replaced(r.source, links, r.links, dir, done + {name})
    ensures dir in r.dirs && forall p | p in old(r.dirs) :: p in r.dirs
    ensures forall p | p in r.dirs && dir <= p :: p == dir
  {
    var q := dir + [name];
    ChildPath(dir, name);
    assert q[..|dir|] == dir && dir <= q;
    forall j | 0 <= j < |q| ensures q[..j] !in r.links {
      assert q[..j] == dir[..j];
      assert dir <= dir[..j] ==> j == |dir|;
      if j < |dir| {
        assert dir[..j] !in links;
      } else {
        assert dir[..j] == dir;
      }
    }
    forall p | p != [] && p != q && Front(p) == dir ensures Final(p) != name {
      PathOfChild(p);
    }
    assert q !in r.links && q !in r.dirs;
    var ok := r.Symlink(q, q);
    assert dir in ProperPrefixes(q);
    forall p | p in ProperPrefixes(q) ensures p <= dir {
      assert q[..|p|] == dir[..|p|];
    }
  }

  const UTILS: Path := ["utils"]
  const BAZEL: Path := ["utils", "bazel"]
  const THIRD_PARTY_BUILD: Path := ["utils", "bazel", "third_party_build"]

  lemma ReplacedView(r: Repository, links: map<Path, Path>, dir: Path, p: Path)
    requires IsDir(r.source, dir) && Replaced(r.source, links, r.links, dir, ChildrenAt(r.source, dir).Keys)
    requires !BehindLink(links, dir) && r.files == map[]
    ensures r.View(p) == if dir <= p then FileAt(r.source, p) else Open(r.source, links, map[], p, 0)
  {
    hide Replaced, IsDir;
    if dir <= p {
      ReplacedInside(r.source, links, r.links, dir, p);
    } else {
      ReplacedOutside(r.source, links, r.links, dir, ChildrenAt(r.source, dir).Keys, map[], p);
    }
  }

  /** After dir is replaced, neither dir nor anything above it is a link. */
  lemma ReplacedAbove(source: Tree, links: map<Path, Path>, links': map<Path, Path>, dir: Path, done: set<string>, name: string)
    requires Replaced(source, links, links', dir, done) && !BehindLink(links, dir)
    ensures !BehindLink(links', dir + [name])
  {
    forall j | 0 <= j < |dir + [name]| ensures (dir + [name])[..j] !in links' {
      assert (dir + [name])[..j] == dir[..j];
      if j < |dir| {
        assert dir[..j] !in links && !(dir <= dir[..j]);
      } else {
        assert dir[..j] == dir;
      }
    }
  }

  lemma {:induction false} LandingAtEnd(links: map<Path, Path>, p: Path, i: nat)
    requires i <= |p| && forall j | i <= j < |p| :: p[..j] !in links
    ensures Landing(links, p, i) == if p in links then Some(links[p]) else None
    decreases |p| - i
  {
    if i < |p| {
      LandingAtEnd(links, p, i + 1);
    } else {
      assert p[..i] == p && p[i..] == [];
      assert p in links ==> links[p] + [] == links[p];
    }
  }

  lemma ReplacedExists(r: Repository, links: map<Path, Path>, dir: Path, name: string)
    requires IsDir(r.source, dir) && Replaced(r.source, links, r.links, dir, ChildrenAt(r.source, dir).Keys)
    requires !BehindLink(r.links, dir + [name]) && r.files == map[] && forall p | p in r.dirs && dir <= p :: p == dir
    ensures r.Exists(dir + [name]) <==> name in ChildrenAt(r.source, dir)
  {
    hide IsDir;
    var p := dir + [name];
    ChildPath(dir, name);
    LandingAtEnd(r.links, p, 0);
    AtChild(r.source, dir, name);
    assert dir <= p && p != dir;
  }

  /** utils, utils/bazel and utils/bazel/third_party_build become real directories, top down.  Below
      utils the target then opens what the source has; elsewhere nothing changes; and the source is not
      touched, because each directory is replaced before anything is made inside it. */
  method MaterializeThirdPartyBuild(r: Repository) returns (ok: bool)
    requires HasOverlay(r.source) && [] !in r.links && r.files == map[] && Sound(r) && Natural(r.links)
    modifies r
    ensures r.source == old(r.source) && Sound(r)
    ensures ok ==> Natural(r.links) && [] !in r.links
    ensures ok ==> OutsideUtils(old(r.links), old(r.dirs), r.links, r.dirs)
    ensures ok <==> IsDir(r.source, THIRD_PARTY_BUILD)
    ensures r.touched == old(r.touched) && r.files == map[]
    ensures ok ==> forall p :: r.View(p) == if UTILS <= p then FileAt(r.source, p) else old(r.View(p))
    ensures ok ==> UTILS in r.dirs && BAZEL in r.dirs
    ensures ok && ChildrenAt(r.source, THIRD_PARTY_BUILD) != map[] ==> THIRD_PARTY_BUILD in r.dirs
    ensures ok ==> forall name :: !BehindLink(r.links, THIRD_PARTY_BUILD + [name])
    ensures ok ==> forall name :: r.Exists(THIRD_PARTY_BUILD + [name]) <==> name in ChildrenAt(r.source, THIRD_PARTY_BUILD)
  {
    hide IsDir, Replaced, ChildrenAt, HasOverlay;
    UtilsDirs(r.source);
    ghost var links0 := r.links;
    assert UTILS[..0] == [];
    assert !BehindLink(r.links, UTILS);
    ghost var dirs0 := r.dirs;
    ok := ReplaceDirectory(r, UTILS);
    ghost var links1, dirs1 := r.links, r.dirs;
    UtilsOnly(r.source, links0, dirs0, links1, dirs1, UTILS, ChildrenAt(r.source, UTILS).Keys);
    ReplacedAbove(r.source, links0, links1, UTILS, ChildrenAt(r.source, UTILS).Keys, "bazel");
    assert UTILS + ["bazel"] == BAZEL;
    forall p ensures r.View(p) == if UTILS <= p then FileAt(r.source, p) else old(r.View(p)) {
      ReplacedView(r, links0, UTILS, p);
    }
    ok := ReplaceDirectory(r, BAZEL);
    ghost var links2, dirs2 := r.links, r.dirs;
    UtilsOnly(r.source, links1, dirs1, links2, dirs2, BAZEL, ChildrenAt(r.source, BAZEL).Keys);
    ReplacedAbove(r.source, links1, links2, BAZEL, ChildrenAt(r.source, BAZEL).Keys, "third_party_build");
    assert BAZEL + ["third_party_build"] == THIRD_PARTY_BUILD;
    forall p ensures r.View(p) == if UTILS <= p then FileAt(r.source, p) else old(r.View(p)) {
      ReplacedView(r, links1, BAZEL, p);
    }
    ok := ReplaceDirectory(r, THIRD_PARTY_BUILD);
    if ok {
      UtilsOnly(r.source, links2, dirs2, r.links, r.dirs, THIRD_PARTY_BUILD, ChildrenAt(r.source, THIRD_PARTY_BUILD).Keys);
      forall name
        ensures !BehindLink(r.links, THIRD_PARTY_BUILD + [name])
        ensures r.Exists(THIRD_PARTY_BUILD + [name]) <==> name in ChildrenAt(r.source, THIRD_PARTY_BUILD)
      {
        ReplacedAbove(r.source, links2, r.links, THIRD_PARTY_BUILD, ChildrenAt(r.source, THIRD_PARTY_BUILD).Keys, name);
        ReplacedExists(r, links2, THIRD_PARTY_BUILD, name);
      }
      forall p ensures r.View(p) == if UTILS <= p then FileAt(r.source, p) else old(r.View(p)) {
        ReplacedView(r, links2, THIRD_PARTY_BUILD, p);
      }
    }
  }

  /** A link leads to the source's entry of the same path, or to the overlay's. */
  ghost predicate Natural(links: map<Path, Path>) {
    forall p | p in links :: links[p] == p || links[p] == OVERLAY + p
  }

  ghost predicate OutsideUtils(links: map<Path, Path>, dirs: set<Path>, links': map<Path, Path>, dirs': set<Path>) {
    forall p | p != [] && p[0] != "utils" ::
      && (p in links' <==> p in links) && (p in links' ==> links'[p] == links[p])
      && (p in dirs' <==> p in dirs)
  }

  lemma UtilsOnly(source: Tree, links: map<Path, Path>, dirs: set<Path>, links': map<Path, Path>, dirs': set<Path>,
                  dir: Path, done: set<string>)
    requires Replaced(source, links, links', dir, done) && Natural(links) && dir != [] && dir[0] == "utils"
    requires forall p | p in dirs && !(dir <= p) :: p in dirs'
    requires forall p | p in dirs' && !(p <= dir) && !(dir <= p) :: p in dirs
    ensures OutsideUtils(links, dirs, links', dirs') && Natural(links')
    ensures [] !in links ==> [] !in links'
  {
    forall p | p != [] && p[0] != "utils"
      ensures (p in links' <==> p in links) && (p in links' ==> links'[p] == links[p])
      ensures p in dirs' <==> p in dirs
    {
      assert !(p <= dir) && !(dir <= p);
      assert Front(p) == dir ==> dir <= p;
    }
  }

  lemma UtilsDirs(source: Tree)
    requires HasOverlay(source)
    ensures IsDir(source, UTILS) && ChildrenAt(source, UTILS) != map[]
    ensures IsDir(source, BAZEL) && ChildrenAt(source, BAZEL) != map[]
  {
    PrefixIsDir(source, OVERLAY, 1);
    PrefixIsDir(source, OVERLAY, 2);
    assert OVERLAY[..1] == UTILS && OVERLAY[..2] == BAZEL;
    assert UTILS + ["bazel"] == BAZEL && BAZEL + ["llvm-project-overlay"] == OVERLAY;
    AtChild(source, UTILS, "bazel");
    AtChild(source, BAZEL, "llvm-project-overlay");
    assert "bazel" in ChildrenAt(source, UTILS);
    assert "llvm-project-overlay" in ChildrenAt(source, BAZEL);
  }

  lemma RewrittenView(source: Tree, links: map<Path, Path>, links': map<Path, Path>, files: map<Path, string>,
                      files': map<Path, string>, path: Path, content: string, p: Path)
    requires !BehindLink(links, path)
    requires forall q :: q in links' <==> q in links && !(path <= q)
    requires forall q | q in links' :: links'[q] == links[q]
    requires forall q :: q in files' <==> q == path || (q in files && !(path <= q))
    requires forall q | q in files' :: files'[q] == if q == path then content else files[q]
    ensures Open(source, links', files', p, 0)
      == if p == path then Some(content) else if path <= p then None else Open(source, links, files, p, 0)
  {
    if path <= p {
      forall j | 0 <= j <= |p| ensures p[..j] !in links' {
        if j < |path| {
          assert p[..j] == path[..j];
          assert path[..j] !in links;
        } else {
          assert path <= p[..j];
        }
      }
      OpenSkips(source, links', files', p, 0, |p|);
      assert p[..|p|] == p;
    } else {
      forall j | 0 <= j <= |p| ensures !(path <= p[..j]) {
        assert path <= p[..j] ==> path <= p;
      }
      OpenUnchanged(source, links', links, files', files, p, 0);
    }
  }
}
