/** The repository rule for a local LLVM checkout, from the link farm to the generated files:
private/llvm_project_from_path.bzl and private/llvm_project_common.bzl. */
module LlvmProject {
  import opened Sequences
  import opened Results
  import opened LinkFarm
  import opened Substitution

  // ---- rewriting a file of the target

  /** At and below a top-level name nothing has changed. */
  ghost predicate Kept(links: map<Path, Path>, dirs: set<Path>, files: set<Path>,
                       links': map<Path, Path>, dirs': set<Path>, files': set<Path>, top: string)
  {
    forall p | p != [] && p[0] == top ::
      && (p in links' <==> p in links) && (p in links' ==> links'[p] == links[p])
      && (p in dirs' <==> p in dirs) && (p in files' <==> p in files)
  }

  lemma KeptTwice(links: map<Path, Path>, dirs: set<Path>, files: set<Path>,
                  links': map<Path, Path>, dirs': set<Path>, files': set<Path>,
                  links'': map<Path, Path>, dirs'': set<Path>, files'': set<Path>, top: string)
    requires Kept(links, dirs, files, links', dirs', files', top)
    requires Kept(links', dirs', files', links'', dirs'', files'', top)
    ensures Kept(links, dirs, files, links'', dirs'', files'', top)
  {
  }

  /** Delete, then write: afterwards the path holds a file of the target's own. */
  method Rewrite(r: Repository, path: Path, content: string)
    requires path != [] && !BehindLink(r.links, path) && !BehindFile(r.files, path) && Sound(r)
    modifies r
    ensures r.touched == old(r.touched) && r.source == old(r.source) && Sound(r)
    ensures forall p :: r.View(p) == if p == path then Some(content) else if path <= p then None else old(r.View(p))
    ensures r.links == map p | p in old(r.links) && !(path <= p) :: old(r.links)[p]
    ensures r.files.Keys == (set p | p in old(r.files) && !(path <= p)) + {path}
    ensures forall top | top != path[0] ::
      Kept(old(r.links), old(r.dirs), old(r.files.Keys), r.links, r.dirs, r.files.Keys, top)
  {
    ghost var links, dirs, files := r.links, r.dirs, r.files;
    r.Delete(path);
    assert !BehindLink(r.links, path) by {
      forall i | 0 <= i < |path| ensures path[..i] !in r.links {
        assert path[..i] !in links;
      }
    }
    assert !BehindFile(r.files, path) by {
      forall i | 0 <= i < |path| ensures path[..i] !in r.files {
        assert path[..i] !in files;
      }
    }
    var ok := r.Write(path, content);
    forall p ensures r.View(p) == if p == path then Some(content) else if path <= p then None else old(r.View(p)) {
      RewrittenView(r.source, links, r.links, files, r.files, path, content, p);
    }
    forall top | top != path[0] ensures Kept(links, dirs, files.Keys, r.links, r.dirs, r.files.Keys, top) {
      KeptByRewrite(links, dirs, files.Keys, r.links, r.dirs, r.files.Keys, path, top);
    }
  }

  lemma KeptByRewrite(links: map<Path, Path>, dirs: set<Path>, files: set<Path>,
                      links': map<Path, Path>, dirs': set<Path>, files': set<Path>, path: Path, top: string)
    requires path != [] && top != path[0]
    requires links' == map p | p in links && !(path <= p) :: links[p]
    requires files' == (set p | p in files && !(path <= p)) + {path}
    requires dirs' == ((set p | p in dirs && !(path <= p)) - {path}) + ProperPrefixes(path)
    ensures Kept(links, dirs, files, links', dirs', files', top)
  {
    forall p | p != [] && p[0] == top ensures !(path <= p) && p !in ProperPrefixes(path) && p != path {
    }
  }

  const IGNORE_FILE: Path := [".bazelignore"]
  const PFM_BUILD: Path := ["utils", "bazel", "third_party_build", "pfm.BUILD"]
  const THIRD_PARTY_BUILD_FILE: Path := ["utils", "bazel", "third_party_build", "BUILD.bazel"]

  const IGNORED_BEFORE := "# Ignore the utils/bazel directory when this is overlayed onto the repo root.\nutils/bazel\n"
  const IGNORED_AFTER := "# Ignore utils/bazel/llvm-project-overlay after merging it into the repository root.\nutils/bazel/llvm-project-overlay\n"
  const EXPORTS := "exports_files([\"pfm.BUILD\"])\n"

  /** The rewritten .bazelignore. */
  function Ignored(content: string): string {
    Substituted(content, IGNORED_BEFORE, IGNORED_AFTER)
  }

  /** The line for utils/bazel gives way to one for the overlay, wherever it stands. */
  lemma IgnoredExact(content: string, rewritten: string)
    ensures rewritten == Ignored(content)
      <==> Replacing(content, rewritten,
                     "# Ignore the utils/bazel directory when this is overlayed onto the repo root.\nutils/bazel\n",
                     "# Ignore utils/bazel/llvm-project-overlay after merging it into the repository root.\nutils/bazel/llvm-project-overlay\n")
  {
    hide Substituted, Replacing;
    SubstitutedExact(content, rewritten, IGNORED_BEFORE, IGNORED_AFTER);
  }

  /** The two rewritten files, by name and text. */
  ghost predicate ShowsExposed(ignored: string, view: Option<string>, exports: Option<string>) {
    && exports == Some("exports_files([\"pfm.BUILD\"])\n")
    && view.Some?
    && Replacing(ignored, view.value,
                 "# Ignore the utils/bazel directory when this is overlayed onto the repo root.\nutils/bazel\n",
                 "# Ignore utils/bazel/llvm-project-overlay after merging it into the repository root.\nutils/bazel/llvm-project-overlay\n")
  }

  lemma ExposedFiles(ignored: string, view: Option<string>, view': Option<string>)
    ensures ShowsExposed(ignored, Exposed(ignored, view, [".bazelignore"]),
                         Exposed(ignored, view', ["utils", "bazel", "third_party_build", "BUILD.bazel"]))
  {
    hide Replacing, Ignored;
    Tops();
    IgnoredExact(ignored, Ignored(ignored));
  }

  /** What the target shows at p once the two files have been rewritten over view. */
  function Exposed(ignored: string, view: Option<string>, p: Path): Option<string> {
    if p == THIRD_PARTY_BUILD_FILE then Some(EXPORTS)
    else if p == IGNORE_FILE then Some(Ignored(ignored))
    else if THIRD_PARTY_BUILD_FILE <= p || IGNORE_FILE <= p then None
    else view
  }

  lemma Tops()
    ensures IGNORE_FILE != THIRD_PARTY_BUILD_FILE && !(IGNORE_FILE <= THIRD_PARTY_BUILD_FILE)
    ensures !(THIRD_PARTY_BUILD_FILE <= IGNORE_FILE)
    ensures IGNORE_FILE[0] != "utils" && THIRD_PARTY_BUILD_FILE[0] == PFM_BUILD[0] == OVERLAY[0] == "utils"
    ensures UTILS <= PFM_BUILD && UTILS <= THIRD_PARTY_BUILD_FILE && !(UTILS <= IGNORE_FILE)
  {
    assert |".bazelignore"| == 12 && |"utils"| == 5;
    assert IGNORE_FILE[0] != THIRD_PARTY_BUILD_FILE[0];
    assert PFM_BUILD[..1] == UTILS && THIRD_PARTY_BUILD_FILE[..1] == UTILS;
    assert UTILS[0] != IGNORE_FILE[0];
  }

  /** _expose_third_party_build_files: where pfm.BUILD exists, as a file or a directory, two files are rewritten in the target. */
  method ExposeThirdPartyBuildFiles(r: Repository) returns (ok: bool)
    requires Sound(r) && Natural(r.links) && [] !in r.links && r.files == map[]
    requires !BehindLink(r.links, THIRD_PARTY_BUILD_FILE)
    modifies r
    ensures r.touched == old(r.touched) && r.source == old(r.source) && Sound(r) && Natural(r.links)
    ensures [] !in r.links && [] !in r.files
    ensures ok <==> !old(r.Exists(PFM_BUILD)) || old(r.View(IGNORE_FILE)).Some?
    ensures !old(r.Exists(PFM_BUILD)) ==> forall p :: r.View(p) == old(r.View(p))
    ensures ok && old(r.Exists(PFM_BUILD)) ==>
      forall p :: r.View(p) == Exposed(old(r.View(IGNORE_FILE)).value, old(r.View(p)), p)
    ensures ok && old(r.Exists(PFM_BUILD)) ==>
      ShowsExposed(old(r.View([".bazelignore"])).value, r.View([".bazelignore"]),
                   r.View(["utils", "bazel", "third_party_build", "BUILD.bazel"]))
    ensures forall top | top != "utils" && top != ".bazelignore" ::
      Kept(old(r.links), old(r.dirs), old(r.files.Keys), r.links, r.dirs, r.files.Keys, top)
  {
    hide Ignored, Substituted, ShowsExposed, Natural, Open, Kept, ProperPrefixes, Sound;
    NothingRewritten(r.links, r.dirs, r.files.Keys);
    if !r.Exists(PFM_BUILD) {
      return true;
    }
    var ignored := r.View(IGNORE_FILE);
    if ignored.None? {
      return false;
    }
    Tops();
    assert IGNORE_FILE[..0] == [];
    ghost var links, dirs, files := r.links, r.dirs, r.files.Keys;
    Rewrite(r, IGNORE_FILE, Ignored(ignored.value));
    StillReal(links, r.links, r.files, THIRD_PARTY_BUILD_FILE);
    ghost var links', dirs', files' := r.links, r.dirs, r.files.Keys;
    Rewrite(r, THIRD_PARTY_BUILD_FILE, EXPORTS);
    forall top | top != "utils" && top != ".bazelignore" ensures Kept(links, dirs, files, r.links, r.dirs, r.files.Keys, top) {
      KeptTwice(links, dirs, files, links', dirs', files', r.links, r.dirs, r.files.Keys, top);
    }
    NaturalStays(links, r.links);
    ExposedFiles(ignored.value, old(r.View([".bazelignore"])),
                 old(r.View(["utils", "bazel", "third_party_build", "BUILD.bazel"])));
    ok := true;
  }

  lemma NothingRewritten(links: map<Path, Path>, dirs: set<Path>, files: set<Path>)
    ensures forall top :: Kept(links, dirs, files, links, dirs, files, top)
  {
  }

  lemma StillReal(links: map<Path, Path>, links': map<Path, Path>, files': map<Path, string>, path: Path)
    requires !BehindLink(links, path) && links'.Keys <= links.Keys
    requires files'.Keys == {IGNORE_FILE} && !(IGNORE_FILE <= path)
    ensures !BehindLink(links', path) && !BehindFile(files', path)
  {
    forall i | 0 <= i < |path| ensures path[..i] !in links' && path[..i] !in files' {
      assert path[..i] !in links;
      assert path[..i] <= path;
    }
  }

  // ---- the generated files

  /** What p shows once a file has been written at path. */
  function Over(path: Path, content: string, view: Option<string>, p: Path): Option<string> {
    if p == path then Some(content) else if path <= p then None else view
  }

  const BUILD_FILE: Path := ["BUILD.bazel"]
  const VARS_FILE: Path := ["vars.bzl"]
  const CMAKE_LISTS: Path := ["llvm", "CMakeLists.txt"]
  const VERSION_FILE: Path := ["cmake", "Modules", "LLVMVersion.cmake"]
  const LLVM_TARGETS: Path := ["llvm", "targets.bzl"]
  const BOLT_TARGETS: Path := ["bolt", "targets.bzl"]

  /** The texts the rule writes; that of vars.bzl depends on the two files it reads. */
  datatype Texts = Texts(build: string, vars: (string, string) -> string, llvm: string, bolt: string)

  /** The farm has a link somewhere below p. */
  ghost predicate LinksBelow(source: Tree, p: Path)
    requires HasOverlay(source)
  {
    exists q :: p < q && Planned(source, q).Some?
  }

  /** A top-level name that becomes a link. */
  ghost predicate TopLink(source: Tree, n: string)
    requires HasOverlay(source)
  {
    Planned(source, [n]).Some?
  }

  /** Whether targets.bzl can be written into the top-level directory n. */
  ghost predicate Writable(source: Tree, n: string)
    requires HasOverlay(source)
  {
    if TopLink(source, n) then !PutBlocked(source, Planned(source, [n]).value + ["targets.bzl"])
    else !LinksBelow(source, [n, "targets.bzl"])
  }

  /** At and below a top-level name the target is as the farm was planned. */
  ghost predicate AsPlanned(r: Repository, source: Tree, top: string)
    requires HasOverlay(source)
    reads r
  {
    forall p | p != [] && p[0] == top ::
      && (p in r.links <==> Planned(source, p).Some?) && (p in r.links ==> Planned(source, p) == Some(r.links[p]))
      && (p in r.dirs <==> LinksBelow(source, p)) && p !in r.files
  }

  lemma FarmAsPlanned(r: Repository, top: string)
    requires HasOverlay(r.source) && Farm(r)
    ensures AsPlanned(r, r.source, top) && Sound(r) && Natural(r.links)
  {
    hide Planned, HasOverlay, OverlayOf;
    FarmParts(r);
    forall p ensures p in r.links <==> Planned(r.source, p).Some?
      ensures p in r.links ==> Planned(r.source, p) == Some(r.links[p])
    {
      FarmLinks(r, p);
    }
    forall p ensures p in r.dirs <==> LinksBelow(r.source, p) {
      FilledExact(r.links, r.dirs, p);
    }
    forall p | p in r.links ensures r.links[p] == p || r.links[p] == OVERLAY + p {
      PlannedDest(r.source, p);
    }
  }

  lemma PlannedDest(source: Tree, p: Path)
    requires HasOverlay(source)
    ensures Planned(source, p).Some? ==> Planned(source, p).value == p || Planned(source, p).value == OVERLAY + p
  {
  }

  lemma FarmParts(r: Repository)
    requires HasOverlay(r.source) && Farm(r)
    ensures r.files == map[] && Filled(r.links, r.dirs)
  {
  }

  lemma FilledExact(links: map<Path, Path>, dirs: set<Path>, p: Path)
    requires Filled(links, dirs)
    ensures p in dirs <==> exists q :: p < q && q in links
  {
    if q :| p < q && q in links {
      assert q[..|p|] == p;
      assert p in ProperPrefixes(q);
    }
  }

  lemma KeptAsPlanned(r: Repository, source: Tree, top: string,
                      links: map<Path, Path>, dirs: set<Path>, files: set<Path>)
    requires HasOverlay(source) && Kept(links, dirs, files, r.links, r.dirs, r.files.Keys, top)
    requires forall p | p != [] && p[0] == top ::
      && (p in links <==> Planned(source, p).Some?) && (p in links ==> Planned(source, p) == Some(links[p]))
      && (p in dirs <==> LinksBelow(source, p)) && p !in files
    ensures AsPlanned(r, source, top)
  {
    hide Planned, LinksBelow, HasOverlay;
  }

  /** The conditions under which a top-level name can still be written as planned. */
  ghost predicate Ready(r: Repository, source: Tree, top: string)
    requires HasOverlay(source)
    reads r
  {
    && AsPlanned(r, source, top) && Sound(r) && Natural(r.links) && [] !in r.links && [] !in r.files
    && At(r.source, [top]) == At(source, [top]) && At(r.source, OVERLAY) == At(source, OVERLAY)
    && r.source.Dir?
  }

  lemma OccupiedExact(r: Repository, source: Tree, top: string, p: Path)
    requires HasOverlay(source) && AsPlanned(r, source, top) && p != [] && p[0] == top
    ensures Occupied(r.links, r.dirs, r.files, p) <==> LinksBelow(source, p)
  {
    hide Planned, HasOverlay;
    if LinksBelow(source, p) {
      var q :| p < q && Planned(source, q).Some?;
      assert q[0] == top && q in r.links;
      assert q in r.links.Keys + r.files.Keys + r.dirs;
      assert p in r.dirs;
    }
  }

  /** A file at the top of the target. */
  method WriteTop(r: Repository, ghost source: Tree, top: string, content: string) returns (ok: bool)
    requires HasOverlay(source) && Ready(r, source, top)
    modifies r
    ensures ok <==> !LinksBelow(source, [top])
    ensures r.source == old(r.source) && r.touched == old(r.touched)
    ensures ok ==> Sound(r) && Natural(r.links) && [] !in r.links && [] !in r.files
    ensures ok ==> forall other | other != top ::
      Kept(old(r.links), old(r.dirs), old(r.files.Keys), r.links, r.dirs, r.files.Keys, other)
    ensures ok ==> forall p :: r.View(p) == Over([top], content, old(r.View(p)), p)
  {
    hide Planned, HasOverlay, LinksBelow, PutBlocked;
    var p := [top];
    assert p[..0] == [];
    OccupiedExact(r, source, top, p);
    assert !BehindLink(r.links, p) && !BehindFile(r.files, p);
    ok := WriteShown(r, p, content);
    forall q | q != [] && q[0] != top ensures q !in ProperPrefixes(p) && q != p {
    }
  }

  /** Where a path at a top-level name lands. */
  lemma LandingOfTop(links: map<Path, Path>, top: string, name: string)
    requires [] !in links
    ensures Landing(links, [top, name], 0) == if [top] in links then Some(links[[top]] + [name])
      else if [top, name] in links then Some(links[[top, name]]) else None
    ensures BehindLink(links, [top, name]) <==> [top] in links
  {
    var p := [top, name];
    assert p[..0] == [] && p[..1] == [top] && p[..2] == p && p[1..] == [name] && p[2..] == [];
    assert Landing(links, p, 0) == Landing(links, p, 1);
    if [top] !in links {
      assert Landing(links, p, 1) == Landing(links, p, 2);
      if p in links {
        assert links[p] + [] == links[p];
      }
    }
  }

  /** With links to the same path or into the overlay, a path lands on itself or in the overlay. */
  lemma {:induction false} NaturalLanding(links: map<Path, Path>, p: Path, i: nat)
    requires Natural(links) && i <= |p|
    ensures Landing(links, p, i).Some? ==> Landing(links, p, i).value == p || Landing(links, p, i).value == OVERLAY + p
    decreases |p| - i
  {
    if p[..i] in links {
      assert p[..i] + p[i..] == p && OVERLAY + p[..i] + p[i..] == OVERLAY + p;
    } else if i < |p| {
      NaturalLanding(links, p, i + 1);
    }
  }

  lemma NaturalAlone(links: map<Path, Path>, path: Path)
    requires Natural(links) && path != [] && path[0] != "utils" && Landing(links, path, 0) == Some(path)
    ensures LandsAlone(links, path)
  {
    hide Landing;
    forall p | Landing(links, p, 0) == Landing(links, path, 0) ensures p == path {
      NaturalLanding(links, p, 0);
      assert (OVERLAY + p)[0] == "utils";
    }
  }

  lemma BlockedAlike(t: Tree, source: Tree, prefix: Path, name: string)
    requires t.Dir? && source.Dir? && prefix != [] && At(t, prefix) == At(source, prefix)
    requires At(source, prefix).Some?
    ensures PutBlocked(t, prefix + [name]) <==> PutBlocked(source, prefix + [name])
  {
    var p := prefix + [name];
    AtConcat(t, prefix, [name]);
    AtConcat(source, prefix, [name]);
    assert p[..|prefix|] == prefix;
    forall i | 0 <= i < |p| && i != |prefix|
      ensures FileAt(t, p[..i]).None? && FileAt(source, p[..i]).None?
    {
      assert p[..i] == prefix[..i];
      PrefixIsDir(t, prefix, i);
      PrefixIsDir(source, prefix, i);
    }
  }

  lemma OverlayFileBlocks(source: Tree, n: string, name: string)
    requires HasOverlay(source) && Planned(source, [n]) == Some(OVERLAY + [n])
    ensures PutBlocked(source, OVERLAY + [n] + [name])
  {
    AtOverlay(source, [n]);
    AtChild(OverlayOf(source), [], n);
    assert [] + [n] == [n] && Front([n]) == [] && Final([n]) == n;
    var p := OVERLAY + [n] + [name];
    assert p[..|OVERLAY| + 1] == OVERLAY + [n];
    PlannedIsNoDir(source, [n]);
    PlannedInTree(source, [n]);
    assert FileAt(source, p[..|OVERLAY| + 1]).Some?;
  }

  lemma PlannedInTree(source: Tree, p: Path)
    requires HasOverlay(source) && Planned(source, p).Some?
    ensures At(source, Planned(source, p).value).Some?
    ensures Planned(source, p).value == OVERLAY + p && p != OVERLAY + p ==>
      FileAt(source, OVERLAY + p).Some? || Planned(source, p).value == p
  {
    PathOfChild(p);
    AtOverlay(source, p);
    AtChild(OverlayOf(source), Front(p), Final(p));
  }

  lemma TargetBlocked(r: Repository, source: Tree, n: string)
    requires HasOverlay(source) && Ready(r, source, n) && n != "utils" && source.Dir?
    ensures Blocked(r.source, r.links, r.dirs, r.files, [n, "targets.bzl"]) <==> !Writable(source, n)
    ensures Writable(source, n) && TopLink(source, n) ==> Landing(r.links, [n, "targets.bzl"], 0) == Some([n, "targets.bzl"])
    ensures BehindLink(r.links, [n, "targets.bzl"]) <==> TopLink(source, n)
  {
    hide Planned, HasOverlay, PutBlocked, Landing, LinksBelow, Natural;
    var p := [n, "targets.bzl"];
    LandingOfTop(r.links, n, "targets.bzl");
    OccupiedExact(r, source, n, p);
    assert p[..0] == [] && p[..1] == [n];
    assert [n] in r.links <==> TopLink(source, n);
    if TopLink(source, n) {
      LinkedTarget(r.source, source, n);
    }
  }

  /** A linked top-level name takes the file where the link leads, which has to be the source's own
      directory. */
  lemma LinkedTarget(t: Tree, source: Tree, n: string)
    requires HasOverlay(source) && TopLink(source, n) && t.Dir? && source.Dir?
    requires At(t, [n]) == At(source, [n]) && At(t, OVERLAY) == At(source, OVERLAY)
    ensures var q := Planned(source, [n]).value + ["targets.bzl"];
      (PutBlocked(t, q) <==> PutBlocked(source, q)) && (!PutBlocked(source, q) ==> q == [n, "targets.bzl"])
  {
    hide Planned, HasOverlay, PutBlocked;
    var dest := Planned(source, [n]).value;
    PlannedDest(source, [n]);
    PlannedInTree(source, [n]);
    AtConcat(t, OVERLAY, [n]);
    AtConcat(source, OVERLAY, [n]);
    BlockedAlike(t, source, dest, "targets.bzl");
    if dest == OVERLAY + [n] {
      OverlayFileBlocks(source, n, "targets.bzl");
    }
    assert [n] + ["targets.bzl"] == [n, "targets.bzl"];
  }

  /** targets.bzl in a top-level directory: in the target when the directory is its own, in the source when
      it is a link. */
  method WriteTarget(r: Repository, ghost source: Tree, n: string, content: string) returns (ok: bool)
    requires HasOverlay(source) && Ready(r, source, n) && n != "utils" && source.Dir?
    modifies r
    ensures ok <==> Writable(source, n)
    ensures !ok || !TopLink(source, n) ==> r.source == old(r.source) && r.touched == old(r.touched)
    ensures ok && TopLink(source, n) ==>
      !PutBlocked(old(r.source), [n, "targets.bzl"])
      && r.source == Put(old(r.source), [n, "targets.bzl"], content)
      && r.touched == old(r.touched) + {[n, "targets.bzl"]}
    ensures ok ==> Sound(r) && Natural(r.links) && [] !in r.links && [] !in r.files
    ensures ok ==> forall other | other != n ::
      Kept(old(r.links), old(r.dirs), old(r.files.Keys), r.links, r.dirs, r.files.Keys, other)
    ensures ok ==> forall p :: r.View(p) == Over([n, "targets.bzl"], content, old(r.View(p)), p)
  {
    hide Planned, HasOverlay, LinksBelow, PutBlocked, Put, Landing, Natural, Writable;
    var p := [n, "targets.bzl"];
    TargetBlocked(r, source, n);
    if Writable(source, n) && TopLink(source, n) {
      NaturalAlone(r.links, p);
      LandingFree(r, p);
    }
    ghost var links := r.links;
    ok := WriteShown(r, p, content);
    if ok {
      NaturalStays(links, r.links);
    }
    forall q | q != [] && q[0] != n ensures q !in ProperPrefixes(p) && q != p {
      assert forall i | 0 < i < |p| :: p[..i][0] == n;
    }
  }

  lemma NaturalStays(links: map<Path, Path>, links': map<Path, Path>)
    requires Natural(links) && links'.Keys <= links.Keys && forall q | q in links' :: links'[q] == links[q]
    ensures Natural(links')
  {
  }

  lemma LandingFree(r: Repository, p: Path)
    requires BehindLink(r.links, p) && Landing(r.links, p, 0) == Some(p)
    requires !Blocked(r.source, r.links, r.dirs, r.files, p)
    ensures !PutBlocked(r.source, p)
  {
  }

  lemma SourceIsDir(source: Tree)
    requires HasOverlay(source)
    ensures source.Dir?
  {
  }

  const FREE := {"BUILD.bazel", "vars.bzl", "llvm", "bolt"}

  lemma FreeNames()
    ensures "utils" !in FREE && ".bazelignore" !in FREE
    ensures "BUILD.bazel" != "vars.bzl" && "BUILD.bazel" != "llvm" && "BUILD.bazel" != "bolt"
    ensures "vars.bzl" != "llvm" && "vars.bzl" != "bolt" && "llvm" != "bolt"
  {
    assert |"BUILD.bazel"| == 11 && |"vars.bzl"| == 8 && |"llvm"| == 4 && |"bolt"| == 4;
    assert |"utils"| == 5 && |".bazelignore"| == 12 && "llvm"[0] != "bolt"[0];
  }

  // ---- the rule

  /** What the rule demands before it generates files. */
  ghost predicate Mergeable(source: Tree) {
    && HasOverlay(source) && Compatible(source)
    && |Dirs(OverlayOf(source))| <= 1000000
    && IsDir(source, THIRD_PARTY_BUILD)
    && (At(source, PFM_BUILD).Some? ==> FileAt(Merge(OverlayOf(source), source), IGNORE_FILE).Some?)
  }

  /** The overlay laid over the source, but below utils the source, and the two files of pfm.BUILD. */
  ghost function Base(source: Tree, p: Path): Option<string>
    requires HasOverlay(source)
  {
    var merged := Merge(OverlayOf(source), source);
    var view := if UTILS <= p then FileAt(source, p) else FileAt(merged, p);
    if At(source, PFM_BUILD).None? || FileAt(merged, IGNORE_FILE).None? then view
    else Exposed(FileAt(merged, IGNORE_FILE).value, view, p)
  }

  lemma OutsideIsKept(links: map<Path, Path>, dirs: set<Path>, links': map<Path, Path>, dirs': set<Path>, top: string)
    requires OutsideUtils(links, dirs, links', dirs') && top != "utils"
    ensures Kept(links, dirs, {}, links', dirs', {}, top)
  {
  }

  lemma FarmTop(r: Repository)
    requires HasOverlay(r.source) && Farm(r)
    ensures [] !in r.links && r.files == map[] && r.touched == {}
  {
    hide HasOverlay;
    FarmLinks(r, []);
  }

  lemma PfmExact(source: Tree)
    requires IsDir(source, THIRD_PARTY_BUILD)
    ensures THIRD_PARTY_BUILD + ["pfm.BUILD"] == PFM_BUILD
    ensures At(source, PFM_BUILD).Some? <==> "pfm.BUILD" in ChildrenAt(source, THIRD_PARTY_BUILD)
  {
    hide IsDir, ChildrenAt;
    AtChild(source, THIRD_PARTY_BUILD, "pfm.BUILD");
    assert THIRD_PARTY_BUILD + ["pfm.BUILD"] == PFM_BUILD;
  }

  /** The farm, and utils replaced by what the source has there. */
  method BuildTarget(r: Repository) returns (ok: bool)
    requires r.links == map[] && r.dirs == {} && r.files == map[] && r.touched == {}
    modifies r
    ensures r.touched == {} && r.source == old(r.source)
    ensures ok <==> HasOverlay(r.source) && Compatible(r.source) && |Dirs(OverlayOf(r.source))| <= 1000000
                    && IsDir(r.source, THIRD_PARTY_BUILD)
    ensures ok ==> Sound(r) && Natural(r.links) && [] !in r.links && r.files == map[] && r.source.Dir?
    ensures ok ==> !BehindLink(r.links, THIRD_PARTY_BUILD_FILE)
    ensures ok ==> (r.Exists(PFM_BUILD) <==> At(r.source, PFM_BUILD).Some?)
    ensures ok ==> forall top | top != "utils" :: AsPlanned(r, r.source, top)
    ensures ok ==> forall p ::
      r.View(p) == if UTILS <= p then FileAt(r.source, p) else FileAt(Merge(OverlayOf(r.source), r.source), p)
  {
    hide Compatible, Built, Merge, IsDir, OverlayOf, Dirs, Planned, HasOverlay, LinksBelow, Natural, OutsideUtils;
    hide AsPlanned, ChildrenAt, Repository.Exists, At, PlannedRecords;
    if !HasOverlay(r.source) {
      return false;
    }
    SourceIsDir(r.source);
    ok := SymlinkSourceAndOverlay(r);
    if !ok {
      return;
    }
    FarmTop(r);
    FarmAsPlanned(r, "llvm");
    forall p ensures r.View(p) == FileAt(Merge(OverlayOf(r.source), r.source), p) {
      ViewIsMerge(r, p);
    }
    ghost var links, dirs := r.links, r.dirs;
    forall top ensures AsPlanned(r, r.source, top) {
      FarmAsPlanned(r, top);
    }
    PlannedHere(r, r.source);
    ok := MaterializeThirdPartyBuild(r);
    if ok {
      forall top | top != "utils" ensures AsPlanned(r, r.source, top) {
        OutsideIsKept(links, dirs, r.links, r.dirs, top);
        StillPlanned(r, r.source, top, links, dirs);
      }
      assert THIRD_PARTY_BUILD + ["BUILD.bazel"] == THIRD_PARTY_BUILD_FILE;
      PfmExact(r.source);
    }
  }

  /** _llvm_project_from_path_impl up to write_llvm_project_files, and the first step of that. */
  method Prepare(r: Repository) returns (ok: bool)
    requires r.links == map[] && r.dirs == {} && r.files == map[] && r.touched == {}
    modifies r
    ensures r.touched == {} && r.source == old(r.source)
    ensures ok <==> Mergeable(r.source)
    ensures ok ==> r.source.Dir? && forall top | top in FREE :: Ready(r, r.source, top)
    ensures ok ==> forall p :: r.View(p) == Base(r.source, p)
  {
    hide Compatible, Merge, IsDir, OverlayOf, Dirs, Planned, HasOverlay, LinksBelow, Exposed, Natural;
    hide AsPlanned, ChildrenAt, Repository.Exists, At, Kept, ShowsExposed, PlannedAt;
    ok := BuildTarget(r);
    if !ok {
      return;
    }
    ghost var links, dirs := r.links, r.dirs;
    assert r.files.Keys == {};
    Tops();
    assert r.View(IGNORE_FILE) == FileAt(Merge(OverlayOf(r.source), r.source), IGNORE_FILE);
    FreeNames();
    forall top | top in FREE ensures PlannedAt(r.source, links, dirs, top) {
      PlannedNow(r, r.source, top);
    }
    ok := ExposeThirdPartyBuildFiles(r);
    if ok {
      forall top | top in FREE ensures Ready(r, r.source, top) {
        StillPlannedAt(r, r.source, top, links, dirs);
      }
    }
  }

  ghost predicate PlannedAt(source: Tree, links: map<Path, Path>, dirs: set<Path>, top: string)
    requires HasOverlay(source)
  {
    forall p | p != [] && p[0] == top ::
      && (p in links <==> Planned(source, p).Some?) && (p in links ==> Planned(source, p) == Some(links[p]))
      && (p in dirs <==> LinksBelow(source, p))
  }

  lemma PlannedNow(r: Repository, source: Tree, top: string)
    requires HasOverlay(source) && AsPlanned(r, source, top)
    ensures PlannedAt(source, r.links, r.dirs, top)
  {
    hide Planned, LinksBelow, HasOverlay;
  }

  lemma StillPlannedAt(r: Repository, source: Tree, top: string, links: map<Path, Path>, dirs: set<Path>)
    requires HasOverlay(source) && PlannedAt(source, links, dirs, top)
    requires Kept(links, dirs, {}, r.links, r.dirs, r.files.Keys, top)
    ensures AsPlanned(r, source, top)
  {
    hide Planned, LinksBelow, HasOverlay;
    KeptAsPlanned(r, source, top, links, dirs, {});
  }

  /** The farm's records, as facts about the records alone. */
  ghost predicate PlannedRecords(source: Tree, links: map<Path, Path>, dirs: set<Path>)
    requires HasOverlay(source)
  {
    forall p | p != [] ::
      && (p in links <==> Planned(source, p).Some?) && (p in links ==> Planned(source, p) == Some(links[p]))
      && (p in dirs <==> LinksBelow(source, p))
  }

  lemma PlannedHere(r: Repository, source: Tree)
    requires HasOverlay(source) && forall top :: AsPlanned(r, source, top)
    ensures PlannedRecords(source, r.links, r.dirs)
  {
    hide Planned, LinksBelow, HasOverlay;
    forall p | p != []
      ensures (p in r.links <==> Planned(source, p).Some?) && (p in r.links ==> Planned(source, p) == Some(r.links[p]))
      ensures p in r.dirs <==> LinksBelow(source, p)
    {
      assert AsPlanned(r, source, p[0]);
    }
  }

  lemma StillPlanned(r: Repository, source: Tree, top: string, links: map<Path, Path>, dirs: set<Path>)
    requires HasOverlay(source) && PlannedRecords(source, links, dirs)
    requires Kept(links, dirs, {}, r.links, r.dirs, r.files.Keys, top)
    ensures AsPlanned(r, source, top)
  {
    hide Planned, LinksBelow, HasOverlay;
    KeptAsPlanned(r, source, top, links, dirs, {});
  }

  /** What the rule accepts: the farm can be built, the two files it reads are there, and nothing stands
      where it writes. */
  ghost predicate Prepared(source: Tree) {
    && Mergeable(source)
    && !LinksBelow(source, BUILD_FILE) && !LinksBelow(source, VARS_FILE)
    && FileAt(Merge(OverlayOf(source), source), CMAKE_LISTS).Some?
    && FileAt(Merge(OverlayOf(source), source), VERSION_FILE).Some?
  }

  ghost predicate Accepted(source: Tree) {
    Prepared(source) && Writable(source, "llvm") && Writable(source, "bolt")
  }

  /** The paths of the source the rule writes, through links of the target. */
  ghost function Spoiled(source: Tree): set<Path> {
    (if Prepared(source) && Writable(source, "llvm") && TopLink(source, "llvm") then {LLVM_TARGETS} else {})
    + (if Accepted(source) && TopLink(source, "bolt") then {BOLT_TARGETS} else {})
  }

  /** What the source holds afterwards. */
  ghost function Leftover(source: Tree, texts: Texts, q: Path): Option<string> {
    if q !in Spoiled(source) then FileAt(source, q) else Some(if q == LLVM_TARGETS then texts.llvm else texts.bolt)
  }

  ghost function Vars(source: Tree, texts: Texts): string
    requires Prepared(source)
  {
    var merged := Merge(OverlayOf(source), source);
    texts.vars(FileAt(merged, CMAKE_LISTS).value, FileAt(merged, VERSION_FILE).value)
  }

  /** What the finished target shows. */
  ghost function Finished(source: Tree, texts: Texts, p: Path): Option<string>
    requires Prepared(source)
  {
    Over(BOLT_TARGETS, texts.bolt,
      Over(LLVM_TARGETS, texts.llvm,
        Over(VARS_FILE, Vars(source, texts), Over(BUILD_FILE, texts.build, Base(source, p), p), p), p), p)
  }

  lemma ReadsAreMerged(source: Tree, content: string, p: Path)
    requires HasOverlay(source) && (p == CMAKE_LISTS || p == VERSION_FILE)
    ensures Over(BUILD_FILE, content, Base(source, p), p) == FileAt(Merge(OverlayOf(source), source), p)
  {
    hide Merge, OverlayOf, Ignored;
    Tops();
    assert |"cmake"| == 5 && "cmake"[0] != "utils"[0] && |"llvm"| == 4;
    assert |"BUILD.bazel"| == 11 && |".bazelignore"| == 12 && |"utils"| == 5;
    assert p[0] != "utils" && p[0] != ".bazelignore" && p[0] != "BUILD.bazel";
    StartsElsewhere(UTILS, p);
    StartsElsewhere(THIRD_PARTY_BUILD_FILE, p);
    StartsElsewhere(IGNORE_FILE, p);
    StartsElsewhere(BUILD_FILE, p);
  }

  lemma StartsElsewhere(path: Path, p: Path)
    requires path != [] && p != [] && path[0] != p[0]
    ensures !(path <= p)
  {
  }

  lemma ReadyStays(r: Repository, source: Tree, top: string,
                   links: map<Path, Path>, dirs: set<Path>, files: set<Path>)
    requires HasOverlay(source) && Kept(links, dirs, files, r.links, r.dirs, r.files.Keys, top)
    requires forall p | p != [] && p[0] == top ::
      && (p in links <==> Planned(source, p).Some?) && (p in links ==> Planned(source, p) == Some(links[p]))
      && (p in dirs <==> LinksBelow(source, p)) && p !in files
    requires Sound(r) && Natural(r.links) && [] !in r.links && [] !in r.files
    requires At(r.source, [top]) == At(source, [top]) && At(r.source, OVERLAY) == At(source, OVERLAY) && r.source.Dir?
    ensures Ready(r, source, top)
  {
    hide Planned, LinksBelow, HasOverlay, Natural, Sound;
    KeptAsPlanned(r, source, top, links, dirs, files);
  }

  /** BUILD.bazel, the two reads, and vars.bzl. */
  method WriteTexts(r: Repository, ghost source: Tree, texts: Texts) returns (ok: bool)
    requires Mergeable(source) && r.source == source && source.Dir? && r.touched == {}
    requires forall top | top in FREE :: Ready(r, source, top)
    requires forall p :: r.View(p) == Base(source, p)
    modifies r
    ensures r.source == source && r.touched == {}
    ensures ok <==> Prepared(source)
    ensures ok ==> Ready(r, source, "llvm") && Ready(r, source, "bolt")
    ensures ok ==>
      forall p :: r.View(p) == Over(VARS_FILE, Vars(source, texts), Over(BUILD_FILE, texts.build, Base(source, p), p), p)
  {
    hide Compatible, Merge, IsDir, OverlayOf, Dirs, Planned, HasOverlay, LinksBelow, Natural, Base, Over, Sound;
    FreeNames();
    ghost var links, dirs, files := r.links, r.dirs, r.files.Keys;
    ok := WriteTop(r, source, "BUILD.bazel", texts.build);
    if !ok {
      return;
    }
    ReadyStays(r, source, "vars.bzl", links, dirs, files);
    ReadyStays(r, source, "llvm", links, dirs, files);
    ReadyStays(r, source, "bolt", links, dirs, files);
    var lists := r.View(CMAKE_LISTS);
    var version := r.View(VERSION_FILE);
    ReadsAreMerged(source, texts.build, CMAKE_LISTS);
    ReadsAreMerged(source, texts.build, VERSION_FILE);
    if lists.None? || version.None? {
      return false;
    }
    links, dirs, files := r.links, r.dirs, r.files.Keys;
    ok := WriteTop(r, source, "vars.bzl", texts.vars(lists.value, version.value));
    if ok {
      ReadyStays(r, source, "llvm", links, dirs, files);
      ReadyStays(r, source, "bolt", links, dirs, files);
    }
  }

  lemma PutElsewhere(t: Tree, n: string, content: string, other: string)
    requires t.Dir? && n != other && n != "utils"
    ensures var t' := Put(t, [n, "targets.bzl"], content);
      t'.Dir? && At(t', [other]) == At(t, [other]) && At(t', OVERLAY) == At(t, OVERLAY)
  {
    StartsElsewhere([n, "targets.bzl"], [other]);
    StartsElsewhere([other], [n, "targets.bzl"]);
    StartsElsewhere([n, "targets.bzl"], OVERLAY);
    StartsElsewhere(OVERLAY, [n, "targets.bzl"]);
    PutApart(t, [n, "targets.bzl"], content, [other]);
    PutApart(t, [n, "targets.bzl"], content, OVERLAY);
  }

  /** llvm/targets.bzl and bolt/targets.bzl. */
  method WriteTargets(r: Repository, ghost source: Tree, texts: Texts) returns (ok: bool)
    requires Prepared(source) && r.source == source && source.Dir? && r.touched == {}
    requires Ready(r, source, "llvm") && Ready(r, source, "bolt")
    modifies r
    ensures ok <==> Accepted(source)
    ensures r.touched == Spoiled(source)
    ensures forall q :: FileAt(r.source, q) == Leftover(source, texts, q)
    ensures ok ==>
      forall p :: r.View(p) == Over(BOLT_TARGETS, texts.bolt, Over(LLVM_TARGETS, texts.llvm, old(r.View(p)), p), p)
  {
    hide Prepared, Planned, HasOverlay, Natural, Over, Sound, PutBlocked, Put, Writable;
    FreeNames();
    ghost var links, dirs, files := r.links, r.dirs, r.files.Keys;
    PreparedHasOverlay(source);
    ok := WriteTarget(r, source, "llvm", texts.llvm);
    if TopLink(source, "llvm") && Writable(source, "llvm") {
      PutElsewhere(source, "llvm", texts.llvm, "bolt");
      forall q ensures FileAt(r.source, q) == if q == LLVM_TARGETS then Some(texts.llvm) else FileAt(source, q) {
        PutFileAt(source, LLVM_TARGETS, texts.llvm, q);
      }
    }
    if !ok {
      return;
    }
    assert LLVM_TARGETS != BOLT_TARGETS;
    ReadyStays(r, source, "bolt", links, dirs, files);
    ghost var between := r.source;
    ok := WriteTarget(r, source, "bolt", texts.bolt);
    if TopLink(source, "bolt") && ok {
      forall q ensures FileAt(r.source, q) == if q == BOLT_TARGETS then Some(texts.bolt) else FileAt(between, q) {
        PutFileAt(between, BOLT_TARGETS, texts.bolt, q);
      }
    }
  }

  lemma PreparedHasOverlay(source: Tree)
    requires Prepared(source)
    ensures HasOverlay(source)
  {
  }

  lemma AcceptedOverlay(source: Tree)
    requires Accepted(source)
    ensures HasOverlay(source) && Some(OverlayOf(source)) == At(source, ["utils", "bazel", "llvm-project-overlay"])
  {
    OverlayPlace(source);
  }

  /** The files of the finished target, by name. */
  lemma FinishedFiles(source: Tree, texts: Texts)
    requires Accepted(source)
    ensures Some(OverlayOf(source)) == At(source, ["utils", "bazel", "llvm-project-overlay"])
    ensures var merged := Merge(OverlayOf(source), source);
      && Finished(source, texts, ["BUILD.bazel"]) == Some(texts.build)
      && FileAt(merged, ["llvm", "CMakeLists.txt"]).Some? && FileAt(merged, ["cmake", "Modules", "LLVMVersion.cmake"]).Some?
      && Finished(source, texts, ["vars.bzl"])
         == Some(texts.vars(FileAt(merged, ["llvm", "CMakeLists.txt"]).value,
                            FileAt(merged, ["cmake", "Modules", "LLVMVersion.cmake"]).value))
      && Finished(source, texts, ["llvm", "targets.bzl"]) == Some(texts.llvm)
      && Finished(source, texts, ["bolt", "targets.bzl"]) == Some(texts.bolt)
  {
    hide Mergeable, Merge, OverlayOf, LinksBelow, Base, Writable;
    AcceptedOverlay(source);
    FreeNames();
    StartsElsewhere(VARS_FILE, BUILD_FILE);
    StartsElsewhere(LLVM_TARGETS, BUILD_FILE);
    StartsElsewhere(BOLT_TARGETS, BUILD_FILE);
    StartsElsewhere(LLVM_TARGETS, VARS_FILE);
    StartsElsewhere(BOLT_TARGETS, VARS_FILE);
    StartsElsewhere(BOLT_TARGETS, LLVM_TARGETS);
  }

  /** Where pfm.BUILD exists, the two files that go with it. */
  lemma FinishedExposed(source: Tree, texts: Texts)
    requires Accepted(source) && At(source, ["utils", "bazel", "third_party_build", "pfm.BUILD"]).Some?
    ensures var ignored := FileAt(Merge(OverlayOf(source), source), [".bazelignore"]);
      ignored.Some?
      && ShowsExposed(ignored.value, Finished(source, texts, [".bazelignore"]),
                      Finished(source, texts, ["utils", "bazel", "third_party_build", "BUILD.bazel"]))
  {
    hide Merge, OverlayOf, LinksBelow, Writable, ShowsExposed, Exposed, Compatible, Dirs;
    Tops();
    FreeNames();
    FinishedAsBase(source, texts, IGNORE_FILE);
    FinishedAsBase(source, texts, THIRD_PARTY_BUILD_FILE);
    var ignored := FileAt(Merge(OverlayOf(source), source), IGNORE_FILE);
    ExposedFiles(ignored.value, ignored, FileAt(source, THIRD_PARTY_BUILD_FILE));
  }

  /** Where it does not exist, these two are as elsewhere. */
  lemma FinishedUnexposed(source: Tree, texts: Texts)
    requires Accepted(source) && At(source, ["utils", "bazel", "third_party_build", "pfm.BUILD"]).None?
    ensures Finished(source, texts, [".bazelignore"]) == FileAt(Merge(OverlayOf(source), source), [".bazelignore"])
    ensures Finished(source, texts, ["utils", "bazel", "third_party_build", "BUILD.bazel"])
      == FileAt(source, ["utils", "bazel", "third_party_build", "BUILD.bazel"])
  {
    hide Merge, OverlayOf, LinksBelow, Writable, Exposed, Compatible, Dirs;
    Tops();
    FreeNames();
    FinishedAsBase(source, texts, IGNORE_FILE);
    FinishedAsBase(source, texts, THIRD_PARTY_BUILD_FILE);
    assert UTILS <= THIRD_PARTY_BUILD_FILE;
    StartsElsewhere(UTILS, IGNORE_FILE);
  }

  lemma FinishedAsBase(source: Tree, texts: Texts, p: Path)
    requires Prepared(source) && p != [] && p[0] !in {"BUILD.bazel", "vars.bzl", "llvm", "bolt"}
    ensures Finished(source, texts, p) == Base(source, p)
  {
    hide Mergeable, Merge, OverlayOf, LinksBelow, Base;
    StartsElsewhere(BUILD_FILE, p);
    StartsElsewhere(VARS_FILE, p);
    StartsElsewhere(LLVM_TARGETS, p);
    StartsElsewhere(BOLT_TARGETS, p);
  }

  /** Every other file: the source's below utils, and elsewhere the overlay's laid over the source's. */
  lemma FinishedElsewhere(source: Tree, texts: Texts, p: Path)
    requires Accepted(source)
    requires !(["BUILD.bazel"] <= p) && !(["vars.bzl"] <= p) && !(["llvm", "targets.bzl"] <= p)
    requires !(["bolt", "targets.bzl"] <= p) && !([".bazelignore"] <= p)
    requires !(["utils", "bazel", "third_party_build", "BUILD.bazel"] <= p)
    ensures Finished(source, texts, p)
      == if ["utils"] <= p then FileAt(source, p) else FileAt(Merge(OverlayOf(source), source), p)
  {
    hide Mergeable, Merge, OverlayOf, LinksBelow, Writable, Ignored;
  }

  lemma NothingSpoiled(source: Tree, texts: Texts)
    ensures !Prepared(source) ==> Spoiled(source) == {} && forall q :: Leftover(source, texts, q) == FileAt(source, q)
  {
    hide Prepared;
  }

  /** The whole rule.  It returns normally exactly for the accepted sources; then the target shows the overlay
      laid over the source, except below utils and for the files it writes.  Normally or not, the source is
      changed exactly at the paths that are written through a link. */
  method LlvmProjectFromPath(r: Repository, texts: Texts) returns (ok: bool)
    requires r.links == map[] && r.dirs == {} && r.files == map[] && r.touched == {}
    modifies r
    ensures ok <==> Accepted(old(r.source))
    ensures ok ==> forall p :: r.View(p) == Finished(old(r.source), texts, p)
    ensures ok && At(old(r.source), ["utils", "bazel", "third_party_build", "pfm.BUILD"]).Some? ==>
      var ignored := FileAt(Merge(OverlayOf(old(r.source)), old(r.source)), [".bazelignore"]);
      ignored.Some?
      && ShowsExposed(ignored.value, r.View([".bazelignore"]),
                      r.View(["utils", "bazel", "third_party_build", "BUILD.bazel"]))
    ensures r.touched == Spoiled(old(r.source))
    ensures forall q :: FileAt(r.source, q) == Leftover(old(r.source), texts, q)
  {
    hide Mergeable, HasOverlay, Natural, Over, Sound, Writable, Base, Merge, OverlayOf, LinksBelow, ShowsExposed, At, FileAt;
    hide Spoiled, Repository.Exists, Open, Ready;
    ghost var source := r.source;
    NothingSpoiled(source, texts);
    ok := Prepare(r);
    if !ok {
      return;
    }
    ok := WriteTexts(r, source, texts);
    if !ok {
      return;
    }
    ok := WriteTargets(r, source, texts);
    if ok && At(source, ["utils", "bazel", "third_party_build", "pfm.BUILD"]).Some? {
      FinishedExposed(source, texts);
    }
  }

  // ---- when the source is left alone

  /** On the input: each of llvm and bolt is a directory of the overlay, or in neither tree. */
  ghost predicate Safe(source: Tree)
    requires HasOverlay(source)
  {
    forall n | n in {"llvm", "bolt"} ::
      IsDir(OverlayOf(source), [n]) || (At(OverlayOf(source), [n]).None? && At(source, [n]).None?)
  }

  lemma TopLinkExact(source: Tree, n: string)
    requires HasOverlay(source)
    ensures TopLink(source, n)
      <==> !(IsDir(OverlayOf(source), [n]) || (At(OverlayOf(source), [n]).None? && At(source, [n]).None?))
  {
    hide OverlayOf, HasOverlay;
    assert Front([n]) == [] && Final([n]) == n && [] + [n] == [n];
    OverlayIsDir(source);
    AtChild(OverlayOf(source), [], n);
  }

  lemma OverlayIsDir(source: Tree)
    requires HasOverlay(source)
    ensures IsDir(OverlayOf(source), [])
  {
  }

  /** A rule that returns normally has left the source alone exactly when neither llvm nor bolt became a link;
      and on such sources no run touches it. */
  lemma SafeExact(source: Tree)
    requires HasOverlay(source)
    ensures Accepted(source) ==> (Spoiled(source) == {} <==> Safe(source))
    ensures Safe(source) ==> Spoiled(source) == {}
    ensures Safe(source) <==> !TopLink(source, "llvm") && !TopLink(source, "bolt")
  {
    hide Prepared, OverlayOf, HasOverlay, IsDir, Planned, TopLink, Writable;
    TopLinkExact(source, "llvm");
    TopLinkExact(source, "bolt");
    assert LLVM_TARGETS in {LLVM_TARGETS} && BOLT_TARGETS in {BOLT_TARGETS};
  }

  // ---- when replacing utils shows

  /** In a compatible merge the overlay's files win, and never over a file of the source. */
  lemma {:induction false} MergedFile(source: Tree, p: Path, i: nat)
    requires HasOverlay(source) && Compatible(source) && i <= |p| && IsDir(OverlayOf(source), p[..i])
    ensures IsDir(source, p[..i])
    ensures var overlay, below := At(OverlayOf(source), p[..i]).value, At(source, p[..i]).value;
      FileAt(Merge(overlay, below), p[i..])
        == (if FileAt(overlay, p[i..]).Some? then FileAt(overlay, p[i..]) else FileAt(below, p[i..]))
      && (FileAt(overlay, p[i..]).Some? ==> FileAt(below, p[i..]).None?)
    decreases |p| - i
  {
    hide HasOverlay, OverlayOf, Merge;
    var d := p[..i];
    assert CompatibleAt(source, d);
    var overlay, below := At(OverlayOf(source), d).value, At(source, d).value;
    if i == |p| {
      assert p[i..] == [];
      MergeOfDirs(overlay, below);
    } else {
      var n, q := p[i], p[..i + 1];
      assert q == d + [n] && p[i..][0] == n && p[i..][1..] == p[i + 1..];
      MergeAt(overlay, below, p[i..]);
      AtChild(OverlayOf(source), d, n);
      AtChild(source, d, n);
      if IsDir(OverlayOf(source), q) {
        MergedFile(source, p, i + 1);
      }
    }
  }

  /** Replacing utils by what the source has there changes no file exactly when the overlay has no file
      below utils; in particular when it has no top-level utils. */
  lemma UtilsReplacementExact(source: Tree)
    requires HasOverlay(source) && Compatible(source)
    ensures (forall p | UTILS <= p :: FileAt(Merge(OverlayOf(source), source), p) == FileAt(source, p))
      <==> (forall p | UTILS <= p :: FileAt(OverlayOf(source), p) == None)
    ensures "utils" !in ChildrenAt(OverlayOf(source), []) ==>
      forall p | UTILS <= p :: FileAt(OverlayOf(source), p) == None
  {
    hide Compatible, Merge;
    forall p | UTILS <= p
      ensures FileAt(Merge(OverlayOf(source), source), p)
        == if FileAt(OverlayOf(source), p).Some? then FileAt(OverlayOf(source), p) else FileAt(source, p)
      ensures FileAt(OverlayOf(source), p).Some? ==> FileAt(source, p).None?
    {
      assert p[..0] == [] && p[0..] == p;
      MergedFile(source, p, 0);
    }
  }

  // ---- sources that show both conditions

  /** An overlay with one directory that holds one file. */
  function OneFile(n: string, f: string): Tree {
    Dir(map[n := Dir(map[f := File("")])])
  }

  /** A source with that overlay, the directories of third parties, and further top-level entries. */
  function SourceWith(overlay: Tree, others: map<string, Tree>): Tree {
    Dir(others["utils" := Dir(map["bazel" := Dir(map["llvm-project-overlay" := overlay, "third_party_build" := ThirdParty()])])])
  }

  function ThirdParty(): Tree {
    Dir(map["BUILD.bazel" := File("")])
  }

  lemma SourceParts(overlay: Tree, others: map<string, Tree>)
    requires overlay.Dir?
    ensures var source := SourceWith(overlay, others);
      && HasOverlay(source) && OverlayOf(source) == overlay
      && IsDir(source, THIRD_PARTY_BUILD) && ChildrenAt(source, THIRD_PARTY_BUILD) == ThirdParty().children
      && IsDir(source, UTILS) && ChildrenAt(source, UTILS).Keys == {"bazel"}
  {
    var source := SourceWith(overlay, others);
    var bazel := Dir(map["llvm-project-overlay" := overlay, "third_party_build" := ThirdParty()]);
    assert |"third_party_build"| == 17 && |"llvm-project-overlay"| == 20;
    assert source.children["utils"].children == map["bazel" := bazel];
    assert UTILS[1..] == [] && At(source, UTILS) == Some(source.children["utils"]);
    assert OVERLAY[1..] == ["bazel", "llvm-project-overlay"] && OVERLAY[1..][1..] == ["llvm-project-overlay"];
    assert OVERLAY[1..][1..][1..] == [];
    assert At(bazel, ["llvm-project-overlay"]) == Some(overlay);
    assert THIRD_PARTY_BUILD[1..] == ["bazel", "third_party_build"] && THIRD_PARTY_BUILD[1..][1..] == ["third_party_build"];
    assert At(bazel, ["third_party_build"]) == Some(ThirdParty());
  }

  lemma OneFileDirs(n: string, f: string, d: Path)
    ensures IsDir(OneFile(n, f), d) <==> d == [] || d == [n]
    ensures IsDir(OneFile(n, f), d) ==>
      ChildrenAt(OneFile(n, f), d).Keys == (if d == [] then {n} else {f})
      && (d == [] ==> ChildrenAt(OneFile(n, f), d)[n].Dir?)
  {
    var inner := Dir(map[f := File("")]);
    if d != [] && d[0] == n {
      assert At(OneFile(n, f), d) == At(inner, d[1..]);
      if |d| == 1 {
        assert d == [n] && d[1..] == [];
        assert inner.children.Keys == {f};
      } else if d[1..][0] == f {
        assert At(inner, d[1..]) == At(File(""), d[1..][1..]);
      }
    } else if d == [] {
      assert OneFile(n, f).children.Keys == {n};
    }
  }

  lemma OneFileCompatible(source: Tree, n: string, f: string)
    requires HasOverlay(source) && OverlayOf(source) == OneFile(n, f)
    requires IsDir(source, [n]) && f !in ChildrenAt(source, [n])
    ensures Compatible(source) && |Dirs(OverlayOf(source))| <= 1000000
  {
    hide OverlayOf, HasOverlay, Dirs;
    var overlay := OneFile(n, f);
    forall d | IsDir(overlay, d) ensures CompatibleAt(source, d) {
      OneFileDirs(n, f, d);
      RootIsDir(source, [n]);
    }
    forall d ensures d in Dirs(overlay) <==> d == [] || d == [n] {
      DirsExact(overlay, d);
      OneFileDirs(n, f, d);
    }
    assert Dirs(overlay) == {[], [n]};
  }

  lemma RootIsDir(source: Tree, p: Path)
    requires IsDir(source, p)
    ensures IsDir(source, [])
  {
  }

  /** The overlay has a file below utils: replacing utils hides it. */
  lemma UtilsExample()
    ensures var source := SourceWith(OneFile("utils", "f"), map[]);
      && HasOverlay(source) && Compatible(source)
      && !forall p | UTILS <= p :: FileAt(Merge(OverlayOf(source), source), p) == FileAt(source, p)
  {
    hide Merge, Compatible, IsDir, HasOverlay, OverlayOf, OneFile, SourceWith, FileAt, Dirs;
    var overlay := OneFile("utils", "f");
    var source := SourceWith(overlay, map[]);
    UtilsOverlay();
    SourceParts(overlay, map[]);
    OneFileCompatible(source, "utils", "f");
    UtilsReplacementExact(source);
  }

  lemma UtilsOverlay()
    ensures OneFile("utils", "f").Dir? && "f" !in {"bazel"}
    ensures UTILS == ["utils"] && UTILS <= ["utils", "f"] && FileAt(OneFile("utils", "f"), ["utils", "f"]).Some?
  {
    var p := ["utils", "f"];
    assert |"f"| == 1 && |"bazel"| == 5;
    assert p[1..] == ["f"] && p[1..][1..] == [] && p[..1] == UTILS;
    assert At(Dir(map["f" := File("")]), ["f"]) == Some(File(""));
  }

  /** An overlay that covers only llvm, beside a checkout with a bolt directory. */
  function BoltSource(): Tree {
    SourceWith(OneFile("llvm", "BUILD.bazel"),
      map["llvm" := Dir(map["CMakeLists.txt" := File("")]), "bolt" := Dir(map["README" := File("")]),
          "cmake" := Dir(map["Modules" := Dir(map["LLVMVersion.cmake" := File("")])])])
  }

  lemma BoltParts()
    ensures var source := BoltSource();
      && source.Dir? && source.children.Keys == {"llvm", "bolt", "cmake", "utils"}
      && At(source, ["llvm"]) == Some(Dir(map["CMakeLists.txt" := File("")]))
      && At(source, ["bolt"]) == Some(Dir(map["README" := File("")]))
      && FileAt(source.children["cmake"], VERSION_FILE[1..]) == Some("")
      && FileAt(source.children["llvm"], CMAKE_LISTS[1..]) == Some("")
  {
    FreeNames();
    var source := BoltSource();
    assert |"llvm"| == 4 && |"bolt"| == 4 && |"cmake"| == 5 && |"utils"| == 5;
    assert "llvm"[0] == 'l' && "bolt"[0] == 'b' && "cmake"[0] == 'c' && "utils"[0] == 'u';
    assert source.children["llvm"] == Dir(map["CMakeLists.txt" := File("")]);
    assert ["llvm"][1..] == [] && ["bolt"][1..] == [];
    assert VERSION_FILE[1..] == ["Modules", "LLVMVersion.cmake"] && VERSION_FILE[1..][1..] == ["LLVMVersion.cmake"];
    assert VERSION_FILE[1..][1..][1..] == [];
    var modules := Dir(map["LLVMVersion.cmake" := File("")]);
    assert source.children["cmake"] == Dir(map["Modules" := modules]);
    assert At(modules, ["LLVMVersion.cmake"]) == Some(File(""));
    assert At(source.children["cmake"], VERSION_FILE[1..]) == At(modules, ["LLVMVersion.cmake"]);
    assert CMAKE_LISTS[1..] == ["CMakeLists.txt"] && CMAKE_LISTS[1..][1..] == [];
    assert At(source.children["llvm"], CMAKE_LISTS[1..]) == Some(File(""));
  }

  lemma PlannedAbove(source: Tree, p: Path, q: Path)
    requires HasOverlay(source) && Planned(source, q).Some? && p < q
    ensures IsDir(OverlayOf(source), p)
  {
    PlannedBelowDir(source, q);
    var d := Front(q);
    assert d[..|p|] == p;
    if |p| < |d| {
      PrefixIsDir(OverlayOf(source), d, |p|);
    } else {
      assert d[..|d|] == d;
    }
  }

  lemma NoLinksBelow(source: Tree, p: Path)
    requires HasOverlay(source) && !IsDir(OverlayOf(source), p)
    ensures !LinksBelow(source, p)
  {
    if q :| p < q && Planned(source, q).Some? {
      PlannedAbove(source, p, q);
    }
  }

  lemma BoltMergeable()
    ensures Mergeable(BoltSource()) && OverlayOf(BoltSource()) == OneFile("llvm", "BUILD.bazel")
  {
    hide Compatible, Dirs, Merge, OverlayOf;
    var source, overlay := BoltSource(), OneFile("llvm", "BUILD.bazel");
    BoltParts();
    SourceParts(overlay, map["llvm" := Dir(map["CMakeLists.txt" := File("")]), "bolt" := Dir(map["README" := File("")]),
                             "cmake" := Dir(map["Modules" := Dir(map["LLVMVersion.cmake" := File("")])])]);
    assert |"BUILD.bazel"| == 11 && |"CMakeLists.txt"| == 14 && |"pfm.BUILD"| == 9;
    OneFileCompatible(source, "llvm", "BUILD.bazel");
    AtChild(source, THIRD_PARTY_BUILD, "pfm.BUILD");
    assert THIRD_PARTY_BUILD + ["pfm.BUILD"] == PFM_BUILD;
  }

  lemma BoltReads()
    ensures var merged := Merge(OneFile("llvm", "BUILD.bazel"), BoltSource());
      FileAt(merged, CMAKE_LISTS) == FileAt(merged, VERSION_FILE) == Some("")
  {
    hide Merge;
    var source, overlay := BoltSource(), OneFile("llvm", "BUILD.bazel");
    BoltParts();
    assert |"llvm"| == 4 && |"cmake"| == 5 && |"BUILD.bazel"| == 11 && |"CMakeLists.txt"| == 14;
    MergeAt(overlay, source, VERSION_FILE);
    MergeAt(overlay, source, CMAKE_LISTS);
    assert CMAKE_LISTS[1..] == ["CMakeLists.txt"];
    MergeAt(overlay.children["llvm"], source.children["llvm"], CMAKE_LISTS[1..]);
    assert CMAKE_LISTS[1..][1..] == [];
  }

  lemma BoltWritable()
    requires HasOverlay(BoltSource()) && OverlayOf(BoltSource()) == OneFile("llvm", "BUILD.bazel")
    ensures TopLink(BoltSource(), "bolt") && Writable(BoltSource(), "bolt")
  {
    hide OverlayOf, HasOverlay;
    var source := BoltSource();
    BoltParts();
    assert |"llvm"| == 4 && |"bolt"| == 4 && "llvm"[0] != "bolt"[0] && |"targets.bzl"| == 11 && |"README"| == 6;
    OneFileDirs("llvm", "BUILD.bazel", []);
    assert Front(["bolt"]) == [] && Final(["bolt"]) == "bolt";
    assert Planned(source, ["bolt"]) == Some(["bolt"]);
    var p := ["bolt"] + ["targets.bzl"];
    AtChild(source, ["bolt"], "targets.bzl");
    assert p[..0] == [] && p[..1] == ["bolt"];
    assert FileAt(source, p[..0]).None? && FileAt(source, p[..1]).None?;
  }

  /** The rule accepts it, and writes bolt/targets.bzl into the checkout. */
  lemma BoltExample()
    ensures Accepted(BoltSource()) && !Safe(BoltSource()) && Spoiled(BoltSource()) == {BOLT_TARGETS}
  {
    hide Mergeable, OverlayOf, HasOverlay, Planned, LinksBelow, Merge;
    var source := BoltSource();
    BoltMergeable();
    BoltHasOverlay();
    BoltReads();
    BoltWritable();
    assert |"llvm"| == 4 && |"bolt"| == 4 && "llvm"[0] != "bolt"[0];
    FreeNames();
    OneFileDirs("llvm", "BUILD.bazel", BUILD_FILE);
    OneFileDirs("llvm", "BUILD.bazel", VARS_FILE);
    OneFileDirs("llvm", "BUILD.bazel", LLVM_TARGETS);
    OneFileDirs("llvm", "BUILD.bazel", ["llvm"]);
    NoLinksBelow(source, BUILD_FILE);
    NoLinksBelow(source, VARS_FILE);
    NoLinksBelow(source, LLVM_TARGETS);
    TopLinkExact(source, "llvm");
    assert Prepared(source);
    SafeExact(source);
  }

  lemma BoltHasOverlay()
    requires Mergeable(BoltSource())
    ensures HasOverlay(BoltSource())
  {
  }
}
