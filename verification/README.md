# Verified models of the toolchain's tools

Dafny models of the parts of this repository that compute something: the case-insensitive overlay
generator, the pbzx read filter, the LLVM source/overlay link farm, the DEF file generator, the static
library validator, and the pthread handshake test. Imperative code is modelled by methods and classes that
update their state step by step; each is proved against a specification function, and what the program is
for is proved about that function. `dafny verify dfyconfig.toml` checks everything.

Strings are sequences of characters, one per byte; nothing depends on a bound on the character code, so
bytes from 0x80 up are opaque. Sizes and 64-bit fields are unbounded naturals; the bounds that matter (a
64-bit length fits its field) are written out.

| component | files |
|---|---|
| shared text, order and sorting | `Sequences`, `CText`, `Results`, `Sorting` |
| case-insensitive overlay | `CiFilesystem`, `CiDisk`, `CiVfs`, `Json`, `CiOverlayJson`, `CiOverlay`, `CiLookups`, `CiErrors`, `CiDocument` |
| pbzx filter | `Pbzx` |
| LLVM repository rules | `LinkFarm`, `Substitution`, `LlvmProject`, `OverlayCopy` |
| DEF files | `SortedSet`, `ShellArgument`, `ShellWords`, `DefFile`, `DefGenerator`, `ParameterFile`, `DefRun`, `DefExports` |
| static library validator | `StaticLibrary`, `ValidatorLines` |
| handshake | `Handshake` |

How the environment enters:

- A directory tree is a value whose entries come in any order; a path string is resolved in it component by
  component, as POSIX does. `qsort` is known only by its contract
  (`Sorting.SortOf`: sorted, and a permutation); results that do not depend on ties are proved from that.
- The pbzx upstream is a class whose `Ahead` returns any non-empty window at the position.
- The Bazel repository directory is a class of links, directories and files beside the source tree its links
  lead into. `symlink` makes missing parents and fails where something exists, `delete` removes a tree, `file`
  replaces a file, a link or an empty directory, and fails on anything else. A file written through a link is
  stored in the source; `touched` records every such path.
- Threads are step relations that interleave freely, with spurious wake-ups as an extra step.

Results worth knowing before changing the code:

- The overlay generator joins paths without a separator after a backslash. On POSIX a directory whose path
  ends in one is read, but its entries are looked up beside it (`CiDisk.JoinResolves`). The overlay is that of
  the tree exactly when what the joined paths lead to is alike what the tree lists (`CiOverlay.PathsExact`), in
  particular when no such path is entered; `CiOverlay.BackslashExample` is a tree where it fails.
- Two roots whose generic forms are equal make the emitted bytes depend on `qsort` exactly when all roots
  render and the two directories differ in a preferred name or in the kind of a node
  (`CiOverlay.RootOrderExact`, `CiOverlay.TwinExample`).
- The rule for a local checkout writes `llvm/targets.bzl` and `bolt/targets.bzl`. It leaves the checkout alone
  exactly when each of `llvm` and `bolt` is a directory of the overlay or in neither tree
  (`LlvmProject.SafeExact`); `LlvmProject.BoltExample` is a source it accepts and writes into.
- Replacing `utils` by links into the source keeps the merged view exactly when the overlay has no file
  under `utils` (`LlvmProject.UtilsReplacementExact`, `LlvmProject.UtilsExample`); the comment at
  `private/llvm_project_from_path.bzl:9` takes that for granted. The model follows the code.
- Copying the overlay over a checkout that holds it can add to what is being copied. The copy is exact for
  every target in which what would be stored below the overlay's own directory is there already
  (`OverlayCopy.StableExact`, `OverlayCopy.UnstableExample`).
- A DEF file round trip can fail only through a newline in the DLL name (`DefFile.RoundTripExact`,
  `DefFile.NewlineExample`).
- `trim` before shell decoding loses an escaped space at the end of a parameter line
  (`ParameterFile.TrimExact`, `ParameterFile.TrimBreaksEscapedSpace`).
- The validator pairs the first `[` of a line with the first `]` after it. The entry of
  `archive[member]: symbol type` is recovered exactly when the archive's path has no `[` and the member's name no
  `]`, or a bracket pair in the path happens to be followed by the very same entry
  (`StaticLibrary.RecoveredExact`). Otherwise a pair that closes too early makes the line be dropped unless a
  colon and a blank follow it, and a `[` that the path leaves open gives the member a longer name
  (`StaticLibrary.DroppedExample`, `StaticLibrary.MemberExample`, `StaticLibrary.MisnamedExample`).
- The overlay emits paths with every backslash turned into a slash. On POSIX a file whose path holds a backslash
  is listed under a path that leads elsewhere or nowhere, also where no entered path ends in one
  (`CiLookups.ExternalExact`, `CiLookups.SlashedExample`).

## Model

| member | source | states |
|---|---|---|
| CText.LessTrichotomy | tools/case_insensitive_vfs/filesystem.c:80-89 | strcmp orders any two strings one way and calls only equal ones equal |
| CText.LessExact | tools/case_insensitive_vfs/filesystem.c:80-89 | strcmp's order: a proper beginning of the other string, or the smaller character at the first place where they differ |
| CText.SpaceTable | tools/def_file_generator/def_file_generator.c:116-127 | white space is the six characters of isspace in the C locale |
| CText.CapitalTable | tools/case_insensitive_vfs/filesystem.c:69-78 | the 26 capitals, each with its small letter; every other character is left as it is |
| Sorting.SortUnique | tools/case_insensitive_vfs/filesystem.c:228-229 | two results of any contract-abiding sort are equal once the comparator ties only equal elements |
| CiFilesystem.FoldCase | tools/case_insensitive_vfs/filesystem.c:69-78 | the loop stores the folded name, then its terminator |
| CiFilesystem.FoldIsLast | tools/case_insensitive_vfs/filesystem.c:69-89 | folding never makes a name smaller, so the lowercase spelling sorts last in its class |
| CiFilesystem.EntryOrderTotal | tools/case_insensitive_vfs/filesystem.c:80-89 | compare_entries is a total preorder, as qsort demands, and ties only identical entries |
| CiFilesystem.LowercaseClosesClass | tools/case_insensitive_vfs/filesystem.c:80-89 | in the sorted array a class's lowercase member is its last element |
| CiFilesystem.CollisionExact | tools/case_insensitive_vfs/filesystem.c:103-134 | the scan objects exactly when two entries share a folded name and none of that class is lowercase |
| CiFilesystem.CollisionMeansAmbiguous | tools/case_insensitive_vfs/filesystem.c:103-134 | the same, said of the set of names on disk |
| CiFilesystem.CollapsedStrict | tools/case_insensitive_vfs/filesystem.c:136-168 | the kept folded names are strictly increasing |
| CiFilesystem.CollapsedCovers | tools/case_insensitive_vfs/filesystem.c:136-168 | every fold class keeps a member, its lowercase one when it has one |
| CiFilesystem.KeptArePreferred | tools/case_insensitive_vfs/filesystem.c:136-168 | a name is kept exactly when it is lowercase or alone in its class |
| CiFilesystem.PreferredListing | tools/case_insensitive_vfs/filesystem.c:170-237 | sort, validate and collapse together: fail exactly on ambiguous names, else list exactly the preferred ones, increasing |
| CiFilesystem.DirectoryEntries.Append | tools/case_insensitive_vfs/filesystem.c:91-101 | growing keeps all entries and adds the name with its folded form |
| CiFilesystem.DirectoryEntries.Validate | tools/case_insensitive_vfs/filesystem.c:103-134 | the array scan finds the first colliding class and names its first two spellings |
| CiErrors.CollisionNames | tools/case_insensitive_vfs/filesystem.c:103-134 | the two spellings named, said of the set of names: the two smallest of the first folded name that has several spellings but no lowercase one |
| CiFilesystem.DirectoryEntries.Collapse | tools/case_insensitive_vfs/filesystem.c:136-168 | the in-place compaction leaves the collapsed listing, and kept and freed entries together are the old entries, each once |
| CiFilesystem.DirectoryEntries.Release | tools/case_insensitive_vfs/filesystem.c:157-162 | of a class, everything but the selected entry is freed once |
| CiFilesystem.JoinPath | tools/case_insensitive_vfs/filesystem.c:250-262 | the two copies and the separator give the joined path |
| CiFilesystem.GenericPath | tools/case_insensitive_vfs/filesystem.c:264-273 | the loop turns every backslash into a slash and nothing else |
| CiFilesystem.GenericJoin | tools/case_insensitive_vfs/filesystem.c:250-273 | the generic form of a joined path depends only on the generic form of its directory |
| CiFilesystem.EscapedSize | tools/case_insensitive_vfs/filesystem.c:281-286 | the first pass reserves enough room for the escaped string and its terminator |
| CiFilesystem.JsonString | tools/case_insensitive_vfs/filesystem.c:275-334 | the second pass writes the quoted string inside that room |
| CiDisk.JoinResolves | tools/case_insensitive_vfs/filesystem.c:250-262 | where a joined path leads: to the directory's entry, but after a backslash to what its parent lists under the two names glued together |
| CiOverlay.DirNamesExact | tools/case_insensitive_vfs/filesystem.c:212-226 | every entry but `.` and `..` is collected, hidden files included |
| CiDisk.BelowDecreases | tools/case_insensitive_vfs/vfs.c:99-125 | the recursion over joined paths always ends |
| CiVfs.TextBuffer.Reserve | tools/case_insensitive_vfs/vfs.c:21-33 | doubling makes room for the text and its terminator and keeps what was written |
| CiVfs.TextBuffer.Append | tools/case_insensitive_vfs/vfs.c:35-46 | the text grows by exactly the value and stays terminated |
| CiVfs.TextBuffer.Indent | tools/case_insensitive_vfs/vfs.c:67-71 | so many spaces are appended |
| CiVfs.CollectPreferredEntries | tools/case_insensitive_vfs/filesystem.c:170-237 | the error, or exactly the collapsed sorted listing of the directory; no entry is sorted when there is at most one |
| CiVfs.SortEntries | tools/case_insensitive_vfs/filesystem.c:227-229 | whatever qsort does, the result is the one sorted listing |
| CiVfs.RenderEntry | tools/case_insensitive_vfs/vfs.c:99-151 | one entry, found by resolving its joined path, appends its node's text, or reports its stat, symlink or type error |
| CiVfs.RenderDirectory | tools/case_insensitive_vfs/vfs.c:73-167 | the recursive printer appends the text of what the joined paths lead to, or reports the first error of the walk |
| CiVfs.RootOrderTotal | tools/case_insensitive_vfs/vfs.c:169-173 | compare_roots meets qsort's contract |
| CiVfs.Generate | tools/case_insensitive_vfs/vfs.c:175-227 | for some order qsort may leave, the whole document of the roots, or the first root's error under its generic name |
| CiOverlayJson.StringRoundTrip | tools/case_insensitive_vfs/filesystem.c:275-334 | an RFC 8259 section 7 reader recovers every string from its quoted form |
| CiDocument.ControlEscapes | tools/case_insensitive_vfs/filesystem.c:318-326 | control characters without a short escape: four lower-case hexadecimal digits |
| CiOverlayJson.NodeRoundTrip | tools/case_insensitive_vfs/vfs.c:73-167 | the text of a node, at any depth and indentation, parses to exactly that node and leaves the rest |
| CiOverlayJson.DocumentRoundTrip | tools/case_insensitive_vfs/vfs.c:194-219 | the emitted document parses (RFC 8259 sections 2 to 5 and 7) to the document of the canonical trees |
| CiOverlayJson.TextInjective | tools/case_insensitive_vfs/vfs.c:194-219 | different overlays have different texts |
| CiOverlay.SucceedsExactly | tools/case_insensitive_vfs/vfs.c:99-151 | a directory renders exactly when every directory entered is readable and unambiguous and the joined path of every selected entry leads to a regular file or a directory that is no symlink |
| CiOverlay.GenerationExact | tools/case_insensitive_vfs/vfs.c:175-227 | generation succeeds exactly when all roots are renderable, and the text then parses to the overlay of the sorted roots |
| CiDocument.EmittedDocument | tools/case_insensitive_vfs/vfs.c:194-219 | without the overlay datatype: the parsed text has one directory for each root, in order, under the root's path in generic form, and every case-insensitive lookup in it answers as descending from that root does |
| CiDocument.RootsInOrder | tools/case_insensitive_vfs/vfs.c:169-192 | the roots come in the byte order of their generic forms |
| CiDocument.PathsKept | tools/case_insensitive_vfs/vfs.c:181-192 | each root comes as often as it was given |
| CiDocument.LookupJsonAgrees | tools/case_insensitive_vfs/vfs.c:73-167 | looking up in the document is looking up in the overlay it stands for |
| CiErrors.ErrorBlames | tools/case_insensitive_vfs/vfs.c:73-167 | the error reported for a directory: unreadable, the first ambiguous names, or else what is wrong, at any depth, with the first preferred entry in folded order that cannot be rendered, under its path |
| CiErrors.FailureBlames | tools/case_insensitive_vfs/vfs.c:196-213 | a run that fails blames the first root, in the sorted order, that cannot be rendered |
| CiOverlay.GenerationFollowsTree | tools/case_insensitive_vfs/vfs.c:175-227 | with no entered path ending in a backslash, that is decided by descending the trees below the roots |
| CiOverlay.AlikeExact | tools/case_insensitive_vfs/vfs.c:73-167 | two directories give the same overlay exactly when both render, have the same preferred names and, at those, the same kinds of node at every depth |
| CiOverlay.PathsExact | tools/case_insensitive_vfs/filesystem.c:250-262 | the program's overlay is that of the tree exactly when what its joined paths lead to is alike the tree |
| CiOverlay.StraightIsTree | tools/case_insensitive_vfs/filesystem.c:250-262 | with no entered path ending in a backslash, overlay and errors are those of the tree |
| CiOverlay.BackslashLoses | tools/case_insensitive_vfs/filesystem.c:250-262 | a directory whose path ends in a backslash fails on every entry its parent does not list under the glued name |
| CiOverlay.BackslashExample | tools/case_insensitive_vfs/filesystem.c:250-262 | the directory `d\` with a file in it: renderable as a tree, an error for the program |
| CiOverlay.AliasIrrelevant | tools/case_insensitive_vfs/filesystem.c:136-168 | with no entered path ending in a backslash, whatever an unselected alias leads to, result and errors are the same |
| CiOverlay.AliasExample | tools/case_insensitive_vfs/filesystem.c:250-262 | without that condition: an unselected alias that stands at a glued name decides whether generation succeeds |
| CiLookups.JoinMoves | tools/case_insensitive_vfs/filesystem.c:250-262 | the entries a joined path goes through: the directory's and the name, or after a backslash the last two names glued together |
| CiLookups.UnlookedIrrelevant | tools/case_insensitive_vfs/vfs.c:99-157 | for every disk: what an entry at any depth leads to matters only if a joined path of the walk leads to it or through it |
| CiOverlay.EnumerationIrrelevant | tools/case_insensitive_vfs/filesystem.c:212-229 | listing the entries of any directories, at every depth, in another order changes no result and no error |
| CiOverlay.ViewDecides | tools/case_insensitive_vfs/vfs.c:73-167 | at every depth at once: walks that meet the same names and the same nodes at selected entries give the same overlay |
| CiOverlay.OverlayDeterministic | tools/case_insensitive_vfs/vfs.c:187-192 | same bytes for every permutation of the roots, every enumeration order and every sort, when generic forms differ |
| CiOverlay.RootOrderExact | tools/case_insensitive_vfs/vfs.c:169-192 | for every root list: the bytes depend on how the sort breaks ties exactly when all roots render and two of one generic form are not alike |
| CiOverlay.TwinExample | tools/case_insensitive_vfs/vfs.c:169-192 | the roots `a/b` and `a\b`, on a disk where they do |
| CiOverlay.LookupAgrees | tools/case_insensitive_vfs/vfs.c:99-157 | a case-insensitive lookup finds what the joined paths lead to at the preferred spellings, file contents under that path in generic form, and nothing else |
| CiOverlay.LookupFollowsTree | tools/case_insensitive_vfs/vfs.c:99-157 | with no entered path ending in a backslash, that is what the tree lists there, and the node's own path leads to it (the emitted generic form need not) |
| CiLookups.ExternalExact | tools/case_insensitive_vfs/vfs.c:126-137 | below a directory without a backslash in its path, the emitted path leads to the file exactly when the pieces of its name between backslashes do; in particular when it has none |
| CiLookups.ExternalLeads | tools/case_insensitive_vfs/vfs.c:126-137 | with no backslash in the root or in a selected name, every emitted external-contents leads to the file it stands for |
| CiLookups.SlashedExample | tools/case_insensitive_vfs/filesystem.c:264-273 | a file `a\b`, emitted as a path where nothing is |
| CiOverlay.AtMostOneAnswer | tools/case_insensitive_vfs/vfs.c:99-157 | at every depth at most one child answers to a name |
| Pbzx.Filter.ReadBytes | 3rd_party/libarchive/0002-feat-add-pbzx-read-filter.patch:286-311 | for every choice of windows, exactly the next bytes, or a failure exactly when too few are left |
| Pbzx.Filter.ReadU64 | 3rd_party/libarchive/0002-feat-add-pbzx-read-filter.patch:313-322 | the big-endian value of the next eight bytes |
| Pbzx.BytesOfBe | 3rd_party/libarchive/0002-feat-add-pbzx-read-filter.patch:313-322 | big-endian decoding loses nothing: the bytes can be had back |
| Pbzx.BeFirst | 3rd_party/libarchive/0002-feat-add-pbzx-read-filter.patch:313-322 | the first byte counts most |
| Pbzx.SixtyFourBits | 3rd_party/libarchive/0002-feat-add-pbzx-read-filter.patch:313-322 | eight bytes hold exactly the numbers below 2^64 |
| Pbzx.Filter.ReadSignature | 3rd_party/libarchive/0002-feat-add-pbzx-read-filter.patch:337-353 | moves to the block header with the rest of the stream still to come, or fails where the stream cannot start |
| Pbzx.Filter.ReadHeader | 3rd_party/libarchive/0002-feat-add-pbzx-read-filter.patch:368-381 | moves into the block with its length owed, or fails on a short or oversized header |
| Pbzx.Filter.Deliver | 3rd_party/libarchive/0002-feat-add-pbzx-read-filter.patch:387-403 | a non-empty part of the block, never more than is owed, or a failure when the stream ends early |
| Pbzx.Filter.Read | 3rd_party/libarchive/0002-feat-add-pbzx-read-filter.patch:324-408 | each call ends and returns the next part of what is pending; 0 only at a clean end; the upstream stands at the bytes of the headers read and the payload returned |
| Pbzx.Drain | 3rd_party/libarchive/0002-feat-add-pbzx-read-filter.patch:324-408 | the buffers read until the filter stops are what the stream decodes to, whatever the windows; a clean end has used up the upstream |
| Pbzx.Extract | 3rd_party/libarchive/0002-feat-add-pbzx-read-filter.patch:265-408 | the same from the first byte of a fresh filter |
| Pbzx.DataSplit | 3rd_party/libarchive/0002-feat-add-pbzx-read-filter.patch:397-403 | where a block is split between calls does not matter |
| Pbzx.WellFormedDecodes | 3rd_party/libarchive/0002-feat-add-pbzx-read-filter.patch:324-408 | a well-formed stream decodes to the concatenated payloads, empty blocks included |
| Pbzx.StreamCut | 3rd_party/libarchive/0002-feat-add-pbzx-read-filter.patch:324-408 | cut anywhere, a stream gives the payload before the cut, and ends cleanly exactly at a block boundary after the header |
| Pbzx.CleanMeansWellFormed | 3rd_party/libarchive/0002-feat-add-pbzx-read-filter.patch:324-408 | only well-formed streams end cleanly |
| Pbzx.BrokenStream | 3rd_party/libarchive/0002-feat-add-pbzx-read-filter.patch:355-403 | after well-formed blocks, a short header or one that announces more than the block size adds nothing, a payload cut short adds what is there, and each ends in a failure, however the upstream ends |
| Pbzx.StreamOrBroken | 3rd_party/libarchive/0002-feat-add-pbzx-read-filter.patch:324-408 | every stream with a magic and a block size is well-formed blocks with no such ending or one |
| Pbzx.BidExact | 3rd_party/libarchive/0002-feat-add-pbzx-read-filter.patch:239-257 | the bid is 32 on the openings of streams that end cleanly and 0 on everything else; every stream that can deliver anything is bid on |
| LinkFarm.RelativePathExtends | private/llvm_project_common.bzl:101-104 | the text of a relative path names the same list of components |
| LinkFarm.DirsExact | private/llvm_project_common.bzl:121-145 | the directories counted against the bound are exactly the directories of the tree |
| LinkFarm.FrontierStep | private/llvm_project_common.bzl:127-134 | popping a directory and pushing its subdirectories keeps every overlay directory processed, waiting or below a waiting one, none twice |
| LinkFarm.VisitOverlay | private/llvm_project_common.bzl:130-136 | links every overlay file beside it, pushes every subdirectory once, and cannot fail |
| LinkFarm.VisitSource | private/llvm_project_common.bzl:138-141 | links every source entry the overlay has no directory for; fails exactly on a name the overlay has as a file |
| LinkFarm.SymlinkSourceAndOverlay | private/llvm_project_common.bzl:121-145 | returns normally exactly when overlay and source are compatible and the directories are within the bound; never writes through a link |
| LinkFarm.ViewIsMerge | private/llvm_project_common.bzl:121-145 | at every path the finished farm opens what the recursive overlay-over-source merge has |
| LinkFarm.MergeExact | private/llvm_project_common.bzl:121-145 | that merge: where the overlay has an entry it alone decides, below a file of the overlay there is nothing, everywhere else the source decides |
| LinkFarm.OverlayPlace | private/llvm_project_common.bzl:122 | the overlay is the source's directory utils/bazel/llvm-project-overlay |
| LinkFarm.LinksAreApart | private/llvm_project_common.bzl:136-141 | no link stands below another |
| LinkFarm.ReplaceDirectory | private/llvm_project_from_path.bzl:12-16 | delete and relink: one link for each child of the source directory, nothing else changed |
| LinkFarm.MaterializeThirdPartyBuild | private/llvm_project_from_path.bzl:8-16 | the three directories become real ones, below utils the target shows the source, elsewhere it is unchanged, and the source is not touched |
| LinkFarm.PutFileAt | private/llvm_project_common.bzl:54-66 | a file stored in a tree changes what is read at its path alone |
| LinkFarm.WriteShown | private/llvm_project_common.bzl:54-66 | rctx.file fails exactly below a file or on a directory that is not empty; else the target shows the new file, nothing below it, and all else as before, whether it lands in the target or behind a link |
| LlvmProject.UtilsReplacementExact | private/llvm_project_from_path.bzl:8-16 | replacing utils changes no view exactly when the overlay has no file under utils, in particular when it has no utils |
| LlvmProject.UtilsExample | private/llvm_project_from_path.bzl:8-16 | a compatible source on which it does |
| LlvmProject.Rewrite | private/llvm_project_common.bzl:84-85 | delete and write always succeed and change that path of the target alone |
| Substitution.SubstitutedNext | private/llvm_project_common.bzl:78-81 | str.replace: text before an occurrence is kept, the occurrence is replaced once |
| Substitution.SubstitutedExact | private/llvm_project_common.bzl:78-81 | the result is the text with the pattern replaced between the pieces in which, from left to right, it does not begin, and nothing else is |
| LlvmProject.IgnoredExact | private/llvm_project_common.bzl:74-83 | with both texts written out: the new .bazelignore is the old one with the utils/bazel text replaced by the llvm-project-overlay text; without the old text it is kept |
| LlvmProject.ExposeThirdPartyBuildFiles | private/llvm_project_common.bzl:68-85 | where pfm.BUILD exists, as file or directory, both files are rewritten, .bazelignore with the overlay's path substituted; else nothing happens; fails exactly when .bazelignore cannot be read |
| LlvmProject.Prepare | private/llvm_project_from_path.bzl:18-25 | the sources accepted so far exactly, and what the target then shows |
| LlvmProject.WriteTexts | private/llvm_project_common.bzl:87-98 | BUILD.bazel and vars.bzl are written exactly when nothing stands there and both files to read are in view |
| LlvmProject.WriteTargets | private/llvm_project_common.bzl:54-66 | both targets.bzl are written exactly when nothing stands in their way, in the source where the directory is a link |
| LlvmProject.LlvmProjectFromPath | private/llvm_project_from_path.bzl:18-26 | the accepted sources exactly, the final view of every path, and exactly which paths of the source are written, on success and on failure |
| LlvmProject.FinishedFiles | private/llvm_project_from_path.bzl:18-26 | the final view of BUILD.bazel, vars.bzl and the two targets.bzl, by name; vars.bzl comes from the merged CMakeLists.txt and LLVMVersion.cmake |
| LlvmProject.FinishedExposed | private/llvm_project_from_path.bzl:18-26 | where pfm.BUILD exists, the final .bazelignore is the merged one with the old text replaced by the new one, both written out, and the third-party BUILD.bazel exports pfm.BUILD |
| LlvmProject.FinishedUnexposed | private/llvm_project_from_path.bzl:18-26 | where it does not exist, those two are as the merge and the source have them |
| LlvmProject.FinishedElsewhere | private/llvm_project_from_path.bzl:18-26 | at every other path the source's file below utils, and else the overlay's laid over the source's |
| LlvmProject.SafeExact | private/llvm_project_from_path.bzl:18-26 | an accepted source is left alone exactly when llvm and bolt each are a directory of the overlay or in neither tree; a safe one always is |
| LlvmProject.BoltExample | private/llvm_project_common.bzl:61-66 | an accepted source with a bolt directory, into which bolt/targets.bzl is written |
| OverlayCopy.OverlayReadExact | private/llvm_project_common.bzl:106-116 | a write leaves the overlay as the traversal reads it exactly when it lands elsewhere or stores what is there |
| OverlayCopy.StableExact | private/llvm_project_common.bzl:106-116 | no write of the copy changes what it reads exactly when every file it would store below the overlay is there already |
| OverlayCopy.NestedOverlayExample | private/llvm_project_common.bzl:106-116 | an overlay of which that is not so |
| OverlayCopy.CopyDirectory | private/llvm_project_common.bzl:110-116 | one directory's files are written, through links or not, its subdirectories pushed once; fails only where a file meets a directory that is not empty or lies below a file |
| OverlayCopy.CopyOverlay | private/llvm_project_common.bzl:106-119 | on every target, linked or not: a normal return is a run of the traversal, each entry taken as it is read then; on stable ones it comes exactly within the bound and with nothing in the way, and then the view of every path, what is stored in the source, and nothing else |
| OverlayCopy.CopyShowsMerge | private/llvm_project_common.bzl:106-119 | copying shows, at every path, what the link farm shows, the overlay laid over the source, exactly unless the source has a file there and the overlay a directory |
| OverlayCopy.UnstableExample | private/llvm_project_common.bzl:106-119 | a checkout on which a run returns normally with another file's content, because the overlay was changed before it was read |
| OverlayCopy.PlainCheckout | private/llvm_project_from_git.bzl:15-18 | without strip_prefix the target is the checkout: every file lands in the tree the overlay is read from |
| OverlayCopy.StrippedCheckout | private/llvm_project_from_git.bzl:19-24 | with strip_prefix a file lands in the checkout exactly when it lies below one of its top-level entries |
| SortedSet.InsertedFacts | tools/def_file_generator/def_file_generator.c:64-80 | insertion keeps the list strictly increasing and adds exactly the value |
| SortedSet.InsertionOrderIrrelevant | tools/def_file_generator/def_file_generator.c:64-80 | the array depends only on the set of strings inserted |
| SortedSet.StringSet.Insert | tools/def_file_generator/def_file_generator.c:64-80 | search, growth and shifting in place give the list with the value inserted |
| SortedSet.StringSet.ShiftUp | tools/def_file_generator/def_file_generator.c:76-77 | the tail moves up one slot unchanged |
| DefGenerator.LineReader.ReadLine | tools/def_file_generator/def_file_generator.c:90-114 | successive calls give the lines of the file, then nothing |
| DefFile.LinesExact | tools/def_file_generator/def_file_generator.c:90-114 | the lines of a file: each that ends in a newline, and what follows the last newline unless it is empty |
| DefExports.CStringCuts | tools/def_file_generator/def_file_generator.c:349-361 | a line ends for the string functions at its first NUL |
| ParameterFile.Trim | tools/def_file_generator/def_file_generator.c:116-127 | a start and an end in the same buffer that hold the trimmed text |
| ParameterFile.TrimExact | tools/def_file_generator/def_file_generator.c:544 | trimming before decoding is harmless exactly when nothing is cut at the end, or what is left does not end in a backslash that escapes |
| ParameterFile.EscapeExact | tools/def_file_generator/def_file_generator.c:147-174 | the decoder complains of a trailing escape exactly on a text that ends in an unescaped backslash outside single quotes, no second argument begun |
| ParameterFile.TrimBreaksEscapedSpace | tools/def_file_generator/def_file_generator.c:544 | an input on which it is not |
| ParameterFile.ParameterFileRoundTrip | tools/def_file_generator/def_file_generator.c:535-553 | a file of single-quoted names gives back exactly the names |
| ParameterFile.TrimmedExact | tools/def_file_generator/def_file_generator.c:116-127 | trimming takes the white space at both ends and nothing else |
| ParameterFile.NamesExact | tools/def_file_generator/def_file_generator.c:542-551 | a file is read exactly when every line decodes, each to its name; no line is passed over |
| ParameterFile.FirstErrorExact | tools/def_file_generator/def_file_generator.c:542-551 | and fails exactly with the error of the first line that does not, a blank line included |
| ParameterFile.ReadParameterFile | tools/def_file_generator/def_file_generator.c:542-551 | the loop returns the decoded names, or the first line's error |
| ShellArgument.DecodeShellArgument | tools/def_file_generator/def_file_generator.c:129-192 | the in-place decoder equals the automaton with a separate output on every string, the write cursor never ahead |
| ShellArgument.SingleQuotedRoundTrip | tools/def_file_generator/def_file_generator.c:129-192 | decoding the single-quoted form (section 2.2.2 of the POSIX.1-2017 Shell Command Language) of any string gives it back |
| ShellArgument.DoubleQuotedRoundTrip | tools/def_file_generator/def_file_generator.c:144-156 | the same for double quotes with escapes |
| ShellWords.AcceptedExact | tools/def_file_generator/def_file_generator.c:129-192 | an argument is accepted exactly when it is white space, one or more pieces (plain, escaped, single- or double-quoted) and white space; it is what the pieces stand for |
| ShellWords.RefusedExact | tools/def_file_generator/def_file_generator.c:129-192 | the four errors, each with exactly the texts that give it: only white space, something after the argument, a quote left open, a backslash with nothing to take |
| DefGenerator.ReadDefLine | tools/def_file_generator/def_file_generator.c:349-361 | the entry a DEF line contributes, if any |
| DefFile.DefEntryPrintable | tools/def_file_generator/def_file_generator.c:349-361 | it is never empty, never starts with a blank and never holds the data marker |
| DefExports.DefLineReads | tools/def_file_generator/def_file_generator.c:349-361 | a line gives the symbol after its blanks, as data exactly when the data marker follows it |
| DefExports.DefLineIgnored | tools/def_file_generator/def_file_generator.c:349-361 | blank lines and those that begin with LIBRARY or EXPORTS give nothing |
| DefGenerator.NormalizeStdcall | tools/def_file_generator/def_file_generator.c:381-395 | the cut and the shift in place give the undecorated name, or leave the symbol alone |
| DefFile.NormalizedStdcall | tools/def_file_generator/def_file_generator.c:381-395 | `_name@digits` becomes `name`, whatever the name |
| DefExports.NormalizedExact | tools/def_file_generator/def_file_generator.c:381-395 | for every symbol: `_name@digits` becomes `name`, any other symbol is kept |
| DefFile.NmEntryPrintable | tools/def_file_generator/def_file_generator.c:397-414 | an nm symbol that is kept survives a trip through a DEF file |
| DefExports.NmEntryExact | tools/def_file_generator/def_file_generator.c:397-414 | by name and type written out: data for B, D, G and S, other for the remaining kept types, nothing for U, V, W, C, non-capitals, R without `??_7`, and the excluded names |
| DefGenerator.FindSeparator | tools/def_file_generator/def_file_generator.c:425-428 | the scan finds the last separator |
| DefGenerator.NmLineRecovered | tools/def_file_generator/def_file_generator.c:416-457 | symbol and type are recovered for every object path, also one that holds the separator |
| DefExports.NmLineCases | tools/def_file_generator/def_file_generator.c:420-452 | blank and malformed lines, told by their text |
| DefExports.NoType | tools/def_file_generator/def_file_generator.c:436-452 | a line that ends behind its symbol has no type and exports nothing |
| DefGenerator.ReadNmLine | tools/def_file_generator/def_file_generator.c:420-452 | one line: malformed, blank, or the symbol after the last separator with its type |
| DefFile.OutputOrderIrrelevant | tools/def_file_generator/def_file_generator.c:561-583 | the bytes depend only on the set of contributed symbols and kinds |
| DefFile.NoOverlap | tools/def_file_generator/def_file_generator.c:354 | the data marker cannot begin inside a printable symbol that it follows |
| DefFile.RoundTripExact | tools/def_file_generator/def_file_generator.c:340-369 | merging a written file gives the sets back exactly when lines hidden in the DLL name add nothing new |
| DefFile.NewlineExample | tools/def_file_generator/def_file_generator.c:569-570 | a DLL name that adds a symbol |
| DefFile.RoundTrip | tools/def_file_generator/def_file_generator.c:561-583 | with a newline-free DLL name it always does, for the sets of every sequence of inputs |
| DefFile.CollectedReachable | tools/def_file_generator/def_file_generator.c:397-414 | after any inputs both sets are increasing and hold printable symbols only |
| DefRun.SymbolSets.MergeDefinitionFile | tools/def_file_generator/def_file_generator.c:340-369 | adds to the two sets what the file's lines contribute, in order |
| DefRun.ReadNmSymbol | tools/def_file_generator/def_file_generator.c:397-414 | normalised in its buffer, the symbol contributes exactly what the specification says |
| DefRun.SymbolSets.ParseNmOutput | tools/def_file_generator/def_file_generator.c:416-457 | fails exactly on output with a malformed line, else adds what its lines contribute |
| DefRun.SymbolSets.WriteDefFile | tools/def_file_generator/def_file_generator.c:561-583 | the bytes written for the two sets |
| DefRun.GenerateDef | tools/def_file_generator/def_file_generator.c:591-614 | the whole run, DEF files first |
| DefExports.RunSets | tools/def_file_generator/def_file_generator.c:591-614 | for every symbol: it is in a run's data set, or in the other one, exactly when some DEF line or some nm line of the types and names written out puts it there |
| DefExports.OneSymbolRun | tools/def_file_generator/def_file_generator.c:591-614 | a well-formed nm line on its own, from text to text: exported as DATA, as code, or not at all, by its type and name |
| DefExports.DefTextLines | tools/def_file_generator/def_file_generator.c:561-583 | the lines of the written file: LIBRARY if the DLL has a name, EXPORTS, then each data symbol and each other one |
| DefRun.OutputIsFixpoint | tools/def_file_generator/def_file_generator.c:591-614 | a run on a run's own output writes the same bytes |
| DefRun.RunOrderIrrelevant | tools/def_file_generator/def_file_generator.c:591-614 | neither the order and number of DEF files nor that of nm lines shows in the output |
| StaticLibrary.ReadNmLine | tools/internal/static_library_validator.c:267-296 | the bounded scan gives what the line's grammar gives |
| StaticLibrary.ParsedExact | tools/internal/static_library_validator.c:267-296 | a line gives an entry exactly when it has the form `archive[member]: symbol type ...` with that member, symbol and kept type |
| ValidatorLines.KeptTable | tools/internal/static_library_validator.c:133-136 | the kept types: the capitals other than U, V, W and C |
| ValidatorLines.TypeExact | tools/internal/static_library_validator.c:284-296 | a shaped line adds its entry exactly for those types, whatever the type |
| ValidatorLines.EntryKind | tools/internal/static_library_validator.c:284-296 | no line of any form adds an entry of another type |
| StaticLibrary.PlainArchiveRead | tools/internal/static_library_validator.c:267-296 | without an opening bracket in the archive's path: the fields are read for the member, unless its name holds a closing bracket; then the line is dropped, or read from there if a colon and a blank follow |
| StaticLibrary.OpenArchiveMisnamed | tools/internal/static_library_validator.c:270-282 | with an opening bracket left open in the path the same, for a member named from there on |
| StaticLibrary.BracketedArchiveDropped | tools/internal/static_library_validator.c:270-282 | with a bracket pair in the path, the line is dropped unless a colon and a blank follow the pair, and else read from there |
| StaticLibrary.RecoveredExact | tools/internal/static_library_validator.c:267-296 | for every path and member: the entry is recovered exactly when the path has no opening bracket and the member no closing one, or a pair in the path is followed by the very same entry |
| StaticLibrary.MemberExample | tools/internal/static_library_validator.c:270-282 | `lib.a[x[0].o]: sym T 0` is dropped |
| StaticLibrary.DroppedExample | tools/internal/static_library_validator.c:270-282 | a line that is dropped |
| StaticLibrary.MisnamedExample | tools/internal/static_library_validator.c:270-282 | a line whose member is misnamed |
| StaticLibrary.SymbolList.Add | tools/internal/static_library_validator.c:117-131 | growing keeps all entries and adds one |
| StaticLibrary.SymbolList.ParseNmLine | tools/internal/static_library_validator.c:267-296 | adds the line's entry, if it has one |
| StaticLibrary.JoinedSplits | tools/internal/static_library_validator.c:371-377 | splitting undoes joining newline-free lines |
| StaticLibrary.SegmentsJoin | tools/internal/static_library_validator.c:371-377 | joining undoes splitting, and no piece holds a newline |
| StaticLibrary.ParseLines | tools/internal/static_library_validator.c:371-377 | the loop, its last round at the end of the data included, collects every line's entry in order |
| StaticLibrary.CompareExact | tools/internal/static_library_validator.c:298-309 | comparing the common part and then the lengths is the byte order of whole symbols, 0 exactly for equal ones |
| StaticLibrary.SymbolOrderTotal | tools/internal/static_library_validator.c:298-309 | the comparator meets qsort's contract and ties only equal symbols |
| StaticLibrary.ReportDuplicates | tools/internal/static_library_validator.c:382-404 | the three nested index loops print every run of two or more, in order |
| StaticLibrary.ReportExact | tools/internal/static_library_validator.c:379-404 | the report holds exactly the entries whose symbol occurs at two places, each as often as it was kept, however ties are broken |
| StaticLibrary.StampExact | tools/internal/static_library_validator.c:406 | the stamp branch is taken exactly when all kept symbols differ |
| ValidatorLines.LineIrrelevant | tools/internal/static_library_validator.c:371-377 | putting in or taking out a line that adds no entry changes nothing that is kept |
| ValidatorLines.TwoMembers | tools/internal/static_library_validator.c:379-406 | one symbol in two members: rejected exactly when its type is kept, so calls to one function from two members are fine |
| StaticLibrary.ReportSorted | tools/internal/static_library_validator.c:379-404 | the report is in symbol order |
| ValidatorLines.ReportOfRun | tools/internal/static_library_validator.c:382-404 | the report read as lines: one for each entry reported, with member, type and symbol, and nothing else |
| StaticLibrary.ReadFile | tools/internal/static_library_validator.c:80-95 | chunked reading gives the whole file |
| StaticLibrary.Validate | tools/internal/static_library_validator.c:367-406 | the whole check on the output of llvm-nm: stamped exactly when all kept symbols differ, else the report |
| Handshake.RunKeepsInv | e2e/rules_cc/pthread.cc:14-120 | the invariant holds in every state of every interleaving with any spurious wake-ups |
| Handshake.NeverBothBlocked | e2e/rules_cc/pthread.cc:33-86 | the two threads are never both in the condition queue |
| Handshake.NeverStuck | e2e/rules_cc/pthread.cc:14-120 | every reachable state that is not final has a step that is no spurious wake-up |
| Handshake.MutexDiscipline | e2e/rules_cc/pthread.cc:24-98 | shared fields are read and written, waits entered and the mutex released only by its holder, who never locks it again; main's last read of value, without the mutex, comes after the worker has finished |
| Handshake.SettledAfterFinish | e2e/rules_cc/pthread.cc:100-119 | from then on value and status never change, so that read meets no write |
| Handshake.ValueWrittenOnce | e2e/rules_cc/pthread.cc:44-46 | value changes at most once, from 41 to 42, by the worker under the mutex after main has answered |
| Handshake.CompletedRunsSucceed | e2e/rules_cc/pthread.cc:100-119 | every completed run returns 0 with value 42 |
| Handshake.StepLowersRank | e2e/rules_cc/pthread.cc:14-120 | a rank falls with every step but a spurious wake-up, which raises it by at most three |
| Handshake.RunsAreShort | e2e/rules_cc/pthread.cc:14-120 | a run with k spurious wake-ups has at most 27 + 4k steps |

## Left out

- Process spawning, temporary files, argument and environment handling, redirection and the Windows variants of the C tools: foreign calls with no logic to check.
- Out of memory and size_t overflow: allocation succeeds and sizes are unbounded, also in the doubling loops.
- The wording of error messages, and demangling through llvm-cxxfilt; errors are values that keep the path, the names and the order of discovery.
- Sorting.Qsort: stands for the C library's function; callers use its contract only, and its body is one possible sort.
- CiDisk.Resolve: a path is resolved as POSIX does, "." staying and ".." leading where the directory lists it to lead; resolution limits and search permission are not modelled.
- CiOverlay.Proper: results about directories assume that a directory lists each name once, as file systems do; a tree does not change during the walk.
- CiOverlay.AliasIrrelevant: demands that no entered path ends in a backslash, since AliasExample shows the program otherwise; UnlookedIrrelevant is the statement for every disk and every entry.
- Json: numbers keep their spelling; duplicate member names are kept in order, which RFC 8259 section 4 leaves open.
- CiVfs.RenderDirectory: freeing of the temporary strings is modelled only for the entries array, in DirectoryEntries.Collapse.
- Pbzx: the branch for a null window with a positive count cannot be taken under the upstream's contract, so the model does not have it; bytes are counted in unbounded naturals.
- LinkFarm.SymlinkSourceAndOverlay: entries are files and directories; symlinks inside the source or overlay tree are followed as what they lead to, and Bazel's own failure modes other than an existing path, a missing directory, a file above and a directory that is not empty are not modelled.
- LinkFarm.Repository: creating a link or deleting through a link is only recorded in touched, not carried out in the source; the rules never do either.
- LlvmProject.LlvmProjectFromPath: what vars.bzl says is a parameter, a function of the two files read, and the other generated texts are parameters too.
- OverlayCopy.CopyOverlay: on targets that are not stable the result is characterised by the runs of the traversal only, which may differ with the order of readdir, and a failure is not; patches, and the checkout kept beside the links with strip_prefix, are left out, as are the files generated after the copy.
- StaticLibrary.Validate: byte buffers are the overlay generator's TextBuffer, which grows by the same rule; the stamp file itself is left out.
- ParameterFile.ReadName: the pointer trim returns becomes a copy before decoding.
- DefRun.GenerateDef: which arguments are DEF files, objects or parameter files is left out, and so is the llvm-nm response file; the run starts from the contents.
- Handshake: every pthread call succeeds, so the error returns are left out; memory is sequentially consistent under the mutex.
- Version comparison, feature tables, toolchain declarations, download scripts and start-up stubs: folds over tables or declarations.
