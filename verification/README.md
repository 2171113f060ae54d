# JarJar path filesystems and jar selection in Dafny

JarJar ships jars inside jars. At run time it needs two things:

- **Filesystems that can look inside nested jars.**
  - The `path:` provider wraps any `java.nio.file.Path` in a read-only filesystem of its own. Its paths are `PathPath` values.
  - The layered `jij:` provider opens a chain of such filesystems from one URI. In that URI, `~/` separates one layer from the next.
- **A selector that picks one jar per artifact.**
  - `JarSelector` scans sources breadth-first for nested jar metadata.
  - It narrows the version ranges every requester asks for.
  - It picks one jar per group and artifact, or reports why it could not.
  - `VersionRangeSerializer` writes those ranges to JSON and reads them back.

This project models that core as pure functions over immutable data and proves properties of the model. The modules are:

| file | module | models |
|---|---|---|
| `wrappers.dfy` | `Wrappers` | `Option` and `Result`, which carry Java's null and exceptions |
| `java_strings.dfy` | `JavaStrings` | the Java `String` operations the paths rely on: `split`, `join`, `replace`, `lastIndexOf`, `contains` |
| `path_algebra.dfy` | `PathAlgebra` | `PathPath`: parsing, `toString`, the component queries, `normalize`, `resolve`, `relativize`, `toAbsolutePath` |
| `path_registry.dfy` | `PathRegistry` | `PathFileSystemProvider` and `PathFileSystem`: keys, URIs, creation and removal of filesystems, delegation to the inner filesystem |
| `layered_provider.dfy` | `LayeredProvider` | `LayeredZipFileSystemProvider`: sections, the layer walk, URI rendering, `newFileSystem`, `getPath`, `getFileSystem` |
| `layered_resolve.dfy` | `LayeredResolution` | the layered `adaptResolvedPath` hook and `resolve` through it |
| `layered_rendering.dfy` | `LayeredRendering` | how a walk spells the prefix of each layer it opens, and the URI round trip of a layered filesystem |
| `jar_selector.dfy` | `JarSelection` | `JarSelector`: `force`, `option`, `addRequirement`, `add`, `select` |
| `version_ranges.dfy` | `VersionRanges` | `VersionRangeSerializer` and a reader for the text it writes |

How the Java state is represented:

- **Filesystem instances.** Each one is an entry of an append-only heap in a `Registry`, and its identity (`FsId`) is its index there. Java compares filesystems by reference, which this mirrors. The provider's key-to-filesystem map is a Dafny `map` from key to `FsId`.
- **The target of a filesystem.** It is a disk path or a path of an earlier filesystem, so a chain of layers always ends on the disk.
- **The host JDK.** URI normalization and quoting, the disk's path operations, parsing URI text and the Windows check are function-valued fields of the `Host` and `Platform` records. Every operation takes them as parameters.
- **Thrown exceptions.** Each exception becomes the `Failure` of a `Result`, with an error value that names the exception.
- **The selector's lookups.** Reading metadata from a source, resolving a nested source and naming a source are function parameters (`Hooks`).
- **Maven's version arithmetic.** Range restriction, containment, comparison, equality and spec parsing are function parameters too (`Maven`, `SameVersion`, `createFromVersionSpec`).
- **Hash-set iteration order.** The selector's output depends on it. The model takes the order as an input sequence, `order`, that enumerates the detection set exactly once.

Where the selector's documentation and its code disagree, the model follows the code. An example is `isRequired` after `addRequirement`, described under Findings. The operations follow the code as written also where Findings name a defect: `newFileSystem` walks with `adaptUriSections` as written, and `relativize` as written is what the path filesystem's `relativize` calls. `select` itself is `JarSelection.SelectAsWritten`, which throws where the corrected `JarSelection.Select` reports. The corrected definitions under Findings stand beside them, with the intended property proved about each.

## Model

| member | source | states |
|---|---|---|
| JavaStrings.Split | filesystems/src/main/java/net/minecraftforge/jarjar/nio/pathfs/PathPath.java:49 | Java's one-character `split`: when the separator occurs, no piece holds it, and every character of every piece comes from the input |
| JavaStrings.DropTrailingEmpty | filesystems/src/main/java/net/minecraftforge/jarjar/nio/pathfs/PathPath.java:49 | what `split` keeps is a prefix of the pieces that ends in a non-empty piece; everything dropped was empty |
| JavaStrings.SplitJoin | filesystems/src/main/java/net/minecraftforge/jarjar/nio/pathfs/PathPath.java:37-38 | splitting the join of separator-free parts gives the parts back, provided the last of several parts is non-empty; the constructor's join-then-split loses nothing for such parts |
| JavaStrings.LastIndexOf | filesystems/src/main/java/net/minecraftforge/jarjar/nio/layzip/LayeredZipFileSystemProvider.java:165 | the answer is -1 or a position where the pattern occurs, and no later position starts an occurrence |
| JavaStrings.ContainsOccurs | filesystems/src/main/java/net/minecraftforge/jarjar/nio/layzip/LayeredZipFileSystemProvider.java:160-165 | once `contains` holds, `lastIndexOf` finds a real occurrence, so the hook's substring before the last marker is always defined |
| JavaStrings.ReplaceCharAt | filesystems/src/main/java/net/minecraftforge/jarjar/nio/pathfs/PathPath.java:49 | turning backslashes into slashes keeps the length and changes exactly the positions that held a backslash |
| JavaStrings.ReplaceCharIsReplaceAll | filesystems/src/main/java/net/minecraftforge/jarjar/nio/pathfs/PathPath.java:49 | the position-by-position replacement agrees with Java's left-to-right `replace` on the one-character strings |
| JavaStrings.ReplaceDoubleSlashNoop | filesystems/src/main/java/net/minecraftforge/jarjar/nio/pathfs/PathPath.java:263 | collapsing `//` leaves a text that holds no `//` unchanged |
| PathAlgebra.LocalParts | filesystems/src/main/java/net/minecraftforge/jarjar/nio/pathfs/PathPath.java:49 | the text `/` is the single empty component, and no component of any text holds a slash or a backslash |
| PathAlgebra.AdaptPathParts | filesystems/src/main/java/net/minecraftforge/jarjar/nio/layzip/LayeredZipFileSystemProvider.java:179-187 | only the layered provider, and only for text ending in `~/`, changes the parts; it then appends `/` to the last part and keeps every other part |
| PathAlgebra.LocalPartsOfMarked | filesystems/src/main/java/net/minecraftforge/jarjar/nio/layzip/LayeredZipFileSystemProvider.java:185 | a text ending in `~/` never splits into zero parts, so the hook's write to the last part always has a part to write |
| PathAlgebra.ParseParts | filesystems/src/main/java/net/minecraftforge/jarjar/nio/pathfs/PathPath.java:47-58 | `/` parses to the root; wherever the layered hook does not apply, no component holds a separator |
| PathAlgebra.NewPath | filesystems/src/main/java/net/minecraftforge/jarjar/nio/pathfs/PathPath.java:30-40 | no arguments make the empty path; otherwise the arguments joined by `/` are parsed, in the filesystem given |
| PathAlgebra.Equals | filesystems/src/main/java/net/minecraftforge/jarjar/nio/pathfs/PathPath.java:247-254 | a path equals exactly the path of the same filesystem with the same components; a disk path never equals it |
| PathAlgebra.CompareTo | filesystems/src/main/java/net/minecraftforge/jarjar/nio/pathfs/PathPath.java:242-245 | every pair of paths compares as equal |
| PathAlgebra.CompareToIgnoresEquals | filesystems/src/main/java/net/minecraftforge/jarjar/nio/pathfs/PathPath.java:242-254 | paths that `equals` tells apart still compare as equal, in both directions, so the ordering does not agree with `equals` |
| PathAlgebra.GetParent | filesystems/src/main/java/net/minecraftforge/jarjar/nio/pathfs/PathPath.java:85-90 | exactly the empty path and the root have no parent; any other path is its parent followed by its last component |
| PathAlgebra.GetName | filesystems/src/main/java/net/minecraftforge/jarjar/nio/pathfs/PathPath.java:97-102 | an index outside the components is an IllegalArgument failure, and any index inside gives that one component as a path |
| PathAlgebra.Subpath | filesystems/src/main/java/net/minecraftforge/jarjar/nio/pathfs/PathPath.java:104-109 | the failure cases: the begin index names no component, or the end lies outside begin..length; otherwise the result holds exactly components begin..end |
| PathAlgebra.SubpathNames | filesystems/src/main/java/net/minecraftforge/jarjar/nio/pathfs/PathPath.java:97-109 | name k of a subpath is name begin+k of the whole path |
| PathAlgebra.ParentIsPrefix | filesystems/src/main/java/net/minecraftforge/jarjar/nio/pathfs/PathPath.java:85-122 | a path starts with its parent, and the parent is exactly one component shorter |
| PathAlgebra.CheckArraysMatch | filesystems/src/main/java/net/minecraftforge/jarjar/nio/pathfs/PathPath.java:138-146 | the loop answers true exactly when the two arrays agree over their common length, counted from the front, or from the back when reversed |
| PathAlgebra.PrefixTestsSymmetric | filesystems/src/main/java/net/minecraftforge/jarjar/nio/pathfs/PathPath.java:111-146 | because only the common length is compared, `startsWith` and `endsWith` hold in one direction exactly when they hold in the other |
| PathAlgebra.StartsWithPrefix | filesystems/src/main/java/net/minecraftforge/jarjar/nio/pathfs/PathPath.java:111-146 | every prefix of a path's components starts the path and every suffix ends it |
| PathAlgebra.StartsWithLongerPath | filesystems/src/main/java/net/minecraftforge/jarjar/nio/pathfs/PathPath.java:138-146 | `a` starts with the longer `a/b` and with the empty path; a path of another filesystem never matches |
| PathAlgebra.Step | filesystems/src/main/java/net/minecraftforge/jarjar/nio/pathfs/PathPath.java:152-161 | one step of `normalize` fails exactly on `..` with an empty deque, and a deque free of `.` and `..` stays free of them |
| PathAlgebra.NormFrom | filesystems/src/main/java/net/minecraftforge/jarjar/nio/pathfs/PathPath.java:148-164 | the walk over the components never grows past deque plus input and keeps the deque free of `.` and `..` |
| PathAlgebra.Normalize | filesystems/src/main/java/net/minecraftforge/jarjar/nio/pathfs/PathPath.java:148-164 | a normalized path stays in its filesystem, is no longer than the path, and has no `.` or `..` component |
| PathAlgebra.NormFromDepth | filesystems/src/main/java/net/minecraftforge/jarjar/nio/pathfs/PathPath.java:150-162 | the deque walk fails exactly when a `..` meets an empty deque, always with NoSuchElement; otherwise it ends with the starting size, plus one per pushed component, minus one per `..` |
| PathAlgebra.UnderflowsPrefix | filesystems/src/main/java/net/minecraftforge/jarjar/nio/pathfs/PathPath.java:150-162 | a `..` meets an empty deque exactly when some prefix of the components removes more entries than the deque held at the start |
| PathAlgebra.NormalizeFails | filesystems/src/main/java/net/minecraftforge/jarjar/nio/pathfs/PathPath.java:148-164 | `normalize` throws NoSuchElement exactly when some prefix of the path has more `..` than components before it to remove (`.` counts for nothing); otherwise the result has exactly that count of components |
| PathAlgebra.NormFromClean | filesystems/src/main/java/net/minecraftforge/jarjar/nio/pathfs/PathPath.java:150-162 | components without `.` and `..` are pushed unchanged and in order |
| PathAlgebra.NormFromAppend | filesystems/src/main/java/net/minecraftforge/jarjar/nio/pathfs/PathPath.java:150-162 | normalizing `a + b` is normalizing `a` and continuing from that deque over `b`; a failure in `a` is the answer |
| PathAlgebra.NormFromUps | filesystems/src/main/java/net/minecraftforge/jarjar/nio/pathfs/PathPath.java:150-162 | k `..` components pop exactly the last k entries of a deque that holds at least k |
| PathAlgebra.NormalizeUpsThenRest | filesystems/src/main/java/net/minecraftforge/jarjar/nio/pathfs/PathPath.java:150-162 | a clean base, then k `..`, then a clean rest normalizes to the base without its last k components, followed by the rest |
| PathAlgebra.NormalizeIdempotent | filesystems/src/main/java/net/minecraftforge/jarjar/nio/pathfs/PathPath.java:148-164 | normalizing a normalized path changes nothing |
| PathAlgebra.NormalizeClean | filesystems/src/main/java/net/minecraftforge/jarjar/nio/pathfs/PathPath.java:148-164 | a path without `.` or `..` is already its own normal form |
| PathAlgebra.NormalizeLeadingUpFails | filesystems/src/main/java/net/minecraftforge/jarjar/nio/pathfs/PathPath.java:155-156 | a path that starts with `..` makes `removeLast` on the empty deque throw NoSuchElement |
| PathAlgebra.Resolve | filesystems/src/main/java/net/minecraftforge/jarjar/nio/pathfs/PathPath.java:166-178 | an absolute argument is the answer itself; a relative one lands in this path's filesystem |
| PathAlgebra.ResolveAny | filesystems/src/main/java/net/minecraftforge/jarjar/nio/pathfs/PathPath.java:166-178 | a path of another kind comes back unchanged, and a path filesystem path goes through `Resolve` |
| PathAlgebra.ResolveNames | filesystems/src/main/java/net/minecraftforge/jarjar/nio/pathfs/PathPath.java:166-178 | for relative paths of plain names, resolving concatenates the components: rendering with `/` and parsing back loses nothing |
| PathAlgebra.ToAbsolutePath | filesystems/src/main/java/net/minecraftforge/jarjar/nio/pathfs/PathPath.java:224-230 | the answer stays in the filesystem, and an absolute path is its own answer |
| PathAlgebra.AbsoluteIsRootIff | filesystems/src/main/java/net/minecraftforge/jarjar/nio/pathfs/PathPath.java:224-230 | the absolute form of a path is the root exactly when the path is the root, so the root checks of the filesystem are root-equality checks |
| PathAlgebra.ToAbsoluteKeepsRelative | filesystems/src/main/java/net/minecraftforge/jarjar/nio/pathfs/PathPath.java:224-230 | the "absolute" form of a relative path of names is that same relative path, because the parser drops the root's leading empty component |
| PathAlgebra.GetFileName | filesystems/src/main/java/net/minecraftforge/jarjar/nio/pathfs/PathPath.java:75-83 | the root answers its target's file name, the empty path answers one empty component, and any other path answers its last component |
| PathAlgebra.ParseNames | filesystems/src/main/java/net/minecraftforge/jarjar/nio/pathfs/PathPath.java:47-58 | the `/`-join of plain names parses back to the same names, under either provider |
| PathAlgebra.ToStringNames | filesystems/src/main/java/net/minecraftforge/jarjar/nio/pathfs/PathPath.java:261-264 | for plain names, collapsing `//` does nothing and the text is just the `/`-join |
| PathAlgebra.ParseRendered | filesystems/src/main/java/net/minecraftforge/jarjar/nio/pathfs/PathPath.java:47-58 | `/` followed by the text of any well-formed path parses back to that path's components: the root, relative names or absolute names |
| PathAlgebra.ParseRenderedRelative | filesystems/src/main/java/net/minecraftforge/jarjar/nio/pathfs/PathPath.java:47-58 | the relative case of that round trip |
| PathAlgebra.ParseRenderedAbsolute | filesystems/src/main/java/net/minecraftforge/jarjar/nio/pathfs/PathPath.java:47-58 | the absolute case of that round trip |
| PathAlgebra.ParseToString | filesystems/src/main/java/net/minecraftforge/jarjar/nio/pathfs/PathPath.java:47-58 | the text of a relative path of names parses back to the path |
| PathAlgebra.ParseLeadingEmpty | filesystems/src/main/java/net/minecraftforge/jarjar/nio/pathfs/PathPath.java:49-52 | a join starting with an empty component parses without it: a leading `/` leaves no trace |
| PathAlgebra.LeadingSlashIgnored | filesystems/src/main/java/net/minecraftforge/jarjar/nio/pathfs/PathPath.java:49-52 | putting `/` in front of a text that starts with no separator does not change what it parses to |
| PathAlgebra.CommonRun | filesystems/src/main/java/net/minecraftforge/jarjar/nio/pathfs/PathPath.java:190-196 | the loop's count is the length of the common prefix: the parts agree before it and differ at it when both continue |
| PathAlgebra.RelativizeAsWritten | filesystems/src/main/java/net/minecraftforge/jarjar/nio/pathfs/PathPath.java:180-213 | `relativize` as written: another filesystem is an IllegalArgument failure, root against root answers the root, and any answer stays in the filesystem |
| PathAlgebra.Relativize | filesystems/src/main/java/net/minecraftforge/jarjar/nio/pathfs/PathPath.java:180-213 | the corrected `relativize` fails exactly for a path of another filesystem, and every answer stays in this filesystem |
| PathAlgebra.UpThenDown | filesystems/src/main/java/net/minecraftforge/jarjar/nio/pathfs/PathPath.java:203-209 | with nothing to climb the answer is the rest unchanged, and every answer is a path of the filesystem given |
| PathAlgebra.EmptyRelativizesToRoot | filesystems/src/main/java/net/minecraftforge/jarjar/nio/pathfs/PathPath.java:180-213 | the empty path relativized against itself answers the root, as written and corrected: nothing is left to climb or descend, and the empty text parses to the root |
| PathAlgebra.UpThenDownNames | filesystems/src/main/java/net/minecraftforge/jarjar/nio/pathfs/PathPath.java:203-209 | climbing n levels and descending into plain names gives n `..` components followed by the names, without going through text |
| PathAlgebra.UpsOnly | filesystems/src/main/java/net/minecraftforge/jarjar/nio/pathfs/PathPath.java:204-206 | the `..` steps joined with `/` parse back to as many `..` components |
| PathAlgebra.UpsThenNames | filesystems/src/main/java/net/minecraftforge/jarjar/nio/pathfs/PathPath.java:204-208 | the `..` steps, a separator and the text of plain names parse back to the steps followed by the names |
| PathAlgebra.RelativizeAgreesWhenDiverging | filesystems/src/main/java/net/minecraftforge/jarjar/nio/pathfs/PathPath.java:198-209 | for relative paths that differ before this path ends, the method as written and the corrected one give the same answer |
| PathAlgebra.AsWrittenUnfolds | filesystems/src/main/java/net/minecraftforge/jarjar/nio/pathfs/PathPath.java:198-209 | in that diverging case, the method as written climbs over the unmatched components and descends into the rest of the other path |
| PathAlgebra.RelativizeSiblingExample | filesystems/src/main/java/net/minecraftforge/jarjar/nio/pathfs/PathPath.java:180-213 | as written, `abc/xyz` against `abc/def/ghi` gives `../def/ghi`, the answer the zip filesystem gives |
| PathAlgebra.RelativizeAsWrittenSkipsComponent | filesystems/src/main/java/net/minecraftforge/jarjar/nio/pathfs/PathPath.java:201-202 | as written, `abc` against `abc/def/ghi` answers `ghi`; the corrected method answers `def/ghi` |
| PathAlgebra.RelativizeAsWrittenFails | filesystems/src/main/java/net/minecraftforge/jarjar/nio/pathfs/PathPath.java:199-202 | as written, `/a` against itself and `a` against `a/b` throw; the corrected method answers the empty path and `b` |
| PathAlgebra.RelativizeAbsoluteSiblings | filesystems/src/main/java/net/minecraftforge/jarjar/nio/pathfs/PathPath.java:208 | as written, `/abc/xyz` against `/abc/def/ghi` answers `../abc/def/ghi`; the corrected method answers `../def/ghi`, which is the zip filesystem's answer |
| PathAlgebra.RelativizeNames | filesystems/src/main/java/net/minecraftforge/jarjar/nio/pathfs/PathPath.java:180-213 | for relative paths of names, the corrected answer is one `..` per unmatched component of this path, followed by the other path's components after the common run |
| PathAlgebra.RelativizeRelative | filesystems/src/main/java/net/minecraftforge/jarjar/nio/pathfs/PathPath.java:186-209 | for two relative paths, the corrected method climbs over this path's unmatched components and descends into the rest of the other path |
| PathAlgebra.ResolveRelativize | filesystems/src/main/java/net/minecraftforge/jarjar/nio/pathfs/PathPath.java:166-213 | the round trip of the `Path` contract: resolving `p.relativize(o)` against `p` and normalizing gives `o`, for distinct relative paths of plain names |
| PathAlgebra.ResolveRelativizeAbsolute | filesystems/src/main/java/net/minecraftforge/jarjar/nio/pathfs/PathPath.java:166-213 | the round trip for distinct absolute paths of plain names: resolving `p.relativize(o)` against `p` and normalizing gives `o`'s components, without the root marker, since `resolve` re-parses the joined text and parsing drops a leading empty component |
| PathAlgebra.ResolveUpsThenRest | filesystems/src/main/java/net/minecraftforge/jarjar/nio/pathfs/PathPath.java:148-178 | resolving the climb-then-descend path against `p` and normalizing arrives at `o` |
| PathAlgebra.ResolveThenNormalize | filesystems/src/main/java/net/minecraftforge/jarjar/nio/pathfs/PathPath.java:148-178 | resolving names against names and normalizing is the deque walk over the concatenated components |
| PathRegistry.Quote | filesystems/src/main/java/net/minecraftforge/jarjar/nio/pathfs/PathFileSystemProvider.java:256-262 | the URI constructor leaves text made of legal characters unchanged |
| PathRegistry.Scheme | filesystems/src/main/java/net/minecraftforge/jarjar/nio/pathfs/PathFileSystemProvider.java:30-33 | the scheme is `path` exactly for the single-layer provider |
| PathRegistry.NormalizedSsp | filesystems/src/main/java/net/minecraftforge/jarjar/nio/pathfs/PathFileSystemProvider.java:100-101 | `normalize` leaves the scheme-specific part of an opaque URI alone |
| PathRegistry.MakeKey | filesystems/src/main/java/net/minecraftforge/jarjar/nio/pathfs/PathFileSystemProvider.java:100-108 | the key is the normalized scheme-specific part without one leading `//`, and otherwise the part itself |
| PathRegistry.MakeKeyOpaque | filesystems/src/main/java/net/minecraftforge/jarjar/nio/pathfs/PathFileSystemProvider.java:100-108 | the key of an opaque URI is its scheme-specific part, whatever the host's normalization does |
| PathRegistry.Parse | filesystems/src/main/java/net/minecraftforge/jarjar/nio/pathfs/PathFileSystemProvider.java:124-132 | without a `~` the whole key is the owner and there is no path; otherwise key = owner + `~` + path, and the path holds no `~` |
| PathRegistry.SplitKey | filesystems/src/main/java/net/minecraftforge/jarjar/nio/pathfs/PathFileSystemProvider.java:126-131 | the split at the last `~`, stated as a decomposition of the key |
| PathRegistry.FileNameText | filesystems/src/main/java/net/minecraftforge/jarjar/nio/pathfs/PathFileSystemProvider.java:110-112 | a disk path's file name comes from the host, and a missing one is a failure; a path filesystem path answers its last component; the root answers the name of its target, recursively |
| PathRegistry.GetFileSystemFromKey | filesystems/src/main/java/net/minecraftforge/jarjar/nio/pathfs/PathFileSystemProvider.java:276-278 | a filesystem is found exactly for a registered key, and the one found carries that key |
| PathRegistry.SortedKeys | filesystems/src/main/java/net/minecraftforge/jarjar/nio/pathfs/PathFileSystemProvider.java:153-156 | the known keys listed in the error message: every key exactly once, in strictly ascending order |
| PathRegistry.GetFileSystem | filesystems/src/main/java/net/minecraftforge/jarjar/nio/pathfs/PathFileSystemProvider.java:144-161 | the lookup succeeds exactly when the owner key is registered, with the filesystem under that key; otherwise it fails with the message naming the URI, the owner and the sorted known keys |
| PathRegistry.FsGetPath | filesystems/src/main/java/net/minecraftforge/jarjar/nio/pathfs/PathFileSystem.java:146-156 | `getPath(first, more...)` is the join of all its arguments, parsed in this filesystem |
| PathRegistry.GetPath | filesystems/src/main/java/net/minecraftforge/jarjar/nio/pathfs/PathFileSystemProvider.java:135-142 | succeeds exactly when the owner is registered; a URI without `~` gives the owner's root, and otherwise the text after the last `~` is parsed in the owner's filesystem |
| PathRegistry.BuildUriFor | filesystems/src/main/java/net/minecraftforge/jarjar/nio/pathfs/PathFileSystemProvider.java:256-262 | the URI has the provider's scheme, and for legal text its scheme-specific part is key, `~/`, path text |
| PathRegistry.ParseBuiltUri | filesystems/src/main/java/net/minecraftforge/jarjar/nio/pathfs/PathFileSystemProvider.java:256-262 | the URI built for a path parses back into that filesystem's key and `/` followed by the path's text |
| PathRegistry.PathUriPath | filesystems/src/main/java/net/minecraftforge/jarjar/nio/pathfs/PathFileSystemProvider.java:135-142 | round trip path to URI to path: `getPath(toUri(p))` is `p` for every well-formed path of a registered filesystem |
| PathRegistry.EmptyPathReturnsAsRoot | filesystems/src/main/java/net/minecraftforge/jarjar/nio/pathfs/PathFileSystemProvider.java:256-262 | the empty path's URI reads back as the root, so that round trip has exactly this exception |
| PathRegistry.UriPathUri | filesystems/src/main/java/net/minecraftforge/jarjar/nio/pathfs/PathFileSystemProvider.java:135-142 | round trip URI to path to URI: a `path:` URI of a registered key and names yields a path whose URI is the same URI |
| PathRegistry.NormalizedTarget | filesystems/src/main/java/net/minecraftforge/jarjar/nio/pathfs/PathFileSystemProvider.java:91 | a disk target takes the host's absolute normal form; a path filesystem target fails exactly when `normalize` fails, and otherwise is a clean path of the same filesystem |
| PathRegistry.NewFileSystemInternal | filesystems/src/main/java/net/minecraftforge/jarjar/nio/pathfs/PathFileSystemProvider.java:90-98 | creation fails exactly when the target cannot be normalized; otherwise one new unopened filesystem is appended, the earlier ones stay as they were, and the key now names the new one |
| PathRegistry.NewFileSystemFromUri | filesystems/src/main/java/net/minecraftforge/jarjar/nio/pathfs/PathFileSystemProvider.java:42-60 | a missing package path is refused; an already registered key answers its filesystem and changes nothing; otherwise a new filesystem is registered under the key |
| PathRegistry.NewFileSystemFromUriTwice | filesystems/src/main/java/net/minecraftforge/jarjar/nio/pathfs/PathFileSystemProvider.java:50-53 | asking again for the same URI returns the first filesystem and changes nothing, whatever package path comes the second time |
| PathRegistry.NewFileSystemFromPath | filesystems/src/main/java/net/minecraftforge/jarjar/nio/pathfs/PathFileSystemProvider.java:68-82 | a missing package path is refused; otherwise the key is the path's file name, and a filesystem under that key is replaced, not reused |
| PathRegistry.NewFileSystemExplicit | filesystems/src/main/java/net/minecraftforge/jarjar/nio/pathfs/PathFileSystemProvider.java:84-88 | a null path is an illegal argument; otherwise a fresh filesystem over the path, keyed by its file name, which succeeds exactly when the path can be normalized |
| PathRegistry.RemoveFileSystem | filesystems/src/main/java/net/minecraftforge/jarjar/nio/pathfs/PathFileSystemProvider.java:250-254 | exactly the filesystem's key leaves the table; every other key keeps its filesystem |
| PathRegistry.IsOpen | filesystems/src/main/java/net/minecraftforge/jarjar/nio/pathfs/PathFileSystem.java:89-92 | a filesystem whose delegate was never opened reports itself open |
| PathRegistry.Close | filesystems/src/main/java/net/minecraftforge/jarjar/nio/pathfs/PathFileSystem.java:83-87 | closing closes the delegate if one was opened and unregisters the key; other filesystems are untouched, and afterwards it still reports itself open exactly when its delegate was never opened |
| PathRegistry.CloseRemovesReplacement | filesystems/src/main/java/net/minecraftforge/jarjar/nio/pathfs/PathFileSystem.java:83-87 | closing a filesystem whose key was taken over by a newer one unregisters the newer one, because removal goes by key |
| PathRegistry.OpenDelegate | filesystems/src/main/java/net/minecraftforge/jarjar/nio/pathfs/PathFileSystem.java:45-52 | the inner filesystem is opened once, on first use; after that the same delegate is seen, and nothing else changes |
| PathRegistry.RootDirectories | filesystems/src/main/java/net/minecraftforge/jarjar/nio/pathfs/PathFileSystem.java:111-114 | there is exactly one root directory, the absolute root of this filesystem |
| PathRegistry.IsReadOnly | filesystems/src/main/java/net/minecraftforge/jarjar/nio/pathfs/PathFileSystem.java:94-97 | every path filesystem is read-only |
| PathRegistry.InnerRoot | filesystems/src/main/java/net/minecraftforge/jarjar/nio/pathfs/PathFileSystem.java:54-67 | a target on the delegate's own filesystem is the inner root itself; otherwise the delegate must have exactly one root directory, which becomes the inner root |
| PathRegistry.ResolveText | filesystems/src/main/java/net/minecraftforge/jarjar/nio/pathfs/PathFileSystem.java:143 | text resolves by the host on a disk root and by `Resolve` of the parsed text on a path filesystem root |
| PathRegistry.GetOuterTarget | filesystems/src/main/java/net/minecraftforge/jarjar/nio/pathfs/PathFileSystem.java:138-144 | a relative path's text resolves against the inner root; an absolute path first goes through `relativize` from the root and fails exactly when that does |
| PathRegistry.OuterTargetIgnoresRootMarker | filesystems/src/main/java/net/minecraftforge/jarjar/nio/pathfs/PathFileSystem.java:138-144 | `/n1/.../nk` and `n1/.../nk` reach the same outer target: the joined names resolved against the inner root |
| PathRegistry.RootRelativizeAbsolute | filesystems/src/main/java/net/minecraftforge/jarjar/nio/pathfs/PathFileSystem.java:139-140 | relativizing an absolute path of names against the root drops only the root marker, even with `relativize` as written |
| PathRegistry.OuterTargetOfRoot | filesystems/src/main/java/net/minecraftforge/jarjar/nio/pathfs/PathFileSystem.java:138-144 | the root and the empty path both reach the inner root resolved against the empty text |
| PathRegistry.AccessFor | filesystems/src/main/java/net/minecraftforge/jarjar/nio/pathfs/PathFileSystem.java:99-136 | `readAttributes` and `newByteChannel` act on the target for the root and on the delegate's outer target for every other path, and the delegate's failures propagate |
| PathRegistry.CheckAccessTarget | filesystems/src/main/java/net/minecraftforge/jarjar/nio/pathfs/PathFileSystem.java:199-201 | `checkAccess` goes to the delegate even for the root, at the inner root resolved against the empty text |
| PathRegistry.InnerPathParts | filesystems/src/main/java/net/minecraftforge/jarjar/nio/pathfs/PathPath.java:42-45 | a host path's text splits into components that hold no slash or backslash |
| PathRegistry.InnerPathNames | filesystems/src/main/java/net/minecraftforge/jarjar/nio/pathfs/PathPath.java:42-45 | a relative listing entry of names becomes the path of those names |
| PathRegistry.InnerPathAbsoluteNames | filesystems/src/main/java/net/minecraftforge/jarjar/nio/pathfs/PathPath.java:42-45 | an absolute listing entry keeps its leading empty component, unlike the string constructor |
| PathRegistry.InnerPathEdges | filesystems/src/main/java/net/minecraftforge/jarjar/nio/pathfs/PathPath.java:42-45 | an empty text gives one empty component and `/` gives no component at all, unlike the string constructor |
| PathRegistry.ListingFor | filesystems/src/main/java/net/minecraftforge/jarjar/nio/pathfs/PathFileSystem.java:173-193 | the root lists the inner root, and any other directory lists the delegate's outer target; without an inner root the listing fails |
| PathRegistry.DirectoryEntries | filesystems/src/main/java/net/minecraftforge/jarjar/nio/pathfs/PathFileSystem.java:176-189 | each listed entry becomes one path of this filesystem, in order; a listing that failed with an I/O error is the empty stream |
| PathRegistry.OwnerOf | filesystems/src/main/java/net/minecraftforge/jarjar/nio/pathfs/PathFileSystemProvider.java:163-179 | provider calls with a path filesystem path go to that path's own filesystem, and any other path is unsupported |
| PathRegistry.Refuse | filesystems/src/main/java/net/minecraftforge/jarjar/nio/pathfs/PathFileSystemProvider.java:181-199 | the writing operations, attribute views, matchers and watch services are all unsupported |
| PathRegistry.IsSameFile | filesystems/src/main/java/net/minecraftforge/jarjar/nio/pathfs/PathFileSystemProvider.java:201-204 | no two paths are ever the same file, not even a path and itself |
| PathRegistry.IsHidden | filesystems/src/main/java/net/minecraftforge/jarjar/nio/pathfs/PathFileSystemProvider.java:206-209 | no path is ever hidden |
| LayeredProvider.AbsoluteHookIdle | filesystems/src/main/java/net/minecraftforge/jarjar/nio/layzip/LayeredZipFileSystemProvider.java:160-161 | the absolute form of a path without `~` holds no `~/`, so the layered resolution hook leaves it alone |
| LayeredProvider.GetPathIn | filesystems/src/main/java/net/minecraftforge/jarjar/nio/layzip/LayeredZipFileSystemProvider.java:103 | a section opened on the disk is the host's path for the text; inside a layer it is the text parsed there; a section without `~` makes a path without `~` |
| LayeredProvider.AbsoluteIn | filesystems/src/main/java/net/minecraftforge/jarjar/nio/layzip/LayeredZipFileSystemProvider.java:56 | `toAbsolutePath` keeps the kind of path and its filesystem, leaves absolute paths alone, and never introduces `~` |
| LayeredProvider.BuildPrefixFor | filesystems/src/main/java/net/minecraftforge/jarjar/nio/layzip/LayeredZipFileSystemProvider.java:148-154 | a disk target contributes the host's URI text; a layered target contributes its own filesystem's prefix, then `~` and its absolute text |
| LayeredProvider.BuildPrefixStable | filesystems/src/main/java/net/minecraftforge/jarjar/nio/layzip/LayeredZipFileSystemProvider.java:148-154 | registering more filesystems never changes the prefix of a target that already existed |
| LayeredProvider.LayeredBuildUriFor | filesystems/src/main/java/net/minecraftforge/jarjar/nio/layzip/LayeredZipFileSystemProvider.java:137-146 | the URI is `jij:`, the prefix and the path's text, with every `~//` collapsed to `~/`; text the host cannot parse is a failure |
| LayeredProvider.UriText | filesystems/src/main/java/net/minecraftforge/jarjar/nio/layzip/LayeredZipFileSystemProvider.java:83 | `path.toUri().toString()`: the host's text for a disk path, and the rendered layered URI for a layer path |
| LayeredProvider.UriTextStable | filesystems/src/main/java/net/minecraftforge/jarjar/nio/layzip/LayeredZipFileSystemProvider.java:137-154 | the URI text of an existing path survives any later registration unchanged |
| LayeredProvider.Register | filesystems/src/main/java/net/minecraftforge/jarjar/nio/layzip/LayeredZipFileSystemProvider.java:78-88 | a registered key answers its own filesystem with the registry untouched; otherwise exactly one filesystem is added over the normalized package path; any failure is the intermediary failure |
| LayeredProvider.LayerUri | filesystems/src/main/java/net/minecraftforge/jarjar/nio/layzip/LayeredZipFileSystemProvider.java:83 | the layer's key URI is `path:`, then the key prefix, then the path's URI text with backslashes turned to slashes; text that cannot be rendered or parsed gives none |
| LayeredProvider.GetOrCreate | filesystems/src/main/java/net/minecraftforge/jarjar/nio/layzip/LayeredZipFileSystemProvider.java:78-88 | adds at most one filesystem and keeps all earlier ones; when it adds nothing the registry is unchanged, and when it adds one, the new filesystem is over the normalized absolute path |
| LayeredProvider.GetOrCreateAgain | filesystems/src/main/java/net/minecraftforge/jarjar/nio/layzip/LayeredZipFileSystemProvider.java:78-88 | asking again for a layer, in any later registry, returns the same filesystem and adds nothing |
| LayeredProvider.OnWindows | filesystems/src/main/java/net/minecraftforge/jarjar/nio/layzip/LayeredZipFileSystemProvider.java:60-72 | only the disk filesystem on Windows loses one leading `/`; every other section is kept |
| LayeredProvider.SectionText | filesystems/src/main/java/net/minecraftforge/jarjar/nio/layzip/LayeredZipFileSystemProvider.java:206-230 | the lookup walk uses the section as given; after a known key one leading `/` goes; from the disk a section not starting with `//` follows the Windows rule; no `~` appears |
| LayeredProvider.StepPath | filesystems/src/main/java/net/minecraftforge/jarjar/nio/layzip/LayeredZipFileSystemProvider.java:206-230 | a section becomes a path of the current filesystem, a layer path exactly when a layer is current, and never holds `~` |
| LayeredProvider.OpenLayer | filesystems/src/main/java/net/minecraftforge/jarjar/nio/layzip/LayeredZipFileSystemProvider.java:212-214 | a step opens the section's path as a layer under the current prefix, and then the prefix grows by the path's text and `~/`; the lookup walk keeps its prefix; a step adds at most one filesystem |
| LayeredProvider.OpenLayerAgain | filesystems/src/main/java/net/minecraftforge/jarjar/nio/layzip/LayeredZipFileSystemProvider.java:212-214 | repeating a step in a later registry reaches the same layer with the same prefix |
| LayeredProvider.WalkFrom | filesystems/src/main/java/net/minecraftforge/jarjar/nio/layzip/LayeredZipFileSystemProvider.java:206-231 | a walk over n sections adds at most n filesystems, ends in a layer when it took a step, and keeps the prefix in the lookup walk; an empty walk changes nothing |
| LayeredProvider.Sections | filesystems/src/main/java/net/minecraftforge/jarjar/nio/layzip/LayeredZipFileSystemProvider.java:33 | the sections hold no `~`, and a part without `~` is a single section |
| LayeredProvider.AdaptUriSectionsAsWritten | filesystems/src/main/java/net/minecraftforge/jarjar/nio/layzip/LayeredZipFileSystemProvider.java:189-234 | as written, an unknown first section walks every section but the last from the disk; a known key returns the last section itself as the prefix |
| LayeredProvider.AdaptUriSections | filesystems/src/main/java/net/minecraftforge/jarjar/nio/layzip/LayeredZipFileSystemProvider.java:189-234 | corrected: a known key walks every section but the last inside its filesystem, like the disk walk does, and returns the prefix it built; an unknown key behaves as written |
| LayeredProvider.NewFileSystem | filesystems/src/main/java/net/minecraftforge/jarjar/nio/layzip/LayeredZipFileSystemProvider.java:31-58 | no sections is out of bounds; with a package path the whole `path:` URI is registered and named by its key; one section without one opens its absolute disk path, without a leading `//`, with an empty prefix |
| LayeredProvider.NewFileSystemOneSectionAgain | filesystems/src/main/java/net/minecraftforge/jarjar/nio/layzip/LayeredZipFileSystemProvider.java:31-58 | opening a one-section URI twice gives the first filesystem and registers nothing the second time |
| LayeredProvider.StartOf | filesystems/src/main/java/net/minecraftforge/jarjar/nio/layzip/LayeredZipFileSystemProvider.java:35-42 | one section starts on the disk with an empty prefix; more sections start where `adaptUriSections`, as written, ends |
| LayeredProvider.LastLayer | filesystems/src/main/java/net/minecraftforge/jarjar/nio/layzip/LayeredZipFileSystemProvider.java:44-57 | without a package path the last section's absolute path is opened under the walk's prefix; with one the `path:` URI is registered and the key names the filesystem returned |
| LayeredProvider.DropLeading | filesystems/src/main/java/net/minecraftforge/jarjar/nio/layzip/LayeredZipFileSystemProvider.java:45-46 | one leading occurrence is removed, and a text without it is kept |
| LayeredProvider.LayeredGetPath | filesystems/src/main/java/net/minecraftforge/jarjar/nio/layzip/LayeredZipFileSystemProvider.java:90-110 | no sections is out of bounds; one section is the single-layer lookup; with more sections the answer is the last section parsed in a path filesystem of a registry that only grew, and any failure is the intermediary failure |
| LayeredProvider.LayeredGetFileSystem | filesystems/src/main/java/net/minecraftforge/jarjar/nio/layzip/LayeredZipFileSystemProvider.java:112-135 | no sections is out of bounds; one section is the single-layer lookup, with the same answer and error; with more sections the answer is a filesystem of a registry that only grew, and any failure is the intermediary failure |
| LayeredProvider.WalkFromAgain | filesystems/src/main/java/net/minecraftforge/jarjar/nio/layzip/LayeredZipFileSystemProvider.java:98-106 | a section walk repeated in any later registry ends in the same filesystem with the same prefix and registers nothing |
| LayeredProvider.LayeredGetPathAgain | filesystems/src/main/java/net/minecraftforge/jarjar/nio/layzip/LayeredZipFileSystemProvider.java:90-110 | `getPath` asked again, in the registry its first answer left, gives the same path and registers nothing |
| LayeredProvider.LayeredGetPathLater | filesystems/src/main/java/net/minecraftforge/jarjar/nio/layzip/LayeredZipFileSystemProvider.java:90-110 | with several sections, `getPath` asked in any later registry gives the same path |
| LayeredProvider.LayeredGetPathTwoSections | filesystems/src/main/java/net/minecraftforge/jarjar/nio/layzip/LayeredZipFileSystemProvider.java:90-110 | with two sections the answer is the second section as a path of the layer opened, with an empty key prefix, over the first section's disk path; it fails exactly when opening that layer fails |
| LayeredProvider.LayeredGetFileSystemOpensPath | filesystems/src/main/java/net/minecraftforge/jarjar/nio/layzip/LayeredZipFileSystemProvider.java:112-135 | with several sections, `getFileSystem` is `getPath` followed by opening a layer, with an empty key prefix, over the path it hands out; a failure of `getPath` is its failure |
| LayeredProvider.LayeredGetFileSystemAgain | filesystems/src/main/java/net/minecraftforge/jarjar/nio/layzip/LayeredZipFileSystemProvider.java:112-135 | `getFileSystem` asked again, in the registry its first answer left, gives the same filesystem and registers nothing |
| LayeredResolution.MarkerPath | filesystems/src/main/java/net/minecraftforge/jarjar/nio/layzip/LayeredZipFileSystemProvider.java:170 | the path `~/` that `endsWith` compares against is the single component `~/` |
| LayeredResolution.MarkerParts | filesystems/src/main/java/net/minecraftforge/jarjar/nio/layzip/LayeredZipFileSystemProvider.java:179-187 | parsing `~/` in a layered filesystem gives that single component, because of the `adaptPathParts` hook |
| LayeredResolution.AdaptResolvedPath | filesystems/src/main/java/net/minecraftforge/jarjar/nio/layzip/LayeredZipFileSystemProvider.java:156-177 | text without `~/` comes back unchanged; otherwise the answer is a path of a filesystem the registry now holds, and the only failures are a malformed URI or a creation failure |
| LayeredResolution.LayeredResolve | filesystems/src/main/java/net/minecraftforge/jarjar/nio/pathfs/PathPath.java:166-178 | layered `resolve` is the plain resolution handed to the hook, and a path of another kind comes back unchanged |
| LayeredResolution.TildeFreeStays | filesystems/src/main/java/net/minecraftforge/jarjar/nio/layzip/LayeredZipFileSystemProvider.java:160-161 | a path without `~` passes the hook untouched and registers nothing |
| LayeredResolution.ResolveWithoutMarkers | filesystems/src/main/java/net/minecraftforge/jarjar/nio/pathfs/PathPath.java:172-175 | without `~` on either side, layered `resolve` is the plain `resolve` |
| LayeredResolution.MarkedEndIsRoot | filesystems/src/main/java/net/minecraftforge/jarjar/nio/layzip/LayeredZipFileSystemProvider.java:170 | a path whose text ends in `~/` resolves to the root of the filesystem it names |
| LayeredResolution.AdaptedRest | filesystems/src/main/java/net/minecraftforge/jarjar/nio/layzip/LayeredZipFileSystemProvider.java:163-172 | the adapted path is one text parsed in the opened filesystem: `/`, or the text after the last `~/` |
| LayeredResolution.SplitsAtLastMarker | filesystems/src/main/java/net/minecraftforge/jarjar/nio/layzip/LayeredZipFileSystemProvider.java:163-172 | `a~/b`, with a non-empty `b` free of `~`, resolves to `b` parsed in the filesystem opened for the URI of `a~/` |
| LayeredRendering.FreshLayerPrefix | filesystems/src/main/java/net/minecraftforge/jarjar/nio/layzip/LayeredZipFileSystemProvider.java:148-154 | a new layer over the root or a one-name path of a layer renders as the parent layer's prefix, `~/` and that name, or `~/` alone for the root |
| LayeredRendering.DiskLayerPrefix | filesystems/src/main/java/net/minecraftforge/jarjar/nio/layzip/LayeredZipFileSystemProvider.java:148-154 | a new layer opened from the disk renders as the host's URI text of its absolute path |
| LayeredRendering.RootLayerPrefix | filesystems/src/main/java/net/minecraftforge/jarjar/nio/layzip/LayeredZipFileSystemProvider.java:148-154 | a new layer over the root of a layer renders as the parent's prefix followed by `~/` |
| LayeredRendering.OpenLayerSpells | filesystems/src/main/java/net/minecraftforge/jarjar/nio/layzip/LayeredZipFileSystemProvider.java:206-231 | a step into the section `/n` of a layer opens a layer whose prefix is the parent's prefix, `~/` and `n` |
| LayeredRendering.WalkSpells | filesystems/src/main/java/net/minecraftforge/jarjar/nio/layzip/LayeredZipFileSystemProvider.java:206-231 | a walk through sections `/n1`..`/nk` that opens a fresh layer each time ends in a layer whose prefix spells `~/n1`..`~/nk` after the start's prefix |
| LayeredRendering.SectionsOfText | filesystems/src/main/java/net/minecraftforge/jarjar/nio/layzip/LayeredZipFileSystemProvider.java:33 | `d~/n1~/..~/nk~/` splits on `~` into `d`, the sections `/n1`..`/nk` and a last `/` |
| LayeredRendering.LayerTextKept | filesystems/src/main/java/net/minecraftforge/jarjar/nio/layzip/LayeredZipFileSystemProvider.java:144-145 | collapsing `~//` leaves the text of named layers unchanged |
| LayeredRendering.CollapsedUriText | filesystems/src/main/java/net/minecraftforge/jarjar/nio/layzip/LayeredZipFileSystemProvider.java:144-145 | the rendered URI text of a chain of named layers is not changed by the `~//` collapse |
| LayeredRendering.DiskWalkSpells | filesystems/src/main/java/net/minecraftforge/jarjar/nio/layzip/LayeredZipFileSystemProvider.java:221-231 | the walk from the disk through `d` and `/n1`..`/nk` ends in a layer whose prefix is `d` as rendered by the host, then `~/n1`..`~/nk` |
| LayeredRendering.NewFileSystemPrefix | filesystems/src/main/java/net/minecraftforge/jarjar/nio/layzip/LayeredZipFileSystemProvider.java:31-58 | the filesystem `newFileSystem` opens for `d~/n1~/..~/nk~/` renders its prefix as the host's `d` followed by `~/n1`..`~/nk~/` |
| LayeredRendering.LayeredStart | filesystems/src/main/java/net/minecraftforge/jarjar/nio/layzip/LayeredZipFileSystemProvider.java:31-58 | for such a URI, `newFileSystem` is the walk over all named layers followed by one more layer over the root of the last |
| LayeredRendering.NewFileSystemRenders | filesystems/src/main/java/net/minecraftforge/jarjar/nio/layzip/LayeredZipFileSystemProvider.java:137-146 | round trip: the root of the filesystem `newFileSystem` opens for `jij:d~/n1~/..~/nk~/` renders back as that same URI |
| LayeredRendering.NewFileSystemAfterKnownKey | filesystems/src/main/java/net/minecraftforge/jarjar/nio/layzip/LayeredZipFileSystemProvider.java:31-58 | as written, `newFileSystem` on `jij:k~/name~/` with `k` registered opens no layer for `name`: it asks again for the root of `k`'s filesystem, keyed under the prefix `/` |
| LayeredRendering.RootRendersAs | filesystems/src/main/java/net/minecraftforge/jarjar/nio/layzip/LayeredZipFileSystemProvider.java:137-146 | the root of a filesystem renders as `jij:` followed by the filesystem's prefix |
| LayeredRendering.KnownKeySkipsLayer | filesystems/src/main/java/net/minecraftforge/jarjar/nio/layzip/LayeredZipFileSystemProvider.java:206 | as written, `k~/a~/` with a registered `k` opens no layer for `a` and returns `/` as the prefix |
| LayeredRendering.KnownKeyOpensEveryLayer | filesystems/src/main/java/net/minecraftforge/jarjar/nio/layzip/LayeredZipFileSystemProvider.java:206-217 | corrected, `k~/n1~/..~/nk~/` with a registered `k` and opening a new layer per name ends in a layer whose prefix is that of `k`'s filesystem followed by `~/n1`..`~/nk` |
| JarSelection.Claim | selector/src/main/java/net/minecraftforge/jarjar/selection/JarSelector.java:128-134 | claims are only ever added: existing claims stay, and every new claim is the identifier of a forced source |
| JarSelection.ClaimFirstWins | selector/src/main/java/net/minecraftforge/jarjar/selection/JarSelector.java:128-134 | every forced identifier gets claimed, and an unclaimed identifier goes to the first source that carries it |
| JarSelection.Force | selector/src/main/java/net/minecraftforge/jarjar/selection/JarSelector.java:113-137 | forcing claims every source's identifier, keeps earlier claims and scans every source |
| JarSelection.AddOption | selector/src/main/java/net/minecraftforge/jarjar/selection/JarSelector.java:145-147 | an option is one more detection at depth 0 with its source, and nothing else changes |
| JarSelection.AddRequirementAsWritten | selector/src/main/java/net/minecraftforge/jarjar/selection/JarSelector.java:153-155 | as written, a requirement is one more sourceless detection at depth 0, and the required identifiers do not change |
| JarSelection.AddRequirement | selector/src/main/java/net/minecraftforge/jarjar/selection/JarSelector.java:149-155 | corrected: the requirement's identifier becomes required as well, and every identifier required before still is |
| JarSelection.RequirementNotRequired | selector/src/main/java/net/minecraftforge/jarjar/selection/JarSelector.java:72-84 | as written, an identifier added only through `addRequirement` is not reported as required; corrected, it is |
| JarSelection.Children | selector/src/main/java/net/minecraftforge/jarjar/selection/JarSelector.java:188-198 | the sources queued from one source are exactly the nested sources of the jars it lists, for the jars that have one |
| JarSelection.Visit | selector/src/main/java/net/minecraftforge/jarjar/selection/JarSelector.java:186-199 | visiting a source records one detection per listed jar at the depth given, and marks each identifier required |
| JarSelection.Step | selector/src/main/java/net/minecraftforge/jarjar/selection/JarSelector.java:171-200 | one turn of the queue: a seen source is skipped; an unseen one becomes seen and every jar it lists is detected; nothing detected is lost and the claims stay |
| JarSelection.Expand | selector/src/main/java/net/minecraftforge/jarjar/selection/JarSelector.java:186-199 | the metadata of a source is visited one level deeper than that source, and its nested sources join the queue |
| JarSelection.Scan | selector/src/main/java/net/minecraftforge/jarjar/selection/JarSelector.java:171-200 | the scan terminates, only grows what was seen, detected and required, keeps the claims, and sees everything queued |
| JarSelection.Add | selector/src/main/java/net/minecraftforge/jarjar/selection/JarSelector.java:160-201 | `add` sees every source given, loses nothing already known and leaves the claims alone |
| JarSelection.ScanIdentifiers | selector/src/main/java/net/minecraftforge/jarjar/selection/JarSelector.java:167-201 | after a scan an identifier is required exactly when it was required before or a source newly seen lists a jar with it |
| JarSelection.ScanDetection | selector/src/main/java/net/minecraftforge/jarjar/selection/JarSelector.java:186-192 | every new detection has depth at least 1 and comes from a jar that a newly seen source lists, with that jar's nested source |
| JarSelection.ScanCovers | selector/src/main/java/net/minecraftforge/jarjar/selection/JarSelector.java:167-201 | every jar a newly seen source lists is detected at some depth of at least 1, its identifier is required, and its nested source is seen |
| JarSelection.FirstSourceDepth | selector/src/main/java/net/minecraftforge/jarjar/selection/JarSelector.java:186 | a jar listed by the first source added is detected at depth 1 |
| JarSelection.Candidates | selector/src/main/java/net/minecraftforge/jarjar/selection/JarSelector.java:208-215 | the candidates of an identifier are exactly the distinct metadata detected with a source |
| JarSelection.Extras | selector/src/main/java/net/minecraftforge/jarjar/selection/JarSelector.java:211-212 | the extra restrictions of an identifier are exactly the metadata detected without a source |
| JarSelection.Identifiers | selector/src/main/java/net/minecraftforge/jarjar/selection/JarSelector.java:210-220 | each identifier that has any detection appears exactly once |
| JarSelection.RestrictRanges | selector/src/main/java/net/minecraftforge/jarjar/selection/JarSelector.java:366-376 | an absent range takes the other one, and the result is absent exactly when both are |
| JarSelection.FoldRanges | selector/src/main/java/net/minecraftforge/jarjar/selection/JarSelector.java:224-229 | the folded range is absent exactly when nothing along the way has a range, and jars without ranges leave it alone |
| JarSelection.RangeFor | selector/src/main/java/net/minecraftforge/jarjar/selection/JarSelector.java:224-229 | an identifier ends with no range exactly when none of its detections, candidate or extra, asks for one |
| JarSelection.Highest | selector/src/main/java/net/minecraftforge/jarjar/selection/JarSelector.java:273-283 | the choice is in range and ranks at least as high as every jar in range; it is absent exactly when no jar is in range |
| JarSelection.Choose | selector/src/main/java/net/minecraftforge/jarjar/selection/JarSelector.java:220-289 | a range is missing or unusable exactly when candidates exist but no usable range does; any choice is a candidate in range, and the highest-ranked one |
| JarSelection.ChooseFor | selector/src/main/java/net/minecraftforge/jarjar/selection/JarSelector.java:220-229 | the choice for an identifier is a metadata of that identifier that some source supplied |
| JarSelection.Choices | selector/src/main/java/net/minecraftforge/jarjar/selection/JarSelector.java:220 | one choice per identifier, and some choice is empty exactly when some identifier has no selection |
| JarSelection.FailureReasonOf | selector/src/main/java/net/minecraftforge/jarjar/selection/JarSelector.java:382-390 | asking for the reason of a success is an error; otherwise the reason is a failed version resolution exactly when no valid range was found |
| JarSelection.Failures | selector/src/main/java/net/minecraftforge/jarjar/selection/JarSelector.java:292-309 | one failure report per empty choice, with its reason and the requests for that identifier, and nothing else; as written the report is only built when no failed identifier has an unranged candidate (see `SelectAsWritten`) |
| JarSelection.DetectionsOf | selector/src/main/java/net/minecraftforge/jarjar/selection/JarSelector.java:322 | exactly the detections of that metadata |
| JarSelection.Nearest | selector/src/main/java/net/minecraftforge/jarjar/selection/JarSelector.java:326-331 | the least nested detection: no detection is shallower |
| JarSelection.NearestOf | selector/src/main/java/net/minecraftforge/jarjar/selection/JarSelector.java:321-330 | a jar never detected has no nearest detection; otherwise the nearest is one of its detections, no deeper than any other |
| JarSelection.SourceTaken | selector/src/main/java/net/minecraftforge/jarjar/selection/JarSelector.java:316-333 | a failed choice gives no source; a source given is that of a least nested detection of the chosen jar |
| JarSelection.Winners | selector/src/main/java/net/minecraftforge/jarjar/selection/JarSelector.java:315-336 | every source picked is the source of the least nested detection of some selected metadata, and every selected metadata whose least nested detection has a source contributes that source |
| JarSelection.KeepFirst | selector/src/main/java/net/minecraftforge/jarjar/selection/JarSelector.java:339-356 | the filter keeps only unclaimed sources, at most one per identifier |
| JarSelection.KeepFirstWins | selector/src/main/java/net/minecraftforge/jarjar/selection/JarSelector.java:339-356 | the first unclaimed source of each identifier is the one kept |
| JarSelection.Select | selector/src/main/java/net/minecraftforge/jarjar/selection/JarSelector.java:203-359 | the corrected `select`: selection fails exactly when some identifier has no selected jar, and then reports every such identifier, also those with unranged requests; otherwise it answers the filtered winners |
| JarSelection.SelectAsWritten | selector/src/main/java/net/minecraftforge/jarjar/selection/JarSelector.java:292-312 | `select` as written fails exactly when some identifier has no selected jar; it throws `NullPointerException` exactly when such an identifier has a candidate with no range, since the report's `HashSet` hashes that null range (lines 519-523); otherwise it fails with the corrected report, and it succeeds with the same sources |
| JarSelection.UnrangedFailureThrows | selector/src/main/java/net/minecraftforge/jarjar/selection/JarSelector.java:299-306 | an identifier whose detections all name no range fails as unresolvable: as written `select` throws, while the corrected `select` reports it with its requests |
| JarSelection.SelectReportsEveryFailure | selector/src/main/java/net/minecraftforge/jarjar/selection/JarSelector.java:292-312 | an identifier whose choice failed makes `select` fail, and its report carries that identifier, the reason and the requests made for it; as written the same report entry appears unless some failed identifier has an unranged candidate |
| JarSelection.Selected | selector/src/main/java/net/minecraftforge/jarjar/selection/JarSelector.java:315-358 | the jars selected are never claimed, never share an identifier, and each comes from a detection of a chosen metadata; every winner that is the first with its identifier and is not claimed is kept |
| JarSelection.OptionIsCandidate | selector/src/main/java/net/minecraftforge/jarjar/selection/JarSelector.java:208-215 | an option's metadata becomes a candidate of its identifier |
| JarSelection.RequirementIsExtra | selector/src/main/java/net/minecraftforge/jarjar/selection/JarSelector.java:211-212 | a requirement's metadata becomes an extra restriction of its identifier and never a candidate |
| JarSelection.MissingJarFails | selector/src/main/java/net/minecraftforge/jarjar/selection/JarSelector.java:231-236 | an identifier that is only required, with no candidate, makes selection fail with a no-matching-jar report that lists no requests; as written it fails too, with that report entry unless some failed identifier has an unranged candidate |
| VersionRanges.SerializeRestriction | metadata/src/main/java/net/minecraftforge/jarjar/metadata/json/VersionRangeSerializer.java:64-86 | a missing lower bound is a failure; otherwise the bracket shows inclusiveness, with one bound when the two are the same version and `lower,upper` otherwise |
| VersionRanges.ReadRendered | metadata/src/main/java/net/minecraftforge/jarjar/metadata/json/VersionRangeSerializer.java:64-86 | reading a written restriction back gives the restriction and leaves the rest of the text |
| VersionRanges.SerializeRestrictions | metadata/src/main/java/net/minecraftforge/jarjar/metadata/json/VersionRangeSerializer.java:49-60 | fails exactly when some restriction lacks a lower bound; no restrictions write nothing, and otherwise the text opens and closes with brackets |
| VersionRanges.ReadRenderedRestrictions | metadata/src/main/java/net/minecraftforge/jarjar/metadata/json/VersionRangeSerializer.java:49-60 | a written non-empty list of restrictions reads back to the same list |
| VersionRanges.SerializeRange | metadata/src/main/java/net/minecraftforge/jarjar/metadata/json/VersionRangeSerializer.java:40-62 | a recommended version is written alone; otherwise the restrictions are written |
| VersionRanges.ReadSerializedRange | metadata/src/main/java/net/minecraftforge/jarjar/metadata/json/VersionRangeSerializer.java:40-62 | a written range reads back to the same range |
| VersionRanges.Serialize | metadata/src/main/java/net/minecraftforge/jarjar/metadata/json/VersionRangeSerializer.java:34-38 | the JSON is a primitive holding the written text, and fails exactly when writing fails |
| VersionRanges.Deserialize | metadata/src/main/java/net/minecraftforge/jarjar/metadata/json/VersionRangeSerializer.java:17-32 | anything but a primitive is rejected with the fixed message; a spec Maven cannot parse is a parse error; a success is exactly Maven's parse of the text |
| VersionRanges.JsonRoundTrip | metadata/src/main/java/net/minecraftforge/jarjar/metadata/json/VersionRangeSerializer.java:17-38 | round trip: a range of restrictions serialized to JSON and deserialized comes back unchanged, given a Maven parser that reads spec text as the model's reader does |
| VersionRanges.NullLowerBoundFails | metadata/src/main/java/net/minecraftforge/jarjar/metadata/json/VersionRangeSerializer.java:69 | a restriction with no lower bound makes writing the whole range fail, as the `equals` on the null bound throws |
| VersionRanges.NullLowerBoundFailsFrom | metadata/src/main/java/net/minecraftforge/jarjar/metadata/json/VersionRangeSerializer.java:69 | writing a list of restrictions fails with the null-bound error as soon as any one of them lacks a lower bound, wherever it sits |

## Left out

- The host JDK is not modelled. URI normalization and quoting, the disk's paths, URI parsing, the Windows check and opening the delegate filesystem are parameters (`Host`, `Platform`, `DelegateInfo`).
- `Lazy`, `PathFSUtils` and real I/O are left out. Byte channels, attribute reads and directory streams stop at the path they would act on (`AccessFor`, `CheckAccessTarget`, `ListingFor`), and a listing is the host's entry texts (`DirectoryEntries`).
- `synchronized` and concurrency are left out, because every operation is one atomic function of the registry.
- Logging and the warnings the selector prints are left out.
- `toRealPath`, `getFileStore`, `getFileStores`, `supportedFileAttributeViews`, `register`, `hashCode`, `getSeparator` and `getNameCount` are left out. They return a constant or null and state nothing worth proving; `/` is the constant `Separator`.
- The `FileSystems.newFileSystem` dispatch is assumed to reach this provider. The layered provider's calls to its `path:` super-provider are modelled as direct calls.
- The metadata reader and nested-source lookup of the selector are parameters (`Hooks`). So are `getIdentifier` and the exception it builds from failures.
- Maven's `VersionRange.restrict`, `containsVersion`, `compareTo`, version equality and `createFromVersionSpec` are parameters (`Maven`, `SameVersion`). Comparison is an integer rank.
- The recommended-version branch of `select` is left out: `isValid` rejects any range with a recommended version, so that branch cannot be reached.
- A null artifact version is not modelled. The JSON reader produces one for a missing field, and `containsVersion`, `compareTo` and the report's `hashCode` would then throw. A null range is modelled as `None`.
- The older tree `src/main/java/...` (a previous copy of the selector and metadata code) is not part of this model.
- JarSelection.Scan: termination is argued over a finite universe of sources (`Hooks.universe`, closed under nesting), so a scan over an infinite chain of nested sources is not modelled.
- JarSelection.Select: the result follows the iteration order `order` of the detection set. The model proves what holds for every order, not the one order a given JVM uses.
- PathAlgebra.ToAbsolutePath: in a layered filesystem, the real call resolves through `adaptResolvedPath`. The model uses the plain resolution. It proves the two agree for paths without `~` (`LayeredProvider.AbsoluteHookIdle`). The paths the section walk builds never hold `~`; a package path handed in by a caller is required to hold none (next line).
- LayeredProvider.NewFileSystem: a package path handed in through `env` must have no component holding `~` (`Unmarked`), and so must the paths given to `LastLayer`, `Register` and `GetOrCreate`. Java accepts any path there; for one holding `~`, `toAbsolutePath` would run the layered hook, which this model does not follow.
- LayeredProvider.LayeredGetPath: for more than two sections the contract does not name the layer the walk reaches. `LayeredGetPathTwoSections` names it for two sections; `LayeredGetPathAgain` and `LayeredGetPathLater` state that the answer is stable.
- LayeredProvider.LayeredGetFileSystem: the filesystem opened is stated through `getPath` (`LayeredGetFileSystemOpensPath`), not spelled out layer by layer.
- PathAlgebra.ResolveRelativize: the round trip is proved for distinct paths of plain names, both relative (`ResolveRelativize`) and both absolute (`ResolveRelativizeAbsolute`). A path against itself, paths holding `.` or `..`, and a relative path against an absolute one are not covered.
- LayeredProvider.LayeredBuildUriFor: rendering a layer whose target is a path filesystem path is stated for root and one-name targets (`LayeredRendering`). A deeper target's prefix concatenates text with no `~/` and is only bounded, not spelled out.
- LayeredRendering.NewFileSystemRenders: the round trip assumes every layer is new and the host renders the disk part `d` unchanged. Walks that reuse registered layers are covered only by the stability lemmas (`GetOrCreateAgain`, `UriTextStable`).
- VersionRanges.ReadSerializedRange: the reader is this model's own. It is not Maven's spec parser, and the round trip holds for versions whose text has no brackets or commas, and whose same-version test agrees with equality.

## Findings

| source | as written | input that shows it | evidently intended | confidence | as-written member | corrected member |
|---|---|---|---|---|---|---|
| filesystems/src/main/java/net/minecraftforge/jarjar/nio/pathfs/PathPath.java:199-208 | `relativize` takes the subpath of `other` at `i + 1` when this path is used up, and at `i` otherwise, ignoring the offset of an absolute `other` | `abc` against `abc/def/ghi` answers `ghi`; `a` against `a/b` and `/a` against `/a` throw; `/abc/xyz` against `/abc/def/ghi` answers `../abc/def/ghi` where the zip filesystem answers `../def/ghi` | the subpath of `other` after the common run, from `i + poff`, so that resolving the answer gives `other` back | not executed | PathAlgebra.RelativizeAsWritten (with PathAlgebra.RelativizeAsWrittenSkipsComponent, PathAlgebra.RelativizeAsWrittenFails, PathAlgebra.RelativizeAbsoluteSiblings) | PathAlgebra.Relativize (with PathAlgebra.ResolveRelativize) |
| filesystems/src/main/java/net/minecraftforge/jarjar/nio/layzip/LayeredZipFileSystemProvider.java:206-217 | with a known first key, the layer loop runs while `i < sections.length - 2` and returns the last section as the key prefix | `k~/a~/` with `k` registered opens no layer for `a` and returns the prefix `/`, so `newFileSystem` opens the root of `k` again | open every section but the last inside the known filesystem and return the accumulated prefix, as the disk branch does | not executed | LayeredProvider.AdaptUriSectionsAsWritten (with LayeredRendering.KnownKeySkipsLayer, LayeredRendering.NewFileSystemAfterKnownKey) | LayeredProvider.AdaptUriSections (with LayeredRendering.KnownKeyOpensEveryLayer) |
| selector/src/main/java/net/minecraftforge/jarjar/selection/JarSelector.java:149-155 | `addRequirement` adds the detection but not the identifier, while the Javadoc of `isRequired` (lines 72-84) says requirements count | after `addRequirement(m)` on a new selector, `isRequired(m.identifier())` is false | record the identifier as required | not executed | JarSelection.AddRequirementAsWritten (with JarSelection.RequirementNotRequired) | JarSelection.AddRequirement (with JarSelection.RequirementNotRequired) |
| selector/src/main/java/net/minecraftforge/jarjar/selection/JarSelector.java:299-306 | the failure report puts each request in a `HashSet`, and `SourceWithRequestedVersionRange.hashCode` (lines 519-523) dereferences the requested range, which is null for a jar that names none | source `s` nests jar `X` with no range and version 1.0, and nothing else asks for `X`: the range is null, the choice fails as unresolvable, and building its report throws `NullPointerException` | report `VERSION_RESOLUTION_FAILED` for `X` with that request, null range included | high; not executed | JarSelection.SelectAsWritten (with JarSelection.UnrangedFailureThrows) | JarSelection.Select (with JarSelection.SelectReportsEveryFailure, JarSelection.UnrangedFailureThrows) |
