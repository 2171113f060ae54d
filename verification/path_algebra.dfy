/** The immutable path value of the path filesystem: a sequence of components
    plus the identity of the filesystem that owns it.  Parsing, rendering and
    the component algebra (parent, name, subpath, prefix tests, normalize,
    resolve, relativize) follow the Java path class operation by operation. */
module PathAlgebra {
  import opened Wrappers
  import opened JavaStrings

  /** Identity of a filesystem instance (Java compares filesystems by reference). */
  type FsId = nat

  /** Which provider owns a filesystem: the single-layer `path:` provider, or
      the layered `jij:` provider whose hooks adapt parsing and resolution. */
  datatype Provider = SingleLayer | Layered

  /** A path of the path filesystem. */
  datatype PathPath = PathPath(fs: FsId, parts: seq<string>)

  /** Any `java.nio.file.Path`: a path on the host disk (opaque text) or a
      path of some path filesystem. */
  datatype AnyPath = Disk(location: string) | Virtual(path: PathPath)

  /** The runtime exceptions the path operations can raise. */
  datatype PathError =
    | IllegalArgument     // IllegalArgumentException
    | NoSuchElement       // NoSuchElementException from an empty deque

  /** The filesystem separator. */
  const Separator: string := "/"
  /** Separates the owning key from the inner path in a URI. */
  const ComponentSeparator: string := "~"
  /** `~/`: the marker that ends every layer of a URI. */
  const LayerMarker: string := "~/"

  // ---------------------------------------------------------------------
  // Parsing

  /** Replace backslashes, split on `/` with Java's rules (`"/"` is `[""]`),
      then drop one leading empty component when more than one remains. */
  function LocalParts(s: string): (r: seq<string>)
    ensures s == "/" ==> r == [""]
    ensures forall i :: 0 <= i < |r| ==> '/' !in r[i] && '\\' !in r[i]
  {
    var t := ReplaceChar(s, '\\', '/');
    ReplaceCharAt(s, '\\', '/');
    assert '\\' !in t by {
      assert forall k :: 0 <= k < |t| ==> t[k] != '\\';
    }
    var split := if s == "/" then [""] else Split(t, '/');
    assert forall i :: 0 <= i < |split| ==> '\\' !in split[i];
    if |split| > 1 && split[0] == "" then split[1..] else split
  }

  /** Whether the provider's `adaptPathParts` hook rewrites the parts of `s`:
      only the layered provider does, for text ending in `~/`. */
  predicate AdaptsParts(provider: Provider, s: string) {
    provider == Layered && JavaStrings.EndsWith(s, LayerMarker)
  }

  /** The provider hook: the layered provider appends `/` to the last part of
      a string that ends in `~/`; otherwise the parts are unchanged. */
  function AdaptPathParts(provider: Provider, longstring: string, parts: seq<string>): (r: seq<string>)
    requires AdaptsParts(provider, longstring) ==> |parts| > 0
    ensures |r| == |parts|
    ensures forall i :: 0 <= i < |parts| - 1 ==> r[i] == parts[i]
    ensures !AdaptsParts(provider, longstring) ==> r == parts
    ensures AdaptsParts(provider, longstring) ==> r[|r| - 1] == parts[|parts| - 1] + "/"
  {
    if AdaptsParts(provider, longstring) then parts[..|parts| - 1] + [parts[|parts| - 1] + "/"]
    else parts
  }

  /** A string ending in `~/` always leaves at least one part after splitting. */
  lemma {:induction false} LocalPartsOfMarked(s: string)
    requires JavaStrings.EndsWith(s, LayerMarker)
    ensures |LocalParts(s)| > 0
  {
    var t := ReplaceChar(s, '\\', '/');
    ReplaceCharAt(s, '\\', '/');
    assert s[|s| - 2] == s[|s| - 2..][0] == '~';
    if s != "/" {
      assert t[|s| - 2] == '~';
      SplitNonEmpty(t, '/', |s| - 2);
    }
  }

  /** `getPathParts`: the components a string denotes in a filesystem of `provider`. */
  function ParseParts(provider: Provider, s: string): (r: seq<string>)
    ensures s == "/" ==> r == [""]
    ensures !AdaptsParts(provider, s) ==> forall i :: 0 <= i < |r| ==> '/' !in r[i] && '\\' !in r[i]
  {
    assert AdaptsParts(provider, s) ==> |LocalParts(s)| > 0 by {
      if AdaptsParts(provider, s) { LocalPartsOfMarked(s); }
    }
    AdaptPathParts(provider, s, LocalParts(s))
  }

  /** The constructor without a known-correct split: no arguments give `[]`,
      otherwise the arguments are joined with `/` and parsed. */
  function NewPath(fs: FsId, provider: Provider, args: seq<string>): (r: PathPath)
    ensures r.fs == fs
    ensures |args| == 0 ==> r.parts == []
    ensures |args| > 0 ==> r.parts == ParseParts(provider, Join(args, Separator))
  {
    if |args| == 0 then PathPath(fs, [])
    else PathPath(fs, ParseParts(provider, Join(args, Separator)))
  }

  // ---------------------------------------------------------------------
  // Basic queries

  predicate IsAbsolute(p: PathPath) {
    |p.parts| == 0 || p.parts[0] == ""
  }

  /** The root of every path filesystem: the single empty component. */
  function Root(fs: FsId): PathPath {
    PathPath(fs, [""])
  }

  /** `toString`: the parts joined by `/`, then every `//` collapsed once. */
  function ToString(p: PathPath): string {
    ReplaceAll(Join(p.parts, Separator), "//", "/")
  }

  /** `equals`: another path filesystem path of the same instance and parts. */
  function Equals(p: PathPath, o: AnyPath): (r: bool)
    ensures r <==> o == Virtual(p)
  {
    o.Virtual? && o.path.fs == p.fs && o.path.parts == p.parts
  }

  /** `compareTo` answers 0 for every pair, equal or not. */
  function CompareTo(p: PathPath, o: PathPath): (r: int)
    ensures r == 0
  {
    0
  }

  /** The ordering does not agree with `equals`: two paths `equals` tells
      apart still compare as equal. */
  lemma {:induction false} CompareToIgnoresEquals(p: PathPath, o: PathPath)
    requires !Equals(p, Virtual(o))
    ensures p != o && CompareTo(p, o) == 0 && CompareTo(o, p) == 0
  {
  }

  /** `getParent`: absent for `[]` and for the root, otherwise all but the last part. */
  function GetParent(p: PathPath): (r: Option<PathPath>)
    ensures r.None? <==> p.parts == [] || p.parts == [""]
    ensures r.Some? ==> r.value.fs == p.fs && r.value.parts + [p.parts[|p.parts| - 1]] == p.parts
  {
    if |p.parts| > 0 && !(|p.parts| == 1 && p.parts[0] == "") then
      Some(PathPath(p.fs, p.parts[..|p.parts| - 1]))
    else None
  }

  /** `getName(i)`: the i-th part as a one-part path; out of range is an error. */
  function GetName(p: PathPath, i: int): (r: Result<PathPath, PathError>)
    ensures r.Failure? <==> !(0 <= i < |p.parts|)
    ensures r.Success? ==> r.value == PathPath(p.fs, [p.parts[i]])
  {
    if i < 0 || i > |p.parts| - 1 then Failure(IllegalArgument)
    else Success(PathPath(p.fs, [p.parts[i]]))
  }

  /** `subpath(b, e)`: parts `b` to `e`; the begin index must name an existing part. */
  function Subpath(p: PathPath, b: int, e: int): (r: Result<PathPath, PathError>)
    ensures r.Failure? <==> !(0 <= b < |p.parts| && b <= e <= |p.parts|)
    ensures r.Success? ==> r.value.fs == p.fs && |r.value.parts| == e - b
    ensures r.Success? ==> forall k :: 0 <= k < e - b ==> r.value.parts[k] == p.parts[b + k]
  {
    if b < 0 || b > |p.parts| - 1 || e < 0 || e > |p.parts| || b > e then
      Failure(IllegalArgument)
    else Success(PathPath(p.fs, p.parts[b..e]))
  }

  /** Every part of a subpath is the matching `getName` of the whole path. */
  lemma {:induction false} SubpathNames(p: PathPath, b: int, e: int, k: int)
    requires Subpath(p, b, e).Success? && 0 <= k < e - b
    ensures GetName(Subpath(p, b, e).value, k) == GetName(p, b + k)
  {
  }

  /** A parent is never a longer path and always a prefix of its child. */
  lemma {:induction false} ParentIsPrefix(p: PathPath)
    requires GetParent(p).Some?
    ensures StartsWith(p, Virtual(GetParent(p).value))
    ensures |GetParent(p).value.parts| + 1 == |p.parts|
  {
    var q := GetParent(p).value;
    assert q.parts == p.parts[..|q.parts|];
  }

  // ---------------------------------------------------------------------
  // Prefix and suffix tests

  /** The first `min(|a|, |b|)` components agree. */
  predicate HeadsAgree(a: seq<string>, b: seq<string>) {
    var m := if |a| < |b| then |a| else |b|;
    a[..m] == b[..m]
  }

  /** The last `min(|a|, |b|)` components agree. */
  predicate TailsAgree(a: seq<string>, b: seq<string>) {
    var m := if |a| < |b| then |a| else |b|;
    a[|a| - m..] == b[|b| - m..]
  }

  /** `checkArraysMatch`: compares only the overlapping components, from the
      front or (with `reverse`) from the back. */
  method CheckArraysMatch(a: seq<string>, b: seq<string>, reverse: bool) returns (r: bool)
    ensures !reverse ==> (r <==> HeadsAgree(a, b))
    ensures reverse ==> (r <==> TailsAgree(a, b))
  {
    var length := if |a| < |b| then |a| else |b|;
    var i := 0;
    while i < length
      invariant 0 <= i <= length
      invariant !reverse ==> a[..i] == b[..i]
      invariant reverse ==> a[|a| - i..] == b[|b| - i..]
    {
      var x := if reverse then a[|a| - i - 1] else a[i];
      var y := if reverse then b[|b| - i - 1] else b[i];
      if x != y {
        if reverse {
          assert a[|a| - length..][length - i - 1] == x;
          assert b[|b| - length..][length - i - 1] == y;
        } else {
          assert a[..length][i] == x && b[..length][i] == y;
        }
        return false;
      }
      if reverse {
        assert a[|a| - (i + 1)..] == [x] + a[|a| - i..];
        assert b[|b| - (i + 1)..] == [y] + b[|b| - i..];
      } else {
        assert a[..i + 1] == a[..i] + [x];
        assert b[..i + 1] == b[..i] + [y];
      }
      i := i + 1;
    }
    return true;
  }

  /** `startsWith`: false across filesystems, else the overlapping heads agree. */
  predicate StartsWith(p: PathPath, o: AnyPath) {
    o.Virtual? && o.path.fs == p.fs && HeadsAgree(p.parts, o.path.parts)
  }

  /** `endsWith`: false across filesystems, else the overlapping tails agree. */
  predicate EndsWith(p: PathPath, o: AnyPath) {
    o.Virtual? && o.path.fs == p.fs && TailsAgree(p.parts, o.path.parts)
  }

  /** Because only the overlap is compared, `startsWith` and `endsWith` are
      symmetric between two paths of one filesystem. */
  lemma {:induction false} PrefixTestsSymmetric(p: PathPath, q: PathPath)
    ensures StartsWith(p, Virtual(q)) <==> StartsWith(q, Virtual(p))
    ensures EndsWith(p, Virtual(q)) <==> EndsWith(q, Virtual(p))
  {
  }

  /** Every path starts with each of its true prefixes (the converse fails:
      see `StartsWithLongerPath`). */
  lemma {:induction false} StartsWithPrefix(p: PathPath, k: nat)
    requires k <= |p.parts|
    ensures StartsWith(p, Virtual(PathPath(p.fs, p.parts[..k])))
    ensures EndsWith(p, Virtual(PathPath(p.fs, p.parts[k..])))
  {
    assert p.parts[..k][..k] == p.parts[..k];
  }

  /** `a` "starts with" the longer `a/b` and with the empty path. */
  lemma {:induction false} StartsWithLongerPath(fs: FsId)
    ensures StartsWith(PathPath(fs, ["a"]), Virtual(PathPath(fs, ["a", "b"])))
    ensures StartsWith(PathPath(fs, ["a"]), Virtual(PathPath(fs, [])))
    ensures !StartsWith(PathPath(fs, ["a"]), Virtual(PathPath(fs + 1, ["a"])))
  {
    assert ["a", "b"][..1] == ["a"];
  }

  // ---------------------------------------------------------------------
  // Normalize

  predicate IsDot(s: string) {
    s == "." || s == ".."
  }

  /** No `.` or `..` component. */
  predicate Clean(parts: seq<string>) {
    forall i :: 0 <= i < |parts| ==> !IsDot(parts[i])
  }

  /** One step of the deque walk: skip `.`, pop on `..`, push anything else. */
  function Step(stack: seq<string>, part: string): (r: Result<seq<string>, PathError>)
    ensures r.Failure? <==> part == ".." && stack == []
    ensures Clean(stack) && r.Success? ==> Clean(r.value)
  {
    if part == "." then Success(stack)
    else if part == ".." then
      if stack == [] then Failure(NoSuchElement) else Success(stack[..|stack| - 1])
    else Success(stack + [part])
  }

  /** The deque after processing `rest` from `stack`. */
  function NormFrom(stack: seq<string>, rest: seq<string>): (r: Result<seq<string>, PathError>)
    ensures Clean(stack) && r.Success? ==> Clean(r.value)
    ensures r.Success? ==> |r.value| <= |stack| + |rest|
    decreases |rest|
  {
    if rest == [] then Success(stack)
    else
      var next :- Step(stack, rest[0]);
      NormFrom(next, rest[1..])
  }

  /** `normalize`: the parts after the deque walk; a `..` with nothing left
      to pop is the deque's `NoSuchElementException`. */
  function Normalize(p: PathPath): (r: Result<PathPath, PathError>)
    ensures r.Success? ==> r.value.fs == p.fs && Clean(r.value.parts)
    ensures r.Success? ==> |r.value.parts| <= |p.parts|
  {
    var parts :- NormFrom([], p.parts);
    Success(PathPath(p.fs, parts))
  }

  /** What one component does to the deque's size: `.` nothing, `..` one
      fewer, anything else one more. */
  function Weight(part: string): int
  {
    if part == "." then 0 else if part == ".." then -1 else 1
  }

  /** The deque's size change over a run of components when no `..` finds
      it empty. */
  function Depth(parts: seq<string>): int
  {
    if parts == [] then 0 else Weight(parts[0]) + Depth(parts[1..])
  }

  /** Walking `parts` from a deque of `size` entries reaches a `..` with
      nothing to pop. */
  predicate Underflows(size: int, parts: seq<string>)
    decreases |parts|
  {
    parts != [] &&
    (size + Weight(parts[0]) < 0 || Underflows(size + Weight(parts[0]), parts[1..]))
  }

  /** The deque walk fails exactly when it underflows, always with
      `NoSuchElementException`, and otherwise ends with the starting size
      plus the depth of the walk. */
  lemma {:induction false} NormFromDepth(stack: seq<string>, rest: seq<string>)
    ensures NormFrom(stack, rest).Failure? <==> Underflows(|stack|, rest)
    ensures NormFrom(stack, rest).Failure? ==> NormFrom(stack, rest).error == NoSuchElement
    ensures NormFrom(stack, rest).Success? ==> |NormFrom(stack, rest).value| == |stack| + Depth(rest)
    decreases |rest|
  {
    if rest != [] {
      var s := Step(stack, rest[0]);
      if s.Success? {
        assert |s.value| == |stack| + Weight(rest[0]);
        NormFromDepth(s.value, rest[1..]);
      }
    }
  }

  /** Underflow, stated over prefixes: some prefix of the walk takes away
      more entries than the deque held at the start. */
  lemma {:induction false} UnderflowsPrefix(size: int, parts: seq<string>)
    ensures Underflows(size, parts) <==> exists k :: 0 < k <= |parts| && size + Depth(parts[..k]) < 0
    decreases |parts|
  {
    if parts != [] {
      var w := Weight(parts[0]);
      var tail := parts[1..];
      UnderflowsPrefix(size + w, tail);
      forall k | 0 < k <= |parts| ensures Depth(parts[..k]) == w + Depth(tail[..k - 1]) {
        assert parts[..k][1..] == tail[..k - 1];
      }
      if Underflows(size, parts) {
        if size + w < 0 {
          assert tail[..0] == [];
          assert size + Depth(parts[..1]) < 0;
        } else {
          var j :| 0 < j <= |tail| && size + w + Depth(tail[..j]) < 0;
          assert size + Depth(parts[..j + 1]) < 0;
        }
      }
      if exists k :: 0 < k <= |parts| && size + Depth(parts[..k]) < 0 {
        var k :| 0 < k <= |parts| && size + Depth(parts[..k]) < 0;
        if k == 1 {
          assert tail[..0] == [];
        } else {
          assert 0 < k - 1 <= |tail| && size + w + Depth(tail[..k - 1]) < 0;
        }
      }
    }
  }

  /** `normalize` throws exactly when some prefix of the path holds more `..`
      than it has components left to remove; otherwise the result has as
      many parts as the path's depth. */
  lemma {:induction false} NormalizeFails(p: PathPath)
    ensures Normalize(p).Failure? <==> exists k :: 0 < k <= |p.parts| && Depth(p.parts[..k]) < 0
    ensures Normalize(p).Failure? ==> Normalize(p).error == NoSuchElement
    ensures Normalize(p).Success? ==> |Normalize(p).value.parts| == Depth(p.parts)
  {
    NormFromDepth([], p.parts);
    UnderflowsPrefix(0, p.parts);
  }

  /** A component sequence without `.` and `..` is pushed unchanged. */
  lemma {:induction false} NormFromClean(stack: seq<string>, rest: seq<string>)
    requires Clean(rest)
    ensures NormFrom(stack, rest) == Success(stack + rest)
    decreases |rest|
  {
    if rest != [] {
      assert !IsDot(rest[0]);
      assert Clean(rest[1..]) by {
        forall i | 0 <= i < |rest[1..]| ensures !IsDot(rest[1..][i]) {
          assert rest[1..][i] == rest[i + 1];
        }
      }
      assert Step(stack, rest[0]) == Success(stack + [rest[0]]);
      NormFromClean(stack + [rest[0]], rest[1..]);
      assert stack + [rest[0]] + rest[1..] == stack + rest;
    } else {
      assert stack + rest == stack;
    }
  }

  /** Processing a concatenation is processing its halves in turn. */
  lemma {:induction false} NormFromAppend(stack: seq<string>, a: seq<string>, b: seq<string>)
    ensures NormFrom(stack, a + b) ==
      (match NormFrom(stack, a)
       case Success(s) => NormFrom(s, b)
       case Failure(e) => Failure(e))
    decreases |a|
  {
    if a != [] {
      assert (a + b)[0] == a[0];
      assert (a + b)[1..] == a[1..] + b;
      match Step(stack, a[0])
      case Success(next) => NormFromAppend(next, a[1..], b);
      case Failure(_) =>
    } else {
      assert a + b == b;
    }
  }

  /** `n` copies of `s`; none for `n <= 0`. */
  function Repeat(s: string, n: int): (r: seq<string>)
    ensures |r| == if n <= 0 then 0 else n
    ensures forall i :: 0 <= i < |r| ==> r[i] == s
    decreases n
  {
    if n <= 0 then [] else [s] + Repeat(s, n - 1)
  }

  /** `k` copies of `..` pop the last `k` entries of the deque. */
  lemma {:induction false} NormFromUps(stack: seq<string>, k: nat)
    requires k <= |stack|
    ensures NormFrom(stack, Repeat("..", k)) == Success(stack[..|stack| - k])
    decreases k
  {
    if k > 0 {
      var ups := Repeat("..", k);
      assert ups[0] == "..";
      assert ups[1..] == Repeat("..", k - 1);
      assert Step(stack, "..") == Success(stack[..|stack| - 1]);
      NormFromUps(stack[..|stack| - 1], k - 1);
      assert stack[..|stack| - 1][..|stack| - 1 - (k - 1)] == stack[..|stack| - k];
    } else {
      assert stack[..|stack|] == stack;
    }
  }

  /** `normalize` is idempotent whenever it succeeds. */
  lemma {:induction false} NormalizeIdempotent(p: PathPath)
    requires Normalize(p).Success?
    ensures Normalize(Normalize(p).value) == Normalize(p)
  {
    var q := Normalize(p).value;
    NormFromClean([], q.parts);
    assert [] + q.parts == q.parts;
  }

  /** A path without `.` and `..` is already normal. */
  lemma {:induction false} NormalizeClean(p: PathPath)
    requires Clean(p.parts)
    ensures Normalize(p) == Success(p)
  {
    NormFromClean([], p.parts);
    assert [] + p.parts == p.parts;
  }

  /** A leading `..` cannot be popped: the deque is empty. */
  lemma {:induction false} NormalizeLeadingUpFails(p: PathPath)
    requires |p.parts| > 0 && p.parts[0] == ".."
    ensures Normalize(p) == Failure(NoSuchElement)
  {
  }

  // ---------------------------------------------------------------------
  // Resolve and absolute form

  /** `resolve` before the provider's `adaptResolvedPath` hook (the identity
      in the single-layer provider): an absolute `other` is returned as is,
      a relative one is appended to this path's text and re-parsed into
      this path's filesystem. */
  function Resolve(provider: Provider, p: PathPath, o: PathPath): (r: PathPath)
    ensures IsAbsolute(o) ==> r == o
    ensures !IsAbsolute(o) ==> r.fs == p.fs
  {
    if IsAbsolute(o) then o
    else PathPath(p.fs, ParseParts(provider, ToString(p) + Separator + ToString(o)))
  }

  /** `resolve` on any `Path`: paths of other kinds come back unchanged. */
  function ResolveAny(provider: Provider, p: PathPath, o: AnyPath): (r: AnyPath)
    ensures o.Disk? ==> r == o
    ensures o.Virtual? ==> r == Virtual(Resolve(provider, p, o.path))
  {
    match o
    case Disk(_) => o
    case Virtual(q) => Virtual(Resolve(provider, p, q))
  }

  /** `toAbsolutePath` (again before the resolution hook): absolute paths are
      kept, others are resolved against the root. */
  function ToAbsolutePath(provider: Provider, p: PathPath): (r: PathPath)
    ensures r.fs == p.fs
    ensures IsAbsolute(p) ==> r == p
  {
    if IsAbsolute(p) then p else Resolve(provider, Root(p.fs), p)
  }

  /** The absolute form of a path is the root exactly when the path is `[""]`. */
  lemma {:induction false} AbsoluteIsRootIff(provider: Provider, p: PathPath)
    ensures ToAbsolutePath(provider, p) == Root(p.fs) <==> p.parts == [""]
  {
    if !IsAbsolute(p) {
      var x := ToString(p);
      assert Join(p.parts, Separator)[..|p.parts[0]|] == p.parts[0] by {
        if |p.parts| > 1 {
          assert Join(p.parts, Separator) == p.parts[0] + (Separator + Join(p.parts[1..], Separator));
        }
      }
      ReplaceNonEmpty(Join(p.parts, Separator), "//", "/");
      assert ToString(Root(p.fs)) == "";
      assert Root(p.fs).parts == [""];
      ParseNotRoot(provider, "" + Separator + x);
    }
  }

  /** Replacing with a non-empty string keeps a non-empty string non-empty. */
  lemma {:induction false} ReplaceNonEmpty(s: string, pat: string, rep: string)
    requires |pat| > 0 && |rep| > 0 && |s| > 0
    ensures |ReplaceAll(s, pat, rep)| > 0
  {
  }

  /** Only `""`, `"/"` or a lone backslash parse to the root components. */
  lemma {:induction false} ParseNotRoot(provider: Provider, s: string)
    requires |s| >= 2 && s[0] == '/'
    ensures ParseParts(provider, s) != [""]
  {
    var t := ReplaceChar(s, '\\', '/');
    ReplaceCharAt(s, '\\', '/');
    assert t[0] == '/';
    var split := Split(t, '/');
    if AdaptsParts(provider, s) {
      LocalPartsOfMarked(s);
    } else {
      var ps := Pieces(t, '/');
    }
  }

  /** `getFileName`: the target's file name for the root, otherwise the last
      component (or `""` for the empty path).  The target's name is passed in. */
  function GetFileName(provider: Provider, p: PathPath, targetName: AnyPath): (r: AnyPath)
    ensures p.parts == [""] ==> r == targetName
    ensures p.parts != [""] && |p.parts| > 0 ==> r == Virtual(PathPath(p.fs, [p.parts[|p.parts| - 1]]))
    ensures p.parts == [] ==> r == Virtual(PathPath(p.fs, [""]))
  {
    AbsoluteIsRootIff(provider, p);
    if Root(p.fs) == ToAbsolutePath(provider, p) then targetName
    else if |p.parts| > 0 then Virtual(PathPath(p.fs, [p.parts[|p.parts| - 1]]))
    else Virtual(PathPath(p.fs, [""]))
  }

  // ---------------------------------------------------------------------
  // Paths made of ordinary names

  /** A component that survives rendering and parsing unchanged. */
  predicate Name(n: string) {
    |n| > 0 && '/' !in n && '\\' !in n && '~' !in n
  }

  predicate Names(parts: seq<string>) {
    forall i :: 0 <= i < |parts| ==> Name(parts[i])
  }

  /** A path of names, an absolute path of names, or the root. */
  predicate WellFormed(parts: seq<string>) {
    parts == [""]
    || (|parts| >= 1 && Names(parts))
    || (|parts| >= 2 && parts[0] == "" && Names(parts[1..]))
  }

  lemma {:induction false} JoinNamesShape(names: seq<string>)
    requires |names| >= 1 && Names(names)
    ensures var j := Join(names, Separator);
      |j| > 0 && j[0] != '/' && j[|j| - 1] != '/' && NoDoubleSlash(j) && '\\' !in j && '~' !in j
    decreases |names|
  {
    var j := Join(names, Separator);
    NoDoubleSlashWithout(names[0]);
    if |names| > 1 {
      JoinNamesShape(names[1..]);
      var rest := Join(names[1..], Separator);
      assert j == names[0] + ("/" + rest);
      NoDoubleSlashConcat("/", rest);
      NoDoubleSlashConcat(names[0], "/" + rest);
    }
  }

  /** Names joined by `/` split back into the same names, in either provider. */
  lemma {:induction false} ParseNames(provider: Provider, names: seq<string>)
    requires |names| >= 1 && Names(names)
    ensures ParseParts(provider, Join(names, Separator)) == names
  {
    var j := Join(names, Separator);
    JoinNamesShape(names);
    ReplaceCharNoop(j, '\\', '/');
    SplitJoin(names, '/');
    assert !AdaptsParts(provider, j) by {
      if JavaStrings.EndsWith(j, LayerMarker) { }
    }
  }

  /** The text of a path of names is their `/`-join. */
  lemma {:induction false} ToStringNames(p: PathPath)
    requires |p.parts| >= 1 && Names(p.parts)
    ensures ToString(p) == Join(p.parts, Separator)
  {
    JoinNamesShape(p.parts);
    ReplaceDoubleSlashNoop(Join(p.parts, Separator));
  }

  /** Parsing `"/"` followed by a well-formed path's text gives its parts back. */
  lemma {:induction false} ParseRendered(provider: Provider, p: PathPath)
    requires WellFormed(p.parts)
    ensures ParseParts(provider, "/" + ToString(p)) == p.parts
  {
    if p.parts == [""] {
      assert ToString(p) == "";
      assert "/" + ToString(p) == "/";
    } else if Names(p.parts) && |p.parts| >= 1 {
      ParseRenderedRelative(provider, p);
    } else {
      ParseRenderedAbsolute(provider, p);
    }
  }

  /** A text whose last character is not `/` does not end in `~/`. */
  lemma {:induction false} NotMarkedEnd(s: string)
    requires |s| > 0 && s[|s| - 1] != '/'
    ensures !JavaStrings.EndsWith(s, LayerMarker)
  {
    if |s| >= 2 {
      assert s[|s| - 2..][1] == s[|s| - 1];
    }
  }

  lemma {:induction false} ParseRenderedRelative(provider: Provider, p: PathPath)
    requires |p.parts| >= 1 && Names(p.parts)
    ensures ParseParts(provider, "/" + ToString(p)) == p.parts
  {
    var j := Join(p.parts, Separator);
    assert ToString(p) == j by {
      ToStringNames(p);
    }
    var xs := [""] + p.parts;
    assert Join(xs, Separator) == "/" + j by {
      JoinCons("", p.parts, Separator);
    }
    assert forall i :: 1 <= i < |xs| ==> xs[i] == p.parts[i - 1];
    ParseLeadingEmpty(provider, xs);
    assert xs[1..] == p.parts;
  }

  lemma {:induction false} ParseRenderedAbsolute(provider: Provider, p: PathPath)
    requires |p.parts| >= 2 && p.parts[0] == "" && Names(p.parts[1..])
    ensures ParseParts(provider, "/" + ToString(p)) == p.parts
  {
    var names := p.parts[1..];
    var j := Join(names, Separator);
    assert ToString(p) == "/" + j by {
      JoinNamesShape(names);
      JoinCons("", names, Separator);
      assert p.parts == [""] + names;
      NoDoubleSlashConcat("/", j);
      ReplaceDoubleSlashNoop("/" + j);
    }
    var xs := [""] + p.parts;
    JoinCons("", p.parts, Separator);
    assert Join(p.parts, Separator) == "/" + j by {
      JoinCons("", names, Separator);
      assert p.parts == [""] + names;
    }
    assert forall i :: 1 <= i < |xs| ==> xs[i] == p.parts[i - 1];
    assert forall i :: 1 <= i < |p.parts| ==> p.parts[i] == names[i - 1];
    ParseLeadingEmpty(provider, xs);
    assert xs[1..] == p.parts;
  }

  /** Parsing the join of an empty first component and further components,
      the last a name, drops the empty one. */
  lemma {:induction false} ParseLeadingEmpty(provider: Provider, xs: seq<string>)
    requires |xs| >= 2 && xs[0] == "" && Name(xs[|xs| - 1])
    requires forall i :: 0 <= i < |xs| ==> '/' !in xs[i] && '\\' !in xs[i]
    ensures ParseParts(provider, Join(xs, Separator)) == xs[1..]
  {
    var s := Join(xs, Separator);
    var last := xs[|xs| - 1];
    JoinAvoids(xs, Separator, '\\');
    ReplaceCharNoop(s, '\\', '/');
    SplitJoin(xs, '/');
    JoinEndsWithLast(xs, Separator);
    NotMarkedEnd(s);
  }

  /** A relative path of names keeps its parts through its own text. */
  lemma {:induction false} ParseToString(provider: Provider, p: PathPath)
    requires |p.parts| >= 1 && Names(p.parts)
    ensures ParseParts(provider, ToString(p)) == p.parts
  {
    ToStringNames(p);
    ParseNames(provider, p.parts);
  }

  /** `toAbsolutePath` of a relative path of names is the path itself: the
      leading separator it adds is stripped again by the parser, so the
      "absolute" form is not absolute. */
  lemma {:induction false} ToAbsoluteKeepsRelative(provider: Provider, p: PathPath)
    requires |p.parts| >= 1 && Names(p.parts)
    ensures ToAbsolutePath(provider, p) == p
    ensures !IsAbsolute(ToAbsolutePath(provider, p))
  {
    assert ToString(Root(p.fs)) == "";
    ParseRendered(provider, p);
    assert "" + Separator + ToString(p) == "/" + ToString(p);
  }

  /** Leading separators do not matter when parsing: `"/a/b"` and `"a/b"`
      give the same components. */
  lemma {:induction false} LeadingSlashIgnored(provider: Provider, s: string)
    requires s == [] || (s[0] != '/' && s[0] != '\\')
    ensures ParseParts(provider, "/" + s) == ParseParts(provider, s)
  {
    if s == [] {
      assert "/" + s == "/";
      assert Pieces(s, '/') == [""];
    } else {
      LocalPartsLeadingSlash(s);
      MarkerAfterSlash(s);
    }
  }

  lemma {:induction false} MarkerAfterSlash(s: string)
    requires s != [] && s[0] != '/'
    ensures JavaStrings.EndsWith("/" + s, LayerMarker) == JavaStrings.EndsWith(s, LayerMarker)
  {
    if |s| >= 2 {
      assert ("/" + s)[|"/" + s| - 2..] == s[|s| - 2..];
    } else {
      assert ("/" + s)[|"/" + s| - 2..] == ['/', s[0]];
    }
  }

  lemma {:induction false} LocalPartsLeadingSlash(s: string)
    requires s != [] && s[0] != '/' && s[0] != '\\'
    ensures LocalParts("/" + s) == LocalParts(s)
  {
    var t := ReplaceChar(s, '\\', '/');
    ReplaceCharAt(s, '\\', '/');
    assert ("/" + s)[1..] == s;
    assert ReplaceChar("/" + s, '\\', '/') == "/" + t;
    SplitLeadingSlash(t);
  }

  lemma {:induction false} SplitLeadingSlash(t: string)
    requires |t| > 0 && t[0] != '/'
    ensures Split("/" + t, '/') == [""] + Split(t, '/')
    ensures Split(t, '/')[0] != ""
  {
    PiecesPrefixSep(t, '/');
    var ps := Pieces(t, '/');
    assert ps[0] != "" by {
      assert t == [t[0]] + t[1..];
    }
    if '/' !in t {
      PiecesWithout(t, '/');
      assert DropTrailingEmpty([""] + [t]) == [""] + [t];
    } else {
      DropTrailingPrefix(ps);
    }
  }

  lemma {:induction false} DropTrailingPrefix(ps: seq<string>)
    requires |ps| >= 1 && ps[0] != ""
    ensures DropTrailingEmpty([""] + ps) == [""] + DropTrailingEmpty(ps)
    ensures |DropTrailingEmpty(ps)| >= 1 && DropTrailingEmpty(ps)[0] != ""
    decreases |ps|
  {
    var qs := [""] + ps;
    if ps[|ps| - 1] == "" {
      assert |ps| >= 2;
      assert qs[..|qs| - 1] == [""] + ps[..|ps| - 1];
      DropTrailingPrefix(ps[..|ps| - 1]);
    }
  }

  // ---------------------------------------------------------------------
  // Relativize

  /** The components after the first `n` (none when there are fewer). */
  function DropParts(parts: seq<string>, n: nat): (r: seq<string>)
    ensures n <= |parts| ==> r == parts[n..]
    ensures n > |parts| ==> r == []
  {
    if n <= |parts| then parts[n..] else []
  }

  /** The matching loop of `relativize`: how many leading components of `a`
      and `b` agree before the first difference or the end of either. */
  function CommonRun(a: seq<string>, b: seq<string>): (k: nat)
    ensures k <= |a| && k <= |b|
    ensures forall j :: 0 <= j < k ==> a[j] == b[j]
    ensures k < |a| && k < |b| ==> a[k] != b[k]
  {
    if |a| == 0 || |b| == 0 || a[0] != b[0] then 0
    else
      var k := 1 + CommonRun(a[1..], b[1..]);
      assert forall j :: 1 <= j < k ==> a[j] == a[1..][j - 1] && b[j] == b[1..][j - 1];
      k
  }

  /** The `..` chain of `relativize`, joined by `/`. */
  function UpDots(n: int): string {
    Join(Repeat("..", n), Separator)
  }

  /** `relativize` exactly as written: after the common run of components
      (skipping the empty marker of absolute paths), the exact-prefix branch
      takes `other`'s parts from `i + 1`, the general branch from `i`, and
      neither accounts for `other`'s absolute marker. */
  function RelativizeAsWritten(provider: Provider, p: PathPath, o: PathPath): (r: Result<PathPath, PathError>)
    ensures p.fs != o.fs ==> r == Failure(IllegalArgument)
    ensures p.fs == o.fs && p.parts == [""] && o.parts == [""] ==> r == Success(p)
    ensures r.Success? ==> r.value.fs == p.fs
  {
    if p.fs != o.fs then Failure(IllegalArgument)
    else if p == Root(p.fs) && o == Root(o.fs) then Success(p)
    else
      var i := Run(p, o);
      var remaining := |p.parts| - i - Marker(p);
      if remaining == 0 && i == |o.parts| then Success(PathPath(p.fs, []))
      else if remaining == 0 then Subpath(o, i + 1, |o.parts|)
      else
        var rest :- if i == |o.parts| then Success(PathPath(o.fs, [])) else Subpath(o, i, |o.parts|);
        Success(UpThenDown(provider, p.fs, remaining, rest.parts))
  }

  /** `relativize` with `other`'s absolute marker counted: the remainder of
      `other` starts after the common run in both branches, and an empty
      remainder on both sides yields the empty path. */
  function Relativize(provider: Provider, p: PathPath, o: PathPath): (r: Result<PathPath, PathError>)
    ensures r.Failure? <==> p.fs != o.fs
    ensures r.Success? ==> r.value.fs == p.fs
  {
    if p.fs != o.fs then Failure(IllegalArgument)
    else if p == Root(p.fs) && o == Root(o.fs) then Success(p)
    else
      var (remaining, rest) := Divergence(p, o);
      Success(UpThenDown(provider, p.fs, remaining, rest))
  }

  /** How many of this path's components lie past the common run (absolute
      marker not counted), and `other`'s components after it. */
  function Divergence(p: PathPath, o: PathPath): (r: (int, seq<string>))
    ensures !IsAbsolute(p) && !IsAbsolute(o) ==>
      var i := CommonRun(p.parts, o.parts);
      r == (|p.parts| - i, o.parts[i..])
  {
    var i := Run(p, o);
    var rest := if i + Marker(o) <= |o.parts| then o.parts[i + Marker(o)..] else [];
    (|p.parts| - i - Marker(p), rest)
  }

  /** The offset of a path's absolute marker: one empty leading part or none. */
  function Marker(p: PathPath): nat {
    if IsAbsolute(p) then 1 else 0
  }

  /** The common run of the two paths' components, each side's absolute
      marker skipped. */
  function Run(p: PathPath, o: PathPath): (k: nat)
    ensures k <= |p.parts| && k <= |o.parts|
    ensures !IsAbsolute(p) && !IsAbsolute(o) ==> k == CommonRun(p.parts, o.parts)
  {
    assert !IsAbsolute(p) && !IsAbsolute(o) ==> DropParts(p.parts, 0) == p.parts && DropParts(o.parts, 0) == o.parts;
    CommonRun(DropParts(p.parts, Marker(p)), DropParts(o.parts, Marker(o)))
  }

  /** The result of `relativize` once the common run is known: with no
      step up, the rest of `other` as it is; otherwise the text of
      `remaining` steps up (`..` components, none when `remaining` is
      negative), then `/` and the text of the rest of `other` when there is
      one, parsed as a new path. */
  function UpThenDown(provider: Provider, fs: FsId, remaining: int, rest: seq<string>): (r: PathPath)
    ensures r.fs == fs
    ensures remaining == 0 ==> r == PathPath(fs, rest)
  {
    if remaining == 0 then PathPath(fs, rest)
    else if rest == [] then NewPath(fs, provider, [UpDots(remaining)])
    else NewPath(fs, provider, [UpDots(remaining) + Separator + ToString(PathPath(fs, rest))])
  }

  /** The empty path counts as absolute, so against itself `relativize`
      finds `-1` components past the common run and returns the path parsed
      from the empty text: the root, not the empty path. */
  lemma EmptyRelativizesToRoot(provider: Provider, fs: FsId)
    ensures RelativizeAsWritten(provider, PathPath(fs, []), PathPath(fs, [])) == Success(Root(fs))
    ensures Relativize(provider, PathPath(fs, []), PathPath(fs, [])) == Success(Root(fs))
  {
    var e := PathPath(fs, []);
    assert Run(e, e) == 0;
    assert UpDots(-1) == "";
    assert ParseParts(provider, "") == [""];
  }

  /** With names only, going up and down is plain concatenation of parts. */
  lemma {:induction false} UpThenDownNames(provider: Provider, fs: FsId, remaining: int, rest: seq<string>)
    requires Names(rest)
    ensures remaining >= 0 ==> UpThenDown(provider, fs, remaining, rest) == PathPath(fs, Repeat("..", remaining) + rest)
  {
    var ups := Repeat("..", remaining);
    if remaining < 0 {
    } else if remaining == 0 {
      assert ups + rest == rest;
    } else if rest == [] {
      assert ups + rest == ups;
      UpsOnly(provider, fs, remaining);
    } else {
      UpsThenNames(provider, fs, remaining, rest);
    }
  }

  /** `..` steps alone parse back into as many `..` components. */
  lemma {:induction false} UpsOnly(provider: Provider, fs: FsId, remaining: int)
    requires remaining > 0
    ensures NewPath(fs, provider, [UpDots(remaining)]) == PathPath(fs, Repeat("..", remaining))
  {
    var ups := Repeat("..", remaining);
    assert Names(ups);
    assert Join([UpDots(remaining)], Separator) == Join(ups, Separator);
    ParseNames(provider, ups);
  }

  /** `..` steps followed by the text of some names parse back into the
      steps followed by the names. */
  lemma {:induction false} UpsThenNames(provider: Provider, fs: FsId, remaining: int, rest: seq<string>)
    requires remaining > 0 && |rest| >= 1 && Names(rest)
    ensures NewPath(fs, provider, [UpDots(remaining) + Separator + ToString(PathPath(fs, rest))])
      == PathPath(fs, Repeat("..", remaining) + rest)
  {
    var ups := Repeat("..", remaining);
    var t := UpDots(remaining) + Separator + ToString(PathPath(fs, rest));
    assert ToString(PathPath(fs, rest)) == Join(rest, Separator) by {
      ToStringNames(PathPath(fs, rest));
    }
    assert t == Join(ups + rest, Separator) by {
      JoinNames(ups, rest);
    }
    assert Join([t], Separator) == t;
    assert Names(ups + rest) by {
      forall j | 0 <= j < |ups + rest| ensures Name((ups + rest)[j]) {
        if j < |ups| { assert (ups + rest)[j] == ups[j]; }
        else { assert (ups + rest)[j] == rest[j - |ups|]; }
      }
    }
    ParseNames(provider, ups + rest);
  }

  /** The two agree whenever both paths are relative and this path has
      unmatched components left: the case the jar filesystem test exercises. */
  lemma {:induction false} RelativizeAgreesWhenDiverging(provider: Provider, p: PathPath, o: PathPath)
    requires p.fs == o.fs && !IsAbsolute(p) && !IsAbsolute(o)
    requires CommonRun(p.parts, o.parts) < |p.parts|
    ensures RelativizeAsWritten(provider, p, o) == Relativize(provider, p, o)
  {
    RelativizeRelative(provider, p, o);
    AsWrittenUnfolds(provider, p, o);
  }

  /** As written, for two relative paths with unmatched components left on
      this side, `relativize` steps up and down as the corrected one does. */
  lemma {:induction false} AsWrittenUnfolds(provider: Provider, p: PathPath, o: PathPath)
    requires p.fs == o.fs && !IsAbsolute(p) && !IsAbsolute(o)
    requires CommonRun(p.parts, o.parts) < |p.parts|
    ensures RelativizeAsWritten(provider, p, o) == Success(UpThenDown(provider, p.fs, Divergence(p, o).0, Divergence(p, o).1))
  {
    assert p != Root(p.fs) && Marker(o) == 0;
    assert Divergence(p, o).0 != 0;
    AsWrittenBranch(provider, p, o);
  }

  /** The general branch of `relativize` as written, for an `other` without
      absolute marker, once this path has components left past the common run. */
  lemma {:induction false} AsWrittenBranch(provider: Provider, p: PathPath, o: PathPath)
    requires p.fs == o.fs && p != Root(p.fs) && Marker(o) == 0
    requires Divergence(p, o).0 != 0
    ensures RelativizeAsWritten(provider, p, o) == Success(UpThenDown(provider, p.fs, Divergence(p, o).0, Divergence(p, o).1))
  {
    var i := Run(p, o);
    if i < |o.parts| {
      assert Subpath(o, i, |o.parts|) == Success(PathPath(o.fs, o.parts[i..])) by {
        assert o.parts[i..|o.parts|] == o.parts[i..];
      }
    } else {
      assert o.parts[i..] == [];
    }
  }

  /** `abc/xyz` against `abc/def/ghi` gives `../def/ghi`. */
  lemma {:induction false} RelativizeSiblingExample(provider: Provider, fs: FsId)
    ensures RelativizeAsWritten(provider, PathPath(fs, ["abc", "xyz"]), PathPath(fs, ["abc", "def", "ghi"]))
      == Success(PathPath(fs, ["..", "def", "ghi"]))
  {
    var p := PathPath(fs, ["abc", "xyz"]);
    var o := PathPath(fs, ["abc", "def", "ghi"]);
    SiblingAgrees(provider, p, o);
    SiblingCorrected(provider, p, o);
  }

  lemma {:induction false} SiblingAgrees(provider: Provider, p: PathPath, o: PathPath)
    requires p.fs == o.fs && p.parts == ["abc", "xyz"] && o.parts == ["abc", "def", "ghi"]
    ensures RelativizeAsWritten(provider, p, o) == Relativize(provider, p, o)
  {
    SiblingParts(p.parts, o.parts);
    RelativizeAgreesWhenDiverging(provider, p, o);
  }

  lemma {:induction false} SiblingCorrected(provider: Provider, p: PathPath, o: PathPath)
    requires p.fs == o.fs && p.parts == ["abc", "xyz"] && o.parts == ["abc", "def", "ghi"]
    ensures Relativize(provider, p, o) == Success(PathPath(p.fs, ["..", "def", "ghi"]))
  {
    SiblingParts(p.parts, o.parts);
    RelativizeNames(provider, p, o, 1);
    assert Repeat("..", 1) + o.parts[1..] == ["..", "def", "ghi"];
  }

  lemma {:induction false} SiblingParts(a: seq<string>, b: seq<string>)
    requires a == ["abc", "xyz"] && b == ["abc", "def", "ghi"]
    ensures CommonRun(a, b) == 1 && Names(a) && Names(b)
  {
    assert CommonRun(a, b) == 1;
    assert Name("abc") && Name("xyz") && Name("def") && Name("ghi");
  }

  /** As written, `abc` against `abc/def/ghi` loses `def`: the answer is `ghi`
      where `def/ghi` is meant. */
  lemma {:induction false} RelativizeAsWrittenSkipsComponent(provider: Provider, fs: FsId)
    ensures RelativizeAsWritten(provider, PathPath(fs, ["abc"]), PathPath(fs, ["abc", "def", "ghi"]))
      == Success(PathPath(fs, ["ghi"]))
    ensures Relativize(provider, PathPath(fs, ["abc"]), PathPath(fs, ["abc", "def", "ghi"]))
      == Success(PathPath(fs, ["def", "ghi"]))
  {
    var p := PathPath(fs, ["abc"]);
    var o := PathPath(fs, ["abc", "def", "ghi"]);
    assert CommonRun(p.parts, o.parts) == 1;
    assert o.parts[2..3] == ["ghi"];
    assert o.parts[1..] == ["def", "ghi"];
  }

  /** As written, relativizing an absolute path against itself, or `a`
      against `a/b`, throws instead of answering. */
  lemma {:induction false} RelativizeAsWrittenFails(provider: Provider, fs: FsId)
    ensures RelativizeAsWritten(provider, PathPath(fs, ["", "a"]), PathPath(fs, ["", "a"])).Failure?
    ensures RelativizeAsWritten(provider, PathPath(fs, ["a"]), PathPath(fs, ["a", "b"])).Failure?
    ensures Relativize(provider, PathPath(fs, ["", "a"]), PathPath(fs, ["", "a"])) == Success(PathPath(fs, []))
    ensures Relativize(provider, PathPath(fs, ["a"]), PathPath(fs, ["a", "b"])) == Success(PathPath(fs, ["b"]))
  {
    var p := PathPath(fs, ["", "a"]);
    assert CommonRun(p.parts[1..], p.parts[1..]) == 1;
    var q := PathPath(fs, ["a"]);
    var o := PathPath(fs, ["a", "b"]);
    assert CommonRun(q.parts, o.parts) == 1;
    assert o.parts[1..] == ["b"];
  }

  /** As written, `/abc/xyz` against `/abc/def/ghi` keeps the matched `abc`:
      the answer is `../abc/def/ghi` where the zip filesystem answers
      `../def/ghi`. */
  lemma {:induction false} RelativizeAbsoluteSiblings(provider: Provider, fs: FsId)
    ensures RelativizeAsWritten(provider, PathPath(fs, ["", "abc", "xyz"]), PathPath(fs, ["", "abc", "def", "ghi"]))
      == Success(PathPath(fs, ["..", "abc", "def", "ghi"]))
    ensures Relativize(provider, PathPath(fs, ["", "abc", "xyz"]), PathPath(fs, ["", "abc", "def", "ghi"]))
      == Success(PathPath(fs, ["..", "def", "ghi"]))
  {
    AbsoluteSiblingsAsWritten(provider, fs);
    AbsoluteSiblingsCorrected(provider, fs);
    UpOverAbc(provider, fs);
    UpOverDef(provider, fs);
  }

  lemma {:induction false} UpOverNames(provider: Provider, fs: FsId, rest: seq<string>)
    requires rest == ["abc", "def", "ghi"] || rest == ["def", "ghi"]
    ensures UpThenDown(provider, fs, 1, rest) == PathPath(fs, [".."] + rest)
  {
    assert Names(rest) by {
      assert Name("abc") && Name("def") && Name("ghi");
    }
    UpThenDownNames(provider, fs, 1, rest);
    assert Repeat("..", 1) == [".."];
  }

  lemma {:induction false} UpOverAbc(provider: Provider, fs: FsId)
    ensures UpThenDown(provider, fs, 1, ["abc", "def", "ghi"]) == PathPath(fs, ["..", "abc", "def", "ghi"])
  {
    UpOverNames(provider, fs, ["abc", "def", "ghi"]);
    assert [".."] + ["abc", "def", "ghi"] == ["..", "abc", "def", "ghi"];
  }

  lemma {:induction false} UpOverDef(provider: Provider, fs: FsId)
    ensures UpThenDown(provider, fs, 1, ["def", "ghi"]) == PathPath(fs, ["..", "def", "ghi"])
  {
    UpOverNames(provider, fs, ["def", "ghi"]);
    assert [".."] + ["def", "ghi"] == ["..", "def", "ghi"];
  }

  /** As written, `relativize` of `/abc/xyz` and `/abc/def/ghi` steps up once
      and then down from `abc`. */
  lemma {:induction false} AbsoluteSiblingsAsWritten(provider: Provider, fs: FsId)
    ensures RelativizeAsWritten(provider, PathPath(fs, ["", "abc", "xyz"]), PathPath(fs, ["", "abc", "def", "ghi"]))
      == Success(UpThenDown(provider, fs, 1, ["abc", "def", "ghi"]))
  {
    var p := PathPath(fs, ["", "abc", "xyz"]);
    var o := PathPath(fs, ["", "abc", "def", "ghi"]);
    assert Run(p, o) == 1 by {
      assert DropParts(p.parts, 1) == ["abc", "xyz"] && DropParts(o.parts, 1) == ["abc", "def", "ghi"];
      SiblingParts(["abc", "xyz"], ["abc", "def", "ghi"]);
    }
    assert o.parts[1..4] == ["abc", "def", "ghi"];
  }

  /** Corrected, the same pair steps up once and then down from `def`. */
  lemma {:induction false} AbsoluteSiblingsCorrected(provider: Provider, fs: FsId)
    ensures Relativize(provider, PathPath(fs, ["", "abc", "xyz"]), PathPath(fs, ["", "abc", "def", "ghi"]))
      == Success(UpThenDown(provider, fs, 1, ["def", "ghi"]))
  {
    var p := PathPath(fs, ["", "abc", "xyz"]);
    var o := PathPath(fs, ["", "abc", "def", "ghi"]);
    assert Run(p, o) == 1 by {
      assert DropParts(p.parts, 1) == ["abc", "xyz"] && DropParts(o.parts, 1) == ["abc", "def", "ghi"];
      SiblingParts(["abc", "xyz"], ["abc", "def", "ghi"]);
    }
    assert o.parts[2..] == ["def", "ghi"];
  }

  /** Names, none of which is `.` or `..`. */
  predicate PlainNames(parts: seq<string>) {
    Names(parts) && Clean(parts)
  }

  /** Joining two name sequences is joining their concatenation. */
  lemma {:induction false} JoinNames(a: seq<string>, b: seq<string>)
    requires |a| >= 1 && |b| >= 1
    ensures Join(a, Separator) + Separator + Join(b, Separator) == Join(a + b, Separator)
  {
    JoinAppend(a, b, Separator);
  }

  /** For relative paths of names the corrected `relativize` is one `..` per
      unmatched component of this path followed by the rest of `other`. */
  lemma {:induction false} RelativizeNames(provider: Provider, p: PathPath, o: PathPath, i: nat)
    requires p.fs == o.fs
    requires |p.parts| >= 1 && Names(p.parts) && |o.parts| >= 1 && Names(o.parts)
    requires i == CommonRun(p.parts, o.parts)
    ensures i <= |o.parts|
    ensures Relativize(provider, p, o) == Success(PathPath(p.fs, Repeat("..", |p.parts| - i) + o.parts[i..]))
  {
    assert p.parts[0] != "" && o.parts[0] != "";
    RelativizeRelative(provider, p, o);
    RelativizeRelativeNames(provider, p, o);
  }

  /** The step of `RelativizeNames` past the common run, stated in terms of
      `Divergence` so that the unfolding of `relativize` stays out of it. */
  lemma {:induction false} RelativizeRelativeNames(provider: Provider, p: PathPath, o: PathPath)
    requires p.fs == o.fs && !IsAbsolute(p) && !IsAbsolute(o) && Names(o.parts)
    ensures Relativize(provider, p, o) == Success(PathPath(p.fs, Repeat("..", Divergence(p, o).0) + Divergence(p, o).1))
  {
    RelativizeRelative(provider, p, o);
    var i := CommonRun(p.parts, o.parts);
    var rest := o.parts[i..];
    assert Names(rest) by {
      forall j | 0 <= j < |rest| ensures Name(rest[j]) { assert rest[j] == o.parts[i + j]; }
    }
    UpThenDownNames(provider, p.fs, Divergence(p, o).0, Divergence(p, o).1);
  }

  /** For two relative paths the corrected `relativize` steps up over this
      path's unmatched parts and down into the rest of `other`: the divergence
      is the count of unmatched parts and `other`'s parts after the common run. */
  lemma {:induction false} RelativizeRelative(provider: Provider, p: PathPath, o: PathPath)
    requires p.fs == o.fs && !IsAbsolute(p) && !IsAbsolute(o)
    ensures var i := CommonRun(p.parts, o.parts);
      Divergence(p, o) == (|p.parts| - i, o.parts[i..])
    ensures Relativize(provider, p, o) == Success(UpThenDown(provider, p.fs, Divergence(p, o).0, Divergence(p, o).1))
  {
    RelativePathNotRoot(p);
    RelativizeUnfolds(provider, p, o);
  }

  /** A relative path is not the root. */
  lemma {:induction false} RelativePathNotRoot(p: PathPath)
    requires !IsAbsolute(p)
    ensures p != Root(p.fs)
  {
    assert IsAbsolute(Root(p.fs));
  }

  lemma {:induction false} RelativizeUnfolds(provider: Provider, p: PathPath, o: PathPath)
    requires p.fs == o.fs && p != Root(p.fs)
    ensures Relativize(provider, p, o) == Success(UpThenDown(provider, p.fs, Divergence(p, o).0, Divergence(p, o).1))
  {
  }

  /** Resolving a relative path of names against a relative path of names
      appends the parts. */
  lemma {:induction false} ResolveNames(provider: Provider, p: PathPath, o: PathPath)
    requires |p.parts| >= 1 && Names(p.parts) && |o.parts| >= 1 && Names(o.parts)
    ensures Resolve(provider, p, o) == PathPath(p.fs, p.parts + o.parts)
  {
    ToStringNames(p);
    ToStringNames(o);
    JoinNames(p.parts, o.parts);
    assert Names(p.parts + o.parts) by {
      forall j | 0 <= j < |p.parts + o.parts| ensures Name((p.parts + o.parts)[j]) {
        if j < |p.parts| { assert (p.parts + o.parts)[j] == p.parts[j]; }
        else { assert (p.parts + o.parts)[j] == o.parts[j - |p.parts|]; }
      }
    }
    ParseNames(provider, p.parts + o.parts);
  }

  /** The corrected `relativize` is undone by `resolve` and `normalize`: for two
      distinct relative paths of plain names in one filesystem, resolving the
      relative path against the first and normalizing gives the second. */
  lemma {:induction false} ResolveRelativize(provider: Provider, p: PathPath, o: PathPath)
    requires p.fs == o.fs && p != o
    requires |p.parts| >= 1 && PlainNames(p.parts)
    requires |o.parts| >= 1 && PlainNames(o.parts)
    ensures Relativize(provider, p, o).Success?
    ensures Normalize(Resolve(provider, p, Relativize(provider, p, o).value)) == Success(o)
  {
    var i := CommonRun(p.parts, o.parts);
    var r := PathPath(p.fs, Repeat("..", |p.parts| - i) + o.parts[i..]);
    assert Relativize(provider, p, o) == Success(r) by {
      RelativizeNames(provider, p, o, i);
    }
    assert Normalize(Resolve(provider, p, r)) == Success(o) by {
      ResolveUpsThenRest(provider, p, o, i);
    }
  }

  /** Resolving `..` steps up to the common run and then the rest of `other`
      and normalizing lands on `other`. */
  lemma {:induction false} ResolveUpsThenRest(provider: Provider, p: PathPath, o: PathPath, i: nat)
    requires p.fs == o.fs && p != o
    requires |p.parts| >= 1 && PlainNames(p.parts)
    requires |o.parts| >= 1 && PlainNames(o.parts)
    requires i == CommonRun(p.parts, o.parts)
    ensures Normalize(Resolve(provider, p, PathPath(p.fs, Repeat("..", |p.parts| - i) + o.parts[i..]))) == Success(o)
  {
    var r := PathPath(p.fs, Repeat("..", |p.parts| - i) + o.parts[i..]);
    UpsThenRestParts(p, o, i);
    NormalizeUpsThenRest(p.parts, |p.parts| - i, o.parts[i..]);
    ResolveThenNormalize(provider, p, r, o);
  }

  /** Resolving names against names and normalizing is walking the joined
      parts. */
  lemma {:induction false} ResolveThenNormalize(provider: Provider, p: PathPath, r: PathPath, o: PathPath)
    requires p.fs == o.fs && |p.parts| >= 1 && Names(p.parts) && |r.parts| >= 1 && Names(r.parts)
    requires NormFrom([], p.parts + r.parts) == Success(o.parts)
    ensures Normalize(Resolve(provider, p, r)) == Success(o)
  {
    ResolveNames(provider, p, r);
    NormalizeTo(Resolve(provider, p, r), o);
  }

  /** The round trip for two absolute paths of plain names: resolving the
      relativized path against this one and normalizing yields `other`'s
      names, but as a relative path, because `resolve` re-parses text and
      parsing drops the leading empty component. */
  lemma {:induction false} ResolveRelativizeAbsolute(provider: Provider, p: PathPath, o: PathPath, a: seq<string>, b: seq<string>)
    requires p.fs == o.fs && p.parts == [""] + a && o.parts == [""] + b
    requires a != b && PlainNames(a) && PlainNames(b)
    ensures Relativize(provider, p, o).Success?
    ensures Normalize(Resolve(provider, p, Relativize(provider, p, o).value)) == Success(PathPath(o.fs, b))
  {
    var parts := Repeat("..", |a| - CommonRun(a, b)) + b[CommonRun(a, b)..];
    RelativizeAbsoluteNames(provider, p, o, a, b, parts);
    ResolveUpsThenRestAbsolute(provider, p, a, b, parts);
  }

  /** Resolving `..` steps up to the common run and then the rest of
      `other`'s names against an absolute path of names, then normalizing,
      yields `other`'s names. */
  lemma {:induction false} ResolveUpsThenRestAbsolute(provider: Provider, p: PathPath, a: seq<string>, b: seq<string>, parts: seq<string>)
    requires p.parts == [""] + a
    requires a != b && PlainNames(a) && PlainNames(b)
    requires parts == Repeat("..", |a| - CommonRun(a, b)) + b[CommonRun(a, b)..]
    ensures Normalize(Resolve(provider, p, PathPath(p.fs, parts))) == Success(PathPath(p.fs, b))
  {
    var q := Resolve(provider, p, PathPath(p.fs, parts));
    assert |parts| >= 1 && Names(parts) && NormFrom([], a + parts) == Success(b) by {
      UpsThenRestWalk(PathPath(p.fs, a), PathPath(p.fs, b), CommonRun(a, b));
    }
    assert q == PathPath(p.fs, a + parts) by {
      ResolveAbsoluteNames(provider, p, a, parts);
    }
    NormalizeTo(q, PathPath(p.fs, b));
  }

  /** `..` steps up to the common run of two different paths of plain
      names, then the rest of `other`: names, not empty, and walked after
      this path's names they leave `other`'s names. */
  lemma {:induction false} UpsThenRestWalk(p: PathPath, o: PathPath, i: nat)
    requires p != o && p.fs == o.fs
    requires PlainNames(p.parts) && PlainNames(o.parts)
    requires i == CommonRun(p.parts, o.parts)
    ensures var parts := Repeat("..", |p.parts| - i) + o.parts[i..];
      |parts| >= 1 && Names(parts) && NormFrom([], p.parts + parts) == Success(o.parts)
  {
    UpsThenRestParts(p, o, i);
    NormalizeUpsThenRest(p.parts, |p.parts| - i, o.parts[i..]);
  }

  /** For two different absolute paths of names the corrected `relativize`
      is one `..` per unmatched name of this path followed by the rest of
      `other`'s names. */
  lemma {:induction false} RelativizeAbsoluteNames(provider: Provider, p: PathPath, o: PathPath, a: seq<string>, b: seq<string>, parts: seq<string>)
    requires p.fs == o.fs && p.parts == [""] + a && o.parts == [""] + b
    requires a != b && Names(a) && Names(b)
    requires parts == Repeat("..", |a| - CommonRun(a, b)) + b[CommonRun(a, b)..]
    ensures Relativize(provider, p, o) == Success(PathPath(p.fs, parts))
  {
    DivergenceAbsolute(p, o, a, b);
    NamesSuffix(b, CommonRun(a, b));
    assert p != Root(p.fs) || o != Root(o.fs) by {
      assert p.parts[1..] == a && o.parts[1..] == b;
    }
    RelativizeDivergenceNames(provider, p, o, |a| - CommonRun(a, b), b[CommonRun(a, b)..]);
  }

  /** Every suffix of names is names. */
  lemma {:induction false} NamesSuffix(xs: seq<string>, i: nat)
    requires Names(xs) && i <= |xs|
    ensures Names(xs[i..])
  {
    forall j | 0 <= j < |xs[i..]| ensures Name(xs[i..][j]) { assert xs[i..][j] == xs[i + j]; }
  }

  /** For two absolute paths the common run is that of their names, and the
      rest of `other` starts after it. */
  lemma {:induction false} DivergenceAbsolute(p: PathPath, o: PathPath, a: seq<string>, b: seq<string>)
    requires p.parts == [""] + a && o.parts == [""] + b
    ensures Divergence(p, o) == (|a| - CommonRun(a, b), b[CommonRun(a, b)..])
  {
    var i := CommonRun(a, b);
    assert p.parts[1..] == a && o.parts[1..] == b;
    assert Run(p, o) == i;
    assert o.parts[i + 1..] == b[i..];
  }

  /** When `other`'s rest past the common run is names and this path has
      components past it, the corrected `relativize` is that many `..`
      followed by the rest. */
  lemma {:induction false} RelativizeDivergenceNames(provider: Provider, p: PathPath, o: PathPath, n: int, rest: seq<string>)
    requires p.fs == o.fs && !(p == Root(p.fs) && o == Root(o.fs))
    requires Divergence(p, o) == (n, rest) && n >= 0 && Names(rest)
    ensures Relativize(provider, p, o) == Success(PathPath(p.fs, Repeat("..", n) + rest))
  {
    UpThenDownNames(provider, p.fs, n, rest);
  }

  /** Resolving a relative path of names against an absolute path of names
      appends the parts and loses the absolute marker: the joined text starts
      with `/`, and parsing drops the empty component before it. */
  lemma {:induction false} ResolveAbsoluteNames(provider: Provider, p: PathPath, a: seq<string>, r: seq<string>)
    requires p.parts == [""] + a && Names(a) && |r| >= 1 && Names(r)
    ensures Resolve(provider, p, PathPath(p.fs, r)) == PathPath(p.fs, a + r)
  {
    assert r[0] != "";
    AbsoluteJoinText(p, a, r);
    NamesConcat(a, r);
    ParseMarkedNames(provider, a + r);
  }

  /** The text `resolve` parses for an absolute path of names and a relative
      path of names: `/`, then the names of both joined. */
  lemma {:induction false} AbsoluteJoinText(p: PathPath, a: seq<string>, r: seq<string>)
    requires p.parts == [""] + a && Names(a) && |r| >= 1 && Names(r)
    ensures ToString(p) + Separator + ToString(PathPath(p.fs, r)) == "/" + Join(a + r, Separator)
  {
    ToStringNames(PathPath(p.fs, r));
    if a == [] {
      assert p == Root(p.fs) && a + r == r;
      RootText(p.fs);
    } else {
      ToStringMarked(p, a);
      JoinNames(a, r);
    }
  }

  /** The root's text is empty. */
  lemma {:induction false} RootText(fs: FsId)
    ensures ToString(Root(fs)) == ""
  {
    ReplaceDoubleSlashNoop("");
  }

  /** Two sequences of names concatenated are names. */
  lemma {:induction false} NamesConcat(a: seq<string>, b: seq<string>)
    requires Names(a) && Names(b)
    ensures Names(a + b)
  {
    forall j | 0 <= j < |a + b| ensures Name((a + b)[j]) {
      if j < |a| { assert (a + b)[j] == a[j]; }
      else { assert (a + b)[j] == b[j - |a|]; }
    }
  }

  /** The text of an absolute path of names is `/` before its names. */
  lemma {:induction false} ToStringMarked(p: PathPath, a: seq<string>)
    requires p.parts == [""] + a && |a| >= 1 && Names(a)
    ensures ToString(p) == "/" + Join(a, Separator)
  {
    var j := Join(a, Separator);
    assert p.parts[1..] == a;
    assert Join(p.parts, Separator) == "/" + j;
    JoinNamesShape(a);
    NoDoubleSlashConcat("/", j);
    ReplaceDoubleSlashNoop("/" + j);
  }

  /** Text of names behind a leading `/` parses back into the names alone. */
  lemma {:induction false} ParseMarkedNames(provider: Provider, names: seq<string>)
    requires |names| >= 1 && Names(names)
    ensures ParseParts(provider, "/" + Join(names, Separator)) == names
  {
    var j := Join(names, Separator);
    var t := "/" + j;
    JoinNamesShape(names);
    assert t == Join([""] + names, Separator) by {
      assert ([""] + names)[1..] == names;
    }
    assert '\\' !in t;
    ReplaceCharNoop(t, '\\', '/');
    SplitJoin([""] + names, '/');
    assert t != "/";
    assert t[|t| - 1] == j[|j| - 1];
    assert !AdaptsParts(provider, t) by {
      if JavaStrings.EndsWith(t, LayerMarker) { }
    }
  }

  /** The parts of `..` steps up to the common run followed by the rest of
      `other`: names, not empty, and with this path's common run they give
      back `other`. */
  lemma {:induction false} UpsThenRestParts(p: PathPath, o: PathPath, i: nat)
    requires p != o && p.fs == o.fs
    requires PlainNames(p.parts) && PlainNames(o.parts)
    requires i == CommonRun(p.parts, o.parts)
    ensures var parts := Repeat("..", |p.parts| - i) + o.parts[i..];
      parts != [] && Names(parts) && Clean(o.parts[i..])
      && p.parts[..|p.parts| - (|p.parts| - i)] + o.parts[i..] == o.parts
  {
    var rest := o.parts[i..];
    assert PlainNames(rest) by { PlainSuffix(o.parts, i); }
    assert Names(Repeat("..", |p.parts| - i) + rest) by { UpsThenNamesAreNames(|p.parts| - i, rest); }
    assert |p.parts| - i > 0 || rest != [] by {
      assert p.parts[..i] == o.parts[..i];
      assert i == |p.parts| ==> p.parts[..i] == p.parts;
      assert i == |o.parts| ==> o.parts[..i] == o.parts;
    }
    assert p.parts[..|p.parts| - (|p.parts| - i)] + rest == o.parts by {
      assert p.parts[..i] == o.parts[..i];
      assert o.parts[..i] + rest == o.parts;
    }
  }

  /** Every suffix of plain names is plain names. */
  lemma {:induction false} PlainSuffix(xs: seq<string>, i: nat)
    requires PlainNames(xs) && i <= |xs|
    ensures PlainNames(xs[i..])
  {
    var rest := xs[i..];
    forall j | 0 <= j < |rest| ensures Name(rest[j]) && !IsDot(rest[j]) { assert rest[j] == xs[i + j]; }
  }

  /** `..` steps followed by names are names. */
  lemma {:induction false} UpsThenNamesAreNames(n: int, rest: seq<string>)
    requires Names(rest)
    ensures Names(Repeat("..", n) + rest)
  {
    var ups := Repeat("..", n);
    var parts := ups + rest;
    forall j | 0 <= j < |parts| ensures Name(parts[j]) {
      if j < |ups| { assert parts[j] == ".."; }
      else { assert parts[j] == rest[j - |ups|]; }
    }
  }

  /** `normalize` succeeds with `o` when the walk of `q`'s parts yields
      `o`'s parts. */
  lemma {:induction false} NormalizeTo(q: PathPath, o: PathPath)
    requires q.fs == o.fs && NormFrom([], q.parts) == Success(o.parts)
    ensures Normalize(q) == Success(o)
  {
  }

  /** Walking a clean path, `k` ups and a clean rest leaves the path without
      its last `k` parts, followed by the rest. */
  lemma {:induction false} NormalizeUpsThenRest(base: seq<string>, k: nat, rest: seq<string>)
    requires Clean(base) && Clean(rest) && k <= |base|
    ensures NormFrom([], base + (Repeat("..", k) + rest)) == Success(base[..|base| - k] + rest)
  {
    var ups := Repeat("..", k);
    NormFromClean([], base);
    assert [] + base == base;
    NormFromAppend([], base, ups + rest);
    NormFromAppend(base, ups, rest);
    NormFromUps(base, k);
    NormFromClean(base[..|base| - k], rest);
  }
}
