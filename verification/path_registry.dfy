/** The single-layer `path:` provider and the filesystems it registers: URI
    keys, lookup with its diagnostic, creation, URI rendering, the dispatch
    between a filesystem's target and its delegate, and the lifecycle of the
    lazily opened delegate. */
module PathRegistry {
  import opened Wrappers
  import opened JavaStrings
  import opened PathAlgebra

  // ---------------------------------------------------------------------
  // URIs and the host platform

  /** A URI as the provider reads it: the scheme and the raw scheme-specific part. */
  datatype Uri = Uri(scheme: string, ssp: string)

  /** `URI.toString()` of a URI without a fragment. */
  function RenderUri(u: Uri): string {
    u.scheme + ":" + u.ssp
  }

  /** JDK behaviour the filesystem code calls but does not define, passed in
      as functions. */
  datatype Host = Host(
    // `URI.normalize().getRawSchemeSpecificPart()` of a hierarchical URI
    normalizeHierarchical: string -> string,
    // `getFileName()` of a disk path as text, `None` when it has no name
    diskFileName: string -> Option<string>,
    // `toAbsolutePath().normalize()` of a disk path
    diskAbsoluteNormal: string -> string,
    // `resolve(String)` on a path of a delegate filesystem
    diskResolve: (string, string) -> string,
    // the percent-encoding the URI constructor writes for a quoted character
    escape: char -> string
  )

  /** Non-ASCII characters `Character.isSpaceChar` accepts. */
  predicate NonAsciiSpace(c: char) {
    c as int == 0xA0 || c as int == 0x1680 || (0x2000 <= c as int <= 0x200A)
    || c as int == 0x2028 || c as int == 0x2029 || c as int == 0x202F
    || c as int == 0x205F || c as int == 0x3000
  }

  /** Characters the URI constructor copies into a scheme-specific part
      unquoted: letters, digits, the unreserved marks, the reserved
      punctuation, and non-ASCII characters that are neither spaces nor
      controls. */
  predicate UriLegal(c: char) {
    if c as int < 0x80 then
      ('a' <= c <= 'z') || ('A' <= c <= 'Z') || ('0' <= c <= '9')
      || c in "_-!.~'()*" || c in ";/?:@&=+$,[]"
    else
      !(0x80 <= c as int <= 0x9F) && !NonAsciiSpace(c)
  }

  predicate AllLegal(s: string) {
    forall i :: 0 <= i < |s| ==> UriLegal(s[i])
  }

  /** The quoting `new URI(scheme, ssp, null)` applies to the scheme-specific part. */
  function Quote(host: Host, s: string): (r: string)
    ensures AllLegal(s) ==> r == s
    decreases |s|
  {
    if s == [] then []
    else
      assert AllLegal(s) ==> AllLegal(s[1..]) by {
        if AllLegal(s) {
          forall i | 0 <= i < |s[1..]| ensures UriLegal(s[1..][i]) {
            assert s[1..][i] == s[i + 1];
          }
        }
      }
      (if UriLegal(s[0]) then [s[0]] else host.escape(s[0])) + Quote(host, s[1..])
  }

  // ---------------------------------------------------------------------
  // Filesystems and the registry

  /** What opening the delegate filesystem yields: whether it is the target's
      own filesystem, and its root directories. */
  datatype DelegateInfo = DelegateInfo(sameFs: bool, roots: seq<AnyPath>)

  /** The lazily created delegate filesystem over the target. */
  datatype Delegate = Unopened | Opened(info: DelegateInfo, open: bool)

  /** A path filesystem: its key, its normalized target and its delegate. */
  datatype Fs = Fs(key: string, target: AnyPath, delegate: Delegate)

  /** A provider instance: every filesystem it ever created (indexed by
      `FsId`, never removed) and the key table of the registered ones. */
  datatype Registry = Registry(provider: Provider, heap: seq<Fs>, table: map<string, FsId>)

  /** Table entries name live filesystems under their own key, and a
      filesystem nested in another path filesystem was created after it. */
  predicate Valid(reg: Registry) {
    (forall k :: k in reg.table ==> reg.table[k] < |reg.heap| && reg.heap[reg.table[k]].key == k)
    && (forall i :: 0 <= i < |reg.heap| && reg.heap[i].target.Virtual? ==> reg.heap[i].target.path.fs < i)
  }

  /** The exceptions the provider and filesystem raise. */
  datatype FsError =
    | Unsupported(message: string)      // UnsupportedOperationException
    | BadArgument(message: string)      // IllegalArgumentException
    | NotFound(message: string)         // FileSystemNotFoundException
    | NullPointer                       // dereferencing a missing file name
    | PathFailure(error: PathError)     // raised by a path operation
    | Malformed                         // the URI parser rejected a string
    | Intermediary                      // "Failed to create intermediary FS."
    | OutOfBounds                       // ArrayIndexOutOfBoundsException

  function Scheme(provider: Provider): (r: string)
    ensures r == "path" <==> provider == SingleLayer
  {
    match provider
    case SingleLayer => "path"
    case Layered => "jij"
  }

  /** A path argument of the registry lives in this registry. */
  predicate Known(reg: Registry, p: AnyPath) {
    p.Virtual? ==> p.path.fs < |reg.heap|
  }

  // ---------------------------------------------------------------------
  // Keys

  /** `uri.normalize().getRawSchemeSpecificPart()`: an opaque URI (one whose
      scheme-specific part does not start with `/`) is left alone. */
  function NormalizedSsp(host: Host, u: Uri): (r: string)
    ensures !(|u.ssp| > 0 && u.ssp[0] == '/') ==> r == u.ssp
  {
    if |u.ssp| > 0 && u.ssp[0] == '/' then host.normalizeHierarchical(u.ssp) else u.ssp
  }

  /** `makeKey(URI)`: the normalized scheme-specific part without one leading `//`. */
  function MakeKey(host: Host, u: Uri): (r: string)
    ensures var n := NormalizedSsp(host, u);
      (JavaStrings.StartsWith(n, "//") ==> n == "//" + r) && (!JavaStrings.StartsWith(n, "//") ==> r == n)
  {
    var n := NormalizedSsp(host, u);
    if JavaStrings.StartsWith(n, "//") then n[2..] else n
  }

  /** The key of an opaque URI is its scheme-specific part, whatever the host. */
  lemma {:induction false} MakeKeyOpaque(host: Host, u: Uri)
    requires |u.ssp| > 0 && u.ssp[0] != '/'
    ensures MakeKey(host, u) == u.ssp
  {
  }

  /** `URIComponents`: the owner key and, when present, the inner path text. */
  datatype UriComponents = UriComponents(owner: string, path: Option<string>)

  /** `parse`: splits the key at its last `~`. Without one the whole key is
      the owner and there is no path. */
  function Parse(host: Host, u: Uri): (r: UriComponents)
    ensures var key := MakeKey(host, u);
      (r.path.None? <==> '~' !in key)
      && (r.path.None? ==> r.owner == key)
      && (r.path.Some? ==> key == r.owner + ComponentSeparator + r.path.value && '~' !in r.path.value)
  {
    SplitKey(MakeKey(host, u))
  }

  /** A key split at its last `~`. */
  function SplitKey(key: string): (r: UriComponents)
    ensures r.path.None? <==> '~' !in key
    ensures r.path.None? ==> r.owner == key
    ensures r.path.Some? ==> key == r.owner + ComponentSeparator + r.path.value && '~' !in r.path.value
  {
    var idx := LastIndexOf(key, ComponentSeparator);
    LastIndexOfChar(key, '~');
    if idx == -1 then UriComponents(key, None)
    else
      assert key == key[..idx] + ComponentSeparator + key[idx + 1..];
      UriComponents(key[..idx], Some(key[idx + 1..]))
  }

  /** `makeKey(Path)` and the root case of `getFileName`: the text of a path's
      file name; the root of a path filesystem answers with its target's name. */
  function FileNameText(host: Host, reg: Registry, p: AnyPath): (r: Result<string, FsError>)
    requires Valid(reg) && Known(reg, p)
    ensures p.Disk? ==> (r.Success? <==> host.diskFileName(p.location).Some?)
    ensures p.Disk? && r.Success? ==> r == Success(host.diskFileName(p.location).value)
    ensures p.Virtual? && p.path.parts != [""] ==>
      r == Success(ToString(GetFileName(reg.provider, p.path, Disk("")).path))
    ensures p.Virtual? && p.path.parts == [""] ==> r == FileNameText(host, reg, reg.heap[p.path.fs].target)
    decreases if p.Virtual? then p.path.fs + 1 else 0
  {
    match p
    case Disk(l) =>
      (match host.diskFileName(l)
       case None => Failure(NullPointer)
       case Some(n) => Success(n))
    case Virtual(q) =>
      if q.parts == [""] then FileNameText(host, reg, reg.heap[q.fs].target)
      else if |q.parts| > 0 then Success(ToString(PathPath(q.fs, [q.parts[|q.parts| - 1]])))
      else Success(ToString(PathPath(q.fs, [""])))
  }

  // ---------------------------------------------------------------------
  // Lookup

  function GetFileSystemFromKey(reg: Registry, key: string): (r: Option<FsId>)
    requires Valid(reg)
    ensures r.Some? <==> key in reg.table
    ensures r.Some? ==> r.value < |reg.heap| && reg.heap[r.value].key == key
  {
    if key in reg.table then Some(reg.table[key]) else None
  }

  /** `String.compareTo` order: lexicographic by character. */
  predicate LexLeq(a: string, b: string)
    decreases |a|
  {
    |a| == 0 || (|b| > 0 && (a[0] < b[0] || (a[0] == b[0] && LexLeq(a[1..], b[1..]))))
  }

  lemma {:induction false} LexTotal(a: string, b: string)
    ensures LexLeq(a, b) || LexLeq(b, a)
    decreases |a|
  {
    if |a| > 0 && |b| > 0 && a[0] == b[0] {
      LexTotal(a[1..], b[1..]);
    }
  }

  lemma {:induction false} LexAntisymmetric(a: string, b: string)
    requires LexLeq(a, b) && LexLeq(b, a)
    ensures a == b
    decreases |a|
  {
    if |a| > 0 {
      LexAntisymmetric(a[1..], b[1..]);
      assert a == [a[0]] + a[1..] && b == [b[0]] + b[1..];
    }
  }

  lemma {:induction false} LexTransitive(a: string, b: string, c: string)
    requires LexLeq(a, b) && LexLeq(b, c)
    ensures LexLeq(a, c)
    decreases |a|
  {
    if |a| > 0 && a[0] == b[0] && b[0] == c[0] {
      LexTransitive(a[1..], b[1..], c[1..]);
    }
  }

  predicate IsLeast(m: string, s: set<string>) {
    m in s && forall x :: x in s ==> LexLeq(m, x)
  }

  lemma {:induction false} LeastExists(s: set<string>)
    requires s != {}
    ensures exists m :: IsLeast(m, s)
    decreases |s|
  {
    var y :| y in s;
    if s == {y} {
      assert LexLeq(y, y) by { LexTotal(y, y); }
      assert IsLeast(y, s);
    } else {
      LeastExists(s - {y});
      var m :| IsLeast(m, s - {y});
      LexTotal(m, y);
      if LexLeq(m, y) {
        assert IsLeast(m, s);
      } else {
        forall x | x in s ensures LexLeq(y, x) {
          if x != y { LexTransitive(y, m, x); } else { LexTotal(y, y); }
        }
        assert IsLeast(y, s);
      }
    }
  }

  /** The keys of a table in ascending order, each once. */
  function SortedKeys(s: set<string>): (r: seq<string>)
    ensures |r| == |s|
    ensures forall x :: x in r <==> x in s
    ensures forall i, j :: 0 <= i < j < |r| ==> LexLeq(r[i], r[j]) && r[i] != r[j]
    decreases |s|
  {
    if s == {} then []
    else
      assert exists m :: IsLeast(m, s) by { LeastExists(s); }
      assert forall a, b :: IsLeast(a, s) && IsLeast(b, s) ==> a == b by {
        forall a, b | IsLeast(a, s) && IsLeast(b, s) ensures a == b {
          LexAntisymmetric(a, b);
        }
      }
      var m :| IsLeast(m, s);
      var rest := SortedKeys(s - {m});
      assert Ascending([m] + rest) by { LeastPrepends(m, s, rest); }
      [m] + rest
  }

  /** Strictly ascending in `LexLeq`. */
  predicate Ascending(r: seq<string>) {
    forall i, j :: 0 <= i < j < |r| ==> LexLeq(r[i], r[j]) && r[i] != r[j]
  }

  /** Putting the least key in front of the ascending rest keeps it ascending. */
  lemma {:induction false} LeastPrepends(m: string, s: set<string>, rest: seq<string>)
    requires IsLeast(m, s)
    requires forall x :: x in rest <==> x in s - {m}
    requires Ascending(rest)
    ensures Ascending([m] + rest)
  {
    var r := [m] + rest;
    forall i, j | 0 <= i < j < |r| ensures LexLeq(r[i], r[j]) && r[i] != r[j] {
      if i > 0 {
        assert r[i] == rest[i - 1] && r[j] == rest[j - 1];
      } else {
        assert r[j] == rest[j - 1] && rest[j - 1] in rest;
      }
    }
  }

  /** One `Known:` line per key, in the given order. */
  function KnownLines(keys: seq<string>): string {
    if keys == [] then "" else "\n\tKnown: " + keys[0] + KnownLines(keys[1..])
  }

  /** The diagnostic of a failed lookup: the URI, the owner, then every
      registered key in ascending order. */
  function NotFoundMessage(u: Uri, owner: string, known: set<string>): string {
    "Unknown FileSystem: " + RenderUri(u) + "\n\tOwner: " + owner + KnownLines(SortedKeys(known))
  }

  /** `getFileSystem(URI)`: the filesystem registered under the URI's owner key. */
  function GetFileSystem(host: Host, reg: Registry, u: Uri): (r: Result<FsId, FsError>)
    requires Valid(reg)
    ensures var owner := Parse(host, u).owner;
      (r.Success? <==> owner in reg.table)
      && (r.Success? ==> r.value < |reg.heap| && reg.heap[r.value].key == owner)
      && (r.Failure? ==> r.error == NotFound(NotFoundMessage(u, owner, reg.table.Keys)))
  {
    var owner := Parse(host, u).owner;
    match GetFileSystemFromKey(reg, owner)
    case Some(id) => Success(id)
    case None => Failure(NotFound(NotFoundMessage(u, owner, reg.table.Keys)))
  }

  /** `getPath(String first, String... more)` of a filesystem: the
      constructor applied to `[first] + more`. */
  function FsGetPath(reg: Registry, id: FsId, first: string, more: seq<string>): (r: PathPath)
    ensures r.fs == id
    ensures r.parts == ParseParts(reg.provider, Join([first] + more, Separator))
  {
    NewPath(id, reg.provider, [first] + more)
  }

  /** `getPath(URI)`: the owner's root when the key has no `~`, otherwise the
      text after the last `~` parsed in the owner's filesystem. */
  function GetPath(host: Host, reg: Registry, u: Uri): (r: Result<PathPath, FsError>)
    requires Valid(reg)
    ensures var c := Parse(host, u);
      (r.Success? <==> c.owner in reg.table)
      && (r.Success? ==> r.value.fs == reg.table[c.owner])
      && (r.Success? && c.path.None? ==> r.value.parts == [""])
      && (r.Success? && c.path.Some? ==> r.value.parts == ParseParts(reg.provider, c.path.value))
  {
    var c := Parse(host, u);
    var id :- GetFileSystem(host, reg, u);
    match c.path
    case Some(text) => Success(FsGetPath(reg, id, text, []))
    case None => Success(Root(id))
  }

  // ---------------------------------------------------------------------
  // URI rendering and the two round trips

  /** `buildUriFor`: `scheme:key~/` followed by the path's text. */
  function BuildUriFor(host: Host, reg: Registry, p: PathPath): (r: Uri)
    requires p.fs < |reg.heap|
    ensures r.scheme == Scheme(reg.provider)
    ensures AllLegal(reg.heap[p.fs].key + LayerMarker + ToString(p)) ==>
      r.ssp == reg.heap[p.fs].key + LayerMarker + ToString(p)
  {
    Uri(Scheme(reg.provider), Quote(host, reg.heap[p.fs].key + LayerMarker + ToString(p)))
  }

  /** A registry key that survives rendering: no `~`, no leading `/`, and
      nothing the URI constructor would quote. */
  predicate PlainKey(k: string) {
    '~' !in k && (|k| > 0 ==> k[0] != '/') && AllLegal(k)
  }

  /** Components made only of characters the URI constructor keeps. */
  predicate LegalParts(parts: seq<string>) {
    forall i :: 0 <= i < |parts| ==> AllLegal(parts[i])
  }

  lemma {:induction false} JoinLegal(parts: seq<string>)
    requires LegalParts(parts)
    ensures AllLegal(Join(parts, Separator))
    decreases |parts|
  {
    if |parts| > 1 {
      JoinLegal(parts[1..]);
    }
  }

  lemma {:induction false} JoinLacks(parts: seq<string>, c: char)
    requires c != '/' && forall i :: 0 <= i < |parts| ==> c !in parts[i]
    ensures c !in Join(parts, Separator)
    decreases |parts|
  {
    if |parts| > 1 {
      JoinLacks(parts[1..], c);
    }
  }

  lemma {:induction false} ReplaceAllKeeps(s: string, c: char)
    requires c !in s && c != '/'
    ensures c !in ReplaceAll(s, "//", "/")
    decreases |s|
  {
    if |s| >= 2 {
      ReplaceAllKeeps(s[2..], c);
      ReplaceAllKeeps(s[1..], c);
    }
  }

  lemma {:induction false} ReplaceAllLegal(s: string)
    requires AllLegal(s)
    ensures AllLegal(ReplaceAll(s, "//", "/"))
    decreases |s|
  {
    if |s| >= 2 {
      ReplaceAllLegal(s[2..]);
      ReplaceAllLegal(s[1..]);
    }
  }

  /** The text of a well-formed path contains no `~` and needs no quoting. */
  lemma {:induction false} RenderedText(p: PathPath)
    requires WellFormed(p.parts) && LegalParts(p.parts)
    ensures '~' !in ToString(p) && AllLegal(ToString(p))
  {
    JoinLegal(p.parts);
    ReplaceAllLegal(Join(p.parts, Separator));
    assert forall i :: 0 <= i < |p.parts| ==> '~' !in p.parts[i] by {
      forall i | 0 <= i < |p.parts| ensures '~' !in p.parts[i] {
        if p.parts != [""] && !Names(p.parts) { assert i == 0 || Name(p.parts[1..][i - 1]); }
      }
    }
    JoinLacks(p.parts, '~');
    ReplaceAllKeeps(Join(p.parts, Separator), '~');
  }

  /** Splitting at the last `~` recovers a `~`-free key and a `~`-free rest. */
  lemma {:induction false} SplitAtMarker(k: string, rest: string, o: string, r: string)
    requires '~' !in k && '~' !in rest && '~' !in r
    requires k + "~" + rest == o + "~" + r
    ensures o == k && r == rest
  {
    var s := k + "~" + rest;
    assert s[|o|] == '~' by { assert (o + "~" + r)[|o|] == '~'; }
    assert s[|k|] == '~';
    assert |o| == |k|;
    assert o == s[..|k|];
    assert r == s[|k| + 1..] == rest;
  }

  lemma {:induction false} MarkedLegal(k: string, t: string)
    requires AllLegal(k) && AllLegal(t)
    ensures AllLegal(k + LayerMarker + t)
  {
    var s := k + LayerMarker + t;
    forall i | 0 <= i < |s| ensures UriLegal(s[i]) {
      if i < |k| { assert s[i] == k[i]; }
      else if i >= |k| + 2 { assert s[i] == t[i - |k| - 2]; }
    }
  }

  /** The URI of a path of a registered filesystem, parsed, splits into that
      filesystem's key and `/` followed by the path's text. */
  lemma {:induction false} ParseBuiltUri(host: Host, reg: Registry, p: PathPath)
    requires Valid(reg) && p.fs < |reg.heap| && PlainKey(reg.heap[p.fs].key)
    requires WellFormed(p.parts) && LegalParts(p.parts)
    ensures Parse(host, BuildUriFor(host, reg, p))
      == UriComponents(reg.heap[p.fs].key, Some("/" + ToString(p)))
  {
    var k := reg.heap[p.fs].key;
    var t := ToString(p);
    assert '~' !in t && AllLegal(t) by { RenderedText(p); }
    var u := BuildUriFor(host, reg, p);
    assert u.ssp == k + LayerMarker + t by { MarkedLegal(k, t); }
    KeyOfMarked(host, u, k, t);
    assert '~' !in "/" + t;
    SplitKeyAtMarker(k, "/" + t);
  }

  /** The key of a URI whose scheme-specific part is a plain key, the marker
      and a text is that whole part. */
  lemma {:induction false} KeyOfMarked(host: Host, u: Uri, k: string, t: string)
    requires PlainKey(k) && u.ssp == k + LayerMarker + t
    ensures MakeKey(host, u) == k + "~" + ("/" + t)
  {
    assert u.ssp[0] != '/' by {
      if |k| > 0 { assert u.ssp[0] == k[0]; } else { assert u.ssp[0] == '~'; }
    }
    MakeKeyOpaque(host, u);
    assert k + LayerMarker + t == k + "~" + ("/" + t);
  }

  /** A key made of a `~`-free owner, `~` and a `~`-free path splits back
      into the two. */
  lemma {:induction false} SplitKeyAtMarker(k: string, rest: string)
    requires '~' !in k && '~' !in rest
    ensures SplitKey(k + "~" + rest) == UriComponents(k, Some(rest))
  {
    var s := k + "~" + rest;
    assert '~' in s by { assert s[|k|] == '~'; }
    var c := SplitKey(s);
    SplitAtMarker(k, rest, c.owner, c.path.value);
  }

  /** Path to URI to path: a well-formed path of a registered filesystem
      whose key and components need no quoting comes back equal. */
  lemma {:induction false} PathUriPath(host: Host, reg: Registry, p: PathPath)
    requires Valid(reg) && reg.provider == SingleLayer
    requires p.fs < |reg.heap| && reg.heap[p.fs].key in reg.table && reg.table[reg.heap[p.fs].key] == p.fs
    requires PlainKey(reg.heap[p.fs].key)
    requires WellFormed(p.parts) && LegalParts(p.parts)
    ensures GetPath(host, reg, BuildUriFor(host, reg, p)) == Success(p)
  {
    ParseBuiltUri(host, reg, p);
    ParseRendered(reg.provider, p);
  }

  /** The empty path renders like the root, so it comes back as the root. */
  lemma {:induction false} EmptyPathReturnsAsRoot(host: Host, reg: Registry, id: FsId)
    requires Valid(reg) && reg.provider == SingleLayer
    requires id < |reg.heap| && reg.heap[id].key in reg.table && reg.table[reg.heap[id].key] == id
    requires PlainKey(reg.heap[id].key)
    ensures GetPath(host, reg, BuildUriFor(host, reg, PathPath(id, []))) == Success(Root(id))
  {
    assert ToString(PathPath(id, [])) == ToString(Root(id));
    assert BuildUriFor(host, reg, PathPath(id, [])) == BuildUriFor(host, reg, Root(id));
    PathUriPath(host, reg, Root(id));
  }

  /** URI to path to URI: `path:key~/a/b` (or `path:key~/` for the root)
      comes back unchanged when it names a registered key and plain
      components. */
  lemma {:induction false} UriPathUri(host: Host, reg: Registry, key: string, names: seq<string>, u: Uri)
    requires Valid(reg) && reg.provider == SingleLayer
    requires key in reg.table && PlainKey(key)
    requires Names(names) && LegalParts(names)
    requires u == Uri(Scheme(reg.provider), key + LayerMarker + Join(names, Separator))
    ensures GetPath(host, reg, u).Success?
    ensures BuildUriFor(host, reg, GetPath(host, reg, u).value) == u
  {
    var id := reg.table[key];
    var p := if names == [] then Root(id) else PathPath(id, names);
    if names != [] {
      ToStringNames(p);
    }
    assert ToString(p) == Join(names, Separator);
    assert BuildUriFor(host, reg, p) == u by {
      RenderedText(p);
      MarkedLegal(key, ToString(p));
    }
    PathUriPath(host, reg, p);
  }

  // ---------------------------------------------------------------------
  // Creation

  /** A freshly created filesystem and the registry it now lives in. */
  datatype Created = Created(reg: Registry, fs: FsId)

  /** The stored target: `toAbsolutePath().normalize()` of the package path. */
  function NormalizedTarget(host: Host, provider: Provider, p: AnyPath): (r: Result<AnyPath, FsError>)
    ensures p.Disk? ==> r == Success(Disk(host.diskAbsoluteNormal(p.location)))
    ensures p.Virtual? ==> (r.Success? <==> Normalize(ToAbsolutePath(provider, p.path)).Success?)
    ensures p.Virtual? && r.Success? ==>
      r.value.Virtual? && r.value.path.fs == p.path.fs && Clean(r.value.path.parts)
  {
    match p
    case Disk(l) => Success(Disk(host.diskAbsoluteNormal(l)))
    case Virtual(q) =>
      match Normalize(ToAbsolutePath(provider, q))
      case Success(n) => Success(Virtual(n))
      case Failure(e) => Failure(PathFailure(e))
  }

  /** `newFileSystemInternal`: a new filesystem for the normalized target,
      registered under `key` in place of whatever was there. */
  function NewFileSystemInternal(host: Host, reg: Registry, key: string, target: AnyPath): (r: Result<Created, FsError>)
    requires Valid(reg) && Known(reg, target)
    ensures r.Failure? <==> NormalizedTarget(host, reg.provider, target).Failure?
    ensures r.Success? ==>
      var id := r.value.fs;
      var reg' := r.value.reg;
      Valid(reg') && reg'.provider == reg.provider
      && id == |reg.heap| && |reg'.heap| == id + 1 && reg'.heap[..id] == reg.heap
      && reg'.heap[id] == Fs(key, NormalizedTarget(host, reg.provider, target).value, Unopened)
      && reg'.table == reg.table[key := id]
  {
    var t :- NormalizedTarget(host, reg.provider, target);
    var id := |reg.heap|;
    var reg' := Registry(reg.provider, reg.heap + [Fs(key, t, Unopened)], reg.table[key := id]);
    assert reg'.heap[..id] == reg.heap;
    Success(Created(reg', id))
  }

  /** `newFileSystem(URI, env)`: needs a package path; an already registered
      key answers with its filesystem and leaves the registry untouched. */
  function NewFileSystemFromUri(host: Host, reg: Registry, u: Uri, packagePath: Option<AnyPath>): (r: Result<Created, FsError>)
    requires Valid(reg) && (packagePath.Some? ==> Known(reg, packagePath.value))
    ensures packagePath.None? ==> r == Failure(Unsupported("Missing packagePath"))
    ensures packagePath.Some? && MakeKey(host, u) in reg.table ==>
      r == Success(Created(reg, reg.table[MakeKey(host, u)]))
    ensures packagePath.Some? && MakeKey(host, u) !in reg.table ==>
      r == NewFileSystemInternal(host, reg, MakeKey(host, u), packagePath.value)
    ensures r.Success? ==> Valid(r.value.reg) && r.value.reg.table[MakeKey(host, u)] == r.value.fs
  {
    match packagePath
    case None => Failure(Unsupported("Missing packagePath"))
    case Some(target) =>
      var key := MakeKey(host, u);
      if key in reg.table then Success(Created(reg, reg.table[key]))
      else NewFileSystemInternal(host, reg, key, target)
  }

  /** Asking twice for the same URI yields the first filesystem, and the
      second request changes nothing. */
  lemma {:induction false} NewFileSystemFromUriTwice(host: Host, reg: Registry, u: Uri, first: AnyPath, second: AnyPath)
    requires Valid(reg) && Known(reg, first)
    requires NewFileSystemFromUri(host, reg, u, Some(first)).Success?
    ensures var c := NewFileSystemFromUri(host, reg, u, Some(first)).value;
      Known(c.reg, second) ==> NewFileSystemFromUri(host, c.reg, u, Some(second)) == Success(c)
  {
  }

  /** `newFileSystem(Path, env)`: needs a package path; the key is the file
      name of `path`, and any filesystem under that key is replaced. */
  function NewFileSystemFromPath(host: Host, reg: Registry, path: AnyPath, packagePath: Option<AnyPath>): (r: Result<Created, FsError>)
    requires Valid(reg) && Known(reg, path) && (packagePath.Some? ==> Known(reg, packagePath.value))
    ensures packagePath.None? ==> r == Failure(Unsupported("Missing packagePath"))
    ensures packagePath.Some? && FileNameText(host, reg, path).Failure? ==> r.Failure?
    ensures packagePath.Some? && FileNameText(host, reg, path).Success? ==>
      r == NewFileSystemInternal(host, reg, FileNameText(host, reg, path).value, packagePath.value)
  {
    match packagePath
    case None => Failure(Unsupported("Missing packagePath"))
    case Some(target) =>
      var key :- FileNameText(host, reg, path);
      NewFileSystemInternal(host, reg, key, target)
  }

  /** `newFileSystem(Path)`: a null path is an illegal argument; otherwise a
      fresh filesystem over the path, keyed by its file name. */
  function NewFileSystemExplicit(host: Host, reg: Registry, path: Option<AnyPath>): (r: Result<Created, FsError>)
    requires Valid(reg) && (path.Some? ==> Known(reg, path.value))
    ensures path.None? ==> r == Failure(BadArgument("Path is null"))
    ensures path.Some? && r.Success? ==>
      FileNameText(host, reg, path.value).Success?
      && r == NewFileSystemInternal(host, reg, FileNameText(host, reg, path.value).value, path.value)
    ensures path.Some? && FileNameText(host, reg, path.value).Success? ==>
      (r.Success? <==> NormalizedTarget(host, reg.provider, path.value).Success?)
  {
    match path
    case None => Failure(BadArgument("Path is null"))
    case Some(p) =>
      var key :- FileNameText(host, reg, p);
      NewFileSystemInternal(host, reg, key, p)
  }

  // ---------------------------------------------------------------------
  // Removal and the lifecycle of a filesystem

  /** `removeFileSystem`: drops the filesystem's key from the table, whichever
      filesystem that key currently names. */
  function RemoveFileSystem(reg: Registry, id: FsId): (r: Registry)
    requires Valid(reg) && id < |reg.heap|
    ensures Valid(r) && r.heap == reg.heap && r.provider == reg.provider
    ensures reg.heap[id].key !in r.table
    ensures forall k :: k in r.table <==> k in reg.table && k != reg.heap[id].key
    ensures forall k :: k in r.table ==> r.table[k] == reg.table[k]
  {
    reg.(table := reg.table - {reg.heap[id].key})
  }

  /** `isOpen`: true until the delegate exists, then the delegate's state. */
  function IsOpen(f: Fs): (r: bool)
    ensures f.delegate.Unopened? ==> r
  {
    match f.delegate
    case Unopened => true
    case Opened(_, open) => open
  }

  /** `close`: closes the delegate if it was ever opened, then unregisters the key. */
  function Close(reg: Registry, id: FsId): (r: Registry)
    requires Valid(reg) && id < |reg.heap|
    ensures Valid(r) && |r.heap| == |reg.heap|
    ensures forall j :: 0 <= j < |reg.heap| && j != id ==> r.heap[j] == reg.heap[j]
    ensures r.heap[id].key == reg.heap[id].key && r.heap[id].target == reg.heap[id].target
    ensures reg.heap[id].delegate.Unopened? <==> r.heap[id].delegate.Unopened?
    ensures IsOpen(r.heap[id]) <==> reg.heap[id].delegate.Unopened?
    ensures r.table == RemoveFileSystem(reg, id).table
  {
    var f := reg.heap[id];
    var d := match f.delegate
      case Unopened => Unopened
      case Opened(info, _) => Opened(info, false);
    RemoveFileSystem(reg.(heap := reg.heap[id := f.(delegate := d)]), id)
  }

  /** Closing a filesystem whose key was since taken over by a newer one
      unregisters the newer one. */
  lemma {:induction false} CloseRemovesReplacement(host: Host, reg: Registry, previous: FsId, path: AnyPath)
    requires Valid(reg) && previous < |reg.heap| && Known(reg, path)
    requires FileNameText(host, reg, path) == Success(reg.heap[previous].key)
    requires NewFileSystemExplicit(host, reg, Some(path)).Success?
    ensures var c := NewFileSystemExplicit(host, reg, Some(path)).value;
      c.reg.table[reg.heap[previous].key] == c.fs
      && c.fs != previous
      && reg.heap[previous].key !in Close(c.reg, previous).table
  {
  }

  /** `innerSystem.get()`: the first use opens the delegate with what the
      host yields; later uses see the same delegate. */
  function OpenDelegate(reg: Registry, id: FsId, yielded: DelegateInfo): (r: Registry)
    requires Valid(reg) && id < |reg.heap|
    ensures Valid(r) && r.table == reg.table && |r.heap| == |reg.heap|
    ensures forall j :: 0 <= j < |reg.heap| && j != id ==> r.heap[j] == reg.heap[j]
    ensures reg.heap[id].delegate.Opened? ==> r == reg
    ensures reg.heap[id].delegate.Unopened? ==> r.heap[id] == reg.heap[id].(delegate := Opened(yielded, true))
    ensures r.heap[id].delegate.Opened? && IsOpen(r.heap[id]) == IsOpen(reg.heap[id])
  {
    var f := reg.heap[id];
    if f.delegate.Opened? then reg
    else reg.(heap := reg.heap[id := f.(delegate := Opened(yielded, true))])
  }

  // ---------------------------------------------------------------------
  // Filesystem queries

  /** `getRootDirectories`: the root alone. */
  function RootDirectories(id: FsId): (r: seq<PathPath>)
    ensures |r| == 1 && r[0].fs == id && r[0].parts == [""] && IsAbsolute(r[0])
  {
    [Root(id)]
  }

  /** `isReadOnly`, `getSeparator`, `getFileStores` and
      `supportedFileAttributeViews` are fixed answers. */
  function IsReadOnly(f: Fs): (r: bool)
    ensures r
  {
    true
  }

  const FileStores: seq<string> := []
  const SupportedFileAttributeViews: set<string> := {"basic"}

  /** `innerFSTarget`: the target itself when the delegate is the target's
      own filesystem, else the delegate's only root. */
  function InnerRoot(f: Fs, info: DelegateInfo): (r: Result<AnyPath, FsError>)
    ensures info.sameFs ==> r == Success(f.target)
    ensures !info.sameFs ==> (r.Success? <==> |info.roots| == 1)
    ensures !info.sameFs && r.Success? ==> r.value == info.roots[0]
  {
    if info.sameFs then Success(f.target)
    else if |info.roots| != 1 then Failure(Unsupported("Invalid PathFileSystem, Multiple roots"))
    else Success(info.roots[0])
  }

  /** `resolve(String)` on the inner root: a host path resolves through the
      host, a path-filesystem path through `resolve` of a parsed path. */
  function ResolveText(host: Host, provider: Provider, base: AnyPath, text: string): (r: AnyPath)
    ensures base.Disk? ==> r == Disk(host.diskResolve(base.location, text))
    ensures base.Virtual? ==> r == Virtual(Resolve(provider, base.path, NewPath(base.path.fs, provider, [text])))
  {
    match base
    case Disk(l) => Disk(host.diskResolve(l, text))
    case Virtual(q) => Virtual(Resolve(provider, q, NewPath(q.fs, provider, [text])))
  }

  /** `getOuterTarget`: an absolute path is first made relative to the root,
      then its text is resolved against the inner root. */
  function GetOuterTarget(host: Host, reg: Registry, id: FsId, innerRoot: AnyPath, path: PathPath): (r: Result<AnyPath, FsError>)
    ensures !IsAbsolute(path) ==> r == Success(ResolveText(host, reg.provider, innerRoot, ToString(path)))
    ensures IsAbsolute(path) ==> (r.Success? <==> RelativizeAsWritten(reg.provider, Root(id), path).Success?)
  {
    var rel :- if IsAbsolute(path) then
        match RelativizeAsWritten(reg.provider, Root(id), path)
        case Success(q) => Success(q)
        case Failure(e) => Failure(PathFailure(e))
      else Success(path);
    Success(ResolveText(host, reg.provider, innerRoot, ToString(rel)))
  }

  /** An absolute path and its relative twin reach the same outer target. */
  lemma {:induction false} OuterTargetIgnoresRootMarker(host: Host, reg: Registry, id: FsId, innerRoot: AnyPath, names: seq<string>)
    requires |names| >= 1 && Names(names)
    ensures GetOuterTarget(host, reg, id, innerRoot, PathPath(id, [""] + names))
      == GetOuterTarget(host, reg, id, innerRoot, PathPath(id, names))
    ensures GetOuterTarget(host, reg, id, innerRoot, PathPath(id, names))
      == Success(ResolveText(host, reg.provider, innerRoot, Join(names, Separator)))
  {
    var p := PathPath(id, [""] + names);
    assert RelativizeAsWritten(reg.provider, Root(id), p) == Success(PathPath(id, names)) by {
      RootRelativizeAbsolute(reg.provider, id, names);
    }
    ToStringNames(PathPath(id, names));
  }

  /** Relativizing `/n1/../nk` against the root drops the root marker: the
      literal `subpath(i + 1, n)` happens to be right when nothing matched. */
  lemma {:induction false} RootRelativizeAbsolute(provider: Provider, id: FsId, names: seq<string>)
    requires |names| >= 1
    ensures RelativizeAsWritten(provider, Root(id), PathPath(id, [""] + names)) == Success(PathPath(id, names))
  {
    var p := PathPath(id, [""] + names);
    assert CommonRun(DropParts(Root(id).parts, 1), DropParts(p.parts, 1)) == 0;
    assert p.parts[1..|p.parts|] == names;
  }

  /** The root and the empty path both reach the inner root itself. */
  lemma {:induction false} OuterTargetOfRoot(host: Host, reg: Registry, id: FsId, innerRoot: AnyPath)
    ensures GetOuterTarget(host, reg, id, innerRoot, Root(id))
      == Success(ResolveText(host, reg.provider, innerRoot, ""))
    ensures GetOuterTarget(host, reg, id, innerRoot, PathPath(id, []))
      == Success(ResolveText(host, reg.provider, innerRoot, ""))
  {
    assert ToString(Root(id)) == "";
    assert ToString(PathPath(id, [])) == "";
    assert CommonRun(DropParts([""], 1), DropParts([], 1)) == 0;
  }

  /** Where `readAttributes` and `newByteChannel` act. */
  datatype Access = OnTarget(target: AnyPath) | OnDelegate(outer: AnyPath)

  /** The root goes to the target itself, everything else to the delegate
      through `getOuterTarget`; `info` is the opened delegate. */
  function AccessFor(host: Host, reg: Registry, id: FsId, info: DelegateInfo, path: PathPath): (r: Result<Access, FsError>)
    requires Valid(reg) && id < |reg.heap|
    ensures path.fs == id && path.parts == [""] ==> r == Success(OnTarget(reg.heap[id].target))
    ensures !(path.fs == id && path.parts == [""]) ==>
      r == (match InnerRoot(reg.heap[id], info)
            case Failure(e) => Failure(e)
            case Success(inner) =>
              match GetOuterTarget(host, reg, id, inner, path)
              case Failure(e) => Failure(e)
              case Success(outer) => Success(OnDelegate(outer)))
  {
    assert ToAbsolutePath(reg.provider, path) == Root(id) <==> path.fs == id && path.parts == [""] by {
      AbsoluteIsRootIff(reg.provider, path);
    }
    if ToAbsolutePath(reg.provider, path) == Root(id) then Success(OnTarget(reg.heap[id].target))
    else
      var inner :- InnerRoot(reg.heap[id], info);
      var outer :- GetOuterTarget(host, reg, id, inner, path);
      Success(OnDelegate(outer))
  }

  /** `checkAccess` always goes to the delegate, the root included. */
  function CheckAccessTarget(host: Host, reg: Registry, id: FsId, info: DelegateInfo, path: PathPath): (r: Result<AnyPath, FsError>)
    requires Valid(reg) && id < |reg.heap|
    ensures InnerRoot(reg.heap[id], info).Success? && path == Root(id) ==>
      r == Success(ResolveText(host, reg.provider, InnerRoot(reg.heap[id], info).value, ""))
  {
    var inner :- InnerRoot(reg.heap[id], info);
    assert path == Root(id) ==> GetOuterTarget(host, reg, id, inner, path)
      == Success(ResolveText(host, reg.provider, inner, "")) by {
      OuterTargetOfRoot(host, reg, id, inner);
    }
    GetOuterTarget(host, reg, id, inner, path)
  }

  // ---------------------------------------------------------------------
  // Directory listing

  /** The path constructor over a path of another filesystem: its text with
      `\` turned into `/`, split on `/`, with no leading empty part removed. */
  function InnerPathParts(text: string): (r: seq<string>)
    ensures forall i :: 0 <= i < |r| ==> '/' !in r[i] && '\\' !in r[i]
  {
    var t := ReplaceAll(text, "\\", "/");
    ReplaceCharPointwise(text, '\\', '/');
    assert '\\' !in t by {
      assert forall k :: 0 <= k < |t| ==> t[k] != '\\';
    }
    assert '/' !in t ==> Split(t, '/') == [t];
    Split(t, '/')
  }

  /** Names joined by `/` come back as the same names. */
  lemma {:induction false} InnerPathNames(names: seq<string>)
    requires |names| >= 1 && Names(names)
    ensures InnerPathParts(Join(names, Separator)) == names
  {
    var j := Join(names, Separator);
    JoinNamesShape(names);
    ReplaceCharAbsent(j, '\\', '/');
    SplitJoin(names, '/');
  }

  /** Unlike the text constructor, a leading `/` keeps its empty part. */
  lemma {:induction false} InnerPathAbsoluteNames(names: seq<string>)
    requires |names| >= 1 && Names(names)
    ensures InnerPathParts("/" + Join(names, Separator)) == [""] + names
  {
    var j := Join(names, Separator);
    JoinNamesShape(names);
    JoinCons("", names, Separator);
    assert "/" + j == Join([""] + names, Separator);
    ReplaceCharAbsent("/" + j, '\\', '/');
    SplitJoin([""] + names, '/');
  }

  /** The empty text is the root; `/` alone splits to no parts at all. */
  lemma {:induction false} InnerPathEdges()
    ensures InnerPathParts("") == [""]
    ensures InnerPathParts("/") == []
  {
    assert ReplaceAll("/", "\\", "/") == "/";
    assert Pieces("/", '/') == ["", ""];
  }

  /** Which listing `newDirectoryStream` consults: the inner root's for the
      root, the delegate's listing of the outer target otherwise. */
  datatype Listing = InnerRootListing(inner: AnyPath) | DelegateListing(outer: AnyPath)

  function ListingFor(host: Host, reg: Registry, id: FsId, info: DelegateInfo, dir: PathPath): (r: Result<Listing, FsError>)
    requires Valid(reg) && id < |reg.heap|
    ensures InnerRoot(reg.heap[id], info).Failure? ==> r.Failure?
    ensures InnerRoot(reg.heap[id], info).Success? && dir.fs == id && dir.parts == [""] ==>
      r == Success(InnerRootListing(InnerRoot(reg.heap[id], info).value))
    ensures r.Success? && !(dir.fs == id && dir.parts == [""]) ==> r.value.DelegateListing?
  {
    var inner :- InnerRoot(reg.heap[id], info);
    assert ToAbsolutePath(reg.provider, dir) == Root(id) <==> dir.fs == id && dir.parts == [""] by {
      AbsoluteIsRootIff(reg.provider, dir);
    }
    if ToAbsolutePath(reg.provider, dir) == Root(id) then Success(InnerRootListing(inner))
    else
      var outer :- GetOuterTarget(host, reg, id, inner, dir);
      Success(DelegateListing(outer))
  }

  /** The entries of a directory stream: each listed path, already made
      relative by the host and given as text, becomes a path of this
      filesystem; a listing that fails with an I/O error yields no entries. */
  function DirectoryEntries(id: FsId, listed: Option<seq<string>>): (r: seq<PathPath>)
    ensures listed.None? ==> r == []
    ensures listed.Some? ==> |r| == |listed.value|
    ensures listed.Some? ==> forall i :: 0 <= i < |r| ==>
      r[i].fs == id && r[i].parts == InnerPathParts(listed.value[i])
  {
    match listed
    case None => []
    case Some(texts) => seq(|texts|, i requires 0 <= i < |texts| => PathPath(id, InnerPathParts(texts[i])))
  }

  // ---------------------------------------------------------------------
  // Provider-level dispatch

  /** `newByteChannel`, `newDirectoryStream`, `checkAccess` and
      `readAttributes(Class)` forward a path of a path filesystem to that
      filesystem and refuse any other path. */
  function OwnerOf(p: AnyPath): (r: Result<FsId, FsError>)
    ensures r.Success? <==> p.Virtual?
    ensures r.Success? ==> r.value == p.path.fs
    ensures r.Failure? ==> r.error.Unsupported?
  {
    match p
    case Virtual(q) => Success(q.fs)
    case Disk(_) => Failure(Unsupported(""))
  }

  /** Operations the provider and its filesystems always refuse. */
  datatype RefusedOperation =
    | CreateDirectory | Delete | Copy | Move | SetAttribute
    | ReadAttributesByName | GetFileAttributeView
    | GetPathMatcher | GetUserPrincipalLookupService | NewWatchService

  function Refuse(op: RefusedOperation): (r: Result<(), FsError>)
    ensures r.Failure? && r.error.Unsupported?
  {
    Failure(Unsupported(""))
  }

  /** `isSameFile` and `isHidden` answer false for any paths. */
  function IsSameFile(a: AnyPath, b: AnyPath): (r: bool)
    ensures !r
  {
    false
  }

  function IsHidden(a: AnyPath): (r: bool)
    ensures !r
  {
    false
  }
}
