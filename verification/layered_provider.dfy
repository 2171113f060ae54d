/** The multi-layer `jij:` provider: a scheme-specific part split on `~` into
    layer sections, the walk that opens one nested path filesystem per
    section, the rendering of a path back into a `jij:` URI by recursion over
    the chain of filesystem targets, and the two parsing hooks. */
module LayeredProvider {
  import opened Wrappers
  import opened JavaStrings
  import opened PathAlgebra
  import opened PathRegistry

  // ---------------------------------------------------------------------
  // The platform

  /** JDK behaviour the layered provider relies on, passed in as functions. */
  datatype Platform = Platform(
    host: Host,
    // `new URI(String)` / `URI.create`: `None` when the text is not a URI
    parseUri: string -> Option<Uri>,
    // `toAbsolutePath()` of a path of the default filesystem, as text
    diskAbsolute: string -> string,
    // `toUri().toString()` of a path of the default filesystem
    diskUriText: string -> string,
    // `toAbsolutePath().toUri().getRawSchemeSpecificPart()` of a default-filesystem path
    diskPrefix: string -> string,
    // whether the default filesystem's class name contains "windows"
    windows: bool
  )

  /** The filesystem a walk currently stands in: the default (disk)
      filesystem or a path filesystem of the registry. */
  datatype Working = DefaultFs | PathFs(id: FsId)

  /** The state of a section walk: the registry, the working filesystem and
      the accumulated key prefix. */
  datatype Walk = Walk(reg: Registry, working: Working, prefix: string)

  /** A path handed out together with the registry it now lives in. */
  datatype Located = Located(reg: Registry, path: AnyPath)

  // ---------------------------------------------------------------------
  // Paths without layer separators

  /** No component holds a `~`. */
  predicate TildeFree(p: PathPath) {
    forall i :: 0 <= i < |p.parts| ==> '~' !in p.parts[i]
  }

  predicate Unmarked(p: AnyPath) {
    p.Virtual? ==> TildeFree(p.path)
  }

  /** A registry of the layered provider whose filesystem targets carry no
      `~`: taking their absolute form never re-enters the provider. */
  predicate LayeredValid(reg: Registry) {
    Valid(reg) && reg.provider == Layered
    && forall i :: 0 <= i < |reg.heap| ==> Unmarked(reg.heap[i].target)
  }

  predicate WorkingKnown(reg: Registry, w: Working) {
    w.PathFs? ==> w.id < |reg.heap|
  }

  /** `reg'` only appended filesystems to `reg` and registered new keys. */
  predicate Extends(reg: Registry, reg': Registry) {
    reg'.provider == reg.provider && |reg.heap| <= |reg'.heap|
    && (forall i :: 0 <= i < |reg.heap| ==> reg'.heap[i] == reg.heap[i])
    && forall k :: k in reg.table ==> k in reg'.table && reg'.table[k] == reg.table[k]
  }

  lemma {:induction false} ExtendsTransitive(a: Registry, b: Registry, c: Registry)
    requires Extends(a, b) && Extends(b, c)
    ensures Extends(a, c)
  {
  }

  /** Text without `~` parses into components without `~`. */
  lemma {:induction false} ParseTildeFree(provider: Provider, s: string)
    requires '~' !in s
    ensures forall i :: 0 <= i < |ParseParts(provider, s)| ==> '~' !in ParseParts(provider, s)[i]
  {
    var t := ReplaceChar(s, '\\', '/');
    ReplaceCharAt(s, '\\', '/');
    assert '~' !in t by {
      forall k | 0 <= k < |t| ensures t[k] != '~' { assert s[k] in s; }
    }
    var split := if s == "/" then [""] else Split(t, '/');
    assert forall i, x :: 0 <= i < |split| && x in split[i] ==> x in t;
  }

  /** The text of a path without `~` has no `~`. */
  lemma {:induction false} ToStringTildeFree(p: PathPath)
    requires TildeFree(p)
    ensures '~' !in ToString(p)
  {
    JoinAvoids(p.parts, Separator, '~');
    ReplaceAllAvoids(Join(p.parts, Separator), "//", "/", '~');
  }

  lemma {:induction false} AbsoluteTildeFree(p: PathPath)
    requires TildeFree(p)
    ensures TildeFree(ToAbsolutePath(Layered, p))
  {
    if !IsAbsolute(p) {
      ToStringTildeFree(p);
      ToStringTildeFree(Root(p.fs));
      ParseTildeFree(Layered, ToString(Root(p.fs)) + Separator + ToString(p));
    }
  }

  /** The deque walk only keeps components it was given. */
  lemma {:induction false} NormFromKeeps(stack: seq<string>, rest: seq<string>)
    requires NormFrom(stack, rest).Success?
    ensures forall x :: x in NormFrom(stack, rest).value ==> x in stack || x in rest
    decreases |rest|
  {
    if rest != [] {
      var next := Step(stack, rest[0]).value;
      NormFromKeeps(next, rest[1..]);
      assert forall x :: x in next ==> x in stack || x == rest[0];
    }
  }

  lemma {:induction false} NormalizeTildeFree(p: PathPath)
    requires TildeFree(p) && Normalize(p).Success?
    ensures TildeFree(Normalize(p).value)
  {
    NormFromKeeps([], p.parts);
    var q := Normalize(p).value;
    forall i | 0 <= i < |q.parts| ensures '~' !in q.parts[i] {
      assert q.parts[i] in p.parts;
    }
  }

  /** In the layered provider `toAbsolutePath` of a relative path resolves
      it against the root, and `resolve` hands the result to
      `adaptResolvedPath`.  For a path without `~` that hook finds no `~/`
      and returns the path unchanged, so the hook-free `ToAbsolutePath` is
      the layered one. */
  lemma {:induction false} AbsoluteHookIdle(p: PathPath)
    requires TildeFree(p)
    ensures !Contains(ToString(ToAbsolutePath(Layered, p)), LayerMarker)
  {
    AbsoluteTildeFree(p);
    ToStringTildeFree(ToAbsolutePath(Layered, p));
    if Contains(ToString(ToAbsolutePath(Layered, p)), LayerMarker) {
      ContainsHead(ToString(ToAbsolutePath(Layered, p)), LayerMarker);
    }
  }

  // ---------------------------------------------------------------------
  // Paths in the working filesystem

  /** `workingSystem.getPath(section)`: a disk path, or the section parsed in
      the working path filesystem of the layered provider. */
  function GetPathIn(w: Working, section: string): (r: AnyPath)
    ensures '~' !in section ==> Unmarked(r)
    ensures w.DefaultFs? ==> r == Disk(section)
    ensures w.PathFs? ==> r.Virtual? && r.path.fs == w.id && r.path.parts == ParseParts(Layered, section)
  {
    match w
    case DefaultFs => Disk(section)
    case PathFs(id) =>
      assert Join([section], Separator) == section;
      assert '~' !in section ==> Unmarked(Virtual(NewPath(id, Layered, [section]))) by {
        if '~' !in section { ParseTildeFree(Layered, section); }
      }
      Virtual(NewPath(id, Layered, [section]))
  }

  /** `toAbsolutePath()`. */
  function AbsoluteIn(pf: Platform, p: AnyPath): (r: AnyPath)
    ensures Unmarked(p) ==> Unmarked(r)
    ensures r.Disk? == p.Disk?
    ensures p.Disk? ==> r.location == pf.diskAbsolute(p.location)
    ensures p.Virtual? ==> r.path.fs == p.path.fs
    ensures p.Virtual? && IsAbsolute(p.path) ==> r == p
  {
    match p
    case Disk(l) => Disk(pf.diskAbsolute(l))
    case Virtual(q) =>
      assert TildeFree(q) ==> TildeFree(ToAbsolutePath(Layered, q)) by {
        if TildeFree(q) { AbsoluteTildeFree(q); }
      }
      Virtual(ToAbsolutePath(Layered, q))
  }

  /** `path.toString()`. */
  function PathText(p: AnyPath): string {
    match p
    case Disk(l) => l
    case Virtual(q) => ToString(q)
  }

  // ---------------------------------------------------------------------
  // Rendering

  /** `buildPrefixFor`: the disk's URI text for a disk target, otherwise the
      prefix of the target's own filesystem, `~/`, and the target's absolute
      text; one recursion per layer of nesting. */
  function BuildPrefixFor(pf: Platform, reg: Registry, t: AnyPath): (r: string)
    requires LayeredValid(reg) && Known(reg, t) && Unmarked(t)
    ensures t.Disk? ==> r == pf.diskPrefix(t.location)
    ensures t.Virtual? ==> JavaStrings.EndsWith(r, LayerMarker + ToString(ToAbsolutePath(Layered, t.path)))
    decreases if t.Virtual? then t.path.fs + 1 else 0
  {
    match t
    case Disk(l) => pf.diskPrefix(l)
    case Virtual(q) =>
      AbsoluteHookIdle(q);
      var head := BuildPrefixFor(pf, reg, reg.heap[q.fs].target);
      var tail := LayerMarker + ToString(ToAbsolutePath(Layered, q));
      assert (head + tail)[|head + tail| - |tail|..] == tail;
      head + tail
  }

  /** The prefix every path of filesystem `id` renders with. */
  function FsPrefix(pf: Platform, reg: Registry, id: FsId): string
    requires LayeredValid(reg) && id < |reg.heap|
  {
    BuildPrefixFor(pf, reg, reg.heap[id].target)
  }

  /** Appending filesystems does not change how existing ones render. */
  lemma {:induction false} BuildPrefixStable(pf: Platform, reg: Registry, reg': Registry, t: AnyPath)
    requires LayeredValid(reg) && LayeredValid(reg') && Extends(reg, reg')
    requires Known(reg, t) && Unmarked(t)
    ensures BuildPrefixFor(pf, reg', t) == BuildPrefixFor(pf, reg, t)
    decreases if t.Virtual? then t.path.fs + 1 else 0
  {
    if t.Virtual? {
      var id := t.path.fs;
      BuildPrefixStable(pf, reg, reg', reg.heap[id].target);
    }
  }

  /** The `jij:` URI of a path: scheme, the prefix of the path's filesystem
      target and the path's text, with every `~//` collapsed to `~/`, read
      by the URI parser. */
  function LayeredBuildUriFor(pf: Platform, reg: Registry, p: PathPath): (r: Result<Uri, FsError>)
    requires LayeredValid(reg) && p.fs < |reg.heap|
    ensures var text := ReplaceAll(Scheme(Layered) + ":" + FsPrefix(pf, reg, p.fs) + ToString(p), "~//", LayerMarker);
      (r.Success? <==> pf.parseUri(text).Some?)
      && (r.Success? ==> r.value == pf.parseUri(text).value)
      && (r.Failure? ==> r.error == Malformed)
  {
    var text := ReplaceAll(Scheme(Layered) + ":" + FsPrefix(pf, reg, p.fs) + ToString(p), "~//", LayerMarker);
    match pf.parseUri(text)
    case Some(u) => Success(u)
    case None => Failure(Malformed)
  }

  /** `path.toUri().toString()` for either kind of path. */
  function UriText(pf: Platform, reg: Registry, p: AnyPath): (r: Result<string, FsError>)
    requires LayeredValid(reg) && Known(reg, p)
    ensures p.Disk? ==> r == Success(pf.diskUriText(p.location))
    ensures p.Virtual? ==> (r.Success? <==> LayeredBuildUriFor(pf, reg, p.path).Success?)
    ensures p.Virtual? && r.Success? ==> r.value == RenderUri(LayeredBuildUriFor(pf, reg, p.path).value)
  {
    match p
    case Disk(l) => Success(pf.diskUriText(l))
    case Virtual(q) =>
      var u :- LayeredBuildUriFor(pf, reg, q);
      Success(RenderUri(u))
  }

  lemma {:induction false} UriTextStable(pf: Platform, reg: Registry, reg': Registry, p: AnyPath)
    requires LayeredValid(reg) && LayeredValid(reg') && Extends(reg, reg') && Known(reg, p)
    ensures UriText(pf, reg', p) == UriText(pf, reg, p)
  {
    if p.Virtual? {
      var id := p.path.fs;
      BuildPrefixStable(pf, reg, reg', reg.heap[id].target);
    }
  }

  // ---------------------------------------------------------------------
  // Opening one layer

  /** `super.newFileSystem(uri, {packagePath})` from inside the layered
      provider: the registered filesystem for the URI's key, or a new one
      over the normalized package path; every failure becomes the
      intermediary failure. */
  function Register(pf: Platform, reg: Registry, v: Uri, packagePath: AnyPath): (r: Result<Created, FsError>)
    requires LayeredValid(reg) && Known(reg, packagePath) && Unmarked(packagePath)
    ensures r.Failure? ==> r.error == Intermediary
    ensures r.Success? ==>
      LayeredValid(r.value.reg) && Extends(reg, r.value.reg) && r.value.fs < |r.value.reg.heap|
      && MakeKey(pf.host, v) in r.value.reg.table && r.value.reg.table[MakeKey(pf.host, v)] == r.value.fs
    ensures MakeKey(pf.host, v) in reg.table ==> r == Success(Created(reg, reg.table[MakeKey(pf.host, v)]))
    ensures MakeKey(pf.host, v) !in reg.table ==>
      (r.Success? <==> NormalizedTarget(pf.host, Layered, packagePath).Success?)
      && (r.Success? ==>
            r.value.fs == |reg.heap| && |r.value.reg.heap| == |reg.heap| + 1
            && r.value.reg.heap[r.value.fs] == Fs(MakeKey(pf.host, v), NormalizedTarget(pf.host, Layered, packagePath).value, Unopened))
  {
    match NewFileSystemFromUri(pf.host, reg, v, Some(packagePath))
    case Failure(_) => Failure(Intermediary)
    case Success(c) =>
      if MakeKey(pf.host, v) in reg.table then Success(c)
      else
        assert forall i :: 0 <= i < |reg.heap| ==> c.reg.heap[i] == c.reg.heap[..|reg.heap|][i];
        var t := NormalizedTarget(pf.host, Layered, packagePath).value;
        assert Unmarked(t) by {
          if t.Virtual? {
            AbsoluteTildeFree(packagePath.path);
            NormalizeTildeFree(ToAbsolutePath(Layered, packagePath.path));
          }
        }
        assert LayeredValid(c.reg) by {
          forall i | 0 <= i < |c.reg.heap| ensures Unmarked(c.reg.heap[i].target) {
            if i < |reg.heap| { assert c.reg.heap[i] == reg.heap[i]; }
          }
        }
        Success(c)
  }

  /** The URI `getOrCreateNewSystem` keys a layer by: the `path` scheme, the
      key prefix and the path's URI text with backslashes turned into slashes. */
  function LayerUri(pf: Platform, reg: Registry, keyPrefix: string, path: AnyPath): (r: Option<Uri>)
    requires LayeredValid(reg) && Known(reg, path)
    ensures UriText(pf, reg, path).Failure? ==> r.None?
    ensures UriText(pf, reg, path).Success? ==>
      r == pf.parseUri(Scheme(SingleLayer) + ":" + keyPrefix + ReplaceAll(UriText(pf, reg, path).value, "\\", "/"))
  {
    match UriText(pf, reg, path)
    case Failure(_) => None
    case Success(shown) => pf.parseUri(Scheme(SingleLayer) + ":" + keyPrefix + ReplaceAll(shown, "\\", "/"))
  }

  /** `getOrCreateNewSystem(keyPrefix, path)`: the layer over `path`, found
      under its key or created over the path's absolute form. */
  function GetOrCreate(pf: Platform, reg: Registry, keyPrefix: string, path: AnyPath): (r: Result<Created, FsError>)
    requires LayeredValid(reg) && Known(reg, path) && Unmarked(path)
    ensures r.Failure? ==> r.error == Intermediary
    ensures LayerUri(pf, reg, keyPrefix, path).None? ==> r == Failure(Intermediary)
    ensures LayerUri(pf, reg, keyPrefix, path).Some? ==>
      r == Register(pf, reg, LayerUri(pf, reg, keyPrefix, path).value, AbsoluteIn(pf, path))
    ensures r.Success? ==> LayeredValid(r.value.reg) && Extends(reg, r.value.reg) && r.value.fs < |r.value.reg.heap|
    ensures r.Success? ==> |r.value.reg.heap| <= |reg.heap| + 1
    ensures r.Success? && |r.value.reg.heap| == |reg.heap| ==> r.value.reg == reg
    ensures r.Success? && |r.value.reg.heap| > |reg.heap| ==>
      r.value.fs == |reg.heap| && NormalizedTarget(pf.host, Layered, AbsoluteIn(pf, path)).Success?
      && r.value.reg.heap[r.value.fs].target == NormalizedTarget(pf.host, Layered, AbsoluteIn(pf, path)).value
  {
    match LayerUri(pf, reg, keyPrefix, path)
    case None => Failure(Intermediary)
    case Some(v) => Register(pf, reg, v, AbsoluteIn(pf, path))
  }

  /** Asking again for a layer already obtained, in any later registry,
      yields the same filesystem and registers nothing. */
  lemma {:induction false} GetOrCreateAgain(pf: Platform, reg: Registry, reg': Registry, keyPrefix: string, path: AnyPath)
    requires LayeredValid(reg) && Known(reg, path) && Unmarked(path)
    requires GetOrCreate(pf, reg, keyPrefix, path).Success?
    requires LayeredValid(reg') && Extends(GetOrCreate(pf, reg, keyPrefix, path).value.reg, reg')
    ensures GetOrCreate(pf, reg', keyPrefix, path) == Success(Created(reg', GetOrCreate(pf, reg, keyPrefix, path).value.fs))
  {
    var c := GetOrCreate(pf, reg, keyPrefix, path).value;
    ExtendsTransitive(reg, c.reg, reg');
    UriTextStable(pf, reg, reg', path);
  }

  /** How a walk treats its sections: the walk after a known key drops one
      leading `/`; the walk from the disk drops one leading `//` and then
      applies the Windows rule; the walk of `getPath` and `getFileSystem`
      takes sections as they are, does not make paths absolute and keeps an
      empty key prefix. */
  datatype Entry = AfterKnownKey | FromDisk | Lookup

  /** `handleAbsolutePrefixOnWindows`: on a Windows default filesystem a
      leading `/` goes, so `/D:/x` becomes `D:/x`; a path filesystem is never
      a Windows filesystem. */
  function OnWindows(pf: Platform, w: Working, section: string): (r: string)
    ensures !(w.DefaultFs? && pf.windows) ==> r == section
    ensures w.DefaultFs? && pf.windows && JavaStrings.StartsWith(section, Separator) ==> section == Separator + r
    ensures w.DefaultFs? && pf.windows && !JavaStrings.StartsWith(section, Separator) ==> r == section
  {
    if w.DefaultFs? && pf.windows && JavaStrings.StartsWith(section, Separator) then section[1..] else section
  }

  /** The section text a walk step hands to `getPath`. */
  function SectionText(pf: Platform, w: Working, entry: Entry, section: string): (r: string)
    ensures '~' !in section ==> '~' !in r
    ensures entry == Lookup ==> r == section
    ensures entry == AfterKnownKey ==>
      (JavaStrings.StartsWith(section, Separator) ==> section == Separator + r)
      && (!JavaStrings.StartsWith(section, Separator) ==> r == section)
    ensures entry == FromDisk && !JavaStrings.StartsWith(section, "//") ==> r == OnWindows(pf, w, section)
  {
    match entry
    case Lookup => section
    case AfterKnownKey => if JavaStrings.StartsWith(section, Separator) then section[1..] else section
    case FromDisk => OnWindows(pf, w, if JavaStrings.StartsWith(section, "//") then section[2..] else section)
  }

  /** The path one walk step opens a layer over. */
  function StepPath(pf: Platform, w: Working, entry: Entry, section: string): (r: AnyPath)
    ensures '~' !in section ==> Unmarked(r)
    ensures r.Virtual? <==> w.PathFs?
    ensures w.PathFs? ==> r.path.fs == w.id
  {
    var p := GetPathIn(w, SectionText(pf, w, entry, section));
    if entry == Lookup then p else AbsoluteIn(pf, p)
  }

  /** One walk step: the section's path opened as a layer keyed under the
      current prefix; except in the lookup walk the prefix then grows by the
      path's text (backslashes turned into slashes) and `~/`. */
  function OpenLayer(pf: Platform, reg: Registry, w: Working, prefix: string, entry: Entry, section: string): (r: Result<Walk, FsError>)
    requires LayeredValid(reg) && WorkingKnown(reg, w) && '~' !in section
    ensures r.Failure? ==> r.error == Intermediary
    ensures r.Success? ==>
      LayeredValid(r.value.reg) && Extends(reg, r.value.reg) && WorkingKnown(r.value.reg, r.value.working)
      && |r.value.reg.heap| <= |reg.heap| + 1
    ensures var path := StepPath(pf, w, entry, section);
      (r.Success? <==> GetOrCreate(pf, reg, prefix, path).Success?)
      && (r.Success? ==>
            r.value.working.PathFs?
            && GetOrCreate(pf, reg, prefix, path) == Success(Created(r.value.reg, r.value.working.id))
            && r.value.prefix == (if entry == Lookup then prefix else prefix + ReplaceAll(PathText(path), "\\", "/") + LayerMarker))
  {
    var path := StepPath(pf, w, entry, section);
    var c :- GetOrCreate(pf, reg, prefix, path);
    Success(Walk(c.reg, PathFs(c.fs), if entry == Lookup then prefix else prefix + ReplaceAll(PathText(path), "\\", "/") + LayerMarker))
  }

  /** A step repeated in a later registry finds the layer it opened before. */
  lemma {:induction false} OpenLayerAgain(pf: Platform, reg: Registry, reg': Registry, w: Working, prefix: string, entry: Entry, section: string)
    requires LayeredValid(reg) && WorkingKnown(reg, w) && '~' !in section
    requires OpenLayer(pf, reg, w, prefix, entry, section).Success?
    requires LayeredValid(reg') && Extends(OpenLayer(pf, reg, w, prefix, entry, section).value.reg, reg')
    ensures Extends(reg, reg') && WorkingKnown(reg', w)
    ensures var next := OpenLayer(pf, reg, w, prefix, entry, section).value;
      OpenLayer(pf, reg', w, prefix, entry, section) == Success(Walk(reg', next.working, next.prefix))
  {
    var next := OpenLayer(pf, reg, w, prefix, entry, section).value;
    ExtendsTransitive(reg, next.reg, reg');
    GetOrCreateAgain(pf, reg, reg', prefix, StepPath(pf, w, entry, section));
  }

  /** The sections `i` up to (not including) `end`, each opened as a layer
      inside the previous one. */
  function WalkFrom(pf: Platform, reg: Registry, w: Working, prefix: string, sections: seq<string>,
                    i: nat, end: nat, entry: Entry): (r: Result<Walk, FsError>)
    requires LayeredValid(reg) && WorkingKnown(reg, w)
    requires i <= end <= |sections| && forall j :: 0 <= j < |sections| ==> '~' !in sections[j]
    ensures r.Failure? ==> r.error == Intermediary
    ensures r.Success? ==>
      LayeredValid(r.value.reg) && Extends(reg, r.value.reg)
      && WorkingKnown(r.value.reg, r.value.working)
      && |r.value.reg.heap| <= |reg.heap| + (end - i)
    ensures r.Success? && i < end ==> r.value.working.PathFs?
    ensures r.Success? && entry == Lookup ==> r.value.prefix == prefix
    ensures i == end ==> r == Success(Walk(reg, w, prefix))
    decreases end - i
  {
    if i == end then Success(Walk(reg, w, prefix))
    else
      var next :- OpenLayer(pf, reg, w, prefix, entry, sections[i]);
      var r := WalkFrom(pf, next.reg, next.working, next.prefix, sections, i + 1, end, entry);
      assert r.Success? ==> Extends(reg, r.value.reg) by {
        if r.Success? { ExtendsTransitive(reg, next.reg, r.value.reg); }
      }
      r
  }

  /** A walk of at least one section is its first step followed by the rest. */
  lemma {:induction false} WalkFromStep(pf: Platform, reg: Registry, w: Working, prefix: string, sections: seq<string>,
                     i: nat, end: nat, entry: Entry)
    requires LayeredValid(reg) && WorkingKnown(reg, w)
    requires i < end <= |sections| && forall j :: 0 <= j < |sections| ==> '~' !in sections[j]
    requires OpenLayer(pf, reg, w, prefix, entry, sections[i]).Success?
    ensures var next := OpenLayer(pf, reg, w, prefix, entry, sections[i]).value;
      WalkFrom(pf, reg, w, prefix, sections, i, end, entry) == WalkFrom(pf, next.reg, next.working, next.prefix, sections, i + 1, end, entry)
  {
  }

  // ---------------------------------------------------------------------
  // The provider's operations

  /** `uri.getRawSchemeSpecificPart().split("~")`. */
  function Sections(u: Uri): (r: seq<string>)
    ensures forall j :: 0 <= j < |r| ==> '~' !in r[j]
    ensures '~' !in u.ssp ==> r == [u.ssp]
  {
    Split(u.ssp, '~')
  }

  /** `adaptUriSections` as written.  A first section that is a registered
      key adopts that filesystem, but the loop after it stops before the
      second-to-last section and the last section comes back as the key
      prefix.  Otherwise every section but the last is opened from the disk
      and the accumulated prefix comes back. */
  function AdaptUriSectionsAsWritten(pf: Platform, reg: Registry, sections: seq<string>): (r: Result<Walk, FsError>)
    requires LayeredValid(reg) && |sections| >= 1 && forall j :: 0 <= j < |sections| ==> '~' !in sections[j]
    ensures r.Failure? ==> r.error == Intermediary
    ensures r.Success? ==> LayeredValid(r.value.reg) && Extends(reg, r.value.reg) && WorkingKnown(r.value.reg, r.value.working)
    ensures sections[0] !in reg.table ==> r == WalkFrom(pf, reg, DefaultFs, "", sections, 0, |sections| - 1, FromDisk)
    ensures sections[0] in reg.table && r.Success? && |sections| >= 2 ==> r.value.prefix == sections[|sections| - 1]
  {
    match GetFileSystemFromKey(reg, sections[0])
    case Some(id) =>
      if |sections| == 1 then Success(Walk(reg, PathFs(id), sections[0]))
      else
        var end := if |sections| >= 3 then |sections| - 2 else 1;
        var w :- WalkFrom(pf, reg, PathFs(id), ReplaceAll(sections[0], "\\", "/") + LayerMarker, sections, 1, end, AfterKnownKey);
        Success(Walk(w.reg, w.working, sections[|sections| - 1]))
    case None => WalkFrom(pf, reg, DefaultFs, "", sections, 0, |sections| - 1, FromDisk)
  }

  /** `adaptUriSections` with the known-key loop running over every section
      but the last, like the loop from the disk, and returning the prefix it
      accumulated. */
  function AdaptUriSections(pf: Platform, reg: Registry, sections: seq<string>): (r: Result<Walk, FsError>)
    requires LayeredValid(reg) && |sections| >= 1 && forall j :: 0 <= j < |sections| ==> '~' !in sections[j]
    ensures r.Failure? ==> r.error == Intermediary
    ensures r.Success? ==> LayeredValid(r.value.reg) && Extends(reg, r.value.reg) && WorkingKnown(r.value.reg, r.value.working)
    ensures sections[0] !in reg.table ==> r == AdaptUriSectionsAsWritten(pf, reg, sections)
    ensures sections[0] in reg.table && |sections| == 1 ==> r == Success(Walk(reg, PathFs(reg.table[sections[0]]), sections[0]))
    ensures sections[0] in reg.table && |sections| >= 2 ==>
      r == WalkFrom(pf, reg, PathFs(reg.table[sections[0]]), ReplaceAll(sections[0], "\\", "/") + LayerMarker,
                    sections, 1, |sections| - 1, AfterKnownKey)
  {
    match GetFileSystemFromKey(reg, sections[0])
    case Some(id) =>
      if |sections| == 1 then Success(Walk(reg, PathFs(id), sections[0]))
      else WalkFrom(pf, reg, PathFs(id), ReplaceAll(sections[0], "\\", "/") + LayerMarker, sections, 1, |sections| - 1, AfterKnownKey)
    case None => WalkFrom(pf, reg, DefaultFs, "", sections, 0, |sections| - 1, FromDisk)
  }

  /** Every failure `newFileSystem` can raise. */
  predicate CreationError(e: FsError) {
    e == OutOfBounds || e == Intermediary
  }

  /** `newFileSystem(URI, env)`.  An empty section list has no last section.
      With a package path the whole scheme-specific part becomes a `path:`
      URI handed to the single-layer provider (after the section walk has
      run); otherwise the last section, without one leading `//`, is opened
      as a layer inside the filesystem the walk reached. */
  function NewFileSystem(pf: Platform, reg: Registry, u: Uri, packagePath: Option<AnyPath>): (r: Result<Created, FsError>)
    requires LayeredValid(reg)
    requires packagePath.Some? ==> Known(reg, packagePath.value) && Unmarked(packagePath.value)
    ensures r.Failure? ==> CreationError(r.error)
    ensures |Sections(u)| == 0 ==> r == Failure(OutOfBounds)
    ensures r.Success? ==> LayeredValid(r.value.reg) && Extends(reg, r.value.reg) && r.value.fs < |r.value.reg.heap|
    ensures r.Success? && packagePath.Some? ==>
      var v := pf.parseUri(Scheme(SingleLayer) + ":" + u.ssp);
      v.Some? && MakeKey(pf.host, v.value) in r.value.reg.table && r.value.reg.table[MakeKey(pf.host, v.value)] == r.value.fs
    ensures |Sections(u)| == 1 && packagePath.None? ==>
      r == GetOrCreate(pf, reg, "", AbsoluteIn(pf, Disk(DropLeading(Sections(u)[0], "//"))))
  {
    var sections := Sections(u);
    if |sections| == 0 then Failure(OutOfBounds)
    else
      var start :- StartOf(pf, reg, sections);
      var last := DropLeading(sections[|sections| - 1], "//");
      assert '~' !in last by {
        assert forall x :: x in last ==> x in sections[|sections| - 1];
      }
      LastLayer(pf, start, u, last, packagePath)
  }

  /** Where `newFileSystem` continues from: the adapted sections when there
      are several, the default filesystem with an empty prefix otherwise. */
  function StartOf(pf: Platform, reg: Registry, sections: seq<string>): (r: Result<Walk, FsError>)
    requires LayeredValid(reg) && |sections| >= 1 && forall j :: 0 <= j < |sections| ==> '~' !in sections[j]
    ensures r.Failure? ==> r.error == Intermediary
    ensures r.Success? ==> LayeredValid(r.value.reg) && Extends(reg, r.value.reg) && WorkingKnown(r.value.reg, r.value.working)
    ensures |sections| == 1 ==> r == Success(Walk(reg, DefaultFs, ""))
    ensures |sections| > 1 ==> r == AdaptUriSectionsAsWritten(pf, reg, sections)
  {
    if |sections| > 1 then AdaptUriSectionsAsWritten(pf, reg, sections) else Success(Walk(reg, DefaultFs, ""))
  }

  /** The end of `newFileSystem`: with a package path the scheme-specific
      part as a `path:` URI for the single-layer provider, otherwise the last
      section's absolute path opened as a layer of the working filesystem. */
  function LastLayer(pf: Platform, start: Walk, u: Uri, last: string, packagePath: Option<AnyPath>): (r: Result<Created, FsError>)
    requires LayeredValid(start.reg) && WorkingKnown(start.reg, start.working) && '~' !in last
    requires packagePath.Some? ==> Known(start.reg, packagePath.value) && Unmarked(packagePath.value)
    ensures r.Failure? ==> r.error == Intermediary
    ensures r.Success? ==> LayeredValid(r.value.reg) && Extends(start.reg, r.value.reg) && r.value.fs < |r.value.reg.heap|
    ensures r.Success? && packagePath.Some? ==>
      var v := pf.parseUri(Scheme(SingleLayer) + ":" + u.ssp);
      v.Some? && MakeKey(pf.host, v.value) in r.value.reg.table && r.value.reg.table[MakeKey(pf.host, v.value)] == r.value.fs
    ensures packagePath.None? ==> r == GetOrCreate(pf, start.reg, start.prefix, AbsoluteIn(pf, GetPathIn(start.working, last)))
  {
    match packagePath
    case Some(target) =>
      (match pf.parseUri(Scheme(SingleLayer) + ":" + u.ssp)
       case None => Failure(Intermediary)
       case Some(v) => Register(pf, start.reg, v, target))
    case None =>
      GetOrCreate(pf, start.reg, start.prefix, AbsoluteIn(pf, GetPathIn(start.working, last)))
  }

  /** `s` without one leading `t`. */
  function DropLeading(s: string, t: string): (r: string)
    ensures JavaStrings.StartsWith(s, t) ==> s == t + r
    ensures !JavaStrings.StartsWith(s, t) ==> r == s
  {
    if JavaStrings.StartsWith(s, t) then s[|t|..] else s
  }

  /** `newFileSystem` on a URI of one section, without a package path, is
      idempotent: asked again it returns the filesystem it created the first
      time and registers nothing. */
  lemma {:induction false} NewFileSystemOneSectionAgain(pf: Platform, reg: Registry, u: Uri)
    requires LayeredValid(reg) && |Sections(u)| == 1
    requires NewFileSystem(pf, reg, u, None).Success?
    ensures var c := NewFileSystem(pf, reg, u, None).value;
      NewFileSystem(pf, c.reg, u, None) == Success(c)
  {
    var c := NewFileSystem(pf, reg, u, None).value;
    GetOrCreateAgain(pf, reg, c.reg, "", AbsoluteIn(pf, Disk(DropLeading(Sections(u)[0], "//"))));
  }

  /** `getPath(URI)`.  One section is the single-layer lookup; otherwise
      every section but the last is opened as a layer (keys without prefix,
      paths as given) and the last section is a path of the filesystem
      reached.  An empty section list has no last section. */
  function LayeredGetPath(pf: Platform, reg: Registry, u: Uri): (r: Result<Located, FsError>)
    requires LayeredValid(reg)
    ensures |Sections(u)| == 0 ==> r == Failure(OutOfBounds)
    ensures |Sections(u)| == 1 ==>
      (r.Success? <==> GetPath(pf.host, reg, u).Success?)
      && (r.Success? ==> r.value == Located(reg, Virtual(GetPath(pf.host, reg, u).value)))
    ensures |Sections(u)| >= 2 ==>
      (r.Failure? ==> r.error == Intermediary)
      && (r.Success? ==>
            LayeredValid(r.value.reg) && Extends(reg, r.value.reg) && Known(r.value.reg, r.value.path)
            && r.value.path.Virtual? && r.value.path.path.parts == ParseParts(Layered, Sections(u)[|Sections(u)| - 1]))
  {
    var sections := Sections(u);
    if |sections| == 1 then
      var p :- GetPath(pf.host, reg, u);
      Success(Located(reg, Virtual(p)))
    else if |sections| == 0 then Failure(OutOfBounds)
    else
      var w :- WalkFrom(pf, reg, DefaultFs, "", sections, 0, |sections| - 1, Lookup);
      Success(Located(w.reg, GetPathIn(w.working, sections[|sections| - 1])))
  }

  /** `getFileSystem(URI)`.  One section is the single-layer lookup;
      otherwise the lookup walk runs and the last section's path is opened as
      one more layer.  An empty section list has no last section. */
  function LayeredGetFileSystem(pf: Platform, reg: Registry, u: Uri): (r: Result<Created, FsError>)
    requires LayeredValid(reg)
    ensures |Sections(u)| == 0 ==> r == Failure(OutOfBounds)
    ensures |Sections(u)| == 1 ==>
      (r.Success? <==> GetFileSystem(pf.host, reg, u).Success?)
      && (r.Success? ==> r.value == Created(reg, GetFileSystem(pf.host, reg, u).value))
      && (r.Failure? ==> r.error == GetFileSystem(pf.host, reg, u).error)
    ensures |Sections(u)| >= 2 ==>
      (r.Failure? ==> r.error == Intermediary)
      && (r.Success? ==> LayeredValid(r.value.reg) && Extends(reg, r.value.reg) && r.value.fs < |r.value.reg.heap|)
  {
    var sections := Sections(u);
    if |sections| == 1 then
      var id :- GetFileSystem(pf.host, reg, u);
      Success(Created(reg, id))
    else if |sections| == 0 then Failure(OutOfBounds)
    else
      var w :- WalkFrom(pf, reg, DefaultFs, "", sections, 0, |sections| - 1, Lookup);
      GetOrCreate(pf, w.reg, "", GetPathIn(w.working, sections[|sections| - 1]))
  }

  /** A walk repeated in a later registry finds every layer it opened
      before: it ends in the same filesystem with the same prefix and
      registers nothing. */
  lemma {:induction false} WalkFromAgain(pf: Platform, reg: Registry, reg': Registry, w: Working, prefix: string,
                                         sections: seq<string>, i: nat, end: nat, entry: Entry, x: Walk)
    requires LayeredValid(reg) && WorkingKnown(reg, w)
    requires i <= end <= |sections| && forall j :: 0 <= j < |sections| ==> '~' !in sections[j]
    requires WalkFrom(pf, reg, w, prefix, sections, i, end, entry) == Success(x)
    requires LayeredValid(reg') && Extends(x.reg, reg')
    ensures Extends(reg, reg') && WorkingKnown(reg', w)
    ensures WalkFrom(pf, reg', w, prefix, sections, i, end, entry) == Success(Walk(reg', x.working, x.prefix))
    decreases end - i
  {
    ExtendsTransitive(reg, x.reg, reg');
    if i < end {
      WalkFromAgainStep(pf, reg, reg', w, prefix, sections, i, end, entry, x);
    }
  }

  /** The inductive step of `WalkFromAgain`: the first layer is found again,
      and the rest of the walk is repeated from it. */
  lemma {:induction false} WalkFromAgainStep(pf: Platform, reg: Registry, reg': Registry, w: Working, prefix: string,
                                             sections: seq<string>, i: nat, end: nat, entry: Entry, x: Walk)
    requires LayeredValid(reg) && WorkingKnown(reg, w)
    requires i < end <= |sections| && forall j :: 0 <= j < |sections| ==> '~' !in sections[j]
    requires WalkFrom(pf, reg, w, prefix, sections, i, end, entry) == Success(x)
    requires LayeredValid(reg') && Extends(x.reg, reg') && Extends(reg, reg')
    ensures WorkingKnown(reg', w)
    ensures WalkFrom(pf, reg', w, prefix, sections, i, end, entry) == Success(Walk(reg', x.working, x.prefix))
    decreases end - i, 0
  {
    var o := OpenLayer(pf, reg, w, prefix, entry, sections[i]);
    assert o.Success?;
    var next := o.value;
    WalkFromStep(pf, reg, w, prefix, sections, i, end, entry);
    WalkFromAgain(pf, next.reg, reg', next.working, next.prefix, sections, i + 1, end, entry, x);
    OpenLayerAgain(pf, reg, reg', w, prefix, entry, sections[i]);
    WalkFromStep(pf, reg', w, prefix, sections, i, end, entry);
  }

  /** `getPath(URI)` asked again, in the registry its first answer left,
      gives the same path and registers nothing. */
  lemma {:induction false} LayeredGetPathAgain(pf: Platform, reg: Registry, u: Uri)
    requires LayeredValid(reg) && LayeredGetPath(pf, reg, u).Success?
    ensures var l := LayeredGetPath(pf, reg, u).value;
      LayeredValid(l.reg) && LayeredGetPath(pf, l.reg, u) == Success(l)
  {
    if |Sections(u)| >= 2 {
      LayeredGetPathLater(pf, reg, LayeredGetPath(pf, reg, u).value.reg, u);
    }
  }

  /** With several sections, `getPath(URI)` asked in any later registry
      gives the same path: every layer of the walk is found again. */
  lemma {:induction false} LayeredGetPathLater(pf: Platform, reg: Registry, reg': Registry, u: Uri)
    requires LayeredValid(reg) && |Sections(u)| >= 2 && LayeredGetPath(pf, reg, u).Success?
    requires LayeredValid(reg') && Extends(LayeredGetPath(pf, reg, u).value.reg, reg')
    ensures LayeredGetPath(pf, reg', u) == Success(Located(reg', LayeredGetPath(pf, reg, u).value.path))
  {
    var sections := Sections(u);
    var w := WalkFrom(pf, reg, DefaultFs, "", sections, 0, |sections| - 1, Lookup).value;
    WalkFromAgain(pf, reg, reg', DefaultFs, "", sections, 0, |sections| - 1, Lookup, w);
  }

  /** With two sections `getPath` opens the first section, a disk path, as
      a layer keyed without prefix and hands out the second section as a
      path of that layer. */
  lemma {:induction false} LayeredGetPathTwoSections(pf: Platform, reg: Registry, u: Uri)
    requires LayeredValid(reg) && |Sections(u)| == 2
    ensures var c := GetOrCreate(pf, reg, "", Disk(Sections(u)[0]));
      (LayeredGetPath(pf, reg, u).Success? <==> c.Success?)
      && (c.Success? ==> LayeredGetPath(pf, reg, u) == Success(Located(c.value.reg, GetPathIn(PathFs(c.value.fs), Sections(u)[1]))))
  {
    var sections := Sections(u);
    assert StepPath(pf, DefaultFs, Lookup, sections[0]) == Disk(sections[0]);
    var o := OpenLayer(pf, reg, DefaultFs, "", Lookup, sections[0]);
    if o.Success? {
      assert WalkFrom(pf, reg, DefaultFs, "", sections, 0, 1, Lookup)
        == WalkFrom(pf, o.value.reg, o.value.working, o.value.prefix, sections, 1, 1, Lookup);
    }
  }

  /** `getFileSystem(URI)` over several sections is `getPath(URI)` followed
      by the layer over the path it hands out, keyed without prefix. */
  lemma {:induction false} LayeredGetFileSystemOpensPath(pf: Platform, reg: Registry, u: Uri)
    requires LayeredValid(reg) && |Sections(u)| >= 2
    ensures LayeredGetPath(pf, reg, u).Failure? ==>
      LayeredGetFileSystem(pf, reg, u) == Failure(LayeredGetPath(pf, reg, u).error)
    ensures LayeredGetPath(pf, reg, u).Success? ==>
      var l := LayeredGetPath(pf, reg, u).value;
      Known(l.reg, l.path) && Unmarked(l.path)
      && LayeredGetFileSystem(pf, reg, u) == GetOrCreate(pf, l.reg, "", l.path)
  {
  }

  /** `getFileSystem(URI)` asked again, in the registry its first answer
      left, gives the same filesystem and registers nothing. */
  lemma {:induction false} LayeredGetFileSystemAgain(pf: Platform, reg: Registry, u: Uri)
    requires LayeredValid(reg) && LayeredGetFileSystem(pf, reg, u).Success?
    ensures var c := LayeredGetFileSystem(pf, reg, u).value;
      LayeredValid(c.reg) && LayeredGetFileSystem(pf, c.reg, u) == Success(c)
  {
    if |Sections(u)| >= 2 {
      LayeredGetFileSystemOpensPath(pf, reg, u);
      var l := LayeredGetPath(pf, reg, u).value;
      var c := GetOrCreate(pf, l.reg, "", l.path).value;
      LayeredGetPathLater(pf, reg, c.reg, u);
      GetOrCreateAgain(pf, l.reg, c.reg, "", l.path);
      LayeredGetFileSystemOpensPath(pf, c.reg, u);
    }
  }
}
