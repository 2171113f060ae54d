/** How a chain of layers opened from a `jij:` URI renders back into a URI:
    each layer adds `~/` and its name to the prefix of the layer it sits in,
    so the root of the innermost layer renders as the URI it was opened from. */
module LayeredRendering {
  import opened Wrappers
  import opened JavaStrings
  import opened PathAlgebra
  import opened PathRegistry
  import opened LayeredProvider

  /** The text a chain of named layers adds to a prefix: `~/name` per layer. */
  function LayerText(names: seq<string>): string
  {
    if |names| == 0 then "" else LayerMarker + names[0] + LayerText(names[1..])
  }

  /** A layer name that parses to itself: a name that is neither `.` nor `..`. */
  predicate LayerName(n: string) {
    Name(n) && !IsDot(n)
  }

  predicate LayerNames(names: seq<string>) {
    forall i :: 0 <= i < |names| ==> LayerName(names[i])
  }

  /** The sections `/name` a `jij:` URI holds for each named layer. */
  function SlashNames(names: seq<string>): (r: seq<string>)
    ensures |r| == |names|
    ensures forall j :: 0 <= j < |names| ==> r[j] == Separator + names[j]
  {
    if |names| == 0 then [] else [Separator + names[0]] + SlashNames(names[1..])
  }

  /** The path `/name` denotes in a path filesystem is the one-component
      relative path `name`, whichever walk reads it, and its "absolute" form
      is the same path. */
  lemma {:induction false} StepPathOfName(pf: Platform, id: FsId, entry: Entry, n: string)
    requires Name(n)
    ensures StepPath(pf, PathFs(id), entry, Separator + n) == Virtual(PathPath(id, [n]))
  {
    assert GetPathIn(PathFs(id), SectionText(pf, PathFs(id), entry, Separator + n)) == Virtual(PathPath(id, [n])) by {
      SectionPathOfName(pf, id, entry, n);
    }
    ToAbsoluteKeepsRelative(Layered, PathPath(id, [n]));
  }

  /** Whether a walk drops the leading `/` of `/name` or not, the path read
      in a path filesystem is `name`. */
  lemma {:induction false} SectionPathOfName(pf: Platform, id: FsId, entry: Entry, n: string)
    requires Name(n)
    ensures GetPathIn(PathFs(id), SectionText(pf, PathFs(id), entry, Separator + n)) == Virtual(PathPath(id, [n]))
  {
    var s := Separator + n;
    assert !JavaStrings.StartsWith(s, "//") by {
      assert s[..2][1] == n[0];
    }
    assert JavaStrings.StartsWith(s, Separator) && s[1..] == n;
    LeadingSlashIgnored(Layered, n);
    assert Join([n], Separator) == n;
    ParseNames(Layered, [n]);
  }

  /** The text of a one-name path is the name; the root's text is empty. */
  lemma {:induction false} LayerPathText(q: PathPath)
    requires q.parts == [""] || (|q.parts| == 1 && Name(q.parts[0]))
    ensures ToString(q) == (if q.parts == [""] then "" else q.parts[0])
  {
    if q.parts != [""] {
      ToStringNames(q);
    }
  }

  /** The root and a one-name path are their own absolute, normalized form. */
  lemma {:induction false} LayerPathSettled(pf: Platform, host: Host, q: PathPath)
    requires q.parts == [""] || (|q.parts| == 1 && LayerName(q.parts[0]))
    ensures AbsoluteIn(pf, Virtual(q)) == Virtual(q)
    ensures NormalizedTarget(host, Layered, Virtual(q)) == Success(Virtual(q))
  {
    if q.parts != [""] {
      ToAbsoluteKeepsRelative(Layered, q);
    }
    NormalizeClean(q);
  }

  /** A freshly created layer over the root or a one-name path is a new
      filesystem at the end of the heap whose target is that very path. */
  lemma {:induction false} FreshLayerTarget(pf: Platform, reg: Registry, prefix: string, q: PathPath, c: Created)
    requires LayeredValid(reg) && q.fs < |reg.heap|
    requires q.parts == [""] || (|q.parts| == 1 && LayerName(q.parts[0]))
    requires GetOrCreate(pf, reg, prefix, Virtual(q)) == Success(c)
    requires |c.reg.heap| == |reg.heap| + 1
    ensures c.fs == |reg.heap| && c.reg.heap[c.fs].target == Virtual(q)
  {
    LayerPathSettled(pf, pf.host, q);
  }

  /** Such a layer renders with the prefix of filesystem `q.fs`, `~/` and
      the name (nothing for the root). */
  lemma {:induction false} FreshLayerPrefix(pf: Platform, reg: Registry, prefix: string, q: PathPath, c: Created)
    requires LayeredValid(reg) && q.fs < |reg.heap|
    requires q.parts == [""] || (|q.parts| == 1 && LayerName(q.parts[0]))
    requires GetOrCreate(pf, reg, prefix, Virtual(q)) == Success(c)
    requires |c.reg.heap| == |reg.heap| + 1
    ensures FsPrefix(pf, c.reg, c.fs) == FsPrefix(pf, reg, q.fs) + (LayerMarker + (if q.parts == [""] then "" else q.parts[0]))
  {
    FreshLayerTarget(pf, reg, prefix, q, c);
    LayerPathSettled(pf, pf.host, q);
    assert c.reg.heap[q.fs] == reg.heap[q.fs];
    BuildPrefixStable(pf, reg, c.reg, reg.heap[q.fs].target);
    AbsoluteHookIdle(q);
    LayerPathText(q);
    ConcatAssoc(FsPrefix(pf, reg, q.fs), LayerMarker, ToString(q));
  }

  /** One step of a walk over the section `/name`, when it creates its layer,
      adds `~/name` to the prefix the new layer renders with. */
  lemma {:induction false} OpenLayerSpells(pf: Platform, reg: Registry, id: FsId, prefix: string, entry: Entry, n: string)
    requires LayeredValid(reg) && id < |reg.heap| && LayerName(n)
    requires OpenLayer(pf, reg, PathFs(id), prefix, entry, Separator + n).Success?
    requires |OpenLayer(pf, reg, PathFs(id), prefix, entry, Separator + n).value.reg.heap| == |reg.heap| + 1
    ensures var next := OpenLayer(pf, reg, PathFs(id), prefix, entry, Separator + n).value;
      next.working.PathFs? && FsPrefix(pf, next.reg, next.working.id) == FsPrefix(pf, reg, id) + (LayerMarker + n)
  {
    var next := OpenLayer(pf, reg, PathFs(id), prefix, entry, Separator + n).value;
    StepPathOfName(pf, id, entry, n);
    FreshLayerPrefix(pf, reg, prefix, PathPath(id, [n]), Created(next.reg, next.working.id));
  }

  lemma {:induction false} ConcatAssoc(a: string, b: string, c: string)
    ensures (a + b) + c == a + (b + c)
  {
  }

  /** A walk over the sections `/name`, `/name'`, … that creates every layer
      ends in a layer rendering with the starting prefix followed by
      `~/name~/name'…`. */
  lemma {:induction false} WalkSpells(pf: Platform, reg: Registry, id: FsId, prefix: string, sections: seq<string>,
                                      i: nat, end: nat, entry: Entry, names: seq<string>, w: Walk)
    requires LayeredValid(reg) && id < |reg.heap|
    requires i <= end <= |sections| && forall j :: 0 <= j < |sections| ==> '~' !in sections[j]
    requires |names| == end - i && LayerNames(names)
    requires sections[i..end] == SlashNames(names)
    requires WalkFrom(pf, reg, PathFs(id), prefix, sections, i, end, entry) == Success(w)
    requires |w.reg.heap| == |reg.heap| + (end - i)
    ensures w.working.PathFs? && FsPrefix(pf, w.reg, w.working.id) == FsPrefix(pf, reg, id) + LayerText(names)
    decreases end - i
  {
    if i < end {
      assert sections[i] == sections[i..end][0] == Separator + names[0];
      assert sections[i + 1..end] == sections[i..end][1..];
      var next := OpenLayer(pf, reg, PathFs(id), prefix, entry, sections[i]).value;
      WalkFromStep(pf, reg, PathFs(id), prefix, sections, i, end, entry);
      OpenLayerSpells(pf, reg, id, prefix, entry, names[0]);
      WalkSpells(pf, next.reg, next.working.id, next.prefix, sections, i + 1, end, entry, names[1..], w);
      ConcatAssoc(FsPrefix(pf, reg, id), LayerMarker + names[0], LayerText(names[1..]));
    }
  }

  // ---------------------------------------------------------------------
  // The text of a layered URI

  /** The sections of a URI naming the disk file `d`, the layers `names`
      inside it and the root of the last one. */
  function LayerSections(d: string, names: seq<string>): (r: seq<string>)
    ensures |r| == |names| + 2 && r[0] == d && r[|r| - 1] == Separator
    ensures r[1..|r| - 1] == SlashNames(names)
    ensures '~' !in d && LayerNames(names) ==> forall j :: 0 <= j < |r| ==> '~' !in r[j]
  {
    [d] + SlashNames(names) + [Separator]
  }

  /** Joining the layer sections after the first with `~` spells the layer
      text followed by the root marker, once a `~` is put in front. */
  lemma {:induction false} JoinSlashNames(names: seq<string>)
    ensures ComponentSeparator + Join(SlashNames(names) + [Separator], ComponentSeparator) == LayerText(names) + LayerMarker
    decreases |names|
  {
    if |names| > 0 {
      var n := names[0];
      var rest := SlashNames(names[1..]) + [Separator];
      var j := Join(rest, ComponentSeparator);
      assert SlashNames(names) + [Separator] == [Separator + n] + rest;
      JoinCons(Separator + n, rest, ComponentSeparator);
      JoinSlashNames(names[1..]);
      calc {
        ComponentSeparator + Join(SlashNames(names) + [Separator], ComponentSeparator);
        ComponentSeparator + ((Separator + n) + ComponentSeparator + j);
        { ConcatAssoc(LayerMarker, n, ComponentSeparator + j); }
        (LayerMarker + n) + (ComponentSeparator + j);
        (LayerMarker + n) + (LayerText(names[1..]) + LayerMarker);
        { ConcatAssoc(LayerMarker + n, LayerText(names[1..]), LayerMarker); }
        LayerText(names) + LayerMarker;
      }
    }
  }

  /** The scheme-specific part spelled by `LayerSections`. */
  lemma {:induction false} SectionsText(d: string, names: seq<string>)
    ensures Join(LayerSections(d, names), ComponentSeparator) == d + LayerText(names) + LayerMarker
  {
    var rest := SlashNames(names) + [Separator];
    assert LayerSections(d, names) == [d] + rest;
    JoinCons(d, rest, ComponentSeparator);
    JoinSlashNames(names);
    ConcatAssoc(d, ComponentSeparator, Join(rest, ComponentSeparator));
    ConcatAssoc(d, LayerText(names), LayerMarker);
  }

  /** Splitting that text on `~` gives the sections back. */
  lemma {:induction false} SectionsOfText(d: string, names: seq<string>)
    requires '~' !in d && LayerNames(names)
    ensures Split(d + LayerText(names) + LayerMarker, '~') == LayerSections(d, names)
  {
    var sections := LayerSections(d, names);
    forall j | 0 <= j < |sections| ensures '~' !in sections[j] {
      if 0 < j < |sections| - 1 {
        assert sections[j] == sections[1..|sections| - 1][j - 1] == Separator + names[j - 1];
      }
    }
    SectionsText(d, names);
    SplitJoin(sections, '~');
  }

  /** A replacement whose pattern starts with a character absent from `a`
      leaves `a` alone and carries on after it. */
  lemma {:induction false} ReplaceAllSkips(a: string, b: string, pat: string, rep: string)
    requires |pat| > 0 && pat[0] !in a
    ensures ReplaceAll(a + b, pat, rep) == a + ReplaceAll(b, pat, rep)
    decreases |a|
  {
    if |a| > 0 {
      assert (a + b)[0] == a[0];
      assert (a + b)[1..] == a[1..] + b;
      if |a + b| >= |pat| {
        assert (a + b)[..|pat|][0] == a[0];
      }
      ReplaceAllSkips(a[1..], b, pat, rep);
      if |a + b| < |pat| {
        assert |b| < |pat|;
      }
    } else {
      assert a + b == b;
    }
  }

  /** Collapsing `~//` leaves layer text ending in the root marker alone:
      every `~/` there is followed by a name, never by another `/`. */
  lemma {:induction false} LayerTextKept(names: seq<string>)
    requires LayerNames(names)
    ensures ReplaceAll(LayerText(names) + LayerMarker, "~//", LayerMarker) == LayerText(names) + LayerMarker
    decreases |names|
  {
    if |names| > 0 {
      var n := names[0];
      var tail := LayerText(names[1..]) + LayerMarker;
      var s := LayerText(names) + LayerMarker;
      assert s == "~" + (("/" + n) + tail);
      assert s[..3] != "~//" by {
        assert s[2] == n[0];
      }
      assert s[1..] == ("/" + n) + tail;
      ReplaceAllSkips("/" + n, tail, "~//", LayerMarker);
      LayerTextKept(names[1..]);
    }
  }

  // ---------------------------------------------------------------------
  // Opening a layered URI and rendering its root

  /** What the disk gives back as the URI text of the file a first section
      names: the section as the walk reads it, made absolute (by the walk and
      again for the package path), normalized and shown as a URI's
      scheme-specific part. */
  function DiskRendering(pf: Platform, d: string): string {
    pf.diskPrefix(pf.host.diskAbsoluteNormal(pf.diskAbsolute(pf.diskAbsolute(SectionText(pf, DefaultFs, FromDisk, d)))))
  }

  /** The layer a walk opens from the disk renders with the disk's text for it. */
  lemma {:induction false} DiskLayerPrefix(pf: Platform, reg: Registry, prefix: string, d: string)
    requires LayeredValid(reg) && '~' !in d
    requires OpenLayer(pf, reg, DefaultFs, prefix, FromDisk, d).Success?
    requires |OpenLayer(pf, reg, DefaultFs, prefix, FromDisk, d).value.reg.heap| == |reg.heap| + 1
    ensures var next := OpenLayer(pf, reg, DefaultFs, prefix, FromDisk, d).value;
      next.working.PathFs? && FsPrefix(pf, next.reg, next.working.id) == DiskRendering(pf, d)
  {
    var next := OpenLayer(pf, reg, DefaultFs, prefix, FromDisk, d).value;
    var l := pf.diskAbsolute(SectionText(pf, DefaultFs, FromDisk, d));
    assert StepPath(pf, DefaultFs, FromDisk, d) == Disk(l);
    assert GetOrCreate(pf, reg, prefix, Disk(l)) == Success(Created(next.reg, next.working.id));
    assert next.reg.heap[next.working.id].target == Disk(pf.host.diskAbsoluteNormal(pf.diskAbsolute(l)));
  }

  /** The walk over every section but the last of a URI naming layers
      `names` inside disk file `d`, when it creates every layer, ends in a
      layer rendering as the disk's text for `d` followed by the layer text. */
  lemma {:induction false} DiskWalkSpells(pf: Platform, reg: Registry, d: string, names: seq<string>, w: Walk)
    requires LayeredValid(reg) && '~' !in d && LayerNames(names)
    requires WalkFrom(pf, reg, DefaultFs, "", LayerSections(d, names), 0, |names| + 1, FromDisk) == Success(w)
    requires |w.reg.heap| == |reg.heap| + |names| + 1
    ensures w.working.PathFs? && FsPrefix(pf, w.reg, w.working.id) == DiskRendering(pf, d) + LayerText(names)
  {
    var sections := LayerSections(d, names);
    var first := OpenLayer(pf, reg, DefaultFs, "", FromDisk, d).value;
    WalkFromStep(pf, reg, DefaultFs, "", sections, 0, |names| + 1, FromDisk);
    DiskLayerPrefix(pf, reg, "", d);
    WalkSpells(pf, first.reg, first.working.id, first.prefix, sections, 1, |names| + 1, FromDisk, names, w);
  }

  /** A fresh layer over the root of filesystem `id` renders with the prefix
      of `id` followed by `~/`. */
  lemma {:induction false} RootLayerPrefix(pf: Platform, reg: Registry, prefix: string, id: FsId, c: Created)
    requires LayeredValid(reg) && id < |reg.heap|
    requires GetOrCreate(pf, reg, prefix, Virtual(Root(id))) == Success(c)
    requires |c.reg.heap| == |reg.heap| + 1
    ensures FsPrefix(pf, c.reg, c.fs) == FsPrefix(pf, reg, id) + LayerMarker
  {
    FreshLayerPrefix(pf, reg, prefix, Root(id), c);
    assert LayerMarker + "" == LayerMarker;
  }

  /** Opening `jij:d~/name~/…~/` from the disk, creating every layer on the
      way, gives a filesystem whose prefix is the disk's text for `d`
      followed by the layer text and the root marker. */
  lemma {:induction false} NewFileSystemPrefix(pf: Platform, reg: Registry, u: Uri, d: string, names: seq<string>)
    requires LayeredValid(reg) && '~' !in d && d !in reg.table && LayerNames(names)
    requires u.ssp == d + LayerText(names) + LayerMarker
    requires NewFileSystem(pf, reg, u, None).Success?
    requires |NewFileSystem(pf, reg, u, None).value.reg.heap| == |reg.heap| + |names| + 2
    ensures var c := NewFileSystem(pf, reg, u, None).value;
      FsPrefix(pf, c.reg, c.fs) == DiskRendering(pf, d) + LayerText(names) + LayerMarker
  {
    var c := NewFileSystem(pf, reg, u, None).value;
    var start := LayeredStart(pf, reg, u, d, names);
    DiskWalkSpells(pf, reg, d, names, start);
    assert GetOrCreate(pf, start.reg, start.prefix, Virtual(Root(start.working.id))) == Success(c);
    RootLayerPrefix(pf, start.reg, start.prefix, start.working.id, c);
  }

  /** `newFileSystem` on `jij:d~/name~/…~/` walks every section but the last
      from the disk and opens the root of where the walk ends. */
  lemma {:induction false} LayeredStart(pf: Platform, reg: Registry, u: Uri, d: string, names: seq<string>) returns (start: Walk)
    requires LayeredValid(reg) && '~' !in d && d !in reg.table && LayerNames(names)
    requires u.ssp == d + LayerText(names) + LayerMarker
    requires NewFileSystem(pf, reg, u, None).Success?
    ensures WalkFrom(pf, reg, DefaultFs, "", LayerSections(d, names), 0, |names| + 1, FromDisk) == Success(start)
    ensures start.working.PathFs? && start.working.id < |start.reg.heap|
    ensures NewFileSystem(pf, reg, u, None) == GetOrCreate(pf, start.reg, start.prefix, Virtual(Root(start.working.id)))
  {
    var sections := LayerSections(d, names);
    SectionsOfText(d, names);
    assert Sections(u) == sections;
    start := StartOf(pf, reg, sections).value;
    assert StartOf(pf, reg, sections) == AdaptUriSectionsAsWritten(pf, reg, sections);
    assert WalkFrom(pf, reg, DefaultFs, "", sections, 0, |names| + 1, FromDisk) == Success(start);
    assert DropLeading(Separator, "//") == Separator;
    var root := GetPathIn(start.working, Separator);
    assert root == Virtual(Root(start.working.id));
  }

  /** The round trip of a layered URI: opening `jij:d~/name~/…~/` (the
      first section being a disk path the disk renders back unchanged, the
      others plain names, every layer new) and rendering the root of the
      filesystem obtained gives back the same URI. */
  lemma {:induction false} NewFileSystemRenders(pf: Platform, reg: Registry, u: Uri, d: string, names: seq<string>)
    requires LayeredValid(reg) && '~' !in d && d !in reg.table && LayerNames(names)
    requires u.scheme == Scheme(Layered) && u.ssp == d + LayerText(names) + LayerMarker
    requires DiskRendering(pf, d) == d
    requires pf.parseUri(RenderUri(u)) == Some(u)
    requires NewFileSystem(pf, reg, u, None).Success?
    requires |NewFileSystem(pf, reg, u, None).value.reg.heap| == |reg.heap| + |names| + 2
    ensures var c := NewFileSystem(pf, reg, u, None).value;
      LayeredBuildUriFor(pf, c.reg, Root(c.fs)) == Success(u)
  {
    var c := NewFileSystem(pf, reg, u, None).value;
    assert FsPrefix(pf, c.reg, c.fs) == u.ssp by {
      NewFileSystemPrefix(pf, reg, u, d, names);
    }
    assert ReplaceAll(Scheme(Layered) + ":" + u.ssp + "", "~//", LayerMarker) == RenderUri(u) by {
      CollapsedUriText(d, names, u.ssp);
    }
    RootRendersAs(pf, c.reg, c.fs, u);
  }

  /** The root of a filesystem whose prefix is a URI's scheme-specific part,
      left alone by the collapse of `~//`, renders as that URI. */
  lemma {:induction false} RootRendersAs(pf: Platform, reg: Registry, fs: FsId, u: Uri)
    requires LayeredValid(reg) && fs < |reg.heap|
    requires u.scheme == Scheme(Layered) && FsPrefix(pf, reg, fs) == u.ssp
    requires ReplaceAll(Scheme(Layered) + ":" + u.ssp + "", "~//", LayerMarker) == RenderUri(u)
    requires pf.parseUri(RenderUri(u)) == Some(u)
    ensures LayeredBuildUriFor(pf, reg, Root(fs)) == Success(u)
  {
    assert ToString(Root(fs)) == "";
  }

  /** Collapsing `~//` in the URI text of a prefix `d`, layer text and root
      marker changes nothing. */
  lemma {:induction false} CollapsedUriText(d: string, names: seq<string>, p: string)
    requires '~' !in d && LayerNames(names)
    requires p == d + LayerText(names) + LayerMarker
    ensures ReplaceAll(Scheme(Layered) + ":" + p + "", "~//", LayerMarker) == Scheme(Layered) + ":" + p
  {
    var lt := LayerText(names);
    JoinedText(d, lt, p);
    ReplaceAllSkips("jij:" + d, lt + LayerMarker, "~//", LayerMarker);
    LayerTextKept(names);
  }

  /** The URI text of a prefix `d`, layer text `lt` and root marker. */
  lemma {:induction false} JoinedText(d: string, lt: string, p: string)
    requires p == d + lt + LayerMarker
    ensures Scheme(Layered) + ":" + p + "" == ("jij:" + d) + (lt + LayerMarker)
    ensures Scheme(Layered) + ":" + p == ("jij:" + d) + (lt + LayerMarker)
  {
  }

  // ---------------------------------------------------------------------
  // Sections after a registered key

  /** As written, the walk after a registered first section stops one
      section early: for `k~/a~/` it opens nothing, stays in `k`'s own
      filesystem and hands back the last section as the key prefix. */
  lemma {:induction false} KnownKeySkipsLayer(pf: Platform, reg: Registry, k: string, a: string)
    requires LayeredValid(reg) && k in reg.table && '~' !in k && LayerName(a)
    ensures AdaptUriSectionsAsWritten(pf, reg, LayerSections(k, [a])) == Success(Walk(reg, PathFs(reg.table[k]), Separator))
  {
    var sections := LayerSections(k, [a]);
    assert sections == [k, Separator + a, Separator];
  }

  /** So `newFileSystem` on `jij:k~/name~/` with `k` registered opens no
      layer for `name`: it asks for the root of `k`'s own filesystem again,
      under the key prefix `/`. */
  lemma {:induction false} NewFileSystemAfterKnownKey(pf: Platform, reg: Registry, u: Uri, k: string, a: string)
    requires LayeredValid(reg) && k in reg.table && '~' !in k && LayerName(a)
    requires u.ssp == k + LayerText([a]) + LayerMarker
    ensures NewFileSystem(pf, reg, u, None) == GetOrCreate(pf, reg, Separator, Virtual(Root(reg.table[k])))
  {
    SectionsOfText(k, [a]);
    assert Sections(u) == LayerSections(k, [a]);
    KnownKeySkipsLayer(pf, reg, k, a);
    assert DropLeading(Separator, "//") == Separator;
    assert GetPathIn(PathFs(reg.table[k]), Separator) == Virtual(Root(reg.table[k]));
  }

  /** With the loop running over every section but the last, the walk after
      a registered first section opens each named layer in turn: when it
      creates them all, it ends in a layer rendering as the key's
      filesystem followed by `~/name` per layer. */
  lemma {:induction false} KnownKeyOpensEveryLayer(pf: Platform, reg: Registry, k: string, names: seq<string>, w: Walk)
    requires LayeredValid(reg) && k in reg.table && '~' !in k && LayerNames(names)
    requires AdaptUriSections(pf, reg, LayerSections(k, names)) == Success(w)
    requires |w.reg.heap| == |reg.heap| + |names|
    ensures w.working.PathFs?
    ensures FsPrefix(pf, w.reg, w.working.id) == FsPrefix(pf, reg, reg.table[k]) + LayerText(names)
  {
    var sections := LayerSections(k, names);
    var id := reg.table[k];
    WalkSpells(pf, reg, id, ReplaceAll(k, "\\", "/") + LayerMarker, sections, 1, |names| + 1, AfterKnownKey, names, w);
  }
}
