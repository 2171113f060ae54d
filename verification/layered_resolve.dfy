/** Resolution in the layered provider: a resolved path whose text holds the
    layer marker `~/` is moved into the filesystem that the text before the
    last marker names, opened through `newFileSystem`. */
module LayeredResolution {
  import opened Wrappers
  import opened JavaStrings
  import opened PathAlgebra
  import opened PathRegistry
  import opened LayeredProvider

  /** `getPath("~/")` in a layered filesystem: the marker is one component. */
  function MarkerPath(fs: FsId): (r: PathPath)
    ensures r == PathPath(fs, [LayerMarker])
  {
    assert Join([LayerMarker], Separator) == LayerMarker;
    MarkerParts();
    NewPath(fs, Layered, [LayerMarker])
  }

  lemma {:induction false} MarkerParts()
    ensures ParseParts(Layered, LayerMarker) == [LayerMarker]
  {
    assert LayerMarker[1..] == Separator && Separator[1..] == "";
    assert Pieces("", '/') == [""];
    assert Pieces(Separator, '/') == ["", ""];
    assert LayerMarker[0] == '~';
    assert Pieces(LayerMarker, '/') == [['~'] + Pieces(Separator, '/')[0]] + Pieces(Separator, '/')[1..];
    assert ['~'] + Pieces(Separator, '/')[0] == "~";
    assert Pieces(Separator, '/')[1..] == [""];
    assert Pieces(LayerMarker, '/') == ["~", ""];
    assert DropTrailingEmpty(["~", ""]) == ["~"] by {
      assert ["~", ""][..1] == ["~"];
    }
    ReplaceCharAbsent(LayerMarker, '\\', '/');
    assert LocalParts(LayerMarker) == ["~"];
  }

  /** `adaptResolvedPath`.  A path whose text has no `~/` is returned as is.
      Otherwise the text up to the last `~/` (marker included) is a path of
      the same filesystem; its URI is opened with `newFileSystem`, and the
      result is the root of the filesystem obtained when the path ends in the
      component `~/`, else the text after the last marker parsed there.
      Rendering and opening failures propagate. */
  function AdaptResolvedPath(pf: Platform, reg: Registry, p: PathPath): (r: Result<Located, FsError>)
    requires LayeredValid(reg) && p.fs < |reg.heap|
    ensures !Contains(ToString(p), LayerMarker) ==> r == Success(Located(reg, Virtual(p)))
    ensures r.Failure? ==> r.error == Malformed || CreationError(r.error)
    ensures r.Success? ==>
      LayeredValid(r.value.reg) && Extends(reg, r.value.reg)
      && r.value.path.Virtual? && r.value.path.path.fs < |r.value.reg.heap|
  {
    var text := ToString(p);
    if !Contains(text, LayerMarker) then Success(Located(reg, Virtual(p)))
    else
      ContainsOccurs(text, LayerMarker);
      var idx := LastIndexOf(text, LayerMarker);
      var u :- LayeredBuildUriFor(pf, reg, NewPath(p.fs, Layered, [text[..idx] + LayerMarker]));
      var c :- NewFileSystem(pf, reg, u, None);
      var rest := if PathAlgebra.EndsWith(p, Virtual(MarkerPath(p.fs))) then Separator else text[idx + 2..];
      Success(Located(c.reg, Virtual(NewPath(c.fs, Layered, [rest]))))
  }

  /** `resolve` in a layered filesystem: the base resolution, handed to
      `adaptResolvedPath`; a path of another kind comes back unchanged. */
  function LayeredResolve(pf: Platform, reg: Registry, p: PathPath, o: AnyPath): (r: Result<Located, FsError>)
    requires LayeredValid(reg) && p.fs < |reg.heap| && Known(reg, o)
    ensures o.Disk? ==> r == Success(Located(reg, o))
    ensures o.Virtual? ==> r == AdaptResolvedPath(pf, reg, Resolve(Layered, p, o.path))
  {
    match o
    case Disk(_) => Success(Located(reg, o))
    case Virtual(q) => AdaptResolvedPath(pf, reg, Resolve(Layered, p, q))
  }

  // ---------------------------------------------------------------------
  // Properties

  /** A path without `~` stays where it is. */
  lemma {:induction false} TildeFreeStays(pf: Platform, reg: Registry, p: PathPath)
    requires LayeredValid(reg) && p.fs < |reg.heap| && TildeFree(p)
    ensures AdaptResolvedPath(pf, reg, p) == Success(Located(reg, Virtual(p)))
  {
    ToStringTildeFree(p);
    if Contains(ToString(p), LayerMarker) {
      ContainsHead(ToString(p), LayerMarker);
    }
  }

  /** Resolving a path without `~` against another in the layered provider
      gives exactly the base resolution, in the same registry. */
  lemma {:induction false} ResolveWithoutMarkers(pf: Platform, reg: Registry, p: PathPath, q: PathPath)
    requires LayeredValid(reg) && p.fs < |reg.heap| && q.fs < |reg.heap|
    requires TildeFree(p) && TildeFree(q)
    ensures LayeredResolve(pf, reg, p, Virtual(q)) == Success(Located(reg, Virtual(Resolve(Layered, p, q))))
  {
    if !IsAbsolute(q) {
      ToStringTildeFree(p);
      ToStringTildeFree(q);
      ParseTildeFree(Layered, ToString(p) + Separator + ToString(q));
    }
    TildeFreeStays(pf, reg, Resolve(Layered, p, q));
  }

  /** Collapsing `//` keeps a text ending in `~/` ending in `~/`. */
  lemma {:induction false} CollapseKeepsMarkerEnd(s: string)
    requires JavaStrings.EndsWith(s, LayerMarker)
    ensures JavaStrings.EndsWith(ReplaceAll(s, "//", "/"), LayerMarker)
    decreases |s|
  {
    var r := ReplaceAll(s, "//", "/");
    if s[..2] == "//" {
      assert s[|s| - 2] == '~' by { assert s[|s| - 2..][0] == s[|s| - 2]; }
      assert s[0] == '/' && s[1] == '/' by { assert s[..2][0] == s[0] && s[..2][1] == s[1]; }
      assert |s| >= 4;
      assert JavaStrings.EndsWith(s[2..], LayerMarker) by {
        assert s[2..][|s[2..]| - 2..] == s[|s| - 2..];
      }
      CollapseKeepsMarkerEnd(s[2..]);
      var t := ReplaceAll(s[2..], "//", "/");
      assert r == "/" + t;
      assert r[|r| - 2..] == t[|t| - 2..];
    } else if |s| == 2 {
      assert s == LayerMarker;
    } else {
      assert JavaStrings.EndsWith(s[1..], LayerMarker) by {
        assert s[1..][|s[1..]| - 2..] == s[|s| - 2..];
      }
      CollapseKeepsMarkerEnd(s[1..]);
      var t := ReplaceAll(s[1..], "//", "/");
      assert r == [s[0]] + t;
      assert r[|r| - 2..] == t[|t| - 2..];
    }
  }

  /** A path whose last component is `~/` has text ending in `~/`. */
  lemma {:induction false} MarkerComponentEnd(p: PathPath)
    requires |p.parts| > 0 && p.parts[|p.parts| - 1] == LayerMarker
    ensures JavaStrings.EndsWith(ToString(p), LayerMarker)
  {
    var j := Join(p.parts, Separator);
    if |p.parts| > 1 {
      JoinAppend(p.parts[..|p.parts| - 1], [LayerMarker], Separator);
      assert p.parts == p.parts[..|p.parts| - 1] + [LayerMarker];
    }
    assert j[|j| - 2..] == LayerMarker;
    CollapseKeepsMarkerEnd(j);
  }

  /** The last `~/` of a text ending in `~/` is its end. */
  lemma {:induction false} LastMarkerAtEnd(s: string)
    requires JavaStrings.EndsWith(s, LayerMarker)
    ensures LastIndexOf(s, LayerMarker) == |s| - 2
  {
    assert OccursAt(s, LayerMarker, |s| - 2);
  }

  /** A path whose text ends in `~/` resolves to the root of the filesystem
      named by the text before the marker. */
  lemma {:induction false} MarkedEndIsRoot(pf: Platform, reg: Registry, p: PathPath)
    requires LayeredValid(reg) && p.fs < |reg.heap|
    requires JavaStrings.EndsWith(ToString(p), LayerMarker)
    requires AdaptResolvedPath(pf, reg, p).Success?
    ensures var l := AdaptResolvedPath(pf, reg, p).value;
      l.path == Virtual(Root(l.path.path.fs))
  {
    var text := ToString(p);
    assert Contains(text, LayerMarker) by {
      ContainsSuffix(text, LayerMarker);
    }
    var fs, rest := AdaptedRest(pf, reg, p);
    assert rest == "" || rest == Separator by {
      LastMarkerAtEnd(text);
      assert text[|text| - 2 + 2..] == "";
    }
    RootRest(fs, rest);
  }

  /** The shape of an adapted path whose text holds a marker: a one-element
      path in the opened filesystem, holding either the separator or the text
      after the last marker. */
  lemma {:induction false} AdaptedRest(pf: Platform, reg: Registry, p: PathPath) returns (fs: FsId, rest: string)
    requires LayeredValid(reg) && p.fs < |reg.heap|
    requires Contains(ToString(p), LayerMarker)
    requires AdaptResolvedPath(pf, reg, p).Success?
    ensures rest == Separator || rest == ToString(p)[LastIndexOf(ToString(p), LayerMarker) + 2..]
    ensures AdaptResolvedPath(pf, reg, p).value.path == Virtual(NewPath(fs, Layered, [rest]))
  {
    var text := ToString(p);
    ContainsOccurs(text, LayerMarker);
    var idx := LastIndexOf(text, LayerMarker);
    var u := LayeredBuildUriFor(pf, reg, NewPath(p.fs, Layered, [text[..idx] + LayerMarker])).value;
    var c := NewFileSystem(pf, reg, u, None).value;
    fs := c.fs;
    rest := if PathAlgebra.EndsWith(p, Virtual(MarkerPath(p.fs))) then Separator else text[idx + 2..];
  }

  /** A one-element path holding nothing or only the separator is the root. */
  lemma {:induction false} RootRest(fs: FsId, rest: string)
    requires rest == "" || rest == Separator
    ensures NewPath(fs, Layered, [rest]) == Root(fs)
  {
    assert Join([""], Separator) == "";
    assert Join([Separator], Separator) == Separator;
  }

  /** `t` occurs in any text ending in `t`. */
  lemma {:induction false} ContainsSuffix(s: string, t: string)
    requires JavaStrings.EndsWith(s, t)
    ensures Contains(s, t)
    decreases |s|
  {
    if !JavaStrings.StartsWith(s, t) {
      assert |s| > |t|;
      assert s[1..][|s[1..]| - |t|..] == s[|s| - |t|..];
      ContainsSuffix(s[1..], t);
    }
  }

  /** In `a~/b` with no `~` in `b`, the last `~/` is the one after `a`. */
  lemma {:induction false} LastMarkerBefore(a: string, b: string)
    requires '~' !in b
    ensures var text := a + LayerMarker + b;
      Contains(text, LayerMarker) && LastIndexOf(text, LayerMarker) == |a|
      && text[..|a|] == a && text[|a| + 2..] == b
  {
    var text := a + LayerMarker + b;
    assert OccursAt(text, LayerMarker, |a|);
    ContainsOccursAt(text, LayerMarker, |a|);
    var idx := LastIndexOf(text, LayerMarker);
    assert idx >= |a|;
    assert text[idx] == '~' by { assert text[idx] == text[idx..idx + 2][0]; }
    assert text[|a| + 1] == '/';
    forall k | |a| + 2 <= k < |text| ensures text[k] != '~' {
      assert text[k] == b[k - |a| - 2];
    }
  }

  /** A text ending in `~/` and a non-empty tail without `~` cannot be the
      same text. */
  lemma {:induction false} NoMarkerEnd(a: string, b: string)
    requires b != "" && '~' !in b
    ensures !JavaStrings.EndsWith(a + LayerMarker + b, LayerMarker)
  {
    var text := a + LayerMarker + b;
    if |b| >= 2 {
      assert text[|text| - 2] == b[|b| - 2];
    } else {
      assert text[|text| - 2] == '/';
    }
    assert text[|text| - 2..][0] == text[|text| - 2] != '~';
  }

  /** A text `a~/b` with no `~` in a non-empty `b` splits at that marker:
      the result is `b` parsed in the filesystem that `newFileSystem` opens
      for the URI of the path `a~/`. */
  lemma {:induction false} SplitsAtLastMarker(pf: Platform, reg: Registry, p: PathPath, a: string, b: string)
    requires LayeredValid(reg) && p.fs < |reg.heap|
    requires ToString(p) == a + LayerMarker + b && b != "" && '~' !in b
    requires AdaptResolvedPath(pf, reg, p).Success?
    ensures var u := LayeredBuildUriFor(pf, reg, NewPath(p.fs, Layered, [a + LayerMarker]));
      u.Success? && NewFileSystem(pf, reg, u.value, None).Success?
      && AdaptResolvedPath(pf, reg, p).value.path
         == Virtual(NewPath(NewFileSystem(pf, reg, u.value, None).value.fs, Layered, [b]))
  {
    LastMarkerBefore(a, b);
    if PathAlgebra.EndsWith(p, Virtual(MarkerPath(p.fs))) {
      MarkerComponentEnd(p);
      NoMarkerEnd(a, b);
    }
  }

  /** An occurrence at a known position makes `contains` true. */
  lemma {:induction false} ContainsOccursAt(s: string, t: string, j: nat)
    requires OccursAt(s, t, j)
    ensures Contains(s, t)
    decreases j
  {
    if j > 0 {
      assert s[1..][j - 1..j - 1 + |t|] == s[j..j + |t|];
      ContainsOccursAt(s[1..], t, j - 1);
    } else {
      assert s[..|t|] == t;
    }
  }
}
