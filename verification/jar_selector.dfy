/** The jar-in-jar selector: sources are scanned breadth first for embedded
    jars, every detection is grouped by identifier, each identifier's range
    restrictions are folded, and one jar is chosen per identifier. Sources,
    metadata reading and the Maven version library are parameters. */
module JarSelection {
  import opened Wrappers
  import opened VersionRanges

  /** A source (the `T` of `JarSelector<T>`), by object identity. */
  datatype Source = Source(handle: nat)

  datatype JarId = JarId(group: string, artifact: string)

  /** A contained version: the range may be null, the artifact version is
      the library's value. */
  datatype ContainedVersion = ContainedVersion(range: Option<VersionRange>, artifact: ArtifactVersion)

  datatype JarMetadata = JarMetadata(id: JarId, version: ContainedVersion, path: Option<string>, obfuscated: bool)

  /** `DetectionResult`: a jar's metadata, the nested source it came in (or
      null) and the nesting depth it was found at. */
  datatype Detection = Detection(meta: JarMetadata, source: Option<Source>, depth: int)

  /** The calls into the Maven version library, which is not part of this
      model: `restrict`, `containsVersion`, `hasRestrictions`, and
      `compareTo` as an integer rank (a total preorder on versions). */
  datatype Maven = Maven(
    restrict: (VersionRange, VersionRange) -> VersionRange,
    containsVersion: (VersionRange, ArtifactVersion) -> bool,
    hasRestrictions: VersionRange -> bool,
    rank: ArtifactVersion -> int)

  /** The abstract methods of `JarSelector`: the jars listed in a source's
      metadata file (absent when the file is missing or does not parse),
      `getNested` and `getIdentifier`; `universe` holds every source the
      scan can reach. */
  datatype Hooks = Hooks(
    jarsOf: Source -> Option<seq<JarMetadata>>,
    nested: (Source, string) -> Option<Source>,
    identify: Source -> string,
    universe: set<Source>)

  /** Nesting never leaves the universe, so the scan ends. */
  ghost predicate Closed(h: Hooks) {
    forall s, p :: s in h.universe && h.nested(s, p).Some? ==> h.nested(s, p).value in h.universe
  }

  /** The selector's fields: `seen`, `detected`, `claimed`, `identifiers`. */
  datatype Selector = Selector(
    seen: set<Source>, detected: set<Detection>,
    claimed: map<string, Source>, identifiers: set<JarId>)

  const Empty := Selector({}, {}, map[], {})

  // ---------------------------------------------------------------------
  // Registration

  /** The `putIfAbsent` loop of `force`: the first source claiming an
      identifier keeps it, earlier claims stay. */
  function Claim(h: Hooks, claimed: map<string, Source>, sources: seq<Source>): (r: map<string, Source>)
    ensures forall id :: id in claimed ==> id in r && r[id] == claimed[id]
    ensures forall id :: id in r ==> id in claimed || exists i :: 0 <= i < |sources| && h.identify(sources[i]) == id
    decreases |sources|
  {
    if sources == [] then claimed
    else
      var id := h.identify(sources[0]);
      var r := Claim(h, if id in claimed then claimed else claimed[id := sources[0]], sources[1..]);
      assert forall i :: 0 <= i < |sources| - 1 ==> sources[1..][i] == sources[i + 1];
      r
  }

  /** `i` is the first position of `sources` with its identifier. */
  predicate FirstWithId(h: Hooks, sources: seq<Source>, i: int)
    requires 0 <= i < |sources|
  {
    forall k :: 0 <= k < i ==> h.identify(sources[k]) != h.identify(sources[i])
  }

  /** Claims are first-wins: every identifier of `sources` is claimed, by
      the earlier claim if there was one and otherwise by its first source. */
  lemma {:induction false} ClaimFirstWins(h: Hooks, claimed: map<string, Source>, sources: seq<Source>, i: int)
    requires 0 <= i < |sources|
    ensures h.identify(sources[i]) in Claim(h, claimed, sources)
    ensures FirstWithId(h, sources, i) && h.identify(sources[i]) !in claimed ==>
      Claim(h, claimed, sources)[h.identify(sources[i])] == sources[i]
    decreases |sources|
  {
    var id := h.identify(sources[0]);
    var next := if id in claimed then claimed else claimed[id := sources[0]];
    if i > 0 {
      assert sources[1..][i - 1] == sources[i];
      ClaimFirstWins(h, next, sources[1..], i - 1);
      if FirstWithId(h, sources, i) {
        assert FirstWithId(h, sources[1..], i - 1) by {
          forall k | 0 <= k < i - 1
            ensures h.identify(sources[1..][k]) != h.identify(sources[1..][i - 1])
          {
            assert sources[1..][k] == sources[k + 1];
          }
        }
        assert h.identify(sources[i]) != id;
      }
    }
  }

  /** `force(sources)`: claim, then scan. `force(source)` is the singleton. */
  function Force(h: Hooks, st: Selector, sources: seq<Source>): (r: Selector)
    requires Closed(h) && forall s :: s in sources ==> s in h.universe
    ensures forall i :: 0 <= i < |sources| ==> h.identify(sources[i]) in r.claimed
    ensures forall id :: id in st.claimed ==> id in r.claimed && r.claimed[id] == st.claimed[id]
    ensures forall s :: s in sources ==> s in r.seen
  {
    var claimed := Claim(h, st.claimed, sources);
    forall i | 0 <= i < |sources| ensures h.identify(sources[i]) in claimed {
      ClaimFirstWins(h, st.claimed, sources, i);
    }
    Add(h, st.(claimed := claimed), sources)
  }

  /** `option`: a candidate found at depth 0 in `source`. */
  function AddOption(st: Selector, source: Source, meta: JarMetadata): (r: Selector)
    ensures r.detected == st.detected + {Detection(meta, Some(source), 0)}
    ensures r.seen == st.seen && r.claimed == st.claimed && r.identifiers == st.identifiers
  {
    st.(detected := st.detected + {Detection(meta, Some(source), 0)})
  }

  /** `addRequirement` as written: a source-less detection at depth 0, with
      the identifier left out of `identifiers`. */
  function AddRequirementAsWritten(st: Selector, meta: JarMetadata): (r: Selector)
    ensures r.detected == st.detected + {Detection(meta, None, 0)}
    ensures r.identifiers == st.identifiers
  {
    st.(detected := st.detected + {Detection(meta, None, 0)})
  }

  /** `addRequirement` as its documentation describes it: the identifier
      also becomes required. */
  function AddRequirement(st: Selector, meta: JarMetadata): (r: Selector)
    ensures r.detected == st.detected + {Detection(meta, None, 0)}
    ensures IsRequired(r, meta.id)
    ensures forall id :: IsRequired(st, id) ==> IsRequired(r, id)
  {
    st.(detected := st.detected + {Detection(meta, None, 0)}, identifiers := st.identifiers + {meta.id})
  }

  /** `isRequired`. */
  predicate IsRequired(st: Selector, id: JarId) {
    id in st.identifiers
  }

  /** A requirement added as written is not reported by `isRequired`. */
  lemma {:induction false} RequirementNotRequired(meta: JarMetadata)
    ensures !IsRequired(AddRequirementAsWritten(Empty, meta), meta.id)
    ensures IsRequired(AddRequirement(Empty, meta), meta.id)
  {
  }

  // ---------------------------------------------------------------------
  // The breadth-first scan of `add`

  /** The nested source of a listed jar: none for a null or empty path,
      else whatever `getNested` yields. */
  function NestedOf(h: Hooks, current: Source, jar: JarMetadata): Option<Source> {
    if jar.path.None? || jar.path.value == "" then None else h.nested(current, jar.path.value)
  }

  /** The nested sources of `jars`, in order, nulls skipped. */
  function Children(h: Hooks, current: Source, jars: seq<JarMetadata>): (r: seq<Source>)
    ensures forall n :: n in r ==> exists j :: j in jars && NestedOf(h, current, j) == Some(n)
    ensures forall j :: j in jars && NestedOf(h, current, j).Some? ==> NestedOf(h, current, j).value in r
  {
    if jars == [] then []
    else
      var rest := Children(h, current, jars[1..]);
      assert forall j :: j in jars[1..] ==> j in jars;
      match NestedOf(h, current, jars[0])
      case Some(n) => [n] + rest
      case None => rest
  }

  /** A jar listed in `s`'s metadata. */
  predicate Lists(h: Hooks, s: Source, j: JarMetadata) {
    h.jarsOf(s).Some? && j in h.jarsOf(s).value
  }

  /** The detections and identifiers one source's metadata contributes. */
  function Visit(h: Hooks, st: Selector, current: Source, jars: seq<JarMetadata>, depth: int): (r: Selector)
    ensures r.seen == st.seen && r.claimed == st.claimed
    ensures forall d :: d in r.detected <==>
      d in st.detected || (d.meta in jars && d == Detection(d.meta, NestedOf(h, current, d.meta), depth))
    ensures forall id :: id in r.identifiers <==> id in st.identifiers || exists j :: j in jars && j.id == id
  {
    st.(detected := st.detected + (set j | j in jars :: Detection(j, NestedOf(h, current, j), depth)),
        identifiers := st.identifiers + (set j | j in jars :: j.id))
  }

  lemma {:induction false} ShrinkUnseen(u: set<Source>, seen: set<Source>, s: Source)
    requires s in u
    ensures s !in seen ==> |u - (seen + {s})| < |u - seen|
  {
    if s !in seen {
      assert u - seen == (u - (seen + {s})) + {s};
    }
  }

  /** The state of `add`'s loop: the selector, the queue and the depths. */
  datatype Frame = Frame(st: Selector, queue: seq<Source>, depths: map<Source, int>)

  /** A loop state the scan can run from: queued sources lie in the
      universe and recorded depths are not negative. */
  ghost predicate Runs(h: Hooks, f: Frame) {
    Closed(h) && (forall s :: s in f.queue ==> s in h.universe)
    && (forall n :: n in f.depths ==> f.depths[n] >= 0)
  }

  /** `depths.getOrDefault(source, 0)`. */
  function DepthOf(depths: map<Source, int>, s: Source): int {
    if s in depths then depths[s] else 0
  }

  /** One turn of `add`'s loop. The head of the queue is dropped; unless it
      was seen already it becomes seen, and when its metadata reads, each
      listed jar is detected one level below the head's recorded depth, its
      identifier becomes required and its nested source is queued. */
  function Step(h: Hooks, f: Frame): (g: Frame)
    requires Runs(h, f) && f.queue != []
    ensures Runs(h, g)
    ensures g.st.claimed == f.st.claimed
    ensures f.queue[0] in f.st.seen ==> g == f.(queue := f.queue[1..])
    ensures f.queue[0] !in f.st.seen ==> g.st.seen == f.st.seen + {f.queue[0]}
    ensures f.st.detected <= g.st.detected && f.st.identifiers <= g.st.identifiers
    ensures forall s :: s in f.queue[1..] ==> s in g.queue
    ensures forall d :: d in g.st.detected - f.st.detected ==>
      d.depth == DepthOf(f.depths, f.queue[0]) + 1
      && Lists(h, f.queue[0], d.meta) && d.source == NestedOf(h, f.queue[0], d.meta)
    ensures forall id :: id in g.st.identifiers - f.st.identifiers ==>
      exists j :: Lists(h, f.queue[0], j) && j.id == id
    ensures f.queue[0] !in f.st.seen ==> forall j :: Lists(h, f.queue[0], j) ==>
      Detection(j, NestedOf(h, f.queue[0], j), DepthOf(f.depths, f.queue[0]) + 1) in g.st.detected
      && j.id in g.st.identifiers
      && (NestedOf(h, f.queue[0], j).Some? ==> NestedOf(h, f.queue[0], j).value in g.queue)
  {
    var current := f.queue[0];
    if current in f.st.seen then f.(queue := f.queue[1..])
    else
      var st1 := f.st.(seen := f.st.seen + {current});
      match h.jarsOf(current)
      case None => Frame(st1, f.queue[1..], f.depths)
      case Some(jars) => Expand(h, f, jars)
  }

  /** The turn for an unseen head whose metadata lists `jars`. */
  function Expand(h: Hooks, f: Frame, jars: seq<JarMetadata>): (g: Frame)
    requires Runs(h, f) && f.queue != [] && h.jarsOf(f.queue[0]) == Some(jars)
    ensures Runs(h, g)
    ensures g.st == Visit(h, f.st.(seen := f.st.seen + {f.queue[0]}), f.queue[0], jars, DepthOf(f.depths, f.queue[0]) + 1)
    ensures forall s :: s in f.queue[1..] ==> s in g.queue
    ensures forall j :: j in jars && NestedOf(h, f.queue[0], j).Some? ==> NestedOf(h, f.queue[0], j).value in g.queue
  {
    var current := f.queue[0];
    var depth := DepthOf(f.depths, current) + 1;
    var kids := Children(h, current, jars);
    assert forall n :: n in kids ==> n in h.universe;
    Frame(Visit(h, f.st.(seen := f.st.seen + {current}), current, jars, depth), f.queue[1..] + kids,
      f.depths + map n | n in kids :: depth)
  }

  /** The loop of `add`, run until the queue is empty. */
  function Scan(h: Hooks, f: Frame): (r: Selector)
    requires Runs(h, f)
    ensures f.st.seen <= r.seen && f.st.detected <= r.detected && f.st.identifiers <= r.identifiers
    ensures r.claimed == f.st.claimed
    ensures forall s :: s in f.queue ==> s in r.seen
    decreases |h.universe - f.st.seen|, |f.queue|
  {
    if f.queue == [] then f.st
    else
      ShrinkUnseen(h.universe, f.st.seen, f.queue[0]);
      Scan(h, Step(h, f))
  }

  /** `add(sources)`: the loop from a queue of `sources` and no depths. */
  function Add(h: Hooks, st: Selector, sources: seq<Source>): (r: Selector)
    requires Closed(h) && forall s :: s in sources ==> s in h.universe
    ensures st.seen <= r.seen && st.detected <= r.detected && st.identifiers <= r.identifiers
    ensures r.claimed == st.claimed
    ensures forall s :: s in sources ==> s in r.seen
  {
    Scan(h, Frame(st, sources, map[]))
  }

  /** `isRequired` after a scan: an identifier is required exactly when it
      was before or a jar listed by a source scanned now carries it. */
  lemma {:induction false} ScanIdentifiers(h: Hooks, f: Frame, id: JarId)
    requires Runs(h, f)
    ensures IsRequired(Scan(h, f), id) <==>
      IsRequired(f.st, id) || exists s, j :: s in Scan(h, f).seen - f.st.seen && Lists(h, s, j) && j.id == id
    decreases |h.universe - f.st.seen|, |f.queue|
  {
    if f.queue != [] {
      var current := f.queue[0];
      ShrinkUnseen(h.universe, f.st.seen, current);
      var g := Step(h, f);
      var r := Scan(h, g);
      assert Scan(h, f) == r;
      ScanIdentifiers(h, g, id);
      assert r.seen - f.st.seen == (r.seen - g.st.seen) + (g.st.seen - f.st.seen);
      assert g.st.seen - f.st.seen <= {current};
      if id in g.st.identifiers && id !in f.st.identifiers {
        var j :| Lists(h, current, j) && j.id == id;
        assert current in r.seen - f.st.seen;
      }
      if exists s, j :: s in r.seen - f.st.seen && Lists(h, s, j) && j.id == id {
        var s, j :| s in r.seen - f.st.seen && Lists(h, s, j) && j.id == id;
        if s !in r.seen - g.st.seen {
          assert s == current;
        }
      }
    }
  }

  /** Every detection a scan adds lies one level or more below a source
      scanned now, is a jar that source lists, and carries that jar's
      nested source: sources seen before contribute nothing. */
  lemma {:induction false} ScanDetection(h: Hooks, f: Frame, d: Detection)
    requires Runs(h, f)
    requires d in Scan(h, f).detected && d !in f.st.detected
    ensures d.depth >= 1
    ensures exists s :: s in Scan(h, f).seen - f.st.seen && Lists(h, s, d.meta) && d.source == NestedOf(h, s, d.meta)
    decreases |h.universe - f.st.seen|, |f.queue|
  {
    var current := f.queue[0];
    ShrinkUnseen(h.universe, f.st.seen, current);
    var g := Step(h, f);
    var r := Scan(h, g);
    assert Scan(h, f) == r;
    if d in g.st.detected {
      assert current in g.st.seen - f.st.seen;
    } else {
      ScanDetection(h, g, d);
    }
  }

  /** The scan misses nothing: each jar listed by a source scanned now is
      detected and required, and its nested source is scanned as well. */
  lemma {:induction false} ScanCovers(h: Hooks, f: Frame, s: Source, j: JarMetadata)
    requires Runs(h, f)
    requires s in Scan(h, f).seen - f.st.seen && Lists(h, s, j)
    ensures exists k :: k >= 1 && Detection(j, NestedOf(h, s, j), k) in Scan(h, f).detected
    ensures IsRequired(Scan(h, f), j.id)
    ensures NestedOf(h, s, j).Some? ==> NestedOf(h, s, j).value in Scan(h, f).seen
    decreases |h.universe - f.st.seen|, |f.queue|
  {
    var current := f.queue[0];
    ShrinkUnseen(h.universe, f.st.seen, current);
    var g := Step(h, f);
    var r := Scan(h, g);
    assert Scan(h, f) == r;
    if s in g.st.seen {
      assert s == current;
      var k := DepthOf(f.depths, current) + 1;
      assert Detection(j, NestedOf(h, s, j), k) in r.detected;
    } else {
      ScanCovers(h, g, s, j);
    }
  }

  /** The jars listed by the first source of an `add` that has not seen it
      are found at depth 1. */
  lemma {:induction false} FirstSourceDepth(h: Hooks, st: Selector, sources: seq<Source>, j: JarMetadata)
    requires Closed(h) && forall s :: s in sources ==> s in h.universe
    requires |sources| > 0 && sources[0] !in st.seen && Lists(h, sources[0], j)
    ensures Detection(j, NestedOf(h, sources[0], j), 1) in Add(h, st, sources).detected
  {
    var f := Frame(st, sources, map[]);
    ShrinkUnseen(h.universe, st.seen, sources[0]);
    var g := Step(h, f);
    assert Add(h, st, sources) == Scan(h, g);
    assert DepthOf(f.depths, sources[0]) == 0;
  }

  // ---------------------------------------------------------------------
  // Selection

  predicate NoDup<T(==)>(s: seq<T>) {
    forall i, j :: 0 <= i < j < |s| ==> s[i] != s[j]
  }

  /** The order in which `select` meets the detections: each exactly once.
      Hash-set iteration order is not specified, so it is a parameter. */
  ghost predicate Enumerates(order: seq<Detection>, detected: set<Detection>) {
    NoDup(order) && forall d :: d in order <==> d in detected
  }

  /** The distinct elements of `s`, in order of first appearance: the
      iteration of a hash set filled from `s`. */
  function Dedup<T(==,!new)>(s: seq<T>): (r: seq<T>)
    ensures forall x :: x in r <==> x in s
    ensures NoDup(r)
  {
    if |s| == 0 then []
    else
      var r := Dedup(s[..|s| - 1]);
      var x := s[|s| - 1];
      assert s == s[..|s| - 1] + [x];
      if x in r then r else r + [x]
  }

  /** The metadata of the detections for `id`, with a source (`sourced`) or
      without one. */
  function MetasWith(order: seq<Detection>, id: JarId, sourced: bool): (r: seq<JarMetadata>)
    ensures forall j :: j in r <==> exists d :: d in order && d.meta == j && j.id == id && d.source.Some? == sourced
  {
    if order == [] then []
    else
      var rest := MetasWith(order[1..], id, sourced);
      assert forall d :: d in order <==> d == order[0] || d in order[1..];
      if order[0].meta.id == id && order[0].source.Some? == sourced then [order[0].meta] + rest
      else rest
  }

  /** `metadataByIdentifier.get(id)`: the candidates, those found with a
      source. */
  function Candidates(order: seq<Detection>, id: JarId): (r: seq<JarMetadata>)
    ensures NoDup(r)
    ensures forall j :: j in r <==> exists d :: d in order && d.meta == j && j.id == id && d.source.Some?
  {
    Dedup(MetasWith(order, id, true))
  }

  /** `extraRestrictions.get(id)`: requirements found without a source. */
  function Extras(order: seq<Detection>, id: JarId): (r: seq<JarMetadata>)
    ensures forall j :: j in r <==> exists d :: d in order && d.meta == j && j.id == id && d.source.None?
  {
    Dedup(MetasWith(order, id, false))
  }

  function MetaIds(order: seq<Detection>): (r: seq<JarId>)
    ensures forall id :: id in r <==> exists d :: d in order && d.meta.id == id
  {
    if order == [] then []
    else
      assert forall d :: d in order <==> d == order[0] || d in order[1..];
      [order[0].meta.id] + MetaIds(order[1..])
  }

  /** The keys of `metadataByIdentifier`: every identifier detected, with
      or without a source. */
  function Identifiers(order: seq<Detection>): (r: seq<JarId>)
    ensures NoDup(r)
    ensures forall id :: id in r <==> exists d :: d in order && d.meta.id == id
  {
    Dedup(MetaIds(order))
  }

  /** `restrictRanges`: a null range is the identity on either side. */
  function RestrictRanges(m: Maven, a: Option<VersionRange>, b: Option<VersionRange>): (r: Option<VersionRange>)
    ensures a.None? ==> r == b
    ensures b.None? ==> r == a
    ensures r.None? <==> a.None? && b.None?
  {
    if a.None? then b
    else if b.None? then a
    else Some(m.restrict(a.value, b.value))
  }

  /** The fold of `restrictRanges` over the ranges of `jars`. */
  function FoldRanges(m: Maven, acc: Option<VersionRange>, jars: seq<JarMetadata>): (r: Option<VersionRange>)
    ensures r.None? <==> acc.None? && forall j :: j in jars ==> j.version.range.None?
    ensures (forall j :: j in jars ==> j.version.range.None?) ==> r == acc
    decreases |jars|
  {
    if jars == [] then acc
    else
      assert forall j :: j in jars <==> j == jars[0] || j in jars[1..];
      FoldRanges(m, RestrictRanges(m, acc, jars[0].version.range), jars[1..])
  }

  /** The range `select` settles on for `id`: candidates first, then the
      source-less requirements. */
  function RangeFor(m: Maven, order: seq<Detection>, id: JarId): (r: Option<VersionRange>)
    ensures r.None? <==> forall d :: d in order && d.meta.id == id ==> d.meta.version.range.None?
  {
    var r := FoldRanges(m, FoldRanges(m, None, Candidates(order, id)), Extras(order, id));
    assert forall d :: d in order && d.meta.id == id ==>
      (d.source.Some? ==> d.meta in Candidates(order, id)) && (d.source.None? ==> d.meta in Extras(order, id));
    r
  }

  /** `isValid`: no recommended version, and some restriction. */
  predicate IsValid(m: Maven, range: VersionRange) {
    range.recommended.None? && m.hasRestrictions(range)
  }

  predicate Usable(m: Maven, range: Option<VersionRange>) {
    range.Some? && IsValid(m, range.value)
  }

  predicate InRange(m: Maven, range: VersionRange, j: JarMetadata) {
    m.containsVersion(range, j.version.artifact)
  }

  function Rank(m: Maven, j: JarMetadata): int {
    m.rank(j.version.artifact)
  }

  /** The search for the highest version in range: a jar replaces the one
      found so far only when strictly newer. */
  function Highest(m: Maven, range: VersionRange, jars: seq<JarMetadata>, found: Option<JarMetadata>): (r: Option<JarMetadata>)
    requires found.Some? ==> InRange(m, range, found.value)
    ensures r.Some? ==> InRange(m, range, r.value) && (r == found || r.value in jars)
    ensures r.None? <==> found.None? && forall j :: j in jars ==> !InRange(m, range, j)
    ensures r.Some? && found.Some? ==> Rank(m, found.value) <= Rank(m, r.value)
    ensures r.Some? ==> forall j :: j in jars && InRange(m, range, j) ==> Rank(m, j) <= Rank(m, r.value)
    decreases |jars|
  {
    if jars == [] then found
    else
      var j := jars[0];
      var next :=
        if !InRange(m, range, j) then found
        else if found.None? || Rank(m, j) > Rank(m, found.value) then Some(j)
        else found;
      assert forall k :: k in jars <==> k == j || k in jars[1..];
      Highest(m, range, jars[1..], next)
  }

  /** `SelectionResult`. */
  datatype Choice = Choice(id: JarId, selected: Option<JarMetadata>, noValidRange: bool)

  /** The choice for one identifier: no candidate fails as a missing jar;
      an unusable range fails as unresolvable; a lone candidate is taken
      when in range; otherwise the highest version in range. The
      recommended-version branch of the source is left out: the validity
      test before it already refuses any range with a recommended version. */
  function Choose(m: Maven, id: JarId, jars: seq<JarMetadata>, range: Option<VersionRange>): (r: Choice)
    ensures r.id == id
    ensures r.noValidRange <==> |jars| > 0 && !Usable(m, range)
    ensures r.selected.Some? ==> r.selected.value in jars && Usable(m, range) && InRange(m, range.value, r.selected.value)
    ensures |jars| > 0 && Usable(m, range) ==>
      (r.selected.Some? <==> exists j :: j in jars && InRange(m, range.value, j))
    ensures r.selected.Some? ==>
      forall j :: j in jars && InRange(m, range.value, j) ==> Rank(m, j) <= Rank(m, r.selected.value)
  {
    if |jars| == 0 then Choice(id, None, false)
    else if !Usable(m, range) then Choice(id, None, true)
    else if |jars| == 1 then
      assert forall j :: j in jars ==> j == jars[0];
      if InRange(m, range.value, jars[0]) then Choice(id, Some(jars[0]), false)
      else Choice(id, None, false)
    else Choice(id, Highest(m, range.value, jars, None), false)
  }

  function ChooseFor(m: Maven, order: seq<Detection>, id: JarId): (r: Choice)
    ensures r.id == id
    ensures r.selected.Some? ==> r.selected.value.id == id && exists d :: d in order && d.meta == r.selected.value && d.source.Some?
  {
    Choose(m, id, Candidates(order, id), RangeFor(m, order, id))
  }

  /** `FailureReason`. */
  datatype FailureReason = VersionResolutionFailed | NoMatchingJar

  /** `getFailureReason`: refuses a successful choice with
      `IllegalArgumentException`. */
  function FailureReasonOf(c: Choice): (r: Result<FailureReason, string>)
    ensures r.Failure? <==> c.selected.Some?
    ensures r.Success? ==> (r.value == VersionResolutionFailed <==> c.noValidRange)
  {
    if c.selected.Some? then Failure("Resolution succeeded, not failure possible")
    else if c.noValidRange then Success(VersionResolutionFailed)
    else Success(NoMatchingJar)
  }

  /** `SourceWithRequestedVersionRange`. */
  datatype Request = Request(sources: set<Source>, range: Option<VersionRange>, version: ArtifactVersion)

  /** `ResolutionFailureInformation`. */
  datatype ResolutionFailure = ResolutionFailure(reason: FailureReason, id: JarId, requests: set<Request>)

  /** The non-null sources of the detections of `meta`. */
  function SourcesOf(order: seq<Detection>, meta: JarMetadata): set<Source> {
    set d | d in order && d.meta == meta && d.source.Some? :: d.source.value
  }

  /** One request per candidate of `id`, with the sources it came in. */
  function Requests(order: seq<Detection>, id: JarId): set<Request> {
    set j | j in Candidates(order, id) :: Request(SourcesOf(order, j), j.version.range, j.version.artifact)
  }

  function Choices(m: Maven, order: seq<Detection>, ids: seq<JarId>): (r: seq<Choice>)
    ensures |r| == |ids| && forall i :: 0 <= i < |ids| ==> r[i] == ChooseFor(m, order, ids[i])
    ensures forall c :: c in r ==> c.id in ids && c == ChooseFor(m, order, c.id)
    ensures (exists c :: c in r && c.selected.None?) <==> exists id :: id in ids && ChooseFor(m, order, id).selected.None?
  {
    if ids == [] then [] else [ChooseFor(m, order, ids[0])] + Choices(m, order, ids[1..])
  }

  /** The failure report: one entry per failed choice. */
  function Failures(order: seq<Detection>, cs: seq<Choice>): (r: seq<ResolutionFailure>)
    ensures forall f :: f in r ==>
      exists c :: c in cs && c.selected.None? && f.id == c.id && (f.reason == VersionResolutionFailed <==> c.noValidRange)
    ensures forall c :: c in cs && c.selected.None? ==>
      ResolutionFailure(FailureReasonOf(c).value, c.id, Requests(order, c.id)) in r
  {
    if cs == [] then []
    else
      var rest := Failures(order, cs[1..]);
      assert forall c :: c in cs <==> c == cs[0] || c in cs[1..];
      if cs[0].selected.Some? then rest
      else [ResolutionFailure(FailureReasonOf(cs[0]).value, cs[0].id, Requests(order, cs[0].id))] + rest
  }

  /** The detections of `meta`, in iteration order. */
  function DetectionsOf(order: seq<Detection>, meta: JarMetadata): (r: seq<Detection>)
    ensures forall d :: d in r <==> d in order && d.meta == meta
  {
    if order == [] then []
    else
      assert forall d :: d in order <==> d == order[0] || d in order[1..];
      (if order[0].meta == meta then [order[0]] else []) + DetectionsOf(order[1..], meta)
  }

  /** The least nested detection: a later one replaces `best` only when
      strictly shallower. */
  function Nearest(best: Detection, dets: seq<Detection>): (r: Detection)
    ensures r == best || r in dets
    ensures r.depth <= best.depth && forall d :: d in dets ==> r.depth <= d.depth
    decreases |dets|
  {
    if dets == [] then best
    else
      assert forall d :: d in dets <==> d == dets[0] || d in dets[1..];
      Nearest(if best.depth > dets[0].depth then dets[0] else best, dets[1..])
  }

  /** `x` is the source `select` takes choice `c` from: that of `d`, a least
      nested detection of the chosen jar. */
  ghost predicate Won(order: seq<Detection>, c: Choice, d: Detection, x: Source) {
    c.selected == Some(d.meta) && d in order && d.source == Some(x)
    && forall e :: e in order && e.meta == d.meta ==> d.depth <= e.depth
  }

  /** `d` is a least nested detection, with source `x`, of the jar chosen
      for its identifier. */
  ghost predicate TakenFrom(m: Maven, order: seq<Detection>, d: Detection, x: Source) {
    d in order && d.source == Some(x) && ChooseFor(m, order, d.meta.id).selected == Some(d.meta)
    && forall e :: e in order && e.meta == d.meta ==> d.depth <= e.depth
  }

  /** The least nested detection of `meta`, the earliest in iteration order
      among equals; none when `meta` was never detected. */
  function NearestOf(order: seq<Detection>, meta: JarMetadata): (r: Option<Detection>)
    ensures r.None? <==> forall d :: d in order ==> d.meta != meta
    ensures r.Some? ==>
      r.value in order && r.value.meta == meta && forall e :: e in order && e.meta == meta ==> r.value.depth <= e.depth
  {
    var dets := DetectionsOf(order, meta);
    if dets == [] then None
    else
      assert dets[0] in dets;
      assert forall e :: e in dets <==> e == dets[0] || e in dets[1..];
      Some(Nearest(dets[0], dets[1..]))
  }

  /** The source `select` takes choice `c` from, if any: that of the least
      nested detection of the chosen jar, when not null. */
  function SourceTaken(order: seq<Detection>, c: Choice): (r: Option<Source>)
    ensures r.Some? ==> exists d :: Won(order, c, d, r.value)
    ensures c.selected.None? ==> r.None?
  {
    if c.selected.None? then None
    else
      match NearestOf(order, c.selected.value)
      case None => None
      case Some(d) =>
        assert d.source.Some? ==> Won(order, c, d, d.source.value);
        d.source
  }

  /** The source each chosen jar is taken from: that of its least nested
      detection, when not null. */
  function Winners(order: seq<Detection>, cs: seq<Choice>): (r: seq<Source>)
    ensures forall x :: x in r ==> exists c: Choice, d: Detection :: Won(order, c, d, x) && c in cs
    ensures forall c :: c in cs && SourceTaken(order, c).Some? ==> SourceTaken(order, c).value in r
  {
    if cs == [] then []
    else
      var rest := Winners(order, cs[1..]);
      assert forall c :: c in cs <==> c == cs[0] || c in cs[1..];
      match SourceTaken(order, cs[0])
      case None => rest
      case Some(x) => [x] + rest
  }

  /** The final filter: a jar whose identifier was forced goes, and of the
      rest only the first jar per identifier stays. */
  function KeepFirst(h: Hooks, claimed: map<string, Source>, kept: set<string>, jars: seq<Source>): (r: seq<Source>)
    ensures forall x :: x in r ==> x in jars && h.identify(x) !in claimed && h.identify(x) !in kept
    ensures forall i, j :: 0 <= i < j < |r| ==> h.identify(r[i]) != h.identify(r[j])
    decreases |jars|
  {
    if jars == [] then []
    else
      var id := h.identify(jars[0]);
      assert forall x :: x in jars[1..] ==> x in jars;
      if id in claimed || id in kept then KeepFirst(h, claimed, kept, jars[1..])
      else
        var rest := KeepFirst(h, claimed, kept + {id}, jars[1..]);
        assert forall x :: x in rest ==> h.identify(x) != id;
        [jars[0]] + rest
  }

  /** The first jar of each identifier that was not forced survives the
      filter. */
  lemma {:induction false} KeepFirstWins(h: Hooks, claimed: map<string, Source>, kept: set<string>, jars: seq<Source>, i: int)
    requires 0 <= i < |jars| && FirstWithId(h, jars, i)
    requires h.identify(jars[i]) !in claimed && h.identify(jars[i]) !in kept
    ensures jars[i] in KeepFirst(h, claimed, kept, jars)
    decreases |jars|
  {
    var id := h.identify(jars[0]);
    if i > 0 {
      assert jars[1..][i - 1] == jars[i];
      assert h.identify(jars[i]) != id;
      assert FirstWithId(h, jars[1..], i - 1) by {
        forall k | 0 <= k < i - 1
          ensures h.identify(jars[1..][k]) != h.identify(jars[1..][i - 1])
        {
          assert jars[1..][k] == jars[k + 1];
        }
      }
      if id in claimed || id in kept {
        KeepFirstWins(h, claimed, kept, jars[1..], i - 1);
      } else {
        KeepFirstWins(h, claimed, kept + {id}, jars[1..], i - 1);
      }
    }
  }

  /** `select`. It fails exactly when some identifier's choice fails, with
      one report per failed identifier; otherwise it returns, for each
      chosen jar, the source of its least nested detection, minus forced
      identifiers and later duplicates. */
  function Select(m: Maven, h: Hooks, st: Selector, order: seq<Detection>): (r: Result<seq<Source>, seq<ResolutionFailure>>)
    requires Enumerates(order, st.detected)
    ensures r.Failure? <==> exists id :: id in Identifiers(order) && ChooseFor(m, order, id).selected.None?
    ensures r.Failure? ==> forall f :: f in r.error ==>
      f.id in Identifiers(order) && ChooseFor(m, order, f.id).selected.None?
      && (f.reason == VersionResolutionFailed <==> ChooseFor(m, order, f.id).noValidRange)
    ensures r.Success? ==> r.value == Selected(m, h, st.claimed, order, Identifiers(order))
  {
    var ids := Identifiers(order);
    var cs := Choices(m, order, ids);
    if exists c :: c in cs && c.selected.None? then
      Failure(Failures(order, cs))
    else
      Success(Selected(m, h, st.claimed, order, ids))
  }

  /** Some candidate of `id` names no range. */
  predicate Unranged(order: seq<Detection>, id: JarId) {
    exists j :: j in Candidates(order, id) && j.version.range.None?
  }

  /** Some identifier whose choice failed has a candidate that names no
      range: its report would hold a request whose range is null. */
  predicate NullRangeRequested(m: Maven, order: seq<Detection>) {
    exists id :: id in Identifiers(order) && ChooseFor(m, order, id).selected.None? && Unranged(order, id)
  }

  /** How `select`, as written, fails: with the report, or with the
      `NullPointerException` that `SourceWithRequestedVersionRange.hashCode`
      throws on a null range while the report is built. */
  datatype SelectFailure = Report(failures: seq<ResolutionFailure>) | NullRangeHash

  /** `select` as written. Its failure path adds one request per candidate
      to a `HashSet`, which hashes the requested range; so a failed
      identifier with an unranged candidate throws before any report
      exists. Otherwise it agrees with `Select`. */
  function SelectAsWritten(m: Maven, h: Hooks, st: Selector, order: seq<Detection>): (r: Result<seq<Source>, SelectFailure>)
    requires Enumerates(order, st.detected)
    ensures r.Failure? <==> exists id :: id in Identifiers(order) && ChooseFor(m, order, id).selected.None?
    ensures r.Failure? ==> (r.error.NullRangeHash? <==> NullRangeRequested(m, order))
    ensures r.Success? ==> r.value == Selected(m, h, st.claimed, order, Identifiers(order))
    ensures r.Failure? && !NullRangeRequested(m, order) ==> r.error == Report(Select(m, h, st, order).error)
  {
    match Select(m, h, st, order)
    case Success(v) => Success(v)
    case Failure(report) =>
      if NullRangeRequested(m, order) then Failure(NullRangeHash) else Failure(Report(report))
  }

  /** A failing `select` reports every identifier whose choice failed, with
      its reason and the requests made for it. */
  lemma {:induction false} SelectReportsEveryFailure(m: Maven, h: Hooks, st: Selector, order: seq<Detection>, id: JarId)
    requires Enumerates(order, st.detected)
    requires id in Identifiers(order) && ChooseFor(m, order, id).selected.None?
    ensures Select(m, h, st, order).Failure?
    ensures ResolutionFailure(FailureReasonOf(ChooseFor(m, order, id)).value, id, Requests(order, id))
      in Select(m, h, st, order).error
    ensures SelectAsWritten(m, h, st, order).Failure?
    ensures !NullRangeRequested(m, order) ==>
      ResolutionFailure(FailureReasonOf(ChooseFor(m, order, id)).value, id, Requests(order, id))
        in SelectAsWritten(m, h, st, order).error.failures
  {
    var ids := Identifiers(order);
    var cs := Choices(m, order, ids);
    var i :| 0 <= i < |ids| && ids[i] == id;
    assert cs[i] == ChooseFor(m, order, id) && cs[i] in cs;
    assert Select(m, h, st, order) == Failure(Failures(order, cs));
  }

  /** The sources `select` returns when every choice succeeds: no forced
      identifier and no identifier twice, each the source of a least nested
      detection of a chosen jar. */
  function Selected(m: Maven, h: Hooks, claimed: map<string, Source>, order: seq<Detection>, ids: seq<JarId>): (r: seq<Source>)
    ensures forall x :: x in r ==> h.identify(x) !in claimed
    ensures forall i, j :: 0 <= i < j < |r| ==> h.identify(r[i]) != h.identify(r[j])
    ensures forall x :: x in r ==> exists d :: TakenFrom(m, order, d, x)
    ensures var w := Winners(order, Choices(m, order, ids));
      forall i :: 0 <= i < |w| && FirstWithId(h, w, i) && h.identify(w[i]) !in claimed ==> w[i] in r
  {
    var cs := Choices(m, order, ids);
    var w := Winners(order, cs);
    var r := KeepFirst(h, claimed, {}, w);
    forall i | 0 <= i < |w| && FirstWithId(h, w, i) && h.identify(w[i]) !in claimed
      ensures w[i] in r
    {
      KeepFirstWins(h, claimed, {}, w, i);
    }
    assert forall x :: x in r ==> exists d :: TakenFrom(m, order, d, x) by {
      forall x | x in r
        ensures exists d :: TakenFrom(m, order, d, x)
      {
        var c: Choice, d: Detection :| Won(order, c, d, x) && c in cs;
        assert c == ChooseFor(m, order, c.id);
        assert d.meta.id == c.id;
        assert ChooseFor(m, order, d.meta.id).selected == Some(d.meta);
        assert TakenFrom(m, order, d, x);
      }
    }
    r
  }

  /** An option takes part in the choice for its identifier. */
  lemma {:induction false} OptionIsCandidate(st: Selector, s: Source, meta: JarMetadata, order: seq<Detection>)
    requires Enumerates(order, AddOption(st, s, meta).detected)
    ensures meta in Candidates(order, meta.id) && meta.id in Identifiers(order)
  {
    assert Detection(meta, Some(s), 0) in order;
  }

  /** A requirement only narrows the range of its identifier. */
  lemma {:induction false} RequirementIsExtra(st: Selector, meta: JarMetadata, order: seq<Detection>)
    requires Enumerates(order, AddRequirement(st, meta).detected)
    ensures meta in Extras(order, meta.id) && meta.id in Identifiers(order)
  {
    assert Detection(meta, None, 0) in order;
  }

  /** An identifier that is required but found in no jar makes `select`
      fail, reporting no matching jar and no requests for it. */
  lemma {:induction false} MissingJarFails(m: Maven, h: Hooks, st: Selector, order: seq<Detection>, id: JarId)
    requires Enumerates(order, st.detected)
    requires id in Identifiers(order) && Candidates(order, id) == []
    ensures Select(m, h, st, order).Failure?
    ensures ResolutionFailure(NoMatchingJar, id, {}) in Select(m, h, st, order).error
    ensures SelectAsWritten(m, h, st, order).Failure?
    ensures !NullRangeRequested(m, order) ==>
      ResolutionFailure(NoMatchingJar, id, {}) in SelectAsWritten(m, h, st, order).error.failures
  {
    var ids := Identifiers(order);
    var c := ChooseFor(m, order, id);
    assert c == Choice(id, None, false);
    var cs := Choices(m, order, ids);
    var i :| 0 <= i < |ids| && ids[i] == id;
    assert cs[i] == c;
    assert Requests(order, id) == {};
    assert ResolutionFailure(FailureReasonOf(c).value, c.id, Requests(order, c.id)) in Failures(order, cs);
    assert cs[i] in cs && cs[i].selected.None?;
    assert Select(m, h, st, order) == Failure(Failures(order, cs));
  }
  /** An identifier whose candidates all name no range, with no range from
      a requirement either, fails as unresolvable; `select` as written then
      throws instead of reporting it, while `Select` reports it with its
      requests. */
  lemma {:induction false} UnrangedFailureThrows(m: Maven, h: Hooks, st: Selector, order: seq<Detection>, id: JarId)
    requires Enumerates(order, st.detected)
    requires id in Identifiers(order) && Candidates(order, id) != [] && RangeFor(m, order, id).None?
    ensures SelectAsWritten(m, h, st, order) == Failure(NullRangeHash)
    ensures Select(m, h, st, order).Failure?
    ensures ResolutionFailure(VersionResolutionFailed, id, Requests(order, id)) in Select(m, h, st, order).error
  {
    var c := ChooseFor(m, order, id);
    assert c.noValidRange && c.selected.None?;
    var j := Candidates(order, id)[0];
    assert j in Candidates(order, id);
    assert j.version.range.None?;
    assert Unranged(order, id);
    assert NullRangeRequested(m, order);
    SelectReportsEveryFailure(m, h, st, order, id);
  }
}
