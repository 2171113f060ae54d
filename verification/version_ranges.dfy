/** Maven version ranges as the metadata JSON writes them: a recommended
    version alone, or the restrictions `[a,b)`, `(,b]`, `[a]`, ... joined by
    commas; the string travels as one JSON primitive. */
module VersionRanges {
  import opened Wrappers

  /** An `ArtifactVersion`; `toString` gives back `text`. */
  datatype ArtifactVersion = ArtifactVersion(text: string)

  /** One interval of a range; an absent bound is unbounded on that side. */
  datatype Restriction = Restriction(
    lower: Option<ArtifactVersion>, lowerInclusive: bool,
    upper: Option<ArtifactVersion>, upperInclusive: bool)

  datatype VersionRange = VersionRange(recommended: Option<ArtifactVersion>, restrictions: seq<Restriction>)

  /** The `NullPointerException` of `getLowerBound().equals(...)` on a
      restriction with no lower bound. */
  datatype RenderError = NullLowerBound

  /** `ArtifactVersion.equals` of the version library, which is not part of
      this model. */
  type SameVersion = (ArtifactVersion, ArtifactVersion) -> bool

  function OpenChar(inclusive: bool): char { if inclusive then '[' else '(' }

  function CloseChar(inclusive: bool): char { if inclusive then ']' else ')' }

  function BoundText(b: Option<ArtifactVersion>): string {
    if b.Some? then b.value.text else ""
  }

  /** `serializeRestriction`: the bracket kinds follow the inclusivity flags;
      equal bounds print once, otherwise `lower,upper` with an absent side
      printed as nothing; a missing lower bound is the null dereference. */
  function SerializeRestriction(same: SameVersion, r: Restriction): (s: Result<string, RenderError>)
    ensures s.Failure? <==> r.lower.None?
    ensures s.Success? ==>
      |s.value| >= 2 && s.value[0] == OpenChar(r.lowerInclusive)
      && s.value[|s.value| - 1] == CloseChar(r.upperInclusive)
    ensures s.Success? && r.upper.Some? && same(r.lower.value, r.upper.value) ==>
      s.value[1..|s.value| - 1] == r.lower.value.text
    ensures s.Success? && !(r.upper.Some? && same(r.lower.value, r.upper.value)) ==>
      s.value[1..|s.value| - 1] == r.lower.value.text + "," + BoundText(r.upper)
  {
    if r.lower.None? then Failure(NullLowerBound)
    else
      var body :=
        if r.upper.Some? && same(r.lower.value, r.upper.value) then r.lower.value.text
        else r.lower.value.text + "," + BoundText(r.upper);
      var s := [OpenChar(r.lowerInclusive)] + body + [CloseChar(r.upperInclusive)];
      assert s[1..|s| - 1] == body;
      Success(s)
  }

  /** The restrictions rendered in order, with one comma between neighbours;
      the first null lower bound aborts the whole rendering. */
  function SerializeRestrictions(same: SameVersion, rs: seq<Restriction>): (s: Result<string, RenderError>)
    ensures s.Failure? <==> exists i :: 0 <= i < |rs| && rs[i].lower.None?
    ensures s.Success? && |rs| == 0 ==> s.value == ""
    ensures s.Success? && |rs| > 0 ==> |s.value| >= 2 && s.value[0] in "[(" && s.value[|s.value| - 1] in "])"
  {
    if |rs| == 0 then Success("")
    else
      var head :- SerializeRestriction(same, rs[0]);
      if |rs| == 1 then Success(head)
      else
        var tail :- SerializeRestrictions(same, rs[1..]);
        assert forall i :: 1 <= i < |rs| ==> rs[i] == rs[1..][i - 1];
        Success(head + ("," + tail))
  }

  /** `serializeRange`: a recommended version wins and prints as its own
      text; otherwise the restrictions. */
  function SerializeRange(same: SameVersion, v: VersionRange): (s: Result<string, RenderError>)
    ensures v.recommended.Some? ==> s == Success(v.recommended.value.text)
    ensures v.recommended.None? ==> s == SerializeRestrictions(same, v.restrictions)
  {
    if v.recommended.Some? then Success(v.recommended.value.text)
    else SerializeRestrictions(same, v.restrictions)
  }

  /** A Gson element: only primitives carry a string. */
  datatype Json = JsonPrimitive(text: string) | JsonNull | JsonArray | JsonObject

  datatype ParseError = ParseError(message: string)

  /** `serialize`: the rendered range wrapped as one JSON string primitive. */
  function Serialize(same: SameVersion, v: VersionRange): (j: Result<Json, RenderError>)
    ensures j.Success? ==> j.value.JsonPrimitive? && Success(j.value.text) == SerializeRange(same, v)
    ensures j.Failure? <==> SerializeRange(same, v).Failure?
  {
    var s :- SerializeRange(same, v);
    Success(JsonPrimitive(s))
  }

  /** `deserialize`: a primitive's text goes to `createFromVersionSpec` (the
      version library, a parameter here); anything else, or a spec the
      library refuses, is a parse error. */
  function Deserialize(createFromVersionSpec: string -> Option<VersionRange>, j: Json): (r: Result<VersionRange, ParseError>)
    ensures !j.JsonPrimitive? ==> r == Failure(ParseError("Expected a string or primitive value"))
    ensures j.JsonPrimitive? && createFromVersionSpec(j.text).None? ==>
      r == Failure(ParseError("Failed to parse version spec from: " + j.text))
    ensures r.Success? ==> j.JsonPrimitive? && createFromVersionSpec(j.text) == Some(r.value)
  {
    if !j.JsonPrimitive? then Failure(ParseError("Expected a string or primitive value"))
    else match createFromVersionSpec(j.text)
      case None => Failure(ParseError("Failed to parse version spec from: " + j.text))
      case Some(v) => Success(v)
  }

  // ---------------------------------------------------------------------
  // A reader for the rendered restriction syntax, the partner of the
  // renderer: it shows the rendering loses nothing.

  /** Characters the rendering uses as punctuation. */
  predicate Punctuation(c: char) { c in "[](),"  }

  /** A version text that reads back as one token. */
  predicate Plain(t: string) {
    |t| > 0 && forall k :: 0 <= k < |t| ==> !Punctuation(t[k])
  }

  /** The longest prefix of `s` without punctuation, and what follows. */
  function ReadToken(s: string): (r: (string, string))
    ensures r.0 + r.1 == s
    ensures r.1 != [] ==> Punctuation(r.1[0])
  {
    if s == [] || Punctuation(s[0]) then ("", s)
    else
      var (t, rest) := ReadToken(s[1..]);
      ([s[0]] + t, rest)
  }

  function OptionalVersion(t: string): Option<ArtifactVersion> {
    if t == "" then None else Some(ArtifactVersion(t))
  }

  /** One restriction at the start of `s`, and the text after it. */
  function ReadRestriction(s: string): Option<(Restriction, string)> {
    if s == [] || s[0] !in "[(" then None
    else
      var (t1, r1) := ReadToken(s[1..]);
      if r1 == [] then None
      else if r1[0] in "])" then
        if t1 == "" then None
        else Some((Restriction(Some(ArtifactVersion(t1)), s[0] == '[', Some(ArtifactVersion(t1)), r1[0] == ']'), r1[1..]))
      else if r1[0] == ',' then
        var (t2, r2) := ReadToken(r1[1..]);
        if r2 == [] || r2[0] !in "])" then None
        else Some((Restriction(OptionalVersion(t1), s[0] == '[', OptionalVersion(t2), r2[0] == ']'), r2[1..]))
      else None
  }

  /** A non-empty comma-separated list of restrictions filling `s`. */
  function ReadRestrictions(s: string): Option<seq<Restriction>>
    decreases |s|
  {
    match ReadRestriction(s)
    case None => None
    case Some((r, rest)) =>
      if rest == [] then Some([r])
      else if rest[0] == ',' && |rest| < |s| then
        match ReadRestrictions(rest[1..])
        case None => None
        case Some(rs) => Some([r] + rs)
      else None
  }

  /** Reads a rendered range: bracketed text is a restriction list, other
      non-empty text a recommended version, and the empty text no
      restriction at all. */
  function ReadRange(s: string): VersionRange {
    if s == [] then VersionRange(None, [])
    else if s[0] in "[(" then
      match ReadRestrictions(s)
      case Some(rs) => VersionRange(None, rs)
      case None => VersionRange(None, [])
    else VersionRange(Some(ArtifactVersion(s)), [])
  }

  /** A restriction the renderer can write and the reader can tell apart:
      a lower bound, plain version texts, and `equals` on its two bounds
      agreeing with identity. */
  predicate Renderable(same: SameVersion, r: Restriction) {
    r.lower.Some? && Plain(r.lower.value.text)
    && (r.upper.Some? ==>
          Plain(r.upper.value.text) && (same(r.lower.value, r.upper.value) <==> r.lower == r.upper))
  }

  lemma {:induction false} ReadPlainToken(t: string, rest: string)
    requires (forall k :: 0 <= k < |t| ==> !Punctuation(t[k]))
    requires rest != [] && Punctuation(rest[0])
    ensures ReadToken(t + rest) == (t, rest)
  {
    if t != [] {
      assert (t + rest)[0] == t[0];
      assert (t + rest)[1..] == t[1..] + rest;
      assert forall k :: 0 <= k < |t[1..]| ==> t[1..][k] == t[k + 1];
      assert !Punctuation(t[0]);
      ReadPlainToken(t[1..], rest);
      assert [t[0]] + t[1..] == t;
    } else {
      assert t + rest == rest;
    }
  }

  /** `[a]`-style text reads as a restriction with both bounds `a`. */
  lemma {:induction false} ReadSingle(lo: string, li: bool, ui: bool, rest: string)
    requires Plain(lo)
    ensures ReadRestriction([OpenChar(li)] + lo + [CloseChar(ui)] + rest)
      == Some((Restriction(Some(ArtifactVersion(lo)), li, Some(ArtifactVersion(lo)), ui), rest))
  {
    var s := [OpenChar(li)] + lo + [CloseChar(ui)] + rest;
    var close := [CloseChar(ui)] + rest;
    assert s[1..] == lo + close;
    ReadPlainToken(lo, close);
  }

  /** `[a,b]`-style text reads as a restriction with those bounds, an empty
      side being absent. */
  lemma {:induction false} ReadPair(lo: string, hi: string, li: bool, ui: bool, rest: string)
    requires Plain(lo) && (hi == "" || Plain(hi))
    ensures ReadRestriction([OpenChar(li)] + (lo + ([','] + (hi + ([CloseChar(ui)] + rest)))))
      == Some((Restriction(Some(ArtifactVersion(lo)), li, OptionalVersion(hi), ui), rest))
  {
    var close := [CloseChar(ui)] + rest;
    var tail := [','] + (hi + close);
    var s := [OpenChar(li)] + (lo + tail);
    assert s[1..] == lo + tail;
    ReadPlainToken(lo, tail);
    assert tail[1..] == hi + close;
    ReadPlainToken(hi, close);
  }

  /** The reader takes one rendered restriction back off any text that
      follows it. */
  lemma {:induction false} ReadRendered(same: SameVersion, r: Restriction, rest: string)
    requires Renderable(same, r)
    ensures SerializeRestriction(same, r).Success?
    ensures ReadRestriction(SerializeRestriction(same, r).value + rest) == Some((r, rest))
  {
    var lo := r.lower.value.text;
    if r.upper.Some? && same(r.lower.value, r.upper.value) {
      ReadSingle(lo, r.lowerInclusive, r.upperInclusive, rest);
    } else {
      var hi := BoundText(r.upper);
      assert OptionalVersion(hi) == r.upper;
      assert SerializeRestriction(same, r).value + rest
        == [OpenChar(r.lowerInclusive)] + (lo + ([','] + (hi + ([CloseChar(r.upperInclusive)] + rest))));
      ReadPair(lo, hi, r.lowerInclusive, r.upperInclusive, rest);
    }
  }

  /** A restriction followed by `,` and a readable list reads as one list. */
  lemma {:induction false} ReadCons(text: string, r: Restriction, tail: string, rs: seq<Restriction>)
    requires ReadRestriction(text) == Some((r, "," + tail))
    requires ReadRestrictions(tail) == Some(rs)
    requires |tail| + 1 < |text|
    ensures ReadRestrictions(text) == Some([r] + rs)
  {
    assert ("," + tail)[1..] == tail;
  }

  /** The rendering of two or more restrictions is the first one's, a comma,
      and the rest's. */
  lemma {:induction false} SerializeCons(same: SameVersion, rs: seq<Restriction>)
    requires |rs| > 1 && SerializeRestrictions(same, rs).Success?
    ensures SerializeRestriction(same, rs[0]).Success? && SerializeRestrictions(same, rs[1..]).Success?
    ensures SerializeRestrictions(same, rs).value
      == SerializeRestriction(same, rs[0]).value + ("," + SerializeRestrictions(same, rs[1..]).value)
  {
  }

  /** Reading back the rendering of renderable restrictions gives them
      back, in order. */
  lemma {:induction false} ReadRenderedRestrictions(same: SameVersion, rs: seq<Restriction>)
    requires |rs| > 0
    requires forall i :: 0 <= i < |rs| ==> Renderable(same, rs[i])
    ensures SerializeRestrictions(same, rs).Success?
    ensures ReadRestrictions(SerializeRestrictions(same, rs).value) == Some(rs)
  {
    if |rs| > 1 {
      assert forall i :: 0 <= i < |rs| - 1 ==> rs[1..][i] == rs[i + 1];
      ReadRenderedRestrictions(same, rs[1..]);
      ReadRenderedCons(same, rs);
    } else {
      var head := SerializeRestriction(same, rs[0]);
      ReadRendered(same, rs[0], "");
      assert head.value + "" == head.value;
      assert SerializeRestrictions(same, rs).value == head.value;
      assert rs == [rs[0]];
    }
  }

  /** One more renderable restriction in front of a list that reads back
      reads back too. */
  lemma {:induction false} ReadRenderedCons(same: SameVersion, rs: seq<Restriction>)
    requires |rs| > 1 && Renderable(same, rs[0])
    requires SerializeRestrictions(same, rs[1..]).Success?
    requires ReadRestrictions(SerializeRestrictions(same, rs[1..]).value) == Some(rs[1..])
    ensures SerializeRestrictions(same, rs).Success?
    ensures ReadRestrictions(SerializeRestrictions(same, rs).value) == Some(rs)
  {
    var tail := SerializeRestrictions(same, rs[1..]).value;
    ReadRendered(same, rs[0], "," + tail);
    SerializeCons(same, rs);
    ReadCons(SerializeRestrictions(same, rs).value, rs[0], tail, rs[1..]);
    assert [rs[0]] + rs[1..] == rs;
  }

  /** The rendering is lossless: a range with no recommended version and
      renderable restrictions reads back as itself, and a recommended
      version reads back as the recommended version. */
  lemma {:induction false} ReadSerializedRange(same: SameVersion, v: VersionRange)
    requires v.recommended.None? ==> forall i :: 0 <= i < |v.restrictions| ==> Renderable(same, v.restrictions[i])
    requires v.recommended.Some? ==> Plain(v.recommended.value.text) && v.recommended.value.text[0] !in "[("
    requires v.recommended.Some? ==> v.restrictions == []
    ensures SerializeRange(same, v).Success?
    ensures ReadRange(SerializeRange(same, v).value) == v
  {
    if v.recommended.None? && |v.restrictions| > 0 {
      ReadRenderedRestrictions(same, v.restrictions);
    }
  }

  /** Serialising and deserialising with a library that reads specs as the
      reader above does gives the range back. */
  lemma {:induction false} JsonRoundTrip(same: SameVersion, createFromVersionSpec: string -> Option<VersionRange>, v: VersionRange)
    requires v.recommended.None? && v.restrictions != []
    requires forall i :: 0 <= i < |v.restrictions| ==> Renderable(same, v.restrictions[i])
    requires forall s :: createFromVersionSpec(s) == Some(ReadRange(s))
    ensures Serialize(same, v).Success?
    ensures Deserialize(createFromVersionSpec, Serialize(same, v).value) == Success(v)
  {
    ReadSerializedRange(same, v);
  }

  /** A restriction with no lower bound cannot be written, wherever it
      sits in the range. */
  lemma {:induction false} NullLowerBoundFails(same: SameVersion, v: VersionRange, i: nat)
    requires v.recommended.None? && i < |v.restrictions| && v.restrictions[i].lower.None?
    ensures SerializeRange(same, v) == Failure(NullLowerBound)
  {
    NullLowerBoundFailsFrom(same, v.restrictions, i);
  }

  lemma {:induction false} NullLowerBoundFailsFrom(same: SameVersion, rs: seq<Restriction>, i: nat)
    requires i < |rs| && rs[i].lower.None?
    ensures SerializeRestrictions(same, rs) == Failure(NullLowerBound)
  {
    if i > 0 {
      assert rs[1..][i - 1] == rs[i];
      NullLowerBoundFailsFrom(same, rs[1..], i - 1);
    }
  }
}
