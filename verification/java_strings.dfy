/** The handful of `java.lang.String` operations the filesystem code relies on,
    with their exact Java semantics: `split` on a one-character pattern drops
    trailing empty strings, `replace` rewrites left to right without overlap,
    `String.join`, `lastIndexOf`, `startsWith`, `endsWith`, `contains`. */
module JavaStrings {

  predicate StartsWith(s: string, t: string) {
    |t| <= |s| && s[..|t|] == t
  }

  predicate EndsWith(s: string, t: string) {
    |t| <= |s| && s[|s| - |t|..] == t
  }

  /** `s.contains(t)`: some position of `s` starts an occurrence of `t`. */
  predicate Contains(s: string, t: string)
    decreases |s|
  {
    StartsWith(s, t) || (|s| > 0 && Contains(s[1..], t))
  }

  /** Every piece of `s` between occurrences of `c`, empty pieces included. */
  function Pieces(s: string, c: char): (r: seq<string>)
    ensures |r| >= 1
    ensures forall i :: 0 <= i < |r| ==> c !in r[i]
    ensures forall i, x :: 0 <= i < |r| && x in r[i] ==> x in s
    decreases |s|
  {
    if s == [] then [""]
    else
      var rest := Pieces(s[1..], c);
      assert forall x :: x in s[1..] ==> x in s;
      if s[0] == c then [""] + rest
      else [[s[0]] + rest[0]] + rest[1..]
  }

  /** Removes the empty strings at the end of `ps` (and nothing else). */
  function DropTrailingEmpty(ps: seq<string>): (r: seq<string>)
    ensures |r| <= |ps| && r == ps[..|r|]
    ensures |r| > 0 ==> r[|r| - 1] != ""
    ensures forall i :: |r| <= i < |ps| ==> ps[i] == ""
  {
    if |ps| == 0 then []
    else if ps[|ps| - 1] == "" then DropTrailingEmpty(ps[..|ps| - 1])
    else ps
  }

  /** `s.split(c)` for a one-character, non-special pattern: no match yields
      `[s]` (so `""` splits to `[""]`); otherwise trailing empty pieces go. */
  function Split(s: string, c: char): (r: seq<string>)
    ensures c in s ==> forall i :: 0 <= i < |r| ==> c !in r[i]
    ensures forall i, x :: 0 <= i < |r| && x in r[i] ==> x in s
  {
    if c !in s then [s] else DropTrailingEmpty(Pieces(s, c))
  }

  /** `String.join(sep, parts)`. */
  function Join(parts: seq<string>, sep: string): string
  {
    if |parts| == 0 then ""
    else if |parts| == 1 then parts[0]
    else parts[0] + sep + Join(parts[1..], sep)
  }

  /** `s.replace(pat, rep)`: every non-overlapping occurrence, scanning left to right. */
  function ReplaceAll(s: string, pat: string, rep: string): string
    requires |pat| > 0
    decreases |s|
  {
    if |s| < |pat| then s
    else if s[..|pat|] == pat then rep + ReplaceAll(s[|pat|..], pat, rep)
    else [s[0]] + ReplaceAll(s[1..], pat, rep)
  }

  /** `t` occurs in `s` starting at position `j`. */
  predicate OccursAt(s: string, t: string, j: int) {
    0 <= j && j + |t| <= |s| && s[j..j + |t|] == t
  }

  /** Greatest `j <= k` at which `t` occurs in `s`, or -1. */
  function LastIndexAtOrBelow(s: string, t: string, k: int): (r: int)
    requires k <= |s| - |t|
    ensures r == -1 || (0 <= r <= k && OccursAt(s, t, r))
    ensures forall j :: r < j <= k ==> !OccursAt(s, t, j)
    decreases k + 1
  {
    if k < 0 then -1
    else if s[k..k + |t|] == t then k
    else LastIndexAtOrBelow(s, t, k - 1)
  }

  /** `s.lastIndexOf(t)`: the last position where `t` occurs, or -1. */
  function LastIndexOf(s: string, t: string): (r: int)
    ensures r == -1 || OccursAt(s, t, r)
    ensures forall j :: r < j ==> !OccursAt(s, t, j)
  {
    LastIndexAtOrBelow(s, t, |s| - |t|)
  }

  // ---------------------------------------------------------------------
  // Join and Pieces are inverse to each other.

  lemma {:induction false} JoinCons(a: string, t: seq<string>, sep: string)
    requires |t| >= 1
    ensures Join([a] + t, sep) == a + sep + Join(t, sep)
  {
    assert ([a] + t)[1..] == t;
  }

  lemma {:induction false} JoinPieces(s: string, c: char)
    ensures Join(Pieces(s, c), [c]) == s
    decreases |s|
  {
    if s != [] {
      var rest := Pieces(s[1..], c);
      JoinPieces(s[1..], c);
      if s[0] == c {
        JoinCons("", rest, [c]);
        assert s == [c] + s[1..];
      } else {
        if |rest| == 1 {
          assert Pieces(s, c) == [[s[0]] + rest[0]];
        } else {
          JoinCons([s[0]] + rest[0], rest[1..], [c]);
          JoinCons(rest[0], rest[1..], [c]);
          assert rest == [rest[0]] + rest[1..];
        }
        assert s == [s[0]] + s[1..];
      }
    }
  }

  lemma {:induction false} PiecesWithout(a: string, c: char)
    requires c !in a
    ensures Pieces(a, c) == [a]
    decreases |a|
  {
    if a != [] {
      PiecesWithout(a[1..], c);
      assert a == [a[0]] + a[1..];
    }
  }

  lemma {:induction false} PiecesAfterFirst(a: string, b: string, c: char)
    requires c !in a
    ensures Pieces(a + [c] + b, c) == [a] + Pieces(b, c)
    decreases |a|
  {
    var s := a + [c] + b;
    if a == [] {
      assert s[1..] == b;
    } else {
      assert s[1..] == a[1..] + [c] + b;
      PiecesAfterFirst(a[1..], b, c);
      assert [a[0]] + a[1..] == a;
    }
  }

  /** Splitting the join of separator-free pieces gives the pieces back. */
  lemma {:induction false} PiecesJoin(parts: seq<string>, c: char)
    requires |parts| >= 1
    requires forall i :: 0 <= i < |parts| ==> c !in parts[i]
    ensures Pieces(Join(parts, [c]), c) == parts
    decreases |parts|
  {
    if |parts| == 1 {
      PiecesWithout(parts[0], c);
    } else {
      PiecesJoin(parts[1..], c);
      PiecesAfterFirst(parts[0], Join(parts[1..], [c]), c);
      assert parts == [parts[0]] + parts[1..];
    }
  }

  lemma {:induction false} JoinHasNo(parts: seq<string>, c: char)
    requires forall i :: 0 <= i < |parts| ==> c !in parts[i]
    ensures |parts| <= 1 ==> c !in Join(parts, [c])
    ensures |parts| >= 2 ==> c in Join(parts, [c])
  {
    if |parts| >= 2 {
      assert Join(parts, [c])[|parts[0]|] == c;
    }
  }

  /** Java's split undoes String.join when no piece holds the separator and
      the last piece is not empty (or there is only one piece). */
  lemma {:induction false} SplitJoin(parts: seq<string>, c: char)
    requires |parts| >= 1
    requires forall i :: 0 <= i < |parts| ==> c !in parts[i]
    requires |parts| >= 2 ==> parts[|parts| - 1] != ""
    ensures Split(Join(parts, [c]), c) == parts
  {
    JoinHasNo(parts, c);
    if |parts| >= 2 {
      PiecesJoin(parts, c);
    }
  }

  lemma {:induction false} JoinAppend(a: seq<string>, b: seq<string>, sep: string)
    requires |a| >= 1 && |b| >= 1
    ensures Join(a + b, sep) == Join(a, sep) + sep + Join(b, sep)
    decreases |a|
  {
    if |a| == 1 {
      JoinCons(a[0], b, sep);
      assert a + b == [a[0]] + b;
    } else {
      JoinAppend(a[1..], b, sep);
      assert (a + b)[1..] == a[1..] + b;
    }
  }

  /** A join ends with the last character of its last part. */
  lemma {:induction false} JoinEndsWithLast(parts: seq<string>, sep: string)
    requires |parts| >= 1 && |parts[|parts| - 1]| > 0
    ensures var j := Join(parts, sep); var l := parts[|parts| - 1];
      |j| > 0 && j[|j| - 1] == l[|l| - 1]
    decreases |parts|
  {
    if |parts| >= 2 {
      JoinEndsWithLast(parts[1..], sep);
      assert parts[1..][|parts[1..]| - 1] == parts[|parts| - 1];
    }
  }

  // ---------------------------------------------------------------------
  // Facts about Pieces and Split used by the path parser.

  /** A string holding some character other than `c` has a non-empty piece. */
  lemma {:induction false} PiecesHasNonEmpty(s: string, c: char, k: nat)
    requires k < |s| && s[k] != c
    ensures exists j :: 0 <= j < |Pieces(s, c)| && Pieces(s, c)[j] != ""
    decreases |s|
  {
    var rest := Pieces(s[1..], c);
    if s[0] != c {
      assert Pieces(s, c)[0] != "";
    } else {
      PiecesHasNonEmpty(s[1..], c, k - 1);
      var j :| 0 <= j < |rest| && rest[j] != "";
      assert Pieces(s, c)[j + 1] == rest[j];
    }
  }

  /** Split keeps something as soon as the string holds a non-separator. */
  lemma {:induction false} SplitNonEmpty(s: string, c: char, k: nat)
    requires k < |s| && s[k] != c
    ensures |Split(s, c)| > 0
  {
    if c in s {
      PiecesHasNonEmpty(s, c, k);
    }
  }

  lemma {:induction false} PiecesPrefixSep(b: string, c: char)
    ensures Pieces([c] + b, c) == [""] + Pieces(b, c)
  {
    assert ([c] + b)[1..] == b;
  }

  /** `s.replace(a, b)` for a one-character pattern: every `a` becomes `b`. */
  function ReplaceChar(s: string, a: char, b: char): (r: string)
    decreases |s|
  {
    if s == [] then [] else [if s[0] == a then b else s[0]] + ReplaceChar(s[1..], a, b)
  }

  /** Replacing one character by another is position-wise substitution. */
  lemma {:induction false} ReplaceCharAt(s: string, a: char, b: char)
    ensures |ReplaceChar(s, a, b)| == |s|
    ensures forall i :: 0 <= i < |s| ==> ReplaceChar(s, a, b)[i] == (if s[i] == a then b else s[i])
    decreases |s|
  {
    if |s| >= 1 {
      ReplaceCharAt(s[1..], a, b);
    }
  }

  /** The character replacement is the general replacement with a
      one-character pattern and replacement. */
  lemma {:induction false} ReplaceCharIsReplaceAll(s: string, a: char, b: char)
    ensures ReplaceChar(s, a, b) == ReplaceAll(s, [a], [b])
    decreases |s|
  {
    if |s| >= 1 {
      ReplaceCharIsReplaceAll(s[1..], a, b);
      assert s[..1] == [s[0]];
    }
  }

  lemma {:induction false} ReplaceCharNoop(s: string, a: char, b: char)
    requires a !in s
    ensures ReplaceChar(s, a, b) == s
    decreases |s|
  {
    if s != [] {
      ReplaceCharNoop(s[1..], a, b);
    }
  }

  // ---------------------------------------------------------------------
  // Facts about ReplaceAll.

  /** Replacing one character by another: position-wise substitution. */
  lemma {:induction false} ReplaceCharPointwise(s: string, a: char, b: char)
    ensures |ReplaceAll(s, [a], [b])| == |s|
    ensures forall i :: 0 <= i < |s| ==>
      ReplaceAll(s, [a], [b])[i] == (if s[i] == a then b else s[i])
    decreases |s|
  {
    if |s| >= 1 {
      ReplaceCharPointwise(s[1..], a, b);
    }
  }

  lemma {:induction false} ReplaceCharAbsent(s: string, a: char, b: char)
    requires a !in s
    ensures ReplaceAll(s, [a], [b]) == s
  {
    ReplaceCharPointwise(s, a, b);
  }

  /** No two consecutive slashes: the shape `String.replace("//", "/")` leaves alone. */
  predicate NoDoubleSlash(s: string)
    decreases |s|
  {
    |s| < 2 || ((s[0] != '/' || s[1] != '/') && NoDoubleSlash(s[1..]))
  }

  lemma {:induction false} ReplaceDoubleSlashNoop(s: string)
    requires NoDoubleSlash(s)
    ensures ReplaceAll(s, "//", "/") == s
    decreases |s|
  {
    if |s| >= 2 {
      assert s[..2] == [s[0], s[1]];
      ReplaceDoubleSlashNoop(s[1..]);
      assert s == [s[0]] + s[1..];
    }
  }

  lemma {:induction false} NoDoubleSlashConcat(a: string, b: string)
    requires NoDoubleSlash(a) && NoDoubleSlash(b)
    requires |a| > 0 && |b| > 0 ==> a[|a| - 1] != '/' || b[0] != '/'
    ensures NoDoubleSlash(a + b)
    decreases |a|
  {
    if |a| >= 1 {
      NoDoubleSlashConcat(a[1..], b);
      assert (a + b)[1..] == a[1..] + b;
      assert (a + b)[0] == a[0];
      if |a| >= 2 {
        assert (a + b)[1] == a[1];
      } else if |b| > 0 {
        assert (a + b)[1] == b[0];
      }
    } else {
      assert a + b == b;
    }
  }

  lemma {:induction false} NoDoubleSlashWithout(s: string)
    requires '/' !in s
    ensures NoDoubleSlash(s)
    decreases |s|
  {
    if |s| >= 2 {
      assert s[1..][0] == s[1];
      NoDoubleSlashWithout(s[1..]);
    }
  }

  /** The replacement leaves `s` unchanged when the pattern does not occur. */
  lemma {:induction false} ReplaceAllAbsent(s: string, pat: string, rep: string)
    requires |pat| > 0
    requires !Contains(s, pat)
    ensures ReplaceAll(s, pat, rep) == s
    decreases |s|
  {
    if |s| >= |pat| {
      ReplaceAllAbsent(s[1..], pat, rep);
      assert s == [s[0]] + s[1..];
    }
  }

  /** A one-character `contains` is sequence membership. */
  lemma {:induction false} ContainsChar(s: string, c: char)
    ensures Contains(s, [c]) <==> c in s
    decreases |s|
  {
    if |s| > 0 {
      ContainsChar(s[1..], c);
      assert s == [s[0]] + s[1..];
    }
  }
  /** `lastIndexOf` of a one-character string: -1 exactly when the character
      is absent, otherwise a position of it with none after. */
  lemma {:induction false} LastIndexOfChar(s: string, c: char)
    ensures var r := LastIndexOf(s, [c]);
      (r == -1 <==> c !in s) && (r != -1 ==> 0 <= r < |s| && s[r] == c && c !in s[r + 1..])
  {
    var r := LastIndexOf(s, [c]);
    forall j | 0 <= j < |s| && s[j] == c ensures j <= r {
      assert s[j..j + 1] == [c];
      assert OccursAt(s, [c], j);
    }
    if r != -1 {
      assert s[r..r + 1] == [c];
      assert s[r] == c;
      var tail := s[r + 1..];
      forall k | 0 <= k < |tail| ensures tail[k] != c {
        assert tail[k] == s[r + 1 + k];
      }
    }
  }

  /** A character absent from the pieces and the separator is absent from the join. */
  lemma {:induction false} JoinAvoids(parts: seq<string>, sep: string, c: char)
    requires c !in sep
    requires forall i :: 0 <= i < |parts| ==> c !in parts[i]
    ensures c !in Join(parts, sep)
    decreases |parts|
  {
    if |parts| > 1 {
      JoinAvoids(parts[1..], sep, c);
    }
  }

  /** Replacing never introduces a character that neither the text nor the
      replacement holds. */
  lemma {:induction false} ReplaceAllAvoids(s: string, pat: string, rep: string, c: char)
    requires |pat| > 0 && c !in s && c !in rep
    ensures c !in ReplaceAll(s, pat, rep)
    decreases |s|
  {
    if |s| >= |pat| {
      ReplaceAllAvoids(s[|pat|..], pat, rep, c);
      ReplaceAllAvoids(s[1..], pat, rep, c);
    }
  }

  /** An occurrence of `t` puts its first character in `s`. */
  lemma {:induction false} ContainsHead(s: string, t: string)
    requires |t| > 0 && Contains(s, t)
    ensures t[0] in s
    decreases |s|
  {
    if !StartsWith(s, t) {
      ContainsHead(s[1..], t);
    } else {
      assert s[0] == s[..|t|][0];
    }
  }

  /** `contains` finds an occurrence, so `lastIndexOf` is not -1. */
  lemma {:induction false} ContainsOccurs(s: string, t: string)
    requires Contains(s, t)
    ensures exists j :: OccursAt(s, t, j)
    ensures LastIndexOf(s, t) >= 0
    decreases |s|
  {
    if StartsWith(s, t) {
      assert OccursAt(s, t, 0);
    } else {
      ContainsOccurs(s[1..], t);
      var j :| OccursAt(s[1..], t, j);
      assert s[1..][j..j + |t|] == s[j + 1..j + 1 + |t|];
      assert OccursAt(s, t, j + 1);
    }
  }
}
