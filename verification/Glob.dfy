/**
 The glob translation of vuoro_knowledge/catalog.py: a pattern becomes a regular expression over the whole
 path, and means what matching segment by segment means.
 */
module Glob {
  const SLASH := '/'
  const STARS := "**"

  /******* The translation *******/

  datatype Piece =
    | Dirs              // (?:.*/)?
    | Anything          // .*
    | Run               // [^/]*
    | One               // [^/]
    | Literal(c: char)

  predicate Starts(s: string, i: nat, word: string)
    requires i <= |s|
  {
    i + |word| <= |s| && s[i..i + |word|] == word
  }

  function CharPiece(c: char): Piece { if c == '*' then Run else if c == '?' then One else Literal(c) }

  function Pieces(pattern: string): seq<Piece>
    decreases |pattern|
  {
    if pattern == [] then []
    else if Starts(pattern, 0, "**/") then [Dirs] + Pieces(pattern[3..])
    else if Starts(pattern, 0, "**") then [Anything] + Pieces(pattern[2..])
    else [CharPiece(pattern[0])] + Pieces(pattern[1..])
  }

  method Translate(pattern: string) returns (out: seq<Piece>)
    ensures out == Pieces(pattern)
  {
    out := [];
    var i := 0;
    assert pattern[0..] == pattern && forall more: seq<Piece> :: [] + more == more;
    while i < |pattern|
      invariant 0 <= i <= |pattern|
      invariant Pieces(pattern) == out + Pieces(pattern[i..])
    {
      PiecesStep(pattern, i, out);
      if Starts(pattern, i, "**/") {
        out := out + [Dirs];
        i := i + 3;
      } else if Starts(pattern, i, "**") {
        out := out + [Anything];
        i := i + 2;
      } else if pattern[i] == '*' {
        out := out + [Run];
        i := i + 1;
      } else if pattern[i] == '?' {
        out := out + [One];
        i := i + 1;
      } else {
        out := out + [Literal(pattern[i])];
        i := i + 1;
      }
    }
    assert pattern[i..] == [] && out + [] == out;
  }

  lemma PiecesStep(pattern: string, i: nat, out: seq<Piece>)
    requires i < |pattern|
    ensures out + Pieces(pattern[i..]) ==
      if Starts(pattern, i, "**/") then (out + [Dirs]) + Pieces(pattern[i + 3..])
      else if Starts(pattern, i, "**") then (out + [Anything]) + Pieces(pattern[i + 2..])
      else (out + [CharPiece(pattern[i])]) + Pieces(pattern[i + 1..])
  {
    var s := pattern[i..];
    assert |s| >= 3 ==> s[0..3] == pattern[i..i + 3] && s[3..] == pattern[i + 3..];
    assert |s| >= 2 ==> s[0..2] == pattern[i..i + 2] && s[2..] == pattern[i + 2..];
    assert s[1..] == pattern[i + 1..];
  }

  /******* The regular expression *******/

  predicate Lacks(s: string, c: char) { forall i :: 0 <= i < |s| ==> s[i] != c }

  predicate PieceMatches(p: Piece, s: string) {
    match p
    case Dirs => s == [] || (s[|s| - 1] == SLASH && Lacks(s[..|s| - 1], '\n'))
    case Anything => Lacks(s, '\n')
    case Run => Lacks(s, SLASH)
    case One => |s| == 1 && s[0] != SLASH
    case Literal(c) => s == [c]
  }

  // The pieces match the whole string, one after the other.
  predicate Matches(ps: seq<Piece>, s: string)
    decreases |ps|
  {
    if ps == [] then s == []
    else exists k :: 0 <= k <= |s| && PieceMatches(ps[0], s[..k]) && Matches(ps[1..], s[k..])
  }

  /******* Segments *******/

  function Split(s: string): (r: seq<string>)
    ensures r != []
  {
    if s == [] then [[]]
    else
      var r := Split(s[1..]);
      if s[0] == SLASH then [[]] + r else [[s[0]] + r[0]] + r[1..]
  }

  function Glue(segments: seq<string>): string
    requires segments != []
  {
    if |segments| == 1 then segments[0] else segments[0] + ([SLASH] + Glue(segments[1..]))
  }

  predicate Segments(segments: seq<string>) {
    segments != [] && forall i :: 0 <= i < |segments| ==> Lacks(segments[i], SLASH)
  }

  lemma GlueEmpty(r: seq<string>)
    requires Segments(r)
    ensures Segments([[]] + r) && Glue([[]] + r) == [SLASH] + Glue(r)
  {
    assert ([[]] + r)[1..] == r;
  }

  lemma GlueLonger(c: char, r: seq<string>)
    requires Segments(r) && c != SLASH
    ensures Segments([[c] + r[0]] + r[1..]) && Glue([[c] + r[0]] + r[1..]) == [c] + Glue(r)
  {
    hide Glue, Lacks;
    LongerSegments(c, r);
    var s := [c] + r[0];
    if |r| == 1 {
      assert r == [r[0]] && [s] + r[1..] == [s];
      GlueOne(s);
      GlueOne(r[0]);
    } else {
      assert r == [r[0]] + r[1..];
      GlueTwo(s, r[1..]);
      GlueTwo(r[0], r[1..]);
      var rest := [SLASH] + Glue(r[1..]);
      assert ([c] + r[0]) + rest == [c] + (r[0] + rest);
    }
  }

  lemma GlueOne(s: string)
    ensures Glue([s]) == s
  {
  }

  lemma GlueTwo(s: string, rest: seq<string>)
    requires rest != []
    ensures Glue([s] + rest) == s + ([SLASH] + Glue(rest))
  {
    assert ([s] + rest)[1..] == rest;
  }

  lemma LongerSegments(c: char, r: seq<string>)
    requires Segments(r) && c != SLASH
    ensures Segments([[c] + r[0]] + r[1..])
  {
    hide Lacks;
    var t := [[c] + r[0]] + r[1..];
    forall i | 0 <= i < |t| ensures Lacks(t[i], SLASH) {
      if i == 0 {
        assert t[0][1..] == r[0];
        LacksStep(t[0], SLASH);
      } else {
        assert t[i] == r[i];
      }
    }
  }

  lemma {:induction false} SplitGlues(s: string)
    ensures Segments(Split(s)) && Glue(Split(s)) == s
  {
    if s != [] {
      SplitGlues(s[1..]);
      var r := Split(s[1..]);
      assert s == [s[0]] + s[1..];
      if s[0] == SLASH {
        GlueEmpty(r);
      } else {
        GlueLonger(s[0], r);
      }
    }
  }

  /******* What a pattern is meant to select *******/

  // * stands for any run of characters of a segment, ? for one of them.
  predicate Wild(pattern: string, segment: string)
    decreases |pattern| + |segment|
  {
    if pattern == [] then segment == []
    else if pattern[0] == '*' then Wild(pattern[1..], segment) || (segment != [] && Wild(pattern, segment[1..]))
    else segment != [] && (pattern[0] == '?' || pattern[0] == segment[0]) && Wild(pattern[1..], segment[1..])
  }

  predicate OneLine(segments: seq<string>) { forall i :: 0 <= i < |segments| ==> Lacks(segments[i], '\n') }

  // An inner ** spans zero or more segments and a final one spans one or more; anything else spans one.
  predicate Selects(pattern: seq<string>, path: seq<string>)
    decreases |pattern|
  {
    if pattern == [] then false
    else if |pattern| == 1 then
      if pattern[0] == STARS then path != [] && OneLine(path) else |path| == 1 && Wild(pattern[0], path[0])
    else if pattern[0] == STARS then
      exists k :: 0 <= k <= |path| && OneLine(path[..k]) && Selects(pattern[1..], path[k..])
    else path != [] && Wild(pattern[0], path[0]) && Selects(pattern[1..], path[1..])
  }

  predicate NoDouble(s: string) { forall i :: 0 <= i < |s| - 1 ==> !(s[i] == '*' && s[i + 1] == '*') }

  // Every ** is a whole segment.
  predicate WholeStars(segments: seq<string>) {
    forall i :: 0 <= i < |segments| ==> segments[i] == STARS || NoDouble(segments[i])
  }

  /******* The translation follows the segments *******/

  function PlainPieces(s: string): seq<Piece> {
    if s == [] then [] else [CharPiece(s[0])] + PlainPieces(s[1..])
  }

  function Compile(segments: seq<string>): seq<Piece>
    requires segments != []
  {
    if |segments| == 1 then (if segments[0] == STARS then [Anything] else PlainPieces(segments[0]))
    else if segments[0] == STARS then [Dirs] + Compile(segments[1..])
    else PlainPieces(segments[0]) + ([Literal(SLASH)] + Compile(segments[1..]))
  }

  // Where no two stars stand, the first character is translated by itself.
  lemma PiecesOfOne(t: string)
    requires t != [] && (t[0] == '*' && |t| > 1 ==> t[1] != '*')
    ensures Pieces(t) == [CharPiece(t[0])] + Pieces(t[1..])
  {
    assert |t| >= 2 ==> t[0..2][0] == t[0] && t[0..2][1] == t[1];
    assert |t| >= 3 ==> t[0..3][0] == t[0] && t[0..3][1] == t[1];
    assert !Starts(t, 0, "**") && !Starts(t, 0, "**/");
  }

  lemma {:induction false} PlainTranslates(s: string, tail: string)
    requires NoDouble(s) && Lacks(s, SLASH) && (tail != [] ==> tail[0] == SLASH)
    ensures Pieces(s + tail) == PlainPieces(s) + Pieces(tail)
  {
    hide Pieces;
    if s == [] {
      assert s + tail == tail;
    } else {
      var t := s + tail;
      assert t[0] == s[0] && t[1..] == s[1..] + tail;
      assert |t| > 1 ==> t[1] == if |s| > 1 then s[1] else tail[0];
      PiecesOfOne(t);
      PlainTranslates(s[1..], tail);
    }
  }

  lemma {:induction false} PiecesFollowSegments(segments: seq<string>)
    requires Segments(segments) && WholeStars(segments)
    ensures Pieces(Glue(segments)) == Compile(segments)
  {
    var s, g := segments[0], Glue(segments);
    if |segments| == 1 {
      if s == STARS {
        StarsEnd();
      } else {
        assert s + [] == s && PlainPieces(s) + [] == PlainPieces(s);
        PlainTranslates(s, []);
      }
    } else {
      var rest := segments[1..];
      PiecesFollowSegments(rest);
      var tail := [SLASH] + Glue(rest);
      if s == STARS {
        StarsThenSlash(Glue(rest));
      } else {
        PlainTranslates(s, tail);
        SlashTranslates(Glue(rest));
      }
    }
  }

  lemma StarsEnd()
    ensures Pieces(STARS) == [Anything]
  {
    assert STARS[0..2] == "**" && STARS[2..] == [];
  }

  lemma StarsThenSlash(rest: string)
    ensures Pieces(STARS + ([SLASH] + rest)) == [Dirs] + Pieces(rest)
  {
    var t := STARS + ([SLASH] + rest);
    assert t[0..3] == "**/" && t[3..] == rest;
  }

  lemma SlashTranslates(rest: string)
    ensures Pieces([SLASH] + rest) == [Literal(SLASH)] + Pieces(rest)
  {
    var t := [SLASH] + rest;
    assert t[0] == SLASH && t[1..] == rest;
    PiecesOfOne(t);
  }

  /******* Matching follows the segments *******/

  lemma MatchIntro(ps: seq<Piece>, s: string, k: nat)
    requires ps != [] && k <= |s| && PieceMatches(ps[0], s[..k]) && Matches(ps[1..], s[k..])
    ensures Matches(ps, s)
  {
  }

  lemma MatchElim(ps: seq<Piece>, s: string) returns (k: nat)
    requires ps != [] && Matches(ps, s)
    ensures k <= |s| && PieceMatches(ps[0], s[..k]) && Matches(ps[1..], s[k..])
  {
    k :| 0 <= k <= |s| && PieceMatches(ps[0], s[..k]) && Matches(ps[1..], s[k..]);
  }

  lemma MatchNothing(s: string)
    ensures Matches([], s) <==> s == []
  {
  }

  lemma {:induction false} MatchJoin(ps: seq<Piece>, qs: seq<Piece>, s: string, t: string)
    requires Matches(ps, s) && Matches(qs, t)
    ensures Matches(ps + qs, s + t)
    decreases |ps|
  {
    hide Matches, PieceMatches;
    if ps == [] {
      MatchNothing(s);
      assert ps + qs == qs && s + t == t;
    } else {
      var all, st := ps + qs, s + t;
      var k := MatchElim(ps, s);
      assert all[0] == ps[0] && all[1..] == ps[1..] + qs;
      assert st[..k] == s[..k] && st[k..] == s[k..] + t;
      MatchJoin(ps[1..], qs, s[k..], t);
      MatchIntro(all, st, k);
    }
  }

  lemma {:induction false} MatchSplit(ps: seq<Piece>, qs: seq<Piece>, s: string) returns (k: nat)
    requires Matches(ps + qs, s)
    ensures k <= |s| && Matches(ps, s[..k]) && Matches(qs, s[k..])
    decreases |ps|
  {
    hide Matches, PieceMatches;
    if ps == [] {
      k := 0;
      assert ps + qs == qs && s[..0] == [] && s[0..] == s;
      MatchNothing([]);
    } else {
      var all := ps + qs;
      assert all[0] == ps[0] && all[1..] == ps[1..] + qs;
      var j := MatchElim(all, s);
      var i := MatchSplit(ps[1..], qs, s[j..]);
      k := j + i;
      assert s[..k][..j] == s[..j] && s[..k][j..] == s[j..][..i] && s[j..][i..] == s[k..];
      MatchIntro(ps, s[..k], j);
    }
  }

  // A segment's pieces match what its wildcards stand for, and nothing with a slash.
  lemma {:induction false} PlainMatches(p: string, s: string)
    requires Lacks(p, SLASH)
    ensures Matches(PlainPieces(p), s) <==> Lacks(s, SLASH) && Wild(p, s)
    decreases |p| + |s|
  {
    if p == [] {
    } else {
      var rest := PlainPieces(p[1..]);
      assert PlainPieces(p)[0] == CharPiece(p[0]) && PlainPieces(p)[1..] == rest;
      if p[0] == '*' {
        StarMatches(p, s);
      } else {
        OneMatches(p, s);
      }
    }
  }

  lemma {:induction false} OneMatches(p: string, s: string)
    requires p != [] && Lacks(p, SLASH) && p[0] != '*'
    ensures Matches(PlainPieces(p), s) <==> Lacks(s, SLASH) && Wild(p, s)
    decreases |p| + |s|, 0
  {
    var ps, rest := PlainPieces(p), PlainPieces(p[1..]);
    assert ps[0] == CharPiece(p[0]) && ps[1..] == rest;
    if s != [] {
      PlainMatches(p[1..], s[1..]);
      assert s == [s[0]] + s[1..] && s[..1] == [s[0]];
      assert Lacks(s, SLASH) <==> s[0] != SLASH && Lacks(s[1..], SLASH) by { LacksStep(s, SLASH); }
    }
    forall k | 0 <= k <= |s| && PieceMatches(ps[0], s[..k]) ensures k == 1 {
      assert |s[..k]| == 1;
    }
    if s != [] && PieceMatches(ps[0], s[..1]) && Matches(rest, s[1..]) {
      assert Matches(ps, s);
    }
  }

  lemma LacksStep(s: string, c: char)
    requires s != []
    ensures Lacks(s, c) <==> s[0] != c && Lacks(s[1..], c)
  {
    if s[0] != c && Lacks(s[1..], c) {
      forall i | 0 <= i < |s| ensures s[i] != c {
        assert i > 0 ==> s[i] == s[1..][i - 1];
      }
    }
  }

  lemma WildStar(p: string, s: string)
    requires p != [] && p[0] == '*'
    ensures Wild(p, s) <==> Wild(p[1..], s) || (s != [] && Wild(p, s[1..]))
  {
  }

  lemma LacksNothing()
    ensures forall c :: Lacks([], c)
  {
  }

  lemma LacksTail(s: string, c: char)
    requires s != [] && Lacks(s, c)
    ensures Lacks(s[1..], c)
  {
  }

  lemma {:induction false} StarMatches(p: string, s: string)
    requires p != [] && Lacks(p, SLASH) && p[0] == '*'
    ensures Matches(PlainPieces(p), s) <==> Lacks(s, SLASH) && Wild(p, s)
    decreases |p| + |s|, 0
  {
    hide Matches, Wild, Lacks;
    WildStar(p, s);
    LacksNothing();
    LacksTail(p, SLASH);
    var ps, rest := PlainPieces(p), PlainPieces(p[1..]);
    assert ps[0] == Run && ps[1..] == rest;
    assert s[..0] == [] && s[0..] == s;
    PlainMatches(p[1..], s);
    if Matches(rest, s) {
      MatchIntro(ps, s, 0);
    }
    if s != [] {
      StarMatches(p, s[1..]);
      LacksStep(s, SLASH);
      var t := s[1..];
      if Matches(ps, s) && !Matches(rest, s) {
        var k := MatchElim(ps, s);
        assert k > 0 && t[..k - 1] == s[..k][1..] && t[k - 1..] == s[k..] && s[0] == s[..k][0];
        LacksStep(s[..k], SLASH);
        MatchIntro(ps, t, k - 1);
      }
      if s[0] != SLASH && Matches(ps, t) {
        var k := MatchElim(ps, t);
        assert s[..k + 1] == [s[0]] + t[..k] && s[k + 1..] == t[k..] && s[..k + 1][1..] == t[..k];
        LacksStep(s[..k + 1], SLASH);
        MatchIntro(ps, s, k + 1);
      }
    } else if Matches(ps, s) {
      var k := MatchElim(ps, s);
      assert s[k..] == s;
    }
  }

  lemma {:induction false} GlueConcat(a: seq<string>, b: seq<string>)
    requires a != [] && b != []
    ensures Glue(a + b) == Glue(a) + ([SLASH] + Glue(b))
  {
    if |a| == 1 {
      assert (a + b)[1..] == b;
    } else {
      assert (a + b)[1..] == a[1..] + b;
      GlueConcat(a[1..], b);
    }
  }

  // Every slash of a path is the end of one of its segments.
  lemma {:induction false} SlashIsBoundary(path: seq<string>, k: nat) returns (j: nat)
    requires Segments(path) && k < |Glue(path)| && Glue(path)[k] == SLASH
    ensures 1 <= j < |path| && Glue(path)[..k] == Glue(path[..j]) && Glue(path)[k + 1..] == Glue(path[j..])
  {
    var g, s := Glue(path), path[0];
    assert forall i :: 0 <= i < |s| ==> g[i] == s[i];
    assert k >= |s| && |path| > 1;
    var rest := path[1..];
    assert g == s + ([SLASH] + Glue(rest));
    if k == |s| {
      j := 1;
      assert path[..1] == [s] && g[..k] == s && g[k + 1..] == Glue(rest);
    } else {
      var i := SlashIsBoundary(rest, k - |s| - 1);
      j := i + 1;
      assert path[j..] == rest[i..] && g[k + 1..] == Glue(rest)[k - |s|..];
      assert path[..j] == [s] + rest[..i];
      GlueConcat([s], rest[..i]);
      assert g[..k] == s + ([SLASH] + Glue(rest)[..k - |s| - 1]);
    }
  }

  lemma {:induction false} GlueLines(path: seq<string>)
    requires path != []
    ensures Lacks(Glue(path), '\n') <==> OneLine(path)
  {
    var g, s := Glue(path), path[0];
    if |path| > 1 {
      var rest := path[1..];
      GlueLines(rest);
      LacksConcat(s, [SLASH] + Glue(rest), '\n');
      LacksStep([SLASH] + Glue(rest), '\n');
      if Lacks(s, '\n') && OneLine(rest) {
        forall i | 0 <= i < |path| ensures Lacks(path[i], '\n') {
          assert i > 0 ==> path[i] == rest[i - 1];
        }
      }
      if OneLine(path) {
        assert forall i :: 0 <= i < |rest| ==> rest[i] == path[i + 1];
      }
    }
  }

  lemma LacksConcat(a: string, b: string, c: char)
    ensures Lacks(a + b, c) <==> Lacks(a, c) && Lacks(b, c)
  {
    if Lacks(a + b, c) {
      forall i | 0 <= i < |a| ensures a[i] != c { assert (a + b)[i] == a[i]; }
      forall i | 0 <= i < |b| ensures b[i] != c { assert (a + b)[|a| + i] == b[i]; }
    }
  }

  lemma AnythingMatches(s: string)
    ensures Matches([Anything], s) <==> Lacks(s, '\n')
  {
    assert [Anything][1..] == [];
    assert s[..|s|] == s && s[|s|..] == [];
    if Lacks(s, '\n') {
      assert PieceMatches(Anything, s[..|s|]) && Matches([], s[|s|..]);
    }
    if Matches([Anything], s) {
      var k :| 0 <= k <= |s| && PieceMatches(Anything, s[..k]) && Matches([], s[k..]);
      assert k == |s|;
    }
  }

  // The pieces of a plain segment and its slash match the first segment of a path.
  lemma PlainThenSlash(p: string, rest: seq<Piece>, path: seq<string>)
    requires Lacks(p, SLASH) && Segments(path)
    ensures Matches(PlainPieces(p) + ([Literal(SLASH)] + rest), Glue(path)) <==>
      |path| > 1 && Wild(p, path[0]) && Matches(rest, Glue(path[1..]))
  {
    hide Wild, PlainPieces, Matches;
    var g, qs := Glue(path), [Literal(SLASH)] + rest;
    if Matches(PlainPieces(p) + qs, g) {
      var k := MatchSplit(PlainPieces(p), qs, g);
      PlainMatches(p, g[..k]);
      SlashMatches(rest, g[k..]);
      FirstSlash(path, k);
      assert g[k..][1..] == g[k + 1..];
    }
    if |path| > 1 && Wild(p, path[0]) && Matches(rest, Glue(path[1..])) {
      var tail := [SLASH] + Glue(path[1..]);
      PlainMatches(p, path[0]);
      SlashMatches(rest, tail);
      assert tail[1..] == Glue(path[1..]);
      MatchJoin(PlainPieces(p), qs, path[0], tail);
    }
  }

  lemma SlashMatches(rest: seq<Piece>, s: string)
    ensures Matches([Literal(SLASH)] + rest, s) <==> s != [] && s[0] == SLASH && Matches(rest, s[1..])
  {
    var ps := [Literal(SLASH)] + rest;
    assert ps[1..] == rest;
    if Matches(ps, s) {
      var k :| 0 <= k <= |s| && PieceMatches(ps[0], s[..k]) && Matches(rest, s[k..]);
      assert k == |s[..k]| == 1 && s[..k][0] == s[0];
    }
    if s != [] && s[0] == SLASH && Matches(rest, s[1..]) {
      assert s[..1] == [SLASH];
      assert PieceMatches(ps[0], s[..1]) && Matches(ps[1..], s[1..]);
    }
  }

  // A slash after a part without one ends the first segment.
  lemma FirstSlash(path: seq<string>, k: nat)
    requires Segments(path) && k < |Glue(path)| && Glue(path)[k] == SLASH && Lacks(Glue(path)[..k], SLASH)
    ensures |path| > 1 && path[0] == Glue(path)[..k] && Glue(path[1..]) == Glue(path)[k + 1..]
  {
    var g, s := Glue(path), path[0];
    assert forall i :: 0 <= i < |s| ==> g[i] == s[i];
    assert k >= |s| && |path| > 1;
    assert g[|s|] == SLASH;
    LacksPrefix(g, k, SLASH);
    assert k == |s|;
    assert g[..k] == s && g[k + 1..] == Glue(path[1..]);
  }

  lemma LacksPrefix(s: string, k: nat, c: char)
    requires k <= |s| && Lacks(s[..k], c)
    ensures forall i :: 0 <= i < k ==> s[i] != c
  {
    forall i | 0 <= i < k ensures s[i] != c {
      assert s[i] == s[..k][i];
    }
  }

  lemma DirsMatches(rest: seq<Piece>, path: seq<string>)
    requires Segments(path)
    ensures Matches([Dirs] + rest, Glue(path)) <==>
      exists j :: 0 <= j < |path| && OneLine(path[..j]) && Matches(rest, Glue(path[j..]))
  {
    hide Matches, OneLine;
    if Matches([Dirs] + rest, Glue(path)) {
      var j := DirsElim(rest, path);
    }
    forall j | 0 <= j < |path| && OneLine(path[..j]) && Matches(rest, Glue(path[j..]))
      ensures Matches([Dirs] + rest, Glue(path))
    {
      DirsIntro(rest, path, j);
    }
  }

  lemma DirsElim(rest: seq<Piece>, path: seq<string>) returns (j: nat)
    requires Segments(path) && Matches([Dirs] + rest, Glue(path))
    ensures j < |path| && OneLine(path[..j]) && Matches(rest, Glue(path[j..]))
  {
    hide Matches;
    var g, ps := Glue(path), [Dirs] + rest;
    assert ps[0] == Dirs && ps[1..] == rest;
    var k := MatchElim(ps, g);
    if k == 0 {
      j := 0;
      assert path[0..] == path && g[0..] == g;
    } else {
      assert g[..k][k - 1] == g[k - 1] && g[..k][..k - 1] == g[..k - 1];
      j := SlashIsBoundary(path, k - 1);
      GlueLines(path[..j]);
    }
  }

  lemma DirsIntro(rest: seq<Piece>, path: seq<string>, j: nat)
    requires Segments(path) && j < |path| && OneLine(path[..j]) && Matches(rest, Glue(path[j..]))
    ensures Matches([Dirs] + rest, Glue(path))
  {
    hide Matches;
    var g, ps := Glue(path), [Dirs] + rest;
    assert ps[0] == Dirs && ps[1..] == rest;
    if j == 0 {
      assert path[0..] == path && g[..0] == [] && g[0..] == g;
      MatchIntro(ps, g, 0);
    } else {
      var front := Glue(path[..j]);
      assert path == path[..j] + path[j..];
      GlueConcat(path[..j], path[j..]);
      GlueLines(path[..j]);
      var k := |front| + 1;
      assert g[..k] == front + [SLASH] && g[..k][..k - 1] == front && g[k..] == Glue(path[j..]);
      MatchIntro(ps, g, k);
    }
  }

  lemma {:induction false} NothingSelected(pattern: seq<string>)
    ensures !Selects(pattern, [])
    decreases |pattern|
  {
    if |pattern| > 1 {
      NothingSelected(pattern[1..]);
      var none: seq<string> := [];
      assert none[0..] == none;
    }
  }

  lemma {:induction false} CompiledMatches(pattern: seq<string>, path: seq<string>)
    requires Segments(pattern) && Segments(path)
    ensures Matches(Compile(pattern), Glue(path)) <==> Selects(pattern, path)
    decreases |pattern|
  {
    var p := pattern[0];
    if |pattern| == 1 {
      if p == STARS {
        AnythingMatches(Glue(path));
        GlueLines(path);
      } else {
        PlainMatches(p, Glue(path));
        if |path| > 1 {
          assert Glue(path)[|path[0]|] == SLASH;
        }
      }
    } else {
      hide Matches, Wild;
      var rest := pattern[1..];
      assert Segments(rest) by {
        assert forall i :: 0 <= i < |rest| ==> rest[i] == pattern[i + 1];
      }
      forall j | 0 <= j < |path| ensures Matches(Compile(rest), Glue(path[j..])) <==> Selects(rest, path[j..]) {
        assert forall i :: 0 <= i < |path[j..]| ==> path[j..][i] == path[j + i];
        CompiledMatches(rest, path[j..]);
      }
      NothingSelected(rest);
      assert path[|path|..] == [];
      if p == STARS {
        DirsMatches(Compile(rest), path);
        assert Selects(pattern, path) <==> exists k :: 0 <= k < |path| && OneLine(path[..k]) && Selects(rest, path[k..]);
      } else {
        PlainThenSlash(p, Compile(rest), path);
      }
    }
  }

  // For every pattern whose ** are whole segments and every path: the regular expression matches exactly
  // when the segments do.
  lemma GlobMeansSegments(pattern: string, path: string)
    requires WholeStars(Split(pattern))
    ensures Matches(Pieces(pattern), path) <==> Selects(Split(pattern), Split(path))
  {
    hide Matches, Selects, Pieces, Compile, Split;
    SplitGlues(pattern);
    SplitGlues(path);
    PiecesFollowSegments(Split(pattern));
    CompiledMatches(Split(pattern), Split(path));
  }

  /******* Every pattern *******/

  // The first segment without its first n characters, and the segments after it.
  function Drop(segments: seq<string>, n: nat): seq<string>
    requires segments != [] && n <= |segments[0]|
  {
    [segments[0][n..]] + segments[1..]
  }

  predicate Doubled(s: string) { |s| >= 2 && s[0] == '*' && s[1] == '*' }

  // A stretch of a path from its beginning: the first k segments and i characters of the next one.
  predicate Stretch(path: seq<string>, k: nat, i: nat) {
    k < |path| && i <= |path[k]| && OneLine(path[..k]) && Lacks(path[k][..i], '\n')
  }

  // What a pattern selects, read segment by segment from the left.  Two stars that end a segment span any number
  // of segment ends, none included; two stars before anything else, or at the end of the pattern, span any
  // stretch of the path.  Only they go beyond a segment, and they do not go beyond a line.
  predicate Spans(pattern: seq<string>, path: seq<string>)
    requires pattern != [] && path != []
    decreases |pattern|, |pattern[0]|, |path[0]|
  {
    var p, s := pattern[0], path[0];
    if p == [] then
      if |pattern| == 1 then path == [[]]
      else s == [] && |path| > 1 && Spans(pattern[1..], path[1..])
    else if p == STARS && |pattern| > 1 then
      exists k :: 0 <= k < |path| && OneLine(path[..k]) && Spans(pattern[1..], path[k..])
    else if Doubled(p) then
      exists k, i :: 0 <= k < |path| && 0 <= i <= |path[k]| && Stretch(path, k, i) && Spans(Drop(pattern, 2), Drop(path[k..], i))
    else if p[0] == '*' then
      Spans(Drop(pattern, 1), path) || (s != [] && Spans(pattern, Drop(path, 1)))
    else
      s != [] && (p[0] == '?' || p[0] == s[0]) && Spans(Drop(pattern, 1), Drop(path, 1))
  }

  lemma DropGlue(segments: seq<string>, n: nat)
    requires Segments(segments) && n <= |segments[0]|
    ensures Segments(Drop(segments, n)) && Glue(Drop(segments, n)) == Glue(segments)[n..]
  {
    var d, p := Drop(segments, n), segments[0];
    assert d[1..] == segments[1..];
    forall i | 0 <= i < |d| ensures Lacks(d[i], SLASH) {
      assert i > 0 ==> d[i] == segments[i];
    }
    if |segments| > 1 {
      assert Glue(segments) == p + ([SLASH] + Glue(segments[1..]));
      assert (p + ([SLASH] + Glue(segments[1..])))[n..] == p[n..] + ([SLASH] + Glue(segments[1..]));
    }
  }

  lemma GlueFirst(path: seq<string>)
    requires Segments(path)
    ensures var g := Glue(path);
      && (g == [] <==> path == [[]])
      && (path[0] != [] ==> g != [] && g[0] == path[0][0] && g[0] != SLASH)
      && (path[0] == [] && |path| > 1 ==> g != [] && g[0] == SLASH && g[1..] == Glue(path[1..]))
  {
    var s := path[0];
    assert path == [s] + path[1..];
    if |path| == 1 {
      assert path == [s];
    } else {
      hide Glue;
      GlueTwo(s, path[1..]);
      assert |Glue(path)| > 0;
    }
  }

  lemma LaterSegments(path: seq<string>, k: nat)
    requires Segments(path) && k < |path|
    ensures Segments(path[k..])
  {
    forall i | 0 <= i < |path[k..]| ensures Lacks(path[k..][i], SLASH) {
      assert path[k..][i] == path[k + i];
    }
  }

  // The part of a path before the cut, as segments.
  function Upto(path: seq<string>, k: nat, i: nat): seq<string>
    requires k < |path| && i <= |path[k]|
  {
    path[..k] + [path[k][..i]]
  }

  // Cutting the path after k segments and i characters cuts its text.
  lemma {:induction false} CutGlue(path: seq<string>, k: nat, i: nat) returns (n: nat)
    requires Segments(path) && k < |path| && i <= |path[k]|
    ensures n <= |Glue(path)| && Glue(path)[..n] == Glue(Upto(path, k, i)) && Glue(path)[n..] == Glue(Drop(path[k..], i))
  {
    hide Glue, Lacks;
    var g, s := Glue(path), path[0];
    if k == 0 {
      n := i;
      assert path[0..] == path && Upto(path, 0, i) == [s[..i]];
      DropGlue(path, i);
      GlueOne(s[..i]);
      GlueBegins(path);
    } else {
      var rest := path[1..];
      LaterSegments(path, 1);
      var m := CutGlue(rest, k - 1, i);
      n := |s| + 1 + m;
      assert path == [s] + rest;
      GlueTwo(s, rest);
      assert rest[k - 1..] == path[k..] && rest[k - 1] == path[k];
      assert Upto(path, k, i) == [s] + Upto(rest, k - 1, i);
      GlueTwo(s, Upto(rest, k - 1, i));
      SliceAfter(s, Glue(rest), m);
    }
  }

  lemma GlueBegins(path: seq<string>)
    requires path != []
    ensures path[0] <= Glue(path)
  {
  }

  lemma SliceAfter(s: string, t: string, m: nat)
    requires m <= |t|
    ensures var g, n := s + ([SLASH] + t), |s| + 1 + m; g[..n] == s + ([SLASH] + t[..m]) && g[n..] == t[m..]
  {
  }

  // Every place in a path's text is such a cut.
  lemma {:induction false} CutAt(path: seq<string>, n: nat) returns (k: nat, i: nat)
    requires Segments(path) && n <= |Glue(path)|
    ensures k < |path| && i <= |path[k]|
    ensures Glue(path)[..n] == Glue(Upto(path, k, i)) && Glue(path)[n..] == Glue(Drop(path[k..], i))
  {
    var g, s := Glue(path), path[0];
    if n <= |s| {
      k, i := 0, n;
    } else {
      var rest := path[1..];
      LaterSegments(path, 1);
      assert g == s + ([SLASH] + Glue(rest));
      k, i := CutAt(rest, n - |s| - 1);
      k := k + 1;
      assert rest[k - 1..] == path[k..];
    }
    var m := CutGlue(path, k, i);
    if n > |s| {
      var rest := path[1..];
      assert g[n..] == Glue(rest)[n - |s| - 1..];
    }
    assert |g[n..]| == |g[m..]|;
  }

  lemma StretchLines(path: seq<string>, k: nat, i: nat)
    requires k < |path| && i <= |path[k]|
    ensures Stretch(path, k, i) <==> Lacks(Glue(Upto(path, k, i)), '\n')
  {
    hide Lacks, Glue;
    var u := Upto(path, k, i);
    GlueLines(u);
    assert forall j :: 0 <= j < k ==> u[j] == path[..k][j];
    assert u[k] == path[k][..i];
  }

  lemma AnythingSplits(rest: seq<Piece>, path: seq<string>)
    requires Segments(path)
    ensures Matches([Anything] + rest, Glue(path)) <==>
      exists k, i :: 0 <= k < |path| && 0 <= i <= |path[k]| && Stretch(path, k, i) && Matches(rest, Glue(Drop(path[k..], i)))
  {
    hide Matches, Stretch, Glue, Lacks;
    var ps, g := [Anything] + rest, Glue(path);
    assert ps[0] == Anything && ps[1..] == rest;
    if Matches(ps, g) {
      var n := MatchElim(ps, g);
      var k, i := CutAt(path, n);
      StretchLines(path, k, i);
    }
    forall k, i | 0 <= k < |path| && 0 <= i <= |path[k]| && Stretch(path, k, i) && Matches(rest, Glue(Drop(path[k..], i)))
      ensures Matches(ps, g)
    {
      var n := CutGlue(path, k, i);
      StretchLines(path, k, i);
      MatchIntro(ps, g, n);
    }
  }

  lemma DoubledTranslates(pattern: seq<string>)
    requires Segments(pattern) && Doubled(pattern[0]) && !(pattern[0] == STARS && |pattern| > 1)
    ensures Pieces(Glue(pattern)) == [Anything] + Pieces(Glue(Drop(pattern, 2)))
  {
    var p, g := pattern[0], Glue(pattern);
    DropGlue(pattern, 2);
    assert forall i :: 0 <= i < |p| ==> g[i] == p[i];
    assert g[0..2] == "**";
    if |p| == 2 {
      assert p == STARS;
    } else {
      assert g[0..3][2] == p[2];
    }
    assert !Starts(g, 0, "**/");
  }

  lemma OneTranslates(pattern: seq<string>)
    requires Segments(pattern) && pattern[0] != [] && !Doubled(pattern[0])
    ensures Pieces(Glue(pattern)) == [CharPiece(pattern[0][0])] + Pieces(Glue(Drop(pattern, 1)))
  {
    var p, g := pattern[0], Glue(pattern);
    DropGlue(pattern, 1);
    assert g[0] == p[0] && (|g| > 1 ==> g[1] == if |p| > 1 then p[1] else SLASH);
    PiecesOfOne(g);
  }

  lemma RunUnrolls(rest: seq<Piece>, s: string)
    ensures Matches([Run] + rest, s) <==>
      Matches(rest, s) || (s != [] && s[0] != SLASH && Matches([Run] + rest, s[1..]))
  {
    hide Matches, Lacks;
    var ps := [Run] + rest;
    LacksNothing();
    assert ps[0] == Run && ps[1..] == rest && s[..0] == [] && s[0..] == s;
    if Matches(rest, s) {
      MatchIntro(ps, s, 0);
    }
    if Matches(ps, s) && !Matches(rest, s) {
      var k := MatchElim(ps, s);
      var t := s[1..];
      assert k > 0 && t[..k - 1] == s[..k][1..] && t[k - 1..] == s[k..] && s[0] == s[..k][0];
      LacksStep(s[..k], SLASH);
      MatchIntro(ps, t, k - 1);
    }
    if s != [] && s[0] != SLASH && Matches(ps, s[1..]) {
      var t := s[1..];
      var k := MatchElim(ps, t);
      assert s[..k + 1] == [s[0]] + t[..k] && s[k + 1..] == t[k..] && s[..k + 1][1..] == t[..k];
      LacksStep(s[..k + 1], SLASH);
      MatchIntro(ps, s, k + 1);
    }
  }

  lemma OneUnrolls(c: char, rest: seq<Piece>, s: string)
    requires c != '*'
    ensures Matches([CharPiece(c)] + rest, s) <==>
      s != [] && (if c == '?' then s[0] != SLASH else s[0] == c) && Matches(rest, s[1..])
  {
    hide Matches;
    var ps := [CharPiece(c)] + rest;
    assert ps[0] == CharPiece(c) && ps[1..] == rest;
    if Matches(ps, s) {
      var k := MatchElim(ps, s);
      assert |s[..k]| == 1 && s[..k][0] == s[0];
    }
    if s != [] && (if c == '?' then s[0] != SLASH else s[0] == c) && Matches(rest, s[1..]) {
      assert s[..1] == [s[0]];
      MatchIntro(ps, s, 1);
    }
  }

  // The translation of any list of segments matches what the segments span.
  lemma {:induction false} SpansMatch(pattern: seq<string>, path: seq<string>)
    requires Segments(pattern) && Segments(path)
    ensures Matches(Pieces(Glue(pattern)), Glue(path)) <==> Spans(pattern, path)
    decreases |pattern|, |pattern[0]|, |path[0]|
  {
    hide Matches, Pieces, Lacks, Glue;
    var p, g, t := pattern[0], Glue(pattern), Glue(path);
    GlueFirst(path);
    if p == [] {
      EmptySegment(pattern, path);
      if |pattern| > 1 && path[0] == [] && |path| > 1 {
        LaterSegments(pattern, 1);
        LaterSegments(path, 1);
        SpansMatch(pattern[1..], path[1..]);
      }
    } else if p == STARS && |pattern| > 1 {
      LaterSegments(pattern, 1);
      StarsSegment(pattern);
      DirsMatches(Pieces(Glue(pattern[1..])), path);
      forall k | 0 <= k < |path|
        ensures Matches(Pieces(Glue(pattern[1..])), Glue(path[k..])) <==> Spans(pattern[1..], path[k..])
      {
        LaterSegments(path, k);
        SpansMatch(pattern[1..], path[k..]);
      }
    } else if Doubled(p) {
      DoubledMatch(pattern, path);
    } else {
      OneTranslates(pattern);
      DropGlue(pattern, 1);
      var rest := Drop(pattern, 1);
      if path[0] != [] {
        DropGlue(path, 1);
      }
      if p[0] == '*' {
        RunUnrolls(Pieces(Glue(rest)), t);
        SpansMatch(rest, path);
        if path[0] != [] {
          SpansMatch(pattern, Drop(path, 1));
        }
      } else {
        OneUnrolls(p[0], Pieces(Glue(rest)), t);
        NotSlash(p);
        if path[0] != [] {
          SpansMatch(rest, Drop(path, 1));
        }
      }
    }
  }

  lemma NotSlash(p: string)
    requires p != [] && Lacks(p, SLASH)
    ensures p[0] != SLASH
  {
  }

  lemma StarsSegment(pattern: seq<string>)
    requires |pattern| > 1 && pattern[0] == STARS
    ensures Pieces(Glue(pattern)) == [Dirs] + Pieces(Glue(pattern[1..]))
  {
    StarsThenSlash(Glue(pattern[1..]));
  }

  lemma EmptySegment(pattern: seq<string>, path: seq<string>)
    requires Segments(pattern) && Segments(path) && pattern[0] == []
    ensures Matches(Pieces(Glue(pattern)), Glue(path)) <==>
      if |pattern| == 1 then path == [[]]
      else path[0] == [] && |path| > 1 && Matches(Pieces(Glue(pattern[1..])), Glue(path[1..]))
  {
    hide Matches, Pieces;
    GlueFirst(path);
    if |pattern| == 1 {
      PiecesOfNothing();
      MatchNothing(Glue(path));
    } else {
      assert Glue(pattern) == [SLASH] + Glue(pattern[1..]);
      SlashTranslates(Glue(pattern[1..]));
      SlashMatches(Pieces(Glue(pattern[1..])), Glue(path));
    }
  }

  lemma {:induction false} DoubledMatch(pattern: seq<string>, path: seq<string>)
    requires Segments(pattern) && Segments(path) && Doubled(pattern[0]) && !(pattern[0] == STARS && |pattern| > 1)
    ensures Matches(Pieces(Glue(pattern)), Glue(path)) <==> Spans(pattern, path)
    decreases |pattern|, |pattern[0]| - 1, |path[0]|
  {
    hide Matches, Pieces, Lacks, Glue, Stretch;
    var rest := Drop(pattern, 2);
    DropGlue(pattern, 2);
    DoubledTranslates(pattern);
    AnythingSplits(Pieces(Glue(rest)), path);
    forall k, i | 0 <= k < |path| && 0 <= i <= |path[k]|
      ensures Matches(Pieces(Glue(rest)), Glue(Drop(path[k..], i))) <==> Spans(rest, Drop(path[k..], i))
    {
      LaterSegments(path, k);
      DropGlue(path[k..], i);
      SpansMatch(rest, Drop(path[k..], i));
    }
  }

  // For every pattern and every path: the regular expression matches exactly when the segments span the path.
  lemma GlobMeansSpans(pattern: string, path: string)
    ensures Matches(Pieces(pattern), path) <==> Spans(Split(pattern), Split(path))
  {
    hide Matches, Spans, Pieces, Split;
    SplitGlues(pattern);
    SplitGlues(path);
    SpansMatch(Split(pattern), Split(path));
  }

  // Where every ** is a whole segment, both readings are the same.
  lemma WholeStarsSpan(pattern: string, path: string)
    requires WholeStars(Split(pattern))
    ensures Spans(Split(pattern), Split(path)) <==> Selects(Split(pattern), Split(path))
  {
    hide Matches, Spans, Pieces, Split, Selects, WholeStars;
    GlobMeansSpans(pattern, path);
    GlobMeansSegments(pattern, path);
  }

  // A path is selected when some pattern matches it.
  predicate MatchesAny(path: string, patterns: seq<string>) {
    exists i :: 0 <= i < |patterns| && Matches(Pieces(patterns[i]), path)
  }

  lemma AnySpans(path: string, patterns: seq<string>)
    ensures MatchesAny(path, patterns) <==> exists i :: 0 <= i < |patterns| && Spans(Split(patterns[i]), Split(path))
  {
    hide Matches, Spans, Pieces, Split;
    forall i | 0 <= i < |patterns|
      ensures Matches(Pieces(patterns[i]), path) <==> Spans(Split(patterns[i]), Split(path))
    {
      GlobMeansSpans(patterns[i], path);
    }
  }

  // Stars that share a segment with something else do cross segments: a**/b selects ab.
  lemma StrayStarsCross()
    ensures var pattern, path := "a**/b", "ab";
      !WholeStars(Split(pattern)) && Matches(Pieces(pattern), path) && !Selects(Split(pattern), Split(path))
  {
    hide Pieces, Matches, Split;
    var pattern, path := "a**/b", "ab";
    var segments := ["a**", "b"];
    assert segments[1..] == ["b"] && [path][1..] == [];
    assert Glue(segments) == "a**" + ([SLASH] + "b") == pattern;
    SplitUnique(segments);
    SplitUnique([path]);
    assert segments[0][1] == '*' && segments[0][2] == '*';
    NothingSelected(["b"]);
    StrayStarsMatch();
  }

  lemma StrayStarsMatch()
    ensures Matches(Pieces("a**/b"), "ab")
  {
    hide Pieces, Matches;
    var pattern := "a**/b";
    PiecesOfOne(pattern);
    assert pattern[1..] == STARS + ([SLASH] + "b");
    StarsThenSlash("b");
    PiecesOfOne("b");
    assert "b"[1..] == [];
    PiecesOfNothing();
    var ps := [Literal('a'), Dirs, Literal('b')];
    assert Pieces(pattern) == ps;
    MatchNothing([]);
    assert "b"[..1] == "b" && "b"[..0] == [] && "b"[0..] == "b" && "ab"[..1] == "a" && "ab"[1..] == "b";
    assert ps[1..] == [Dirs, Literal('b')] && ps[1..][1..] == [Literal('b')] && [Literal('b')][1..] == [];
    MatchIntro([Literal('b')], "b", 1);
    MatchIntro(ps[1..], "b", 0);
    MatchIntro(ps, "ab", 1);
  }

  lemma PiecesOfNothing()
    ensures Pieces([]) == []
  {
  }

  // A path has only one list of segments.
  lemma {:induction false} SplitUnique(segments: seq<string>)
    requires Segments(segments)
    ensures Split(Glue(segments)) == segments
    decreases |segments|, |segments[0]|
  {
    var s, g := segments[0], Glue(segments);
    if s == [] {
      if |segments| > 1 {
        assert g == [SLASH] + Glue(segments[1..]) && g[1..] == Glue(segments[1..]);
        SplitUnique(segments[1..]);
        assert segments == [[]] + segments[1..];
      } else {
        assert segments == [[]];
      }
    } else {
      var shorter := [s[1..]] + segments[1..];
      assert forall i :: 1 <= i < |segments| ==> shorter[i] == segments[i];
      assert shorter[1..] == segments[1..];
      assert g == [s[0]] + Glue(shorter) && g[1..] == Glue(shorter);
      SplitUnique(shorter);
      assert [s[0]] + s[1..] == s;
      assert segments == [s] + segments[1..];
    }
  }
}
