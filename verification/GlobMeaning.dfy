/** What a glob pattern means, segment by segment, and that the compiled expression keeps that meaning. */
module GlobMeaning {
  import opened Collections
  import opened Regexes
  import opened Globs

  // ---- Segments ----

  function SlashAt(s: string): (i: nat)
    ensures i <= |s| && (i < |s| ==> s[i] == '/') && No('/', s[..i])
  {
    if s == "" || s[0] == '/' then 0
    else
      var i := 1 + SlashAt(s[1..]);
      assert s[..i] == [s[0]] + s[1..][..i - 1];
      i
  }

  /** The parts of a path or a pattern between its slashes; there is always at least one. */
  function Segments(s: string): (parts: seq<string>)
    ensures |parts| >= 1
    decreases |s|
  {
    var i := SlashAt(s);
    if i == |s| then [s] else [s[..i]] + Segments(s[i + 1..])
  }

  /** A segment against a segment: a star is any run, a question mark any one character. */
  predicate SegmentMatches(p: string, s: string)
    decreases |p|, |s|
  {
    if p == "" then s == ""
    else if p[0] == '*' then SegmentMatches(p[1..], s) || (s != "" && SegmentMatches(p, s[1..]))
    else s != "" && (p[0] == '?' || p[0] == s[0]) && SegmentMatches(p[1..], s[1..])
  }

  /** Segments against segments: a double star is any number of them, at least one when it comes last. */
  predicate PathMatches(ps: seq<string>, ss: seq<string>)
    decreases |ps|, |ss|
  {
    if ps == [] then ss == []
    else if ps == ["**"] then ss != []
    else if ps[0] == "**" then PathMatches(ps[1..], ss) || (ss != [] && PathMatches(ps, ss[1..]))
    else ss != [] && SegmentMatches(ps[0], ss[0]) && PathMatches(ps[1..], ss[1..])
  }

  predicate HasDoubleStar(p: string) { exists i {:trigger p[i]} :: 0 <= i < |p| - 1 && p[i] == '*' && p[i + 1] == '*' }

  /** A double star is always a whole segment. */
  predicate WholeStars(p: string) { forall q :: q in Segments(p) ==> q == "**" || !HasDoubleStar(q) }

  // ---- One segment ----

  /** The wildcard, or the character, a segment starts with. */
  function Symbol(c: char): Token { if c == '*' then Run else if c == '?' then One else Char(c) }

  lemma TokensStep(p: string)
    requires p != "" && !("**" <= p) && !("**/" <= p)
    ensures Tokens(p) == [Symbol(p[0])] + Tokens(p[1..])
  {
  }

  /** A segment compiles by itself, whatever follows its slash. */
  lemma {:induction false} SegmentTokens(p: string, rest: string)
    requires No('/', p) && !HasDoubleStar(p) && (rest == "" || rest[0] == '/')
    ensures Tokens(p + rest) == Tokens(p) + Tokens(rest)
  {
    if p == "" {
      assert p + rest == rest;
    } else {
      hide Tokens, HasDoubleStar, No;
      NoDoubleStarBehind(p);
      FirstOfSegment(p, rest);
      SegmentTokens(p[1..], rest);
      Assoc([Symbol(p[0])], Tokens(p[1..]), Tokens(rest));
    }
  }

  lemma FirstOfSegment(p: string, rest: string)
    requires p != "" && No('/', p) && !HasDoubleStar(p) && (rest == "" || rest[0] == '/')
    ensures Tokens(p) == [Symbol(p[0])] + Tokens(p[1..])
    ensures Tokens(p + rest) == [Symbol(p[0])] + Tokens(p[1..] + rest)
  {
    hide Tokens, HasDoubleStar, No;
    NoDoubleStarBehind(p);
    var all := p + rest;
    assert all[0] == p[0] && all[1..] == p[1..] + rest && (|all| >= 2 ==> all[1] == if |p| >= 2 then p[1] else rest[0]);
    Stars(p);
    Stars(all);
    TokensStep(p);
    TokensStep(all);
  }

  lemma NoDoubleStarBehind(p: string)
    requires p != "" && No('/', p) && !HasDoubleStar(p)
    ensures No('/', p[1..]) && !HasDoubleStar(p[1..]) && (|p| >= 2 && p[0] == '*' ==> p[1] != '*')
  {
    hide HasDoubleStar;
    DoubleStarAhead(p);
  }

  lemma DoubleStarAhead(p: string)
    requires p != ""
    ensures HasDoubleStar(p[1..]) || (|p| >= 2 && p[0] == '*' && p[1] == '*') ==> HasDoubleStar(p)
  {
    if HasDoubleStar(p[1..]) {
      var i :| 0 <= i < |p[1..]| - 1 && p[1..][i] == '*' && p[1..][i + 1] == '*';
      assert p[i + 1] == '*' && p[i + 2] == '*';
    } else if |p| >= 2 && p[0] == '*' && p[1] == '*' {
      assert p[0] == '*' && p[0 + 1] == '*';
    }
  }

  lemma TokensBehind(p: string, ts: seq<Token>)
    requires p != "" && No('/', p) && !HasDoubleStar(p)
    ensures Tokens(p) + ts == [Symbol(p[0])] + (Tokens(p[1..]) + ts)
  {
    hide Tokens, HasDoubleStar, No;
    NoDoubleStarBehind(p);
    Stars(p);
    TokensStep(p);
  }

  lemma AcceptsStep(t: Token, ts: seq<Token>, s: string, d: bool)
    ensures t == Run ==>
      (Accepts([t] + ts, s, d) <==> Accepts(ts, s, d) || (s != "" && s[0] != '/' && Accepts([t] + ts, s[1..], d)))
    ensures t == One ==> (Accepts([t] + ts, s, d) <==> s != "" && s[0] != '/' && Accepts(ts, s[1..], d))
    ensures t.Char? ==> (Accepts([t] + ts, s, d) <==> s != "" && s[0] == t.c && Accepts(ts, s[1..], d))
  {
    assert ([t] + ts)[1..] == ts;
  }

  lemma NothingBeforeSlash(ts: seq<Token>, s: string, d: bool)
    requires ts == [] || ts[0] == Char('/')
    ensures Accepts(ts, s, d) ==> SlashAt(s) == 0
    ensures s[..0] == "" && s[0..] == s
  {
  }

  /** A compiled segment, and whatever the tokens behind it accept, starting at a segment's end. */
  lemma {:induction false} SegmentAccepts(p: string, ts: seq<Token>, s: string, d: bool)
    requires No('/', p) && !HasDoubleStar(p) && (ts == [] || ts[0] == Char('/'))
    ensures var i := SlashAt(s);
      Accepts(Tokens(p) + ts, s, d) <==> SegmentMatches(p, s[..i]) && Accepts(ts, s[i..], d)
    decreases |p|, |s|
  {
    var i := SlashAt(s);
    if p == "" {
      assert Tokens(p) + ts == ts;
      NothingBeforeSlash(ts, s, d);
    } else {
      NoDoubleStarBehind(p);
      TokensBehind(p, ts);
      AcceptsStep(Symbol(p[0]), Tokens(p[1..]) + ts, s, d);
      if s != "" && s[0] != '/' {
        assert i > 0 && s[..i][0] == s[0] && s[..i][1..] == s[1..][..i - 1] && s[i..] == s[1..][i - 1..]
          && SlashAt(s[1..]) == i - 1;
      }
      hide Accepts, Tokens, HasDoubleStar, SlashAt;
      if p[0] == '*' {
        SegmentAccepts(p[1..], ts, s, d);
      }
      if s != "" && s[0] != '/' {
        SegmentAccepts(if p[0] == '*' then p else p[1..], ts, s[1..], d);
      }
    }
  }

  // ---- Whole paths ----

  lemma {:induction false} AllAccepts(s: string, d: bool)
    ensures Accepts([All], s, d) <==> Dotted(s, d)
    decreases |s|
  {
    if s != "" {
      assert s == [s[0]] + s[1..];
      AllAccepts(s[1..], d);
    }
  }

  lemma SegmentsStep(s: string)
    ensures var i := SlashAt(s);
      && (i == |s| ==> Segments(s) == [s] && s[..i] == s && s[i..] == "")
      && (i < |s| ==>
        Segments(s)[0] == s[..i] && Segments(s)[1..] == Segments(s[i + 1..]) && s[i..] == ['/'] + s[i + 1..])
  {
    hide No, SlashAt;
    var i := SlashAt(s);
    if i < |s| {
      FirstOf(s[..i], Segments(s[i + 1..]));
      SplitOnce(s, i);
    } else {
      assert s[..i] == s;
    }
  }

  lemma FirstOf(a: string, rest: seq<string>)
    ensures ([a] + rest)[0] == a && ([a] + rest)[1..] == rest
  {
  }

  lemma SplitOnce(s: string, i: nat)
    requires i < |s|
    ensures s[i..] == [s[i]] + s[i + 1..]
  {
  }

  lemma {:induction false} NoSegmentsLeft(ps: seq<string>)
    ensures PathMatches(ps, []) <==> ps == []
  {
    if ps != [] {
      NoSegmentsLeft(ps[1..]);
    }
  }

  lemma PathMatchesStep(q: string, r: seq<string>, ss: seq<string>)
    requires ss != []
    ensures q != "**" ==> (PathMatches([q] + r, ss) <==> SegmentMatches(q, ss[0]) && PathMatches(r, ss[1..]))
    ensures q == "**" && r != [] ==> (PathMatches([q] + r, ss) <==> PathMatches(r, ss) || PathMatches([q] + r, ss[1..]))
  {
    assert ([q] + r)[1..] == r;
  }

  /** What the token for directories accepts, in terms of the path's slashes. */
  ghost predicate BehindSomeSlash(ts: seq<Token>, s: string, d: bool) {
    exists i {:trigger s[i]} :: 0 <= i < |s| && s[i] == '/' && Accepts(ts, s[i + 1..], d)
  }

  lemma {:induction false} FirstSlash(s: string, k: nat)
    requires k < |s| && s[k] == '/'
    ensures SlashAt(s) <= k
  {
    if k > 0 && s[0] != '/' {
      FirstSlash(s[1..], k - 1);
    }
  }

  lemma BehindNextSlash(ts: seq<Token>, s: string, d: bool)
    ensures var i := SlashAt(s);
      BehindSomeSlash(ts, s, d) <==> i < |s| && (Accepts(ts, s[i + 1..], d) || BehindSomeSlash(ts, s[i + 1..], d))
  {
    hide Accepts, SlashAt, BehindSomeSlash;
    var i := SlashAt(s);
    if BehindSomeSlash(ts, s, d) {
      OnlyBehindNext(ts, s, d);
    } else if i < |s| && (Accepts(ts, s[i + 1..], d) || BehindSomeSlash(ts, s[i + 1..], d)) {
      BehindNextToo(ts, s, i, d);
    }
  }

  lemma OnlyBehindNext(ts: seq<Token>, s: string, d: bool)
    requires BehindSomeSlash(ts, s, d)
    ensures var i := SlashAt(s);
      i < |s| && (Accepts(ts, s[i + 1..], d) || BehindSomeSlash(ts, s[i + 1..], d))
  {
    hide Accepts, SlashAt;
    var i := SlashAt(s);
    var k :| 0 <= k < |s| && s[k] == '/' && Accepts(ts, s[k + 1..], d);
    FirstSlash(s, k);
    if k > i {
      var t := s[i + 1..];
      assert t[k - i - 1] == '/' && t[k - i - 1 + 1..] == s[k + 1..];
    }
  }

  lemma BehindNextToo(ts: seq<Token>, s: string, i: nat, d: bool)
    requires i < |s| && s[i] == '/' && (Accepts(ts, s[i + 1..], d) || BehindSomeSlash(ts, s[i + 1..], d))
    ensures BehindSomeSlash(ts, s, d)
  {
    hide Accepts;
    var t := s[i + 1..];
    if k :| 0 <= k < |t| && t[k] == '/' && Accepts(ts, t[k + 1..], d) {
      assert s[i + 1 + k] == '/' && s[i + 1 + k + 1..] == t[k + 1..];
    }
  }

  lemma DirsAccepts(ts: seq<Token>, s: string, d: bool)
    requires Dotted(s, d)
    ensures Accepts([Dirs] + ts, s, d) <==> Accepts(ts, s, d) || BehindSomeSlash(ts, s, d)
  {
    assert ([Dirs] + ts)[1..] == ts;
    assert Accepts([Dirs] + ts, s, d) <==>
      Accepts(ts, s, d) || exists i: nat :: i < |s| && EndsDirs(s, i, d) && Accepts(ts, s[i + 1..], d);
    hide Accepts;
    forall i: nat
      ensures EndsDirs(s, i, d) <==> i < |s| && s[i] == '/'
    {
    }
    hide EndsDirs;
    if i: nat :| i < |s| && EndsDirs(s, i, d) && Accepts(ts, s[i + 1..], d) {
      assert s[i] == '/';
    }
    if i :| 0 <= i < |s| && s[i] == '/' && Accepts(ts, s[i + 1..], d) {
      assert EndsDirs(s, i, d);
    }
  }

  lemma DottedTail(s: string, i: nat, d: bool)
    requires i <= |s| && Dotted(s, d)
    ensures Dotted(s[i..], d)
  {
  }

  /** A double star that is not the last segment stands for any number of segments. */
  lemma {:induction false} DirsPath(rest: string, s: string, d: bool)
    requires Dotted(s, d)
    requires forall t: string :: |t| <= |s| && Dotted(t, d) ==>
      (Accepts(Tokens(rest), t, d) <==> PathMatches(Segments(rest), Segments(t)))
    ensures Accepts(Tokens(rest), s, d) || BehindSomeSlash(Tokens(rest), s, d) <==>
      PathMatches(["**"] + Segments(rest), Segments(s))
    decreases |s|
  {
    hide Accepts, Tokens, Segments, SlashAt, PathMatches, BehindSomeSlash, Dotted;
    var i, ts, r := SlashAt(s), Tokens(rest), Segments(rest);
    BehindNextSlash(ts, s, d);
    SegmentsStep(s);
    PathMatchesStep("**", r, Segments(s));
    if i < |s| {
      DottedTail(s, i + 1, d);
      DirsPath(rest, s[i + 1..], d);
    } else {
      NoSegmentsLeft(["**"] + r);
      assert Segments(s)[1..] == [];
    }
  }

  lemma TokensOfDirs(p: string)
    requires "**/" <= p
    ensures Tokens(p) == [Dirs] + Tokens(p[3..])
  {
  }

  lemma TokensOfSlash(rest: string)
    ensures Tokens("/" + rest) == [Char('/')] + Tokens(rest)
  {
    Stars("/" + rest);
    assert ("/" + rest)[1..] == rest;
  }

  lemma TokensOfAll()
    ensures Tokens("**") == [All]
  {
    assert "**"[2..] == "";
  }

  lemma LastSegment(p: string, s: string, d: bool)
    requires WholeStars(p) && Dotted(s, d) && SlashAt(p) == |p|
    ensures Accepts(Tokens(p), s, d) <==> PathMatches(Segments(p), Segments(s))
  {
    hide Segments, SlashAt;
    SegmentsStep(p);
    SegmentsStep(s);
    assert p in Segments(p);
    if p == "**" {
      TokensOfAll();
      AllAccepts(s, d);
    } else {
      assert p[..|p|] == p && Tokens(p) + [] == Tokens(p);
      SegmentAccepts(p, [], s, d);
      PathMatchesStep(p, [], Segments(s));
      assert [p] + [] == [p];
      hide SegmentMatches;
    }
  }

  /** On paths without newlines the tokens accept what the segments mean. */
  lemma {:induction false} AcceptsIsMeaning(p: string, s: string, d: bool)
    requires WholeStars(p) && Dotted(s, d)
    ensures Accepts(Tokens(p), s, d) <==> PathMatches(Segments(p), Segments(s))
    decreases |p|, |s|
  {
    hide Accepts, Tokens, PathMatches, Segments, SlashAt;
    var i := SlashAt(p);
    if i == |p| {
      LastSegment(p, s, d);
    } else {
      var q, rest := p[..i], p[i + 1..];
      BehindFirst(p);
      forall t: string | Dotted(t, d)
        ensures Accepts(Tokens(rest), t, d) <==> PathMatches(Segments(rest), Segments(t))
      {
        AcceptsIsMeaning(rest, t, d);
      }
      if q == "**" {
        assert p[3..] == rest;
        Stars(p);
        TokensOfDirs(p);
        DirsAccepts(Tokens(rest), s, d);
        DirsPath(rest, s, d);
      } else {
        FirstSegment(q, rest, s, d);
      }
    }
  }

  /** The first segment of a pattern, and what is behind it. */
  lemma BehindFirst(p: string)
    requires SlashAt(p) < |p|
    ensures var q, rest := p[..SlashAt(p)], p[SlashAt(p) + 1..];
      Segments(p) == [q] + Segments(rest) && q in Segments(p) && p == q + ("/" + rest)
      && forall x :: x in Segments(rest) ==> x in Segments(p)
  {
    hide Segments;
    SegmentsStep(p);
    var q, rest := p[..SlashAt(p)], p[SlashAt(p) + 1..];
    assert Segments(p) == [q] + Segments(rest);
    assert p == q + ("/" + rest);
  }

  /** An ordinary segment that is not the last. */
  lemma FirstSegment(q: string, rest: string, s: string, d: bool)
    requires No('/', q) && !HasDoubleStar(q) && q != "**" && Dotted(s, d)
    requires forall t: string :: Dotted(t, d) ==>
      (Accepts(Tokens(rest), t, d) <==> PathMatches(Segments(rest), Segments(t)))
    ensures Accepts(Tokens(q + ("/" + rest)), s, d) <==> PathMatches([q] + Segments(rest), Segments(s))
  {
    hide Accepts, Tokens, Segments, SlashAt, PathMatches, HasDoubleStar, SegmentMatches;
    var j := SlashAt(s);
    SegmentTokens(q, "/" + rest);
    TokensOfSlash(rest);
    SegmentAccepts(q, [Char('/')] + Tokens(rest), s, d);
    SegmentsStep(s);
    PathMatchesStep(q, Segments(rest), Segments(s));
    NoSegmentsLeft(Segments(rest));
    AcceptsStep(Char('/'), Tokens(rest), s[j..], d);
    if j < |s| {
      assert s[j..][1..] == s[j + 1..] && Dotted(s[j + 1..], d);
    } else {
      assert Segments(s)[1..] == [];
    }
  }
}
