/** Patterns as texts: what is kept of their meaning when they are compiled byte by byte. */
module GlobTexts {
  import opened Wrappers
  import opened Regexes
  import opened Globs
  import opened GlobMeaning
  import Utf8

  /** A pattern text as the compiler reads it: the bytes of its encoding, each one a character. */
  function Wide(p: string): string { Latin1(Utf8.EncodeText(p)) }

  function WideChar(c: char): (s: string)
    ensures 1 <= |s| <= 4
    ensures if c as int < 0x80 then s == [c] else |s| >= 2 && forall x :: x in s ==> x as int >= 0x80
  {
    Latin1(Utf8.Encode(c))
  }

  lemma WideStep(p: string)
    requires p != ""
    ensures Wide(p) == WideChar(p[0]) + Wide(p[1..])
  {
    hide Utf8.Encode;
  }

  lemma {:induction false} AsciiIsNotWide(p: string)
    requires Utf8.IsAscii(p)
    ensures Wide(p) == p
  {
    if p != "" {
      WideStep(p);
      assert p[0] in p && forall c :: c in p[1..] ==> c in p;
      AsciiIsNotWide(p[1..]);
    }
  }

  /** What follows starts with a given ASCII character, or does not. */
  lemma WideHead(p: string)
    ensures Wide(p) == "" <==> p == ""
    ensures p != "" ==>
      if p[0] as int < 0x80 then Wide(p)[0] == p[0] && Wide(p)[1..] == Wide(p[1..]) else Wide(p)[0] as int >= 0x80
  {
    if p != "" {
      WideStep(p);
      hide Wide, WideChar;
      assert p[0] as int >= 0x80 ==> WideChar(p[0])[0] in WideChar(p[0]);
    }
  }

  // ---- Tokens of a text and of its bytes ----

  function Chars(s: string): seq<Token> { if s == "" then [] else [Char(s[0])] + Chars(s[1..]) }

  function Widened(ts: seq<Token>): seq<Token> {
    if ts == [] then []
    else (if ts[0].Char? then Chars(WideChar(ts[0].c)) else [ts[0]]) + Widened(ts[1..])
  }

  lemma {:induction false} TokensOfHigh(h: string, rest: string)
    requires forall c :: c in h ==> c as int >= 0x80
    ensures Tokens(h + rest) == Chars(h) + Tokens(rest)
  {
    hide Tokens;
    if h == "" {
      assert h + rest == rest;
    } else {
      assert h[0] in h && forall c :: c in h[1..] ==> c in h;
      assert (h + rest)[1..] == h[1..] + rest && (h + rest)[0] == h[0];
      Stars(h + rest);
      TokensFirst(h + rest);
      TokensOfHigh(h[1..], rest);
    }
  }

  /** The compiler splits every character into the bytes of its encoding, and leaves the wildcards alone. */
  lemma {:induction false} TokensOfWide(p: string)
    ensures Tokens(Wide(p)) == Widened(Tokens(p))
    decreases |p|
  {
    hide Wide, WideChar;
    WideHead(p);
    if p == "" {
    } else if p[0] as int >= 0x80 {
      Stars(p);
      WideStep(p);
      TokensOfHigh(WideChar(p[0]), Wide(p[1..]));
      TokensOfWide(p[1..]);
      WidenedStep(Char(p[0]), Tokens(p[1..]));
    } else {
      var n, t := TokenLength(p), FirstToken(p);
      SameFirst(p);
      TokensFirst(p);
      TokensFirst(Wide(p));
      TokensOfWide(p[n..]);
      WidenedStep(t, Tokens(p[n..]));
      if t.Char? {
        OneByte(t.c);
      }
    }
  }

  lemma OneByte(c: char)
    requires c as int < 0x80
    ensures Chars(WideChar(c)) == [Char(c)]
  {
    assert [c][1..] == "";
    assert Chars([c]) == [Char(c)] + Chars("");
  }

  lemma TokensFirst(p: string)
    requires p != ""
    ensures Tokens(p) == [FirstToken(p)] + Tokens(p[TokenLength(p)..])
  {
  }

  /** Wildcards are ASCII: the bytes start with the same token as the text. */
  lemma SameFirst(p: string)
    requires p != "" && p[0] as int < 0x80
    ensures Wide(p) != "" && FirstToken(Wide(p)) == FirstToken(p) && TokenLength(Wide(p)) == TokenLength(p)
    ensures Wide(p)[TokenLength(p)..] == Wide(p[TokenLength(p)..])
    ensures FirstToken(p).Char? ==> FirstToken(p).c == p[0]
  {
    hide Wide, WideChar;
    var w := Wide(p);
    WideHead(p);
    WideHead(p[1..]);
    Stars(p);
    Stars(w);
    if |p| >= 2 {
      assert p[1..][0] == p[1] && p[1..][1..] == p[2..] && w[1..][1..] == w[2..];
      WideHead(p[2..]);
      if |p| >= 3 && p[1] == '*' {
        assert p[2..][0] == p[2] && p[2..][1..] == p[3..] && w[2..][1..] == w[3..];
      }
    }
  }

  lemma WidenedStep(t: Token, ts: seq<Token>)
    ensures Widened([t] + ts) == (if t.Char? then Chars(WideChar(t.c)) else [t]) + Widened(ts)
  {
    assert ([t] + ts)[1..] == ts;
  }

  // ---- How long a path has to be ----

  function MinLength(ts: seq<Token>): nat {
    if ts == [] then 0 else (if ts[0].Char? || ts[0].One? then 1 else 0) + MinLength(ts[1..])
  }

  lemma {:induction false} MinLengthAppend(a: seq<Token>, b: seq<Token>)
    ensures MinLength(a + b) == MinLength(a) + MinLength(b)
  {
    if a == [] {
      assert a + b == b;
    } else {
      assert (a + b)[1..] == a[1..] + b;
      MinLengthAppend(a[1..], b);
    }
  }

  lemma {:induction false} CharsLength(s: string)
    ensures MinLength(Chars(s)) == |s|
  {
    if s != "" {
      assert ([Char(s[0])] + Chars(s[1..]))[1..] == Chars(s[1..]);
      CharsLength(s[1..]);
    }
  }

  /** A path is no shorter than the characters that have to be there. */
  lemma {:induction false} AcceptedIsLong(ts: seq<Token>, s: string, d: bool)
    requires Accepts(ts, s, d)
    ensures |s| >= MinLength(ts)
    decreases |ts|, |s|
  {
    if ts != [] {
      var rest := ts[1..];
      if Accepts(rest, s, d) && !ts[0].Char? && !ts[0].One? {
        AcceptedIsLong(rest, s, d);
      } else if ts[0].Dirs? {
        var i: nat :| i < |s| && EndsDirs(s, i, d) && Accepts(rest, s[i + 1..], d);
        AcceptedIsLong(rest, s[i + 1..], d);
      } else if ts[0].Char? || ts[0].One? {
        AcceptedIsLong(rest, s[1..], d);
      } else {
        AcceptedIsLong(ts, s[1..], d);
      }
    }
  }

  lemma {:induction false} WidenedIsLonger(ts: seq<Token>)
    ensures MinLength(Widened(ts)) >= MinLength(ts)
    ensures (exists c :: Char(c) in ts && c as int >= 0x80) ==> MinLength(Widened(ts)) > MinLength(ts)
  {
    if ts != [] {
      var first := if ts[0].Char? then Chars(WideChar(ts[0].c)) else [ts[0]];
      WidenedIsLonger(ts[1..]);
      MinLengthAppend(first, Widened(ts[1..]));
      if ts[0].Char? {
        CharsLength(WideChar(ts[0].c));
      }
      hide WideChar;
      assert forall t :: t in ts ==> t == ts[0] || t in ts[1..];
    }
  }

  /** Every character of a text that is no wildcard is among its tokens. */
  lemma {:induction false} CharInTokens(p: string, c: char)
    requires c in p && c != '*' && c != '?' && c != '/'
    ensures Char(c) in Tokens(p)
    decreases |p|
  {
    Stars(p);
    var n := TokenLength(p);
    TokensFirst(p);
    if p[0] != c {
      var i :| 0 <= i < |p| && p[i] == c;
      assert i >= n && p[n..][i - n] == c;
      CharInTokens(p[n..], c);
    }
  }

  lemma {:induction false} TokenInText(p: string, c: char)
    requires Char(c) in Tokens(p)
    ensures c in p
    decreases |p|
  {
    Stars(p);
    var n := TokenLength(p);
    TokensFirst(p);
    if FirstToken(p) != Char(c) {
      TokenInText(p[n..], c);
    }
  }

  // ---- A path made from the tokens ----

  /** `m` segments, each one a newline. */
  function Newlines(m: nat): string { if m == 0 then "" else "\n/" + Newlines(m - 1) }

  /** The shortest path the tokens accept, with `m` newline segments for every double star. */
  function Sample(ts: seq<Token>, m: nat): string {
    if ts == [] then ""
    else
      match ts[0]
      case Char(c) => [c] + Sample(ts[1..], m)
      case One => "a" + Sample(ts[1..], m)
      case Run => Sample(ts[1..], m)
      case _ => Newlines(m) + Sample(ts[1..], m)
  }

  lemma {:induction false} AllTakes(ts: seq<Token>, u: string, s: string)
    requires ts != [] && ts[0] == All && Accepts(ts[1..], s, true)
    ensures Accepts(ts, u + s, true)
  {
    if u == "" {
      assert u + s == s;
    } else {
      assert (u + s)[1..] == u[1..] + s;
      AllTakes(ts, u[1..], s);
    }
  }

  lemma {:induction false} NewlinesEnd(m: nat)
    requires m > 0
    ensures |Newlines(m)| == 2 * m && Newlines(m)[2 * m - 1] == '/'
  {
    if m > 1 {
      NewlinesEnd(m - 1);
    } else {
      assert Newlines(0) == "" && Newlines(1) == "\n/" + "";
    }
  }

  lemma {:induction false} SampleIsAccepted(ts: seq<Token>, m: nat)
    ensures Accepts(ts, Sample(ts, m), true)
    ensures |Sample(ts, 0)| == MinLength(ts)
  {
    if ts != [] {
      SampleIsAccepted(ts[1..], m);
      var s, rest := Sample(ts, m), Sample(ts[1..], m);
      match ts[0]
      case Char(c) => assert s[1..] == rest;
      case One => assert s[1..] == rest;
      case Run =>
      case All => AllTakes(ts, Newlines(m), rest);
      case Dirs =>
        if m > 0 {
          NewlinesEnd(m);
          assert EndsDirs(s, 2 * m - 1, true) && s[2 * m - 1 + 1..] == rest;
        } else {
          assert s == rest;
        }
    }
  }

  lemma {:induction false} SampleWithoutNewlines(ts: seq<Token>)
    requires Char('\n') !in ts
    ensures No('\n', Sample(ts, 0))
  {
    if ts != [] {
      SampleWithoutNewlines(ts[1..]);
      assert Newlines(0) == "";
    }
  }

  // ---- Newlines a dot stops at ----

  /** Newlines with a slash right behind them. */
  function NewlineEnds(s: string): nat {
    if |s| < 2 then 0 else (if s[0] == '\n' && s[1] == '/' then 1 else 0) + NewlineEnds(s[1..])
  }

  lemma {:induction false} NewlinesCount(m: nat, s: string)
    ensures NewlineEnds(Newlines(m) + s) >= m
  {
    if m > 0 {
      var rest := Newlines(m - 1) + s;
      assert Newlines(m) + s == ['\n', '/'] + rest;
      assert (Newlines(m) + s)[1..] == ['/'] + rest && (['/'] + rest)[1..] == rest;
      NewlinesCount(m - 1, s);
    }
  }

  lemma {:induction false} NewlineEndsBehind(u: string, s: string)
    ensures NewlineEnds(u + s) >= NewlineEnds(s)
  {
    if u == "" {
      assert u + s == s;
    } else {
      assert (u + s)[1..] == u[1..] + s;
      NewlineEndsBehind(u[1..], s);
    }
  }

  /** Up to a slash with no newline before it there is nothing to count. */
  lemma {:induction false} NothingToCount(s: string, i: nat)
    requires i < |s| && s[i] == '/' && No('\n', s[..i])
    ensures NewlineEnds(s) == NewlineEnds(s[i + 1..])
  {
    if i > 0 {
      assert s[0] in s[..i] && s[1..][..i - 1] == s[1..i] && s[1..][i..] == s[i + 1..];
      assert forall c :: c in s[1..i] ==> c in s[..i];
      NothingToCount(s[1..], i - 1);
    }
  }

  /** Each token but a double star gets past one such newline at most, and a double star past none. */
  lemma {:induction false} FewNewlineEnds(ts: seq<Token>, s: string)
    requires Accepts(ts, s, false)
    ensures NewlineEnds(s) <= |ts|
    decreases |ts|, |s|
  {
    if ts != [] {
      var rest := ts[1..];
      if Accepts(rest, s, false) && !ts[0].Char? && !ts[0].One? {
        FewNewlineEnds(rest, s);
      } else if ts[0].Dirs? {
        var i: nat :| i < |s| && EndsDirs(s, i, false) && Accepts(rest, s[i + 1..], false);
        NothingToCount(s, i);
        FewNewlineEnds(rest, s[i + 1..]);
      } else if ts[0].Char? || ts[0].One? {
        FewNewlineEnds(rest, s[1..]);
      } else if ts[0].Run? && |s| >= 2 && s[1] == '/' {
        FewNewlineEnds(rest, s[1..]);
      } else {
        FewNewlineEnds(ts, s[1..]);
      }
    }
  }

  // ---- Where a dot that stops at newlines makes no difference ----

  predicate NoDots(ts: seq<Token>) { Dirs !in ts && All !in ts }

  lemma {:induction false} DotsAgree(ts: seq<Token>, s: string)
    requires NoDots(ts) || No('\n', s)
    ensures Accepts(ts, s, false) <==> Accepts(ts, s, true)
    decreases |ts|, |s|
  {
    if ts != [] {
      var rest := ts[1..];
      forall i: nat | i <= |s|
        ensures Accepts(rest, s[i..], false) <==> Accepts(rest, s[i..], true)
        ensures i < |s| && ts[0].Dirs? ==> (EndsDirs(s, i, false) <==> EndsDirs(s, i, true))
      {
        DotsAgree(rest, s[i..]);
      }
      assert s[0..] == s;
      if s != "" && (ts[0].Run? || ts[0].All?) {
        DotsAgree(ts, s[1..]);
      }
    }
  }

  lemma {:induction false} PlainSegmentNoDots(q: string)
    requires No('/', q) && !HasDoubleStar(q)
    ensures NoDots(Tokens(q))
  {
    if q != "" {
      NoDoubleStarBehind(q);
      Stars(q);
      TokensStep(q);
      hide HasDoubleStar;
      PlainSegmentNoDots(q[1..]);
    }
  }

  /** Double stars among the tokens are double stars among the segments. */
  lemma {:induction false} DotsAreSegments(p: string)
    requires WholeStars(p)
    ensures NoDots(Tokens(p)) <==> "**" !in Segments(p)
    decreases |p|
  {
    hide Segments, HasDoubleStar, Tokens, NoDots;
    var i := SlashAt(p);
    SegmentsStep(p);
    if i == |p| {
      OnlySegment(p);
    } else {
      var q, rest := p[..i], p[i + 1..];
      assert Segments(p) == [q] + Segments(rest) && q in Segments(p) && p == q + ("/" + rest);
      forall x | x in Segments(rest)
        ensures x in Segments(p)
      {
      }
      DotsAreSegments(rest);
      DotsOfFirst(q, rest);
    }
  }

  lemma DotsOfFirst(q: string, rest: string)
    requires No('/', q) && (q == "**" || !HasDoubleStar(q))
    ensures NoDots(Tokens(q + ("/" + rest))) <==> q != "**" && NoDots(Tokens(rest))
  {
    hide HasDoubleStar, Tokens;
    var p := q + ("/" + rest);
    if q == "**" {
      assert p[3..] == rest;
      Stars(p);
      TokensOfDirs(p);
    } else {
      PlainSegmentNoDots(q);
      SegmentTokens(q, "/" + rest);
      TokensOfSlash(rest);
    }
  }

  lemma OnlySegment(p: string)
    requires WholeStars(p) && SlashAt(p) == |p|
    ensures NoDots(Tokens(p)) <==> "**" !in Segments(p)
  {
    hide Segments;
    SegmentsStep(p);
    assert p[..|p|] == p && p in Segments(p);
    if p == "**" {
      TokensOfAll();
    } else {
      PlainSegmentNoDots(p);
    }
  }

  // ---- Exactly when the meaning is kept ----

  /** The compiled pattern matches the path. */
  ghost predicate Compiled(p: string, path: string) { Matches(Expression(Tokens(Wide(p))), path) }

  /** The segments of the pattern match those of the path. */
  predicate Meant(p: string, path: string) { PathMatches(Segments(p), Segments(path)) }

  lemma CompiledIs(p: string, path: string)
    ensures Compiled(p, path) <==> Accepts(Widened(Tokens(p)), path, false)
  {
    MatchesIsAccepts(Tokens(Wide(p)), path);
    TokensOfWide(p);
  }

  lemma MeantIs(p: string, path: string)
    requires WholeStars(p)
    ensures Meant(p, path) <==> Accepts(Tokens(p), path, true)
  {
    AcceptsIsMeaning(p, path, true);
  }

  /**
   * Compiler correctness: an ASCII pattern whose double stars are whole segments is compiled to a
   * valid expression, which matches a path exactly when the segments match, if the path has no
   * newline or the pattern no double star.
   */
  lemma CompilerKeepsMeaning(p: string, path: string)
    requires WholeStars(p) && Utf8.IsAscii(p) && (No('\n', path) || "**" !in Segments(p))
    ensures Parse("^" + Text(Tokens(Wide(p))) + "$") == Some(Expression(Tokens(Wide(p))))
    ensures Compiled(p, path) <==> Meant(p, path)
  {
    Emitted(Tokens(Wide(p)));
    AsciiIsNotWide(p);
    MatchesIsAccepts(Tokens(p), path);
    MeantIs(p, path);
    DotsAreSegments(p);
    DotsAgree(Tokens(p), path);
  }

  /** A text with a character outside ASCII is not even matched by the shortest path it means. */
  lemma WideNeedsMore(p: string)
    requires WholeStars(p) && !Utf8.IsAscii(p)
    ensures var path := Sample(Tokens(p), 0);
      Meant(p, path) && !Compiled(p, path)
  {
    var ts, c :| ts == Tokens(p) && c in p && c as int >= 0x80;
    var path := Sample(ts, 0);
    SampleIsAccepted(ts, 0);
    MeantIs(p, path);
    CharInTokens(p, c);
    WidenedIsLonger(ts);
    CompiledIs(p, path);
    if Accepts(Widened(ts), path, false) {
      AcceptedIsLong(Widened(ts), path, false);
    }
  }

  lemma {:induction false} SampleCounts(ts: seq<Token>, m: nat)
    requires !NoDots(ts)
    ensures NewlineEnds(Sample(ts, m)) >= m
  {
    var s, rest := Sample(ts, m), Sample(ts[1..], m);
    if ts[0].Dirs? || ts[0].All? {
      NewlinesCount(m, rest);
    } else {
      SampleCounts(ts[1..], m);
      if ts[0].Char? {
        NewlineEndsBehind([ts[0].c], rest);
      } else if ts[0].One? {
        NewlineEndsBehind("a", rest);
      }
    }
  }

  /** With a double star there is always a path with too many newlines for the expression. */
  lemma NewlinesAreTooMuch(p: string)
    requires WholeStars(p) && "**" in Segments(p)
    ensures var path := Sample(Tokens(p), |Widened(Tokens(p))| + 1);
      Meant(p, path) && !Compiled(p, path)
  {
    hide Segments, Tokens, Widened, Sample, Accepts, WholeStars, NewlineEnds, Compiled, Meant;
    var ts := Tokens(p);
    var m := |Widened(ts)| + 1;
    var path := Sample(ts, m);
    DotsAreSegments(p);
    SampleIsAccepted(ts, m);
    MeantIs(p, path);
    SampleCounts(ts, m);
    CompiledIs(p, path);
    if Accepts(Widened(ts), path, false) {
      FewNewlineEnds(Widened(ts), path);
    }
  }

  /** On every path: exactly the ASCII texts without a double star keep their meaning. */
  lemma MeaningOnEveryPath(p: string)
    requires WholeStars(p)
    ensures (forall path: string :: Compiled(p, path) <==> Meant(p, path)) <==> Utf8.IsAscii(p) && "**" !in Segments(p)
  {
    hide Compiled, Meant, Segments, WholeStars, Utf8.IsAscii, Sample, Widened, Tokens;
    if !Utf8.IsAscii(p) {
      WideNeedsMore(p);
    } else if "**" in Segments(p) {
      NewlinesAreTooMuch(p);
    } else {
      forall path: string
        ensures Compiled(p, path) <==> Meant(p, path)
      {
        CompilerKeepsMeaning(p, path);
      }
    }
  }

  lemma {:induction false} NeededChar(ts: seq<Token>, c: char, s: string, d: bool)
    requires Char(c) in ts && Accepts(ts, s, d)
    ensures c in s
    decreases |ts|, |s|
  {
    var rest := ts[1..];
    if ts[0] != Char(c) {
      if Accepts(rest, s, d) && !ts[0].Char? && !ts[0].One? {
        NeededChar(rest, c, s, d);
      } else if ts[0].Dirs? {
        var i: nat :| i < |s| && EndsDirs(s, i, d) && Accepts(rest, s[i + 1..], d);
        NeededChar(rest, c, s[i + 1..], d);
      } else if ts[0].Char? || ts[0].One? {
        NeededChar(rest, c, s[1..], d);
      } else {
        NeededChar(ts, c, s[1..], d);
      }
    }
  }

  lemma {:induction false} WidenedKeeps(ts: seq<Token>, c: char)
    requires Char(c) in ts && c as int < 0x80
    ensures Char(c) in Widened(ts)
  {
    if ts[0] == Char(c) {
      OneByte(c);
    } else {
      WidenedKeeps(ts[1..], c);
    }
  }

  /**
   * On paths without newlines: exactly the ASCII texts keep their meaning, and those that ask for a
   * newline and so match none of these paths.
   */
  lemma MeaningOnPlainPaths(p: string)
    requires WholeStars(p)
    ensures (forall path: string :: No('\n', path) ==> (Compiled(p, path) <==> Meant(p, path))) <==>
      Utf8.IsAscii(p) || '\n' in p
  {
    hide Compiled, Meant, Segments, WholeStars, Utf8.IsAscii, Sample, Widened, Tokens;
    if Utf8.IsAscii(p) {
      forall path: string | No('\n', path)
        ensures Compiled(p, path) <==> Meant(p, path)
      {
        CompilerKeepsMeaning(p, path);
      }
    } else if '\n' in p {
      CharInTokens(p, '\n');
      WidenedKeeps(Tokens(p), '\n');
      forall path: string | No('\n', path)
        ensures !Compiled(p, path) && !Meant(p, path)
      {
        CompiledIs(p, path);
        MeantIs(p, path);
        if Accepts(Widened(Tokens(p)), path, false) {
          NeededChar(Widened(Tokens(p)), '\n', path, false);
        }
        if Accepts(Tokens(p), path, true) {
          NeededChar(Tokens(p), '\n', path, true);
        }
      }
    } else {
      WideNeedsMore(p);
      if Char('\n') in Tokens(p) {
        TokenInText(p, '\n');
      }
      SampleWithoutNewlines(Tokens(p));
    }
  }

  // ---- globMatch ----

  /** Without a leading "./". */
  function TrimDot(s: string): string { if "./" <= s then s[2..] else s }

  /** unicode.IsSpace */
  predicate IsSpace(c: char) {
    || '\t' <= c <= '\r' || c == ' ' || c == '\U{85}' || c == '\U{A0}' || c == '\U{1680}'
      || '\U{2000}' <= c <= '\U{200A}'
    || c == '\U{2028}' || c == '\U{2029}' || c == '\U{202F}' || c == '\U{205F}' || c == '\U{3000}'
  }

  /** strings.TrimSpace */
  function TrimSpace(s: string): string {
    if s == "" then ""
    else if IsSpace(s[0]) then TrimSpace(s[1..])
    else if IsSpace(s[|s| - 1]) then TrimSpace(s[..|s| - 1])
    else s
  }

  /** One "./" less in front, if there is one. */
  predicate Undotted(s: string, t: string) { s == "./" + t || (t == s && !("./" <= s)) }

  predicate Blank(s: string, from: nat, to: nat)
    requires to <= |s|
  {
    forall k :: from <= k < to ==> IsSpace(s[k])
  }

  /** The text between the blanks at both ends. */
  ghost predicate Unspaced(s: string, t: string) {
    && (t != "" ==> !IsSpace(t[0]) && !IsSpace(t[|t| - 1]))
    && exists i: nat, j: nat :: i <= j <= |s| && t == s[i..j] && Blank(s, 0, i) && Blank(s, j, |s|)
  }

  lemma BlankWithin(s: string, lo: nat, hi: nat, from: nat, to: nat)
    requires lo <= hi <= |s| && from <= to <= hi - lo
    ensures Blank(s[lo..hi], from, to) <==> Blank(s, lo + from, lo + to)
  {
    assert forall k :: from <= k < to ==> s[lo..hi][k] == s[lo + k];
    assert forall k :: lo + from <= k < lo + to ==> s[k] == s[lo..hi][k - lo];
  }

  lemma Within(s: string, lo: nat, hi: nat, from: nat, to: nat)
    requires lo <= hi <= |s| && from <= to <= hi - lo
    ensures s[lo..hi][from..to] == s[lo + from..lo + to]
  {
    var t := s[lo..hi];
    assert forall k :: 0 <= k < to - from ==> t[from..to][k] == t[from + k] == s[lo + from..lo + to][k];
  }

  /** Blanks around a stretch do not count. */
  lemma UnspacedWithin(s: string, lo: nat, hi: nat, t: string)
    requires lo <= hi <= |s| && Blank(s, 0, lo) && Blank(s, hi, |s|) && Unspaced(s[lo..hi], t)
    ensures Unspaced(s, t)
  {
    hide IsSpace;
    var f := s[lo..hi];
    var i: nat, j: nat :| i <= j <= |f| && t == f[i..j] && Blank(f, 0, i) && Blank(f, j, |f|);
    BlankWithin(s, lo, hi, 0, i);
    BlankWithin(s, lo, hi, j, |f|);
    Within(s, lo, hi, i, j);
    assert Blank(s, 0, lo + i) && Blank(s, lo + j, |s|);
  }

  /** There is one such stretch. */
  lemma UnspacedOnce(s: string, t: string, u: string)
    requires Unspaced(s, t) && Unspaced(s, u)
    ensures t == u
  {
    hide IsSpace, Blank;
    var i, j := UnspacedAt(s, t);
    var k, l := UnspacedAt(s, u);
    if i < j {
      InsideBlanks(s, i, j, k, l);
    }
    if k < l {
      InsideBlanks(s, k, l, i, j);
    }
  }

  lemma UnspacedAt(s: string, t: string) returns (i: nat, j: nat)
    requires Unspaced(s, t)
    ensures i <= j <= |s| && t == s[i..j] && Blank(s, 0, i) && Blank(s, j, |s|)
    ensures i < j ==> !IsSpace(s[i]) && !IsSpace(s[j - 1])
  {
    hide IsSpace, Blank;
    i, j :| i <= j <= |s| && t == s[i..j] && Blank(s, 0, i) && Blank(s, j, |s|);
    assert i < j ==> t[0] == s[i] && t[|t| - 1] == s[j - 1];
  }

  /** A stretch that begins and ends without a blank lies between any blanks at the ends. */
  lemma InsideBlanks(s: string, i: nat, j: nat, k: nat, l: nat)
    requires i < j <= |s| && !IsSpace(s[i]) && !IsSpace(s[j - 1])
    requires k <= l <= |s| && Blank(s, 0, k) && Blank(s, l, |s|)
    ensures k <= i < j <= l
  {
    hide IsSpace;
  }

  lemma TrimDotIs(s: string, t: string)
    ensures Undotted(s, t) <==> t == TrimDot(s)
  {
    assert "./" <= s ==> s == "./" + s[2..];
    assert s == "./" + t ==> s[2..] == t;
  }

  lemma {:induction false} TrimSpaceIs(s: string)
    ensures Unspaced(s, TrimSpace(s))
    decreases |s|
  {
    hide Unspaced, IsSpace;
    if s == "" || (!IsSpace(s[0]) && !IsSpace(s[|s| - 1])) {
      NothingTrimmed(s);
    } else if IsSpace(s[0]) {
      TrimSpaceIs(s[1..]);
      assert s[1..|s|] == s[1..];
      UnspacedWithin(s, 1, |s|, TrimSpace(s[1..]));
    } else {
      TrimSpaceIs(s[..|s| - 1]);
      assert s[0..|s| - 1] == s[..|s| - 1];
      UnspacedWithin(s, 0, |s| - 1, TrimSpace(s[..|s| - 1]));
    }
  }

  lemma NothingTrimmed(s: string)
    requires s == "" || (!IsSpace(s[0]) && !IsSpace(s[|s| - 1]))
    ensures Unspaced(s, s)
  {
    assert s[0..|s|] == s && Blank(s, 0, 0) && Blank(s, |s|, |s|);
  }

  /**
   * globMatch; `simple` is filepath.Match, tried on every part of the path when the pattern has no
   * slash.
   */
  ghost predicate GlobMatch(relative: string, pattern: string, simple: (string, string) -> bool) {
    var path, p := TrimDot(relative), TrimDot(TrimSpace(pattern));
    && p != ""
    && ((No('/', p) && exists part :: part in Segments(path) && simple(part, p)) || Compiled(p, path))
  }

  /**
   * A pattern with a slash matches what its tokens accept, its characters split into their bytes; one
   * without also matches any single part. Where the compiler keeps the meaning, that is what the
   * segments say.
   */
  lemma GlobMatchMeans(
    relative: string, pattern: string, simple: (string, string) -> bool, path: string, stripped: string, p: string)
    requires Undotted(relative, path) && Unspaced(pattern, stripped) && Undotted(stripped, p)
    ensures var part := No('/', p) && exists part :: part in Segments(path) && simple(part, p);
      && (GlobMatch(relative, pattern, simple) <==> p != "" && (part || Accepts(Widened(Tokens(p)), path, false)))
      && (WholeStars(p) && Utf8.IsAscii(p) && (No('\n', path) || "**" !in Segments(p)) ==>
        (GlobMatch(relative, pattern, simple) <==> p != "" && (part || Meant(p, path))))
  {
    hide Compiled, Meant, Segments, TrimDot, TrimSpace, Tokens, Widened, Accepts, Undotted, Unspaced;
    TrimDotIs(relative, path);
    TrimSpaceIs(pattern);
    UnspacedOnce(pattern, stripped, TrimSpace(pattern));
    TrimDotIs(stripped, p);
    CompiledIs(p, path);
    if WholeStars(p) && Utf8.IsAscii(p) && (No('\n', path) || "**" !in Segments(p)) {
      CompilerKeepsMeaning(p, path);
    }
  }

  /** A path that is the pattern itself, one character outside ASCII, and is not matched. */
  lemma WideIsLost(simple: (string, string) -> bool)
    ensures var p := "d/\U{E9}";
      WholeStars(p) && Meant(p, p) && !GlobMatch(p, p, simple)
  {
    var p := "d/\U{E9}";
    SegmentsStep(p);
    SegmentsStep("\U{E9}");
    assert SlashAt(p) == 1 && p[2..] == "\U{E9}" && p[..1] == "d";
    assert Segments(p) == ["d", "\U{E9}"];
    assert !HasDoubleStar("d") && !HasDoubleStar("\U{E9}");
    assert p[2] in p && p[2] as int >= 0x80;
    WideNeedsMore(p);
    SmallTokens(p);
    assert p[1] == '/';
  }

  lemma SmallTokens(p: string)
    requires p == "d/\U{E9}"
    ensures Sample(Tokens(p), 0) == p && TrimSpace(p) == TrimDot(p) == p
  {
    assert p[1..] == "/\U{E9}" && p[1..][1..] == "\U{E9}" && p[1..][1..][1..] == "";
    assert Tokens(p) == [Char('d')] + Tokens(p[1..]);
    assert Tokens(p[1..]) == [Char('/')] + Tokens(p[1..][1..]);
    assert Tokens(p[1..][1..]) == [Char('\U{E9}')] + Tokens("");
    assert Tokens(p) == [Char('d'), Char('/'), Char('\U{E9}')];
    var ts := Tokens(p);
    assert ts[1..] == [Char('/'), Char('\U{E9}')] && ts[1..][1..] == [Char('\U{E9}')] && ts[1..][1..][1..] == [];
    assert Sample([], 0) == "" && Sample(ts[1..][1..], 0) == "\U{E9}" && Sample(ts[1..], 0) == "/" + "\U{E9}";
  }

  lemma StarSegments()
    ensures Segments("**/a") == ["**", "a"] && Segments("\n/a") == ["\n", "a"]
  {
    var p, s := "**/a", "\n/a";
    assert SlashAt(p) == 2 && SlashAt(s) == 1 && SlashAt("a") == 1 by {
      assert p[1..] == "*/a" && p[1..][1..] == "/a" && s[1..] == "/a" && "a"[1..] == "";
    }
    SegmentsStep(p);
    SegmentsStep(s);
    SegmentsStep("a");
    assert p[3..] == "a" && p[..2] == "**" && s[2..] == "a" && s[..1] == "\n";
  }

  lemma StarTokens()
    ensures Tokens("**/a") == [Dirs, Char('a')] && Wide("**/a") == "**/a" && TrimSpace("**/a") == "**/a"
  {
    var p := "**/a";
    AsciiIsNotWide(p);
    Stars(p);
    TokensOfDirs(p);
    assert p[3..] == "a" && "a"[1..] == "";
    assert Tokens("a") == [Char('a')] + Tokens("");
  }

  lemma StarAccepts(d: bool)
    ensures Accepts([Dirs, Char('a')], "\n/a", d) == d
  {
    var s := "\n/a";
    assert [Dirs, Char('a')][1..] == [Char('a')] && [Char('a')][1..] == [];
    assert s[..1] == "\n" && s[1 + 1..] == "a" && "a"[1..] == "";
    assert '\n' in s[..1] && (EndsDirs(s, 1, d) <==> d);
    assert Accepts([Char('a')], "a", d);
  }

  /** A double star and a directory named by a newline. */
  lemma NewlineIsLost(simple: (string, string) -> bool)
    ensures WholeStars("**/a") && Meant("**/a", "\n/a") && !GlobMatch("\n/a", "**/a", simple)
  {
    hide Segments, Tokens, Wide, Accepts, TrimSpace;
    StarSegments();
    StarTokens();
    StarAccepts(false);
    StarAccepts(true);
    assert WholeStars("**/a") by {
      assert !HasDoubleStar("a");
    }
    hide WholeStars;
    MeantIs("**/a", "\n/a");
    MatchesIsAccepts(Tokens("**/a"), "\n/a");
    assert "./"[0] != "**/a"[0] && "./"[0] != "\n/a"[0];
    assert "**/a"[2] == '/' && '/' in "**/a" && TrimDot("**/a") == "**/a" && TrimDot("\n/a") == "\n/a";
  }
}
