/** The glob compiler of the file perimeter, and what its patterns mean segment by segment. */
module Globs {
  import opened Wrappers
  import opened ByteStrings
  import opened Collections
  import opened Regexes

  // ---- The compiler ----

  /** The compiler takes each byte of a pattern for the character with that number. */
  function Latin1(pattern: Bytes): (s: string)
    ensures |s| == |pattern|
  {
    seq(|pattern|, i requires 0 <= i < |pattern| => pattern[i] as char)
  }

  datatype Token = Char(c: char) | One | Run | Dirs | All

  /** How the compiler reads a pattern, wildcard by wildcard. */
  function Tokens(p: string): seq<Token> {
    if p == "" then []
    else if "**/" <= p then [Dirs] + Tokens(p[3..])
    else if "**" <= p then [All] + Tokens(p[2..])
    else if p[0] == '*' then [Run] + Tokens(p[1..])
    else if p[0] == '?' then [One] + Tokens(p[1..])
    else [Char(p[0])] + Tokens(p[1..])
  }

  function TextOf(t: Token): string {
    match t
    case Char(c) => Quote(c)
    case One => "[^/]"
    case Run => "[^/]*"
    case Dirs => "(?:.*/)?"
    case All => ".*"
  }

  function Text(ts: seq<Token>): string {
    if ts == [] then "" else TextOf(ts[0]) + Text(ts[1..])
  }

  lemma Stars(p: string)
    ensures "**" <= p <==> |p| >= 2 && p[0] == '*' && p[1] == '*'
    ensures "**/" <= p <==> |p| >= 3 && p[0] == '*' && p[1] == '*' && p[2] == '/'
  {
  }

  /** The switch of globRegexp: what one turn writes, and where the next one starts. */
  method WriteToken(pattern: Bytes, from: nat) returns (piece: string, index: nat)
    requires from < |pattern|
    ensures var rest := Latin1(pattern)[from..];
      piece == TextOf(FirstToken(rest)) && index == from + TokenLength(rest) <= |pattern|
  {
    index := from;
    ghost var rest := Latin1(pattern)[from..];
    Stars(rest);
    var symbol := pattern[index] as char;
    if symbol == '*' {
      if index + 1 < |pattern| && pattern[index + 1] as char == '*' {
        assert rest[1] == '*';
        index := index + 1;
        if index + 1 < |pattern| && pattern[index + 1] as char == '/' {
          assert rest[2] == '/';
          index := index + 1;
          piece := "(?:.*/)?";
        } else {
          piece := ".*";
        }
      } else {
        piece := "[^/]*";
      }
    } else if symbol == '?' {
      piece := "[^/]";
    } else {
      piece := Quote(symbol);
    }
    index := index + 1;
  }

  /** globRegexp: one pass over the bytes, looking one or two ahead at a star. */
  method GlobRegexp(pattern: Bytes) returns (text: string)
    ensures text == "^" + Text(Tokens(Latin1(pattern))) + "$"
  {
    ghost var p := Latin1(pattern);
    hide Text, Tokens, TextOf, FirstToken, TokenLength, Latin1;
    text := "^";
    var index := 0;
    assert p[0..] == p;
    while index < |pattern|
      invariant 0 <= index <= |pattern|
      invariant text + Text(Tokens(p[index..])) == "^" + Text(Tokens(p))
    {
      NextToken(p, index);
      var piece, next := WriteToken(pattern, index);
      Assoc(text, piece, Text(Tokens(p[next..])));
      text, index := text + piece, next;
    }
    EndOfText(p, index);
    text := text + "$";
  }

  lemma EndOfText(p: string, i: nat)
    requires i == |p|
    ensures Text(Tokens(p[i..])) == "" && forall text: string {:trigger text + ""} :: text + "" == text
  {
    assert p[i..] == "";
  }

  function FirstToken(p: string): Token
    requires p != ""
  {
    if "**/" <= p then Dirs
    else if "**" <= p then All
    else if p[0] == '*' then Run
    else if p[0] == '?' then One
    else Char(p[0])
  }

  function TokenLength(p: string): (n: nat)
    requires p != ""
    ensures 0 < n <= |p|
  {
    if "**/" <= p then 3 else if "**" <= p then 2 else 1
  }

  lemma NextToken(p: string, i: nat)
    requires i < |p|
    ensures var q, n := p[i..], TokenLength(p[i..]);
      i + n <= |p| && Text(Tokens(q)) == TextOf(FirstToken(q)) + Text(Tokens(p[i + n..]))
  {
    var q, n := p[i..], TokenLength(p[i..]);
    assert q[n..] == p[i + n..];
    assert ([FirstToken(q)] + Tokens(q[n..]))[1..] == Tokens(q[n..]);
  }

  // ---- The emitted text is the intended expression ----

  function RegexOf(t: Token): Regex {
    match t
    case Char(c) => Lit(c)
    case One => NotSlash
    case Run => Star(NotSlash)
    case Dirs => Opt(Then(Star(Dot), Then(Lit('/'), Empty)))
    case All => Star(Dot)
  }

  function Expression(ts: seq<Token>): Regex {
    if ts == [] then Empty else Then(RegexOf(ts[0]), Expression(ts[1..]))
  }

  /** What follows an item never starts with a repetition sign. */
  lemma NeverRepeats(ts: seq<Token>)
    ensures !Repeats(Text(ts) + "$")
  {
  }

  lemma ParseToken(t: Token, rest: string)
    requires !Repeats(rest)
    ensures var s := TextOf(t) + rest;
      && s != "" && s[0] != ')' && s[0] != '$' && Atom(s).Some?
      && var (r, u) := Atom(s).value; Repeated(r, u) == Some((RegexOf(t), rest))
  {
    var s := TextOf(t) + rest;
    match t
    case Char(c) =>
      assert IsMeta(c) ==> s[2..] == rest;
      assert !IsMeta(c) ==> s[1..] == rest;
    case One => assert s[4..] == rest;
    case Run =>
      assert s[4..] == "*" + rest && ("*" + rest)[1..] == rest;
    case All =>
      assert s[1..] == "*" + rest && ("*" + rest)[1..] == rest;
    case Dirs => ParseDirs(rest);
  }

  lemma ParseDirs(rest: string)
    requires !Repeats(rest)
    ensures var s := "(?:.*/)?" + rest;
      Atom(s) == Some((Then(Star(Dot), Then(Lit('/'), Empty)), "?" + rest)) && ("?" + rest)[1..] == rest
  {
    var s, a, b, c, d := "(?:.*/)?" + rest, ".*/)?" + rest, "*/)?" + rest, "/)?" + rest, ")?" + rest;
    assert s[3..] == a && a[1..] == b && b[1..] == c && c[1..] == d && d[1..] == "?" + rest;
    assert Items(d) == Some((Empty, d));
    assert Atom(c) == Some((Lit('/'), d)) && Repeated(Lit('/'), d) == Some((Lit('/'), d));
    assert Items(c) == Some((Then(Lit('/'), Empty), d));
    assert Atom(a) == Some((Dot, b)) && Repeated(Dot, b) == Some((Star(Dot), c));
    assert Items(a) == Some((Then(Star(Dot), Then(Lit('/'), Empty)), d));
  }

  lemma ItemsStep(s: string, q: Regex, u: string, e: Regex, v: string)
    requires s != "" && s[0] != ')' && s[0] != '$' && Atom(s).Some?
    requires Repeated(Atom(s).value.0, Atom(s).value.1) == Some((q, u))
    requires |u| < |s| && Items(u) == Some((e, v))
    ensures Items(s) == Some((Then(q, e), v))
  {
    hide Atom, Repeated;
  }

  lemma TextStep(ts: seq<Token>)
    requires ts != []
    ensures Text(ts) + "$" == TextOf(ts[0]) + (Text(ts[1..]) + "$") && |TextOf(ts[0])| > 0
  {
  }

  lemma {:induction false} ParseTokens(ts: seq<Token>)
    ensures Items(Text(ts) + "$") == Some((Expression(ts), "$"))
  {
    if ts == [] {
      assert Text(ts) + "$" == "$";
    } else {
      hide Atom, Repeated, Text, TextOf, Items;
      var rest := Text(ts[1..]) + "$";
      NeverRepeats(ts[1..]);
      ParseToken(ts[0], rest);
      ParseTokens(ts[1..]);
      TextStep(ts);
      ItemsStep(TextOf(ts[0]) + rest, RegexOf(ts[0]), rest, Expression(ts[1..]), "$");
    }
  }

  /** The text the compiler emits is accepted, and is the expression intended. */
  lemma Emitted(ts: seq<Token>)
    ensures Parse("^" + Text(ts) + "$") == Some(Expression(ts))
  {
    assert ("^" + Text(ts) + "$")[1..] == Text(ts) + "$";
    ParseTokens(ts);
  }

  // ---- What the expression accepts ----

  /** No character a dot would stop at. */
  predicate Dotted(s: string, dotAll: bool) { dotAll || No('\n', s) }

  /** A slash with nothing before it that a dot would stop at. */
  predicate EndsDirs(s: string, i: nat, dotAll: bool) { i < |s| && s[i] == '/' && Dotted(s[..i], dotAll) }

  /**
   * The tokens read against the path, one character at a time; with `dotAll` a double star goes
   * past newlines, as its meaning does and a dot of the expression does not.
   */
  ghost predicate Accepts(ts: seq<Token>, s: string, dotAll: bool)
    decreases |ts|, |s|
  {
    if ts == [] then s == ""
    else match ts[0]
      case Char(c) => s != "" && s[0] == c && Accepts(ts[1..], s[1..], dotAll)
      case One => s != "" && s[0] != '/' && Accepts(ts[1..], s[1..], dotAll)
      case Run => Accepts(ts[1..], s, dotAll) || (s != "" && s[0] != '/' && Accepts(ts, s[1..], dotAll))
      case All => Accepts(ts[1..], s, dotAll) || (s != "" && (dotAll || s[0] != '\n') && Accepts(ts, s[1..], dotAll))
      case Dirs =>
        || Accepts(ts[1..], s, dotAll)
        || exists i: nat :: i < |s| && EndsDirs(s, i, dotAll) && Accepts(ts[1..], s[i + 1..], dotAll)
  }

  lemma OneCharacter(r: Regex, e: Regex, s: string)
    requires r.Lit? || r.NotSlash? || r.Dot?
    ensures Matches(Then(r, e), s) <==> s != "" && Matches(r, s[..1]) && Matches(e, s[1..])
  {
    if s != "" {
      assert 0 <= 1 <= |s| && s[..1] == s[..1];
    }
    forall i | 0 <= i <= |s| && Matches(r, s[..i])
      ensures i == 1
    {
    }
  }

  lemma ShiftByOne(c: char, s: string, i: nat)
    requires 0 < i <= |s|
    ensures s[1..][i - 1..] == s[i..]
    ensures No(c, s[..i]) <==> s[0] != c && No(c, s[1..][..i - 1])
  {
    assert s[..i] == [s[0]] + s[1..][..i - 1];
  }

  lemma NoneAtStart(c: char, s: string)
    ensures No(c, s[..0]) && s[0..] == s
  {
  }

  /** Where a run that avoids `c` may end for `e` to match what follows. */
  predicate EndsRun(c: char, s: string, i: nat) { i <= |s| && No(c, s[..i]) }

  /** A run of characters other than `c`, then the rest. */
  lemma RunThen(c: char, star: Regex, e: Regex, s: string)
    requires forall t: string :: Matches(star, t) <==> No(c, t)
    ensures Matches(Then(star, e), s) <==> Matches(e, s) || (s != "" && s[0] != c && Matches(Then(star, e), s[1..]))
  {
    RunEnds(c, star, e, s);
    if s != "" {
      RunEnds(c, star, e, s[1..]);
    }
    NoneAtStart(c, s);
    hide Matches, No;
    if i: nat :| EndsRun(c, s, i) && Matches(e, s[i..]) {
      if i > 0 {
        ShiftByOne(c, s, i);
        assert EndsRun(c, s[1..], i - 1);
      }
    }
    assert Matches(e, s) ==> EndsRun(c, s, 0);
    if s != "" && s[0] != c {
      if i: nat :| EndsRun(c, s[1..], i) && Matches(e, s[1..][i..]) {
        ShiftByOne(c, s, i + 1);
        assert EndsRun(c, s, i + 1);
      }
    }
  }

  lemma RunEnds(c: char, star: Regex, e: Regex, s: string)
    requires forall t: string :: Matches(star, t) <==> No(c, t)
    ensures Matches(Then(star, e), s) <==> exists i: nat :: EndsRun(c, s, i) && Matches(e, s[i..])
  {
    hide No;
    if Matches(Then(star, e), s) {
      var i :| 0 <= i <= |s| && Matches(star, s[..i]) && Matches(e, s[i..]);
      assert EndsRun(c, s, i);
    }
    if i: nat :| EndsRun(c, s, i) && Matches(e, s[i..]) {
      assert Matches(star, s[..i]);
    }
  }

  /** The optional directories: nothing, or everything up to some slash. */
  lemma DirsMatch(t: string)
    ensures Matches(Then(Star(Dot), Then(Lit('/'), Empty)), t) <==>
      t != "" && t[|t| - 1] == '/' && No('\n', t[..|t| - 1])
  {
    hide Matches, No;
    var slash := Then(Lit('/'), Empty);
    forall u: string
      ensures Matches(slash, u) <==> u == "/"
    {
      SlashMatches(u);
    }
    forall u: string
      ensures Matches(Star(Dot), u) <==> No('\n', u)
    {
      StarOfDot(u);
    }
    RunEnds('\n', Star(Dot), slash, t);
    if i: nat :| EndsRun('\n', t, i) && t[i..] == "/" {
      assert t == t[..i] + "/";
    }
    if t != "" && t[|t| - 1] == '/' && No('\n', t[..|t| - 1]) {
      assert t[|t| - 1..] == "/" && EndsRun('\n', t, |t| - 1);
    }
  }

  lemma SlashMatches(u: string)
    ensures Matches(Then(Lit('/'), Empty), u) <==> u == "/"
  {
    OneCharacter(Lit('/'), Empty, u);
    if u != "" {
      assert u == u[..1] + u[1..];
    }
  }

  lemma DirsThen(e: Regex, s: string)
    ensures Matches(Then(RegexOf(Dirs), e), s) <==>
      Matches(e, s) || exists i: nat :: i < |s| && EndsDirs(s, i, false) && Matches(e, s[i + 1..])
  {
    hide No, EndsDirs;
    NoneAtStart('\n', s);
    if Matches(Then(RegexOf(Dirs), e), s) {
      var i: nat :| i <= |s| && Matches(RegexOf(Dirs), s[..i]) && Matches(e, s[i..]);
      if i > 0 {
        DirsUpTo(s, i - 1);
      }
    }
    if Matches(e, s) {
      assert Matches(RegexOf(Dirs), s[..0]) && Matches(e, s[0..]);
    }
    if i: nat :| i < |s| && EndsDirs(s, i, false) && Matches(e, s[i + 1..]) {
      DirsUpTo(s, i);
      assert Matches(RegexOf(Dirs), s[..i + 1]);
    }
  }

  lemma DirsUpTo(s: string, i: nat)
    ensures EndsDirs(s, i, false) ==> i < |s|
    ensures i < |s| ==> (Matches(RegexOf(Dirs), s[..i + 1]) <==> EndsDirs(s, i, false))
  {
    if i < |s| {
      DirsMatch(s[..i + 1]);
      assert s[..i + 1][..i] == s[..i] && s[..i + 1][i] == s[i] && s[..i + 1] != "";
    }
  }

  /** The expression matches exactly what the tokens accept. */
  lemma {:induction false} MatchesIsAccepts(ts: seq<Token>, s: string)
    ensures Matches(Expression(ts), s) <==> Accepts(ts, s, false)
    decreases |ts|, |s|
  {
    if ts != [] {
      var rest, e := ts[1..], Expression(ts[1..]);
      forall t: string
        ensures Matches(e, t) <==> Accepts(rest, t, false)
      {
        MatchesIsAccepts(rest, t);
      }
      match ts[0]
      case Char(c) => OneCharacter(Lit(c), e, s);
      case One => OneCharacter(NotSlash, e, s);
      case Run =>
        forall t: string {
          StarOfNotSlash(t);
        }
        RunThen('/', Star(NotSlash), e, s);
        if s != "" {
          MatchesIsAccepts(ts, s[1..]);
        }
      case All =>
        forall t: string {
          StarOfDot(t);
        }
        RunThen('\n', Star(Dot), e, s);
        if s != "" {
          MatchesIsAccepts(ts, s[1..]);
        }
      case Dirs => DirsThen(e, s);
    }
  }
}
