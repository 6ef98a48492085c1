/** The regular expressions the glob compiler emits: their text, its parse, and what they match. */
module Regexes {
  import opened Wrappers

  datatype Regex =
    | Empty
    | Lit(c: char)
    | NotSlash
    | Dot
    | Star(r: Regex)
    | Opt(r: Regex)
    | Then(first: Regex, second: Regex)

  /** The whole of `s` matches; a dot stands for anything but a newline. */
  ghost predicate Matches(r: Regex, s: string)
    decreases r, |s|
  {
    match r
    case Empty => s == ""
    case Lit(c) => s == [c]
    case NotSlash => |s| == 1 && s[0] != '/'
    case Dot => |s| == 1 && s[0] != '\n'
    case Opt(q) => s == "" || Matches(q, s)
    case Then(a, b) => exists i {:trigger s[..i]} :: 0 <= i <= |s| && Matches(a, s[..i]) && Matches(b, s[i..])
    case Star(q) => s == "" || exists i {:trigger s[..i]} :: 0 < i <= |s| && Matches(q, s[..i]) && Matches(r, s[i..])
  }

  // ---- Parsing the emitted syntax ----

  /** The characters regexp.QuoteMeta puts a backslash before. */
  predicate IsMeta(c: char) { c in "\\.+*?()|[]{}^$" }

  function Quote(c: char): string { if IsMeta(c) then ['\\', c] else [c] }

  /** One atom: a dot, the class of everything but a slash, a group, an escaped or a plain character. */
  function Atom(s: string): Option<(Regex, string)>
    decreases |s|, 0
  {
    if s == "" then None
    else if s[0] == '.' then Some((Dot, s[1..]))
    else if "[^/]" <= s then Some((NotSlash, s[4..]))
    else if "(?:" <= s then
      match Items(s[3..])
      case None => None
      case Some((r, t)) => if |t| < |s| && t != "" && t[0] == ')' then Some((r, t[1..])) else None
    else if s[0] == '\\' then (if |s| >= 2 && IsMeta(s[1]) then Some((Lit(s[1]), s[2..])) else None)
    else if IsMeta(s[0]) then None
    else Some((Lit(s[0]), s[1..]))
  }

  predicate Repeats(s: string) { s != "" && (s[0] == '*' || s[0] == '?' || s[0] == '+' || s[0] == '{') }

  /** An atom and its repetition; a second repetition sign is not part of this syntax. */
  function Repeated(r: Regex, s: string): Option<(Regex, string)> {
    if !Repeats(s) then Some((r, s))
    else if s[0] == '+' || s[0] == '{' || Repeats(s[1..]) then None
    else Some((if s[0] == '*' then Star(r) else Opt(r), s[1..]))
  }

  /** Items one after the other, up to a closing parenthesis, a dollar sign or the end. */
  function Items(s: string): Option<(Regex, string)>
    decreases |s|, 1
  {
    if s == "" || s[0] == ')' || s[0] == '$' then Some((Empty, s))
    else match Atom(s)
      case None => None
      case Some((r, t)) =>
        match Repeated(r, t)
        case None => None
        case Some((q, u)) =>
          if |u| >= |s| then None
          else match Items(u)
            case None => None
            case Some((rest, v)) => Some((Then(q, rest), v))
  }

  /** An expression anchored at both ends, which is the only form emitted. */
  function Parse(text: string): Option<Regex> {
    if text == "" || text[0] != '^' then None
    else match Items(text[1..])
      case None => None
      case Some((r, rest)) => if rest == "$" then Some(r) else None
  }

  // ---- Runs ----

  predicate No(c: char, s: string) { c !in s }

  lemma {:induction false} StarOfNotSlash(s: string)
    ensures Matches(Star(NotSlash), s) <==> No('/', s)
    decreases |s|
  {
    if s != "" {
      assert s == s[..1] + s[1..];
      StarOfNotSlash(s[1..]);
      forall i | 0 < i <= |s| && Matches(NotSlash, s[..i])
        ensures i == 1
      {
      }
    }
  }

  lemma {:induction false} StarOfDot(s: string)
    ensures Matches(Star(Dot), s) <==> No('\n', s)
    decreases |s|
  {
    if s != "" {
      assert s == s[..1] + s[1..];
      StarOfDot(s[1..]);
      forall i | 0 < i <= |s| && Matches(Dot, s[..i])
        ensures i == 1
      {
      }
    }
  }
}
