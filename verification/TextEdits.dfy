/** The edits of a text: by fragment, by anchor, by heading, by line numbers, and at the end. */
module TextEdits {
  import opened Wrappers
  import opened LineEdits

  datatype Edit =
    | Replace(find: string, with: string, all: bool)
    | Insert(anchor: string, position: string, content: string)
    | DeleteText(fragment: Option<string>, from: Option<int>, to: Option<int>)
    | ReplaceRange(start: int, end: int, replacement: string)
    | InsertLine(line: int, content: string, after: bool)
    | InsertHeading(heading: string, content: string, after: bool)
    | Append(content: string)

  predicate At(s: string, part: string, i: nat) { i + |part| <= |s| && s[i..i + |part|] == part }

  /** str.find from position `i` on */
  function FindFrom(s: string, part: string, i: nat): Option<nat>
    decreases |s| - i
  {
    if At(s, part, i) then Some(i) else if i >= |s| then None else FindFrom(s, part, i + 1)
  }

  /** str.replace without a count */
  function ReplaceAll(s: string, part: string, with: string, i: nat): string
    requires part != "" && i <= |s|
    decreases |s| - i
  {
    if At(s, part, i) then with + ReplaceAll(s, part, with, i + |part|)
    else if i == |s| then ""
    else [s[i]] + ReplaceAll(s, part, with, i + 1)
  }

  function ReplaceFirst(s: string, part: string, with: string): Result<string, EditError> {
    if part == "" then Err(EmptyFind)
    else match FindFrom(s, part, 0)
      case None => Err(EditError.NotFound)
      case Some(i) => if i + |part| <= |s| then Ok(s[..i] + with + s[i + |part|..]) else Err(EditError.NotFound)
  }

  function HeadingLine(strip: string -> string, lines: seq<string>, wanted: string, i: nat): Option<nat>
    decreases |lines| - i
  {
    if i >= |lines| then None
    else if strip(lines[i]) == wanted then Some(i + 1)
    else HeadingLine(strip, lines, wanted, i + 1)
  }

  /** The new text of a file, or why there is none. */
  function Edited(strip: string -> string, e: Edit, text: string): Result<string, EditError> {
    match e
    case Replace(find, with, all) =>
      var everywhere := find != "" && all && FindFrom(text, find, 0).Some?;
      if everywhere then Ok(ReplaceAll(text, find, with, 0)) else ReplaceFirst(text, find, with)
    case Insert(anchor, position, content) =>
      if position != "before" && position != "after" then Err(BadPosition)
      else (match FindFrom(text, anchor, 0)
        case None => Err(EditError.NotFound)
        case Some(i) =>
          var at := if position == "before" then i else i + |anchor|;
          if at <= |text| then Ok(text[..at] + content + text[at..]) else Err(EditError.NotFound))
    case DeleteText(Some(find), _, _) => ReplaceFirst(text, find, "")
    case DeleteText(None, Some(start), Some(end)) => DeleteLines(text, start, end)
    case DeleteText(None, _, _) => Err(MissingRange)
    case ReplaceRange(start, end, replacement) => ReplaceLines(text, start, end, replacement)
    case InsertLine(line, content, after) => InsertAtLine(text, line, content, after)
    case InsertHeading(heading, content, after) =>
      (match HeadingLine(strip, Lines(text), strip(heading), 0)
        case None => Err(EditError.NotFound)
        case Some(line) => InsertAtLine(text, line, content, after))
    case Append(content) =>
      Ok(Terminated(text + (if text == "" || EndsLine(text) then "" else "\n") + content))
  }

  // ---- What each edit leaves, by where its fragment stands in the text ----

  /** The fragment stands at `i` and nowhere before. */
  ghost predicate FirstAt(s: string, part: string, i: nat) {
    && i + |part| <= |s| && s[i..i + |part|] == part
    && forall j, k :: 0 <= j < i && k == j + |part| ==> s[j..k] != part
  }

  ghost predicate Nowhere(s: string, part: string) {
    forall j, k :: 0 <= j <= k <= |s| && k == j + |part| ==> s[j..k] != part
  }

  /** The first occurrence gives way to other text. */
  ghost predicate FirstReplaced(s: string, part: string, with: string, out: string) {
    exists i: nat :: FirstAt(s, part, i) && out == s[..i] + with + s[i + |part|..]
  }

  /** New text in front of the first occurrence, or behind it. */
  ghost predicate Inserted(s: string, anchor: string, before: bool, content: string, out: string) {
    exists i: nat ::
      && FirstAt(s, anchor, i)
      && out == if before then s[..i] + content + s[i..] else s[..i + |anchor|] + content + s[i + |anchor|..]
  }

  /** Some texts with the same one between each two of them. */
  function Between(gaps: seq<string>, x: string): string {
    if gaps == [] then "" else if |gaps| == 1 then gaps[0] else gaps[0] + x + Between(gaps[1..], x)
  }

  /**
   * The text is some gaps with the fragment between them, and what is left is the same gaps with the
   * other text between them: each occurrence is the first one behind the one before.
   */
  ghost predicate AllReplaced(s: string, part: string, with: string, out: string) {
    exists gaps: seq<string> ::
      && |gaps| > 1 && s == Between(gaps, part) && out == Between(gaps, with)
      && Leftmost(gaps, part)
  }

  ghost predicate Leftmost(gaps: seq<string>, part: string) {
    && |gaps| > 0 && Nowhere(gaps[|gaps| - 1], part)
    && forall k :: 0 <= k < |gaps| - 1 ==> FirstAt(gaps[k] + part, part, |gaps[k]|)
  }

  /** New lines end with a newline. */
  function AsLines(content: string): string {
    if content == "" || content[|content| - 1] == '\n' then content else content + "\n"
  }

  /** Lines `from` to `to` of the text, counted from zero, give way to other text. */
  predicate LinesReplaced(s: string, from: nat, to: nat, with: string, out: string) {
    from <= to <= |Lines(s)| && out == Join(Lines(s)[..from]) + with + Join(Lines(s)[to..])
  }

  predicate LineInserted(s: string, line: int, content: string, after: bool, r: Result<string, EditError>) {
    if line < 1 || line > |Lines(s)| then r == Err(InvalidLine)
    else
      var at := if after then line else line - 1;
      r.Ok? && LinesReplaced(s, at, at, AsLines(content), r.value)
  }

  /** The heading is line `k`, counted from zero, and no line before. */
  predicate HeadingAt(strip: string -> string, s: string, heading: string, k: nat) {
    && k < |Lines(s)| && strip(Lines(s)[k]) == strip(heading)
    && forall j :: 0 <= j < k ==> strip(Lines(s)[j]) != strip(heading)
  }

  /** What an edit may leave of a text, case by case. */
  ghost predicate EditIs(strip: string -> string, e: Edit, s: string, r: Result<string, EditError>) {
    match e
    case Replace(find, with, all) =>
      if find == "" then r == Err(EmptyFind)
      else if Nowhere(s, find) then r == Err(EditError.NotFound)
      else r.Ok? && if all then AllReplaced(s, find, with, r.value) else FirstReplaced(s, find, with, r.value)
    case Insert(anchor, position, content) =>
      if position != "before" && position != "after" then r == Err(BadPosition)
      else if Nowhere(s, anchor) then r == Err(EditError.NotFound)
      else r.Ok? && Inserted(s, anchor, position == "before", content, r.value)
    case DeleteText(fragment, from, to) =>
      if fragment.Some? then
        if fragment.value == "" then r == Err(EmptyFind)
        else if Nowhere(s, fragment.value) then r == Err(EditError.NotFound)
        else r.Ok? && FirstReplaced(s, fragment.value, "", r.value)
      else if from.None? || to.None? then r == Err(MissingRange)
      else if from.value < 1 || to.value < from.value || to.value > |Lines(s)| then r == Err(InvalidRange)
      else r.Ok? && LinesReplaced(s, from.value - 1, to.value, "", r.value)
    case ReplaceRange(start, end, replacement) =>
      if start < 1 || end < start || end > |Lines(s)| then r == Err(InvalidRange)
      else r.Ok? && LinesReplaced(s, start - 1, end, AsLines(replacement), r.value)
    case InsertLine(line, content, after) => LineInserted(s, line, content, after, r)
    case InsertHeading(heading, content, after) =>
      if forall k :: 0 <= k < |Lines(s)| ==> strip(Lines(s)[k]) != strip(heading) then r == Err(EditError.NotFound)
      else exists k: nat :: HeadingAt(strip, s, heading, k) && LineInserted(s, k + 1, content, after, r)
    case Append(content) =>
      && r.Ok?
      && r.value == AsLines(if s == "" || s[|s| - 1] == '\n' then s + content else s + "\n" + content)
  }

  lemma {:induction false} FindIs(s: string, part: string, i: nat)
    requires i <= |s|
    ensures match FindFrom(s, part, i)
      case None => forall j, k :: i <= j <= k <= |s| && k == j + |part| ==> s[j..k] != part
      case Some(n) =>
        i <= n && n + |part| <= |s| && s[n..n + |part|] == part
        && forall j, k :: i <= j < n && k == j + |part| ==> s[j..k] != part
    decreases |s| - i
  {
    if !At(s, part, i) && i < |s| {
      FindIs(s, part, i + 1);
    }
  }

  lemma FindFirst(s: string, part: string)
    ensures FindFrom(s, part, 0).None? <==> Nowhere(s, part)
    ensures FindFrom(s, part, 0).Some? ==> FirstAt(s, part, FindFrom(s, part, 0).value)
  {
    FindIs(s, part, 0);
  }

  // ---- Every occurrence replaced ----

  lemma BetweenFirst(gap: string, gaps: seq<string>, x: string)
    ensures Between([gap] + gaps, x) == if gaps == [] then gap else gap + x + Between(gaps, x)
  {
    assert ([gap] + gaps)[1..] == gaps;
  }

  lemma LongerBetween(c: char, gaps: seq<string>, x: string)
    requires |gaps| > 0
    ensures Between([[c] + gaps[0]] + gaps[1..], x) == [c] + Between(gaps, x)
  {
    assert gaps == [gaps[0]] + gaps[1..];
    BetweenFirst(gaps[0], gaps[1..], x);
    BetweenFirst([c] + gaps[0], gaps[1..], x);
    assert [c] + gaps[0] + x == [c] + (gaps[0] + x);
  }

  /** One more character in front of the first gap. */
  lemma LongerGap(c: char, gaps: seq<string>, part: string)
    requires part != "" && Leftmost(gaps, part) && !At([c] + Between(gaps, part), part, 0)
    ensures Leftmost([[c] + gaps[0]] + gaps[1..], part)
  {
    hide FirstAt, Nowhere, At;
    var first := gaps[0];
    var longer := [[c] + first] + gaps[1..];
    assert forall k :: 1 <= k < |gaps| ==> longer[k] == gaps[k];
    if |gaps| == 1 {
      NotInLonger(c, first, part);
    } else {
      assert FirstAt(gaps[0] + part, part, |gaps[0]|);
      FirstInLonger(c, first, part, Between(gaps, part));
    }
  }

  lemma NotInLonger(c: char, s: string, part: string)
    requires part != "" && Nowhere(s, part) && !At([c] + s, part, 0)
    ensures Nowhere([c] + s, part)
  {
    var t := [c] + s;
    forall j, k | 0 <= j <= k <= |t| && k == j + |part|
      ensures t[j..k] != part
    {
      if j > 0 {
        assert t[j..k] == s[j - 1..k - 1];
      }
    }
  }

  lemma FirstInLonger(c: char, first: string, part: string, all: string)
    requires FirstAt(first + part, part, |first|) && first + part <= all && !At([c] + all, part, 0)
    ensures FirstAt([c] + first + part, part, |first| + 1)
  {
    var s, t := first + part, [c] + first + part;
    assert t == [c] + s;
    assert t[|first| + 1..|first| + 1 + |part|] == part;
    forall j, k | 0 <= j < |first| + 1 && k == j + |part|
      ensures t[j..k] != part
    {
      if j > 0 {
        assert t[j..k] == s[j - 1..k - 1];
      } else {
        assert t[0..|part|] == ([c] + all)[0..|part|];
      }
    }
  }

  lemma OneGap(part: string)
    requires part != ""
    ensures Leftmost([""], part) && forall x: string :: Between([""], x) == ""
  {
  }

  /** A fragment that stands at the beginning leaves an empty gap in front. */
  lemma EmptyGap(gaps: seq<string>, part: string)
    requires part != "" && Leftmost(gaps, part)
    ensures Leftmost([""] + gaps, part)
  {
    hide Nowhere;
    var more := [""] + gaps;
    assert more[0] + part == part;
    assert forall k :: 1 <= k < |more| ==> more[k] == gaps[k - 1];
  }

  lemma ReplaceNext(s: string, part: string, with: string, i: nat)
    requires part != "" && i <= |s|
    ensures var all := ReplaceAll(s, part, with, i);
      if At(s, part, i) then
        && i + |part| <= |s| && s[i..] == part + s[i + |part|..]
        && all == with + ReplaceAll(s, part, with, i + |part|)
      else if i == |s| then all == ""
      else s[i..] == [s[i]] + s[i + 1..] && all == [s[i]] + ReplaceAll(s, part, with, i + 1)
  {
  }

  lemma AtFront(s: string, part: string, i: nat)
    requires i <= |s|
    ensures At(s[i..], part, 0) <==> At(s, part, i)
  {
    assert i + |part| <= |s| ==> s[i..][0..|part|] == s[i..i + |part|];
  }

  lemma AfterEmptyGap(gaps: seq<string>, x: string)
    requires |gaps| > 0
    ensures Between([""] + gaps, x) == x + Between(gaps, x)
  {
    BetweenFirst("", gaps, x);
    assert "" + x == x;
  }

  /** str.replace puts the other text between the gaps. */
  lemma {:induction false} ReplaceAllIs(s: string, part: string, with: string, i: nat) returns (gaps: seq<string>)
    requires part != "" && i <= |s|
    ensures Leftmost(gaps, part) && s[i..] == Between(gaps, part) && ReplaceAll(s, part, with, i) == Between(gaps, with)
    decreases |s| - i
  {
    hide Leftmost, Between, ReplaceAll, At;
    ReplaceNext(s, part, with, i);
    AtFront(s, part, i);
    if At(s, part, i) {
      gaps := ReplaceAllIs(s, part, with, i + |part|);
      EmptyGap(gaps, part);
      SomeGap(gaps, part);
      AfterEmptyGap(gaps, part);
      AfterEmptyGap(gaps, with);
      gaps := [""] + gaps;
    } else if i == |s| {
      gaps := [""];
      OneGap(part);
    } else {
      gaps := ReplaceAllIs(s, part, with, i + 1);
      SomeGap(gaps, part);
      LongerGap(s[i], gaps, part);
      LongerBetween(s[i], gaps, part);
      LongerBetween(s[i], gaps, with);
      gaps := [[s[i]] + gaps[0]] + gaps[1..];
    }
  }

  lemma SomeGap(gaps: seq<string>, part: string)
    requires Leftmost(gaps, part)
    ensures |gaps| > 0
  {
  }

  lemma EveryOccurrence(s: string, part: string, with: string)
    requires part != "" && !Nowhere(s, part)
    ensures AllReplaced(s, part, with, ReplaceAll(s, part, with, 0))
  {
    hide FirstAt, ReplaceAll;
    var gaps := ReplaceAllIs(s, part, with, 0);
    assert s[0..] == s;
  }

  /** Behind the first gap the fragment stands for the first time. */
  lemma FirstBehindGap(gaps: seq<string>, part: string)
    requires Leftmost(gaps, part)
    ensures if |gaps| == 1 then Nowhere(Between(gaps, part), part) else FirstAt(Between(gaps, part), part, |gaps[0]|)
  {
    var t := Between(gaps, part);
    if |gaps| > 1 {
      var s := gaps[0] + part;
      assert FirstAt(s, part, |gaps[0]|) && t[..|s|] == s;
      forall j, k | 0 <= j < |gaps[0]| && k == j + |part|
        ensures t[j..k] != part
      {
        assert t[j..k] == s[j..k];
      }
      assert t[|gaps[0]|..|s|] == s[|gaps[0]|..|s|];
    }
  }

  lemma NotBefore(s: string, part: string, i: nat, j: nat)
    requires FirstAt(s, part, i) && j + |part| <= |s| && s[j..j + |part|] == part
    ensures i <= j && !Nowhere(s, part)
  {
  }

  lemma RestOfGaps(gaps: seq<string>, part: string)
    requires Leftmost(gaps, part) && |gaps| > 1
    ensures Leftmost(gaps[1..], part) && Between(gaps, part)[|gaps[0]| + |part|..] == Between(gaps[1..], part)
    ensures gaps[0] == Between(gaps, part)[..|gaps[0]|] && gaps == [gaps[0]] + gaps[1..]
  {
    hide FirstAt, Nowhere;
    assert gaps[0] + part + Between(gaps[1..], part) == gaps[0] + (part + Between(gaps[1..], part));
  }

  /** A text is cut at its fragments in one way only. */
  lemma {:induction false} OneCutting(a: seq<string>, b: seq<string>, part: string)
    requires Leftmost(a, part) && Leftmost(b, part) && Between(a, part) == Between(b, part)
    ensures a == b
  {
    var t := Between(a, part);
    FirstBehindGap(a, part);
    FirstBehindGap(b, part);
    if |a| > 1 {
      NotBefore(t, part, |a[0]|, |a[0]|);
    }
    if |b| > 1 {
      NotBefore(t, part, |b[0]|, |b[0]|);
    }
    if |a| == 1 {
      assert a == [t] && b == [t];
    } else {
      NotBefore(t, part, |a[0]|, |b[0]|);
      NotBefore(t, part, |b[0]|, |a[0]|);
      RestOfGaps(a, part);
      RestOfGaps(b, part);
      OneCutting(a[1..], b[1..], part);
    }
  }

  lemma FirstReplacedIs(s: string, part: string, with: string)
    requires part != ""
    ensures var r := ReplaceFirst(s, part, with);
      if Nowhere(s, part) then r == Err(EditError.NotFound) else r.Ok? && FirstReplaced(s, part, with, r.value)
  {
    hide Nowhere;
    FindFirst(s, part);
  }

  // ---- Every edit ----

  lemma TerminatedIs(content: string)
    ensures Terminated(content) == AsLines(content)
  {
  }

  lemma {:induction false} HeadingIs(strip: string -> string, lines: seq<string>, wanted: string, i: nat)
    requires i <= |lines|
    ensures match HeadingLine(strip, lines, wanted, i)
      case None => forall k :: i <= k < |lines| ==> strip(lines[k]) != wanted
      case Some(n) =>
        i < n <= |lines| && strip(lines[n - 1]) == wanted && forall k :: i <= k < n - 1 ==> strip(lines[k]) != wanted
    decreases |lines| - i
  {
    if i < |lines| {
      HeadingIs(strip, lines, wanted, i + 1);
    }
  }

  lemma LineInsertedIs(s: string, line: int, content: string, after: bool)
    ensures LineInserted(s, line, content, after, InsertAtLine(s, line, content, after))
  {
    hide Lines, Join;
    TerminatedIs(content);
  }

  lemma DeleteLinesIs(s: string, start: int, end: int)
    requires 1 <= start <= end <= |Lines(s)|
    ensures DeleteLines(s, start, end).Ok? && LinesReplaced(s, start - 1, end, "", DeleteLines(s, start, end).value)
  {
    hide Lines, Join;
    JoinConcat(Lines(s)[..start - 1], Lines(s)[end..]);
  }

  /** Every edit leaves what it should, or gives the right error. */
  lemma EditedIs(strip: string -> string, e: Edit, text: string)
    ensures EditIs(strip, e, text, Edited(strip, e, text))
  {
    hide Lines, Join, FindFrom, ReplaceAll, Nowhere, FirstReplaced, AllReplaced, Terminated, AsLines, InsertAtLine,
      LineInserted, HeadingLine, LinesReplaced;
    match e
    case Replace(find, with, all) =>
      FindFirst(text, find);
      if find != "" {
        FirstReplacedIs(text, find, with);
        if FindFrom(text, find, 0).Some? {
          EveryOccurrence(text, find, with);
        }
      }
    case Insert(anchor, position, content) =>
      FindFirst(text, anchor);
    case DeleteText(fragment, from, to) =>
      if fragment.Some? {
        if fragment.value != "" {
          FirstReplacedIs(text, fragment.value, "");
        }
      } else if from.Some? && to.Some? && 1 <= from.value <= to.value <= |Lines(text)| {
        DeleteLinesIs(text, from.value, to.value);
      }
    case ReplaceRange(start, end, replacement) => RangeIs(text, start, end, replacement);
    case InsertLine(line, content, after) => LineInsertedIs(text, line, content, after);
    case InsertHeading(heading, content, after) =>
      HeadingIs(strip, Lines(text), strip(heading), 0);
      if HeadingLine(strip, Lines(text), strip(heading), 0).Some? {
        var k: nat := HeadingLine(strip, Lines(text), strip(heading), 0).value - 1;
        LineInsertedIs(text, k + 1, content, after);
        assert HeadingAt(strip, text, heading, k);
      }
    case Append(content) => AppendIs(text, content);
  }

  lemma RangeIs(text: string, start: int, end: int, replacement: string)
    ensures var r := ReplaceLines(text, start, end, replacement);
      if start < 1 || end < start || end > |Lines(text)| then r == Err(InvalidRange)
      else r.Ok? && LinesReplaced(text, start - 1, end, AsLines(replacement), r.value)
  {
    hide Lines, Join;
    TerminatedIs(replacement);
  }

  lemma AppendIs(s: string, content: string)
    ensures Terminated(s + (if s == "" || EndsLine(s) then "" else "\n") + content) ==
      AsLines(if s == "" || s[|s| - 1] == '\n' then s + content else s + "\n" + content)
  {
    assert s + "" + content == s + content;
    TerminatedIs(s + content);
    TerminatedIs(s + "\n" + content);
  }
}
