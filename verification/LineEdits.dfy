/** Editing a text by line numbers, with the line boundaries of Python's str.splitlines. */
module LineEdits {
  import opened Wrappers
  import opened Collections

  /** The characters that end a line; a carriage return takes a following newline with it. */
  predicate IsBreak(c: char) {
    c == '\n' || c == '\r' || c == '\U{0B}' || c == '\U{0C}' || c == '\U{1C}' || c == '\U{1D}' || c == '\U{1E}' ||
    c == '\U{85}' || c == '\U{2028}' || c == '\U{2029}'
  }

  /** Where the first line ends, its boundary included. */
  function LineEnd(s: string): (n: nat)
    ensures n <= |s| && (s != "" ==> n > 0)
  {
    if s == "" then 0
    else if s[0] == '\r' && |s| > 1 && s[1] == '\n' then 2
    else if IsBreak(s[0]) then 1
    else 1 + LineEnd(s[1..])
  }

  /** str.splitlines(keepends=True) */
  function Lines(s: string): seq<string>
    decreases |s|
  {
    if s == "" then [] else [s[..LineEnd(s)]] + Lines(s[LineEnd(s)..])
  }

  /** Line feed, vertical tab, form feed, carriage return, the separators 1C to 1E, next line, and Unicode's two. */
  lemma BreaksAre(c: char)
    ensures IsBreak(c) <==>
      c as int in {0x0A, 0x0B, 0x0C, 0x0D, 0x1C, 0x1D, 0x1E, 0x85, 0x2028, 0x2029}
  {
  }

  /** A text that is one line: no boundary but at its end, where a carriage return and a newline are one. */
  predicate IsLine(line: string) {
    line != "" && forall j :: 0 <= j < |line| - 1 && IsBreak(line[j]) ==>
      j == |line| - 2 && line[j] == '\r' && line[j + 1] == '\n'
  }

  lemma {:induction false} FirstIsLine(s: string)
    requires s != ""
    ensures IsLine(s[..LineEnd(s)])
    ensures LineEnd(s) < |s| ==> IsBreak(s[LineEnd(s) - 1]) && !(s[LineEnd(s) - 1] == '\r' && s[LineEnd(s)] == '\n')
  {
    if !IsBreak(s[0]) && |s| > 1 {
      FirstIsLine(s[1..]);
      var n := LineEnd(s);
      assert s[..n][1..] == s[1..][..n - 1];
      forall j | 0 <= j < n - 1 && IsBreak(s[..n][j])
        ensures j == n - 2 && s[..n][j] == '\r' && s[..n][j + 1] == '\n'
      {
        assert s[..n][j] == s[1..][..n - 1][j - 1];
      }
    }
  }

  /**
   * Each line of a text is one line; all but the last end with a boundary, and no boundary is cut in
   * two.
   */
  lemma {:induction false} LinesAre(s: string, i: nat)
    requires i < |Lines(s)|
    ensures IsLine(Lines(s)[i])
    ensures i + 1 < |Lines(s)| ==>
      var line, next := Lines(s)[i], Lines(s)[i + 1];
      && line != "" && next != "" && IsBreak(line[|line| - 1])
      && !(line[|line| - 1] == '\r' && next[0] == '\n')
    decreases |s|
  {
    FirstIsLine(s);
    var n := LineEnd(s);
    if i == 0 {
      if n < |s| {
        FirstIsLine(s[n..]);
      }
    } else {
      hide IsLine, IsBreak;
      LinesAre(s[n..], i - 1);
    }
  }

  function Join(lines: seq<string>): string {
    if lines == [] then "" else lines[0] + Join(lines[1..])
  }

  lemma {:induction false} JoinLines(s: string)
    ensures Join(Lines(s)) == s
    decreases |s|
  {
    if s != "" {
      var n := LineEnd(s);
      JoinLines(s[n..]);
      assert Lines(s)[1..] == Lines(s[n..]);
      assert s == s[..n] + s[n..];
    }
  }

  lemma {:induction false} JoinConcat(a: seq<string>, b: seq<string>)
    ensures Join(a + b) == Join(a) + Join(b)
  {
    if a == [] {
      assert a + b == b;
    } else {
      assert (a + b)[1..] == a[1..] + b;
      JoinConcat(a[1..], b);
    }
  }

  predicate EndsLine(s: string) { s != "" && s[|s| - 1] == '\n' }

  /** A carriage return in front of a newline: the two become one boundary. */
  predicate Merges(a: string, b: string) { a != "" && b != "" && a[|a| - 1] == '\r' && b[0] == '\n' }

  /** Put together, the two texts do not share a line. */
  predicate Apart(a: string, b: string) { a == "" || b == "" || (IsBreak(a[|a| - 1]) && !Merges(a, b)) }

  lemma LinesStep(s: string)
    requires s != ""
    ensures Lines(s) == [s[..LineEnd(s)]] + Lines(s[LineEnd(s)..])
  {
  }

  /** The first line of a text does not depend on what comes behind another line of it, or apart from it. */
  lemma {:induction false} FirstLine(a: string, b: string)
    requires a != "" && (LineEnd(a) < |a| || Apart(a, b))
    ensures LineEnd(a + b) == LineEnd(a)
  {
    assert (a + b)[0] == a[0];
    if b == "" {
      assert a + b == a;
    } else if |a| > 1 {
      assert (a + b)[1] == a[1];
      if !IsBreak(a[0]) {
        assert (a + b)[1..] == a[1..] + b;
        FirstLine(a[1..], b);
      }
    }
  }

  /** A first line is one line by itself. */
  lemma {:induction false} FirstLineAlone(s: string)
    requires s != ""
    ensures var n := LineEnd(s);
      && LineEnd(s[..n]) == n && Apart(s[..n], s[n..])
  {
    var n := LineEnd(s);
    if !IsBreak(s[0]) && |s| > 1 {
      FirstLineAlone(s[1..]);
      assert s[..n][1..] == s[1..][..n - 1] && s[n..] == s[1..][n - 1..];
      assert s[..n][n - 1] == s[1..][..n - 1][n - 2];
    }
  }

  /** Texts that keep apart have their own lines. */
  lemma {:induction false} LinesConcat(a: string, b: string)
    requires Apart(a, b)
    ensures Lines(a + b) == Lines(a) + Lines(b)
    decreases |a|
  {
    if a == "" {
      assert a + b == b;
    } else {
      hide LineEnd;
      var n := LineEnd(a);
      FirstLine(a, b);
      FrontOfBoth(a, b, n);
      LinesStep(a + b);
      LinesStep(a);
      hide Lines;
      LinesConcat(a[n..], b);
      Assoc([a[..n]], Lines(a[n..]), Lines(b));
    }
  }

  /** The first line starts where the text does, and the last one ends where it does. */
  lemma {:induction false} OuterLines(s: string)
    requires s != ""
    ensures var lines := Lines(s);
      && |lines| > 0 && lines[0] != "" && lines[0][0] == s[0]
      && lines[|lines| - 1] != "" && lines[|lines| - 1][|lines[|lines| - 1]| - 1] == s[|s| - 1]
    decreases |s|
  {
    var n := LineEnd(s);
    hide LineEnd;
    if n < |s| {
      OuterLines(s[n..]);
    } else {
      assert s[n..] == "" && s[..n] == s;
    }
  }

  /** Neighbouring lines of a text keep apart. */
  lemma {:induction false} NeighboursApart(s: string, i: nat)
    requires i + 1 < |Lines(s)|
    ensures Apart(Lines(s)[i], Lines(s)[i + 1])
    decreases |s|
  {
    var n := LineEnd(s);
    FirstLineAlone(s);
    hide LineEnd;
    if i == 0 {
      OuterLines(s[n..]);
    } else {
      NeighboursApart(s[n..], i - 1);
    }
  }

  /** Two texts have their own lines exactly when they keep apart. */
  lemma OwnLines(a: string, b: string)
    ensures Lines(a + b) == Lines(a) + Lines(b) <==> Apart(a, b)
  {
    if Apart(a, b) {
      LinesConcat(a, b);
    } else if Lines(a + b) == Lines(a) + Lines(b) {
      OuterLines(a);
      OuterLines(b);
      hide Lines;
      NeighboursApart(a + b, |Lines(a)| - 1);
    }
  }

  /** The lines of a text, regrouped: the front of the list ends a line of its own. */
  lemma {:induction false} LinesOfFront(s: string, k: nat)
    requires k <= |Lines(s)|
    ensures var front, back := Join(Lines(s)[..k]), Join(Lines(s)[k..]);
      s == front + back
    decreases |s|
  {
    JoinLines(s);
    JoinConcat(Lines(s)[..k], Lines(s)[k..]);
    assert Lines(s) == Lines(s)[..k] + Lines(s)[k..];
  }

  /** Each line is a line by itself, and nothing in front of the list changes its end. */
  lemma {:induction false} LinesOfBack(s: string, k: nat)
    requires k <= |Lines(s)|
    ensures Lines(Join(Lines(s)[k..])) == Lines(s)[k..]
    decreases |s|
  {
    if k == 0 {
      assert Lines(s)[0..] == Lines(s);
      JoinLines(s);
    } else {
      var n := LineEnd(s);
      assert Lines(s)[k..] == Lines(s[n..])[k - 1..];
      hide LineEnd;
      LinesOfBack(s[n..], k - 1);
    }
  }

  // ---- The edits ----

  datatype EditError = InvalidRange | InvalidLine | NotFound | EmptyFind | BadPosition | MissingRange

  /** A replacement that is not empty ends its line. */
  function Terminated(text: string): string {
    if text != "" && !EndsLine(text) then text + "\n" else text
  }

  /** _replace_lines_text */
  function ReplaceLines(text: string, start: int, end: int, replacement: string): Result<string, EditError> {
    var lines := Lines(text);
    if start < 1 || end < start || end > |lines| then Err(InvalidRange)
    else Ok(Join(lines[..start - 1]) + Terminated(replacement) + Join(lines[end..]))
  }

  /** The line-range form of delete_text_in_file. */
  function DeleteLines(text: string, start: int, end: int): Result<string, EditError> {
    var lines := Lines(text);
    if start < 1 || end < start || end > |lines| then Err(InvalidRange)
    else Ok(Join(lines[..start - 1] + lines[end..]))
  }

  /** _insert_at_line_text */
  function InsertAtLine(text: string, line: int, content: string, after: bool): Result<string, EditError> {
    var lines := Lines(text);
    if line < 1 || line > |lines| then Err(InvalidLine)
    else
      var index := if after then line else line - 1;
      Ok(Join(lines[..index]) + Terminated(content) + Join(lines[index..]))
  }

  // ---- What the edits keep, and how they are undone ----

  lemma SingleLine(s: string)
    requires s != "" && LineEnd(s) == |s|
    ensures Lines(s) == [s]
  {
    assert s[..|s|] == s && s[|s|..] == "";
    assert Lines("") == [];
  }

  /** The first lines of a text are lines by themselves, and keep apart from the others. */
  lemma {:induction false} FrontLines(text: string, k: nat)
    requires k <= |Lines(text)|
    ensures var lines := Lines(text);
      Lines(Join(lines[..k])) == lines[..k] && Apart(Join(lines[..k]), Join(lines[k..]))
    decreases |text|
  {
    hide LineEnd, Lines, Join;
    NothingToJoin();
    if k > 0 {
      var n := LineEnd(text);
      var first, rest := text[..n], text[n..];
      LinesStep(text);
      FirstLineAlone(text);
      SingleLine(first);
      FrontLines(rest, k - 1);
      LinesOfFront(rest, k - 1);
      var lines, front := Lines(text), Join(Lines(rest)[..k - 1]);
      assert lines[..k] == [first] + Lines(rest)[..k - 1] && lines[k..] == Lines(rest)[k - 1..];
      JoinFirst(first, Lines(rest)[..k - 1]);
      assert front != "" ==> front[0] == rest[0];
      LinesConcat(first, front);
      BehindFront(first, front, Join(lines[k..]));
    }
  }

  lemma JoinFirst(first: string, lines: seq<string>)
    ensures Join([first] + lines) == first + Join(lines)
  {
    assert ([first] + lines)[1..] == lines;
  }

  lemma BehindFront(first: string, front: string, back: string)
    requires Apart(front, back) && Apart(first, front + back)
    ensures Apart(first + front, back)
  {
    if front == "" {
      assert first + front == first && front + back == back;
    }
  }

  /** Splicing text in between two lines: the lines around it stay what they were exactly when the text keeps apart. */
  lemma Spliced(text: string, from: nat, to: nat, middle: string)
    requires from <= to <= |Lines(text)| && (middle == "" || EndsLine(middle))
    ensures var lines := Lines(text);
      var front, back := Join(lines[..from]), Join(lines[to..]);
      Lines(front + middle + back) == lines[..from] + Lines(middle) + lines[to..] <==> Apart(front, middle + back)
  {
    hide Lines, Join;
    var lines := Lines(text);
    var front, back := Join(lines[..from]), Join(lines[to..]);
    FrontLines(text, from);
    LinesOfBack(text, to);
    LinesConcat(middle, back);
    OwnLines(front, middle + back);
    Assoc(front, middle, back);
    Assoc(lines[..from], Lines(middle), lines[to..]);
  }

  lemma TerminatedEnds(text: string)
    ensures Terminated(text) == "" || EndsLine(Terminated(text))
    ensures text == "" || EndsLine(text) <==> Terminated(text) == text
    ensures text != "" ==> Terminated(text) != ""
  {
  }

  /**
   * After a replacement every other line is there unchanged, in its place around the new lines,
   * unless a carriage return in front meets a newline.
   */
  lemma ReplaceKeepsOthers(text: string, start: int, end: int, replacement: string)
    requires 1 <= start <= end <= |Lines(text)|
    ensures var r, lines := ReplaceLines(text, start, end, replacement), Lines(text);
      && r.Ok?
      && (Lines(r.value) == lines[..start - 1] + Lines(Terminated(replacement)) + lines[end..] <==>
        !Merges(Join(lines[..start - 1]), Terminated(replacement) + Join(lines[end..])))
  {
    hide Lines, Join;
    TerminatedEnds(replacement);
    Spliced(text, start - 1, end, Terminated(replacement));
    FrontIsComplete(text, start - 1);
  }

  /** In front of a line there is nothing, or a boundary. */
  lemma FrontIsComplete(text: string, k: nat)
    requires k < |Lines(text)|
    ensures var front := Join(Lines(text)[..k]);
      front == "" || IsBreak(front[|front| - 1])
  {
    hide Lines, Join;
    FrontLines(text, k);
    LineNotEmpty(text, k);
    JoinFirst(Lines(text)[k], Lines(text)[k + 1..]);
    assert Lines(text)[k..] == [Lines(text)[k]] + Lines(text)[k + 1..];
  }

  /** A text cut into the lines before, the lines touched, and the lines behind. */
  lemma ThreeParts(text: string, from: nat, to: nat)
    requires from <= to <= |Lines(text)|
    ensures var lines := Lines(text);
      text == Join(lines[..from]) + Join(lines[from..to]) + Join(lines[to..])
  {
    var lines := Lines(text);
    JoinLines(text);
    JoinConcat(lines[..from], lines[from..to]);
    JoinConcat(lines[..to], lines[to..]);
    assert lines[..from] + lines[from..to] == lines[..to] && lines[..to] + lines[to..] == lines;
  }

  lemma {:induction false} LinesAreNotEmpty(text: string)
    ensures text != "" ==> |Lines(text)| > 0
  {
  }

  /** Inserting by putting back what was cut out adds a newline exactly when the cut did not end in one. */
  lemma PutBack(text: string, from: nat, to: nat)
    requires from < to <= |Lines(text)|
    ensures var lines := Lines(text);
      Join(lines[..from]) + Terminated(Join(lines[from..to])) + Join(lines[to..]) == text <==>
        EndsLine(Join(lines[from..to]))
  {
    var lines := Lines(text);
    var a, m, b := Join(lines[..from]), Join(lines[from..to]), Join(lines[to..]);
    ThreeParts(text, from, to);
    LineNotEmpty(text, from);
    JoinConcat([lines[from]], lines[from + 1..to]);
    assert lines[from..to] == [lines[from]] + lines[from + 1..to];
    assert Join([lines[from]]) == lines[from] + Join([]);
    assert |a + Terminated(m) + b| == |text| + |Terminated(m)| - |m|;
  }

  lemma {:induction false} LineNotEmpty(text: string, i: nat)
    requires i < |Lines(text)|
    ensures Lines(text)[i] != ""
    decreases |text|
  {
    if i > 0 {
      LineNotEmpty(text[LineEnd(text)..], i - 1);
    }
  }

  /** A carriage return takes a newline behind it into its line. */
  lemma {:induction false} AddNewline(a: string)
    requires a != "" && a[|a| - 1] == '\r'
    ensures |Lines(a + "\n")| == |Lines(a)|
    decreases |a|
  {
    var n := LineEnd(a);
    LinesStep(a);
    LinesStep(a + "\n");
    if n < |a| {
      FirstLine(a, "\n");
      FrontOfBoth(a, "\n", n);
      AddNewline(a[n..]);
    } else {
      WholeLineGrows(a);
      assert a[n..] == "" && (a + "\n")[|a| + 1..] == "";
    }
  }

  lemma {:induction false} WholeLineGrows(a: string)
    requires a != "" && a[|a| - 1] == '\r' && LineEnd(a) == |a|
    ensures LineEnd(a + "\n") == |a| + 1
  {
    if |a| > 1 {
      assert (a + "\n")[1..] == a[1..] + "\n";
      WholeLineGrows(a[1..]);
    }
  }

  /** Where a carriage return meets a newline, the lines in front take it with them. */
  lemma MergedFront(text: string, k: nat, behind: string)
    requires k <= |Lines(text)| && Merges(Join(Lines(text)[..k]), behind)
    ensures var front := Join(Lines(text)[..k]);
      var merged := Lines(front + behind);
      k <= |merged| && Join(merged[..k]) == front + "\n"
  {
    hide Lines, Join;
    var front := Join(Lines(text)[..k]);
    var first, rest := front + "\n", behind[1..];
    FrontLines(text, k);
    AddNewline(front);
    assert front + behind == first + rest;
    LinesConcat(first, rest);
    assert (Lines(first) + Lines(rest))[..k] == Lines(first);
    JoinLines(first);
  }

  /** What was in front of a cut and is followed by a newline is not the beginning of the text any more. */
  lemma NotRestored(text: string, from: nat, to: nat, back: string)
    requires from < to <= |Lines(text)|
    ensures var front := Join(Lines(text)[..from]);
      front != "" && front[|front| - 1] == '\r' ==> front + "\n" + back != text
  {
    hide Lines, Join;
    var front, rest := Join(Lines(text)[..from]), Join(Lines(text)[from..]);
    FrontLines(text, from);
    LinesOfFront(text, from);
    LineNotEmpty(text, from);
    JoinFirst(Lines(text)[from], Lines(text)[from + 1..]);
    assert Lines(text)[from..] == [Lines(text)[from]] + Lines(text)[from + 1..];
    assert text[|front|] == rest[0];
    assert (front + "\n" + back)[|front|] == '\n';
  }

  lemma CanReplace(text: string, start: int, end: int, replacement: string)
    requires 1 <= start <= end <= |Lines(text)|
    ensures ReplaceLines(text, start, end, replacement).Ok?
  {
    hide Lines, Join, Terminated;
  }

  /**
   * Replacing lines and replacing the new lines back restores the text exactly when there are new
   * lines, the touched ones ended in a newline, and no carriage return in front meets a newline.
   */
  lemma ReplaceUndo(text: string, start: int, end: int, replacement: string)
    requires 1 <= start <= end <= |Lines(text)|
    ensures var front, cut := Join(Lines(text)[..start - 1]), Join(Lines(text)[start - 1..end]);
      var changed := ReplaceLines(text, start, end, replacement).value;
      var back := ReplaceLines(changed, start, start + |Lines(Terminated(replacement))| - 1, cut);
      back == Ok(text) <==> replacement != "" && EndsLine(cut) && !Merges(front, replacement)
  {
    hide Lines, Join, EndsLine, Terminated, ReplaceLines;
    CanReplace(text, start, end, replacement);
    TerminatedEnds(replacement);
    if replacement == "" {
      NothingToReplace(ReplaceLines(text, start, end, replacement).value, start, Join(Lines(text)[start - 1..end]));
    } else if Merges(Join(Lines(text)[..start - 1]), replacement) {
      ReplacedMerged(text, start, end, replacement);
    } else {
      ReplacedApart(text, start, end, replacement);
    }
  }

  lemma NothingToReplace(changed: string, start: int, cut: string)
    ensures ReplaceLines(changed, start, start + |Lines(Terminated(""))| - 1, cut).Err?
  {
    assert Lines("") == [];
  }

  lemma ReplacedApart(text: string, start: int, end: int, replacement: string)
    requires 1 <= start <= end <= |Lines(text)| && replacement != ""
    requires !Merges(Join(Lines(text)[..start - 1]), replacement)
    ensures var cut := Join(Lines(text)[start - 1..end]);
      var changed := ReplaceLines(text, start, end, replacement).value;
      var back := ReplaceLines(changed, start, start + |Lines(Terminated(replacement))| - 1, cut);
      back == Ok(text) <==> EndsLine(cut)
  {
    hide Lines, Join, EndsLine, Terminated, ReplaceLines;
    var lines, middle := Lines(text), Lines(Terminated(replacement));
    var cut := Join(lines[start - 1..end]);
    ReplaceKeepsOthers(text, start, end, replacement);
    TerminatedEnds(replacement);
    TerminatedStarts(replacement, Join(lines[end..]));
    LinesAreNotEmpty(Terminated(replacement));
    Replaced(ReplaceLines(text, start, end, replacement).value, lines[..start - 1], middle, lines[end..], cut);
    PutBack(text, start - 1, end);
  }

  lemma TerminatedStarts(replacement: string, back: string)
    requires replacement != ""
    ensures Terminated(replacement) + back != "" && (Terminated(replacement) + back)[0] == replacement[0]
  {
  }

  lemma ReplacedMerged(text: string, start: int, end: int, replacement: string)
    requires 1 <= start <= end <= |Lines(text)| && replacement != ""
    requires Merges(Join(Lines(text)[..start - 1]), replacement)
    ensures var cut := Join(Lines(text)[start - 1..end]);
      var changed := ReplaceLines(text, start, end, replacement).value;
      ReplaceLines(changed, start, start + |Lines(Terminated(replacement))| - 1, cut) != Ok(text)
  {
    hide Lines, Join, EndsLine, Terminated;
    var lines := Lines(text);
    var front, cut, back := Join(lines[..start - 1]), Join(lines[start - 1..end]), Join(lines[end..]);
    var behind := Terminated(replacement) + back;
    TerminatedStarts(replacement, back);
    MergedFront(text, start - 1, behind);
    Assoc(front, Terminated(replacement), back);
    var merged, to := Lines(front + behind), start + |Lines(Terminated(replacement))| - 1;
    if start <= to <= |merged| {
      NotRestored(text, start - 1, end, Terminated(cut) + Join(merged[to..]));
      Assoc(front + "\n", Terminated(cut), Join(merged[to..]));
    }
  }

  /** Replacing the middle of a text known by its lines. */
  lemma Replaced(text: string, a: seq<string>, b: seq<string>, c: seq<string>, replacement: string)
    requires Lines(text) == a + b + c && b != []
    ensures ReplaceLines(text, |a| + 1, |a| + |b|, replacement) == Ok(Join(a) + Terminated(replacement) + Join(c))
  {
    hide Lines, Join, Terminated;
    Around(a, b, c);
  }

  lemma Around(a: seq<string>, b: seq<string>, c: seq<string>)
    ensures (a + b + c)[..|a|] == a && (a + b + c)[|a| + |b|..] == c
    ensures b == [] ==> a + b + c == a + c
  {
  }

  /**
   * Deleting lines and inserting them back where they were, behind the line before or in front of
   * the line after, restores the text exactly when they ended in a newline and no carriage return
   * in front meets a newline behind. After deleting everything there is no line to insert at.
   */
  lemma DeleteUndo(text: string, start: int, end: int)
    requires 1 <= start <= end <= |Lines(text)|
    ensures var lines := Lines(text);
      var front, cut, back := Join(lines[..start - 1]), Join(lines[start - 1..end]), Join(lines[end..]);
      var deleted := DeleteLines(text, start, end).value;
      && (Lines(deleted) == lines[..start - 1] + lines[end..] <==> !Merges(front, back))
      && (start > 1 ==>
        (InsertAtLine(deleted, start - 1, cut, true) == Ok(text) <==> EndsLine(cut) && !Merges(front, back)))
      && (end < |lines| ==>
        (InsertAtLine(deleted, start, cut, false) == Ok(text) <==> EndsLine(cut) && !Merges(front, back)))
      && (start == 1 && end == |lines| ==> deleted == "" && InsertAtLine(deleted, 1, cut, false).Err?)
  {
    hide Lines, Join, EndsLine, Terminated, InsertAtLine;
    Deleted(text, start, end);
    if Merges(Join(Lines(text)[..start - 1]), Join(Lines(text)[end..])) {
      DeletedMerged(text, start, end);
    } else {
      DeletedApart(text, start, end);
    }
    if start == 1 && end == |Lines(text)| {
      NoLines(Join(Lines(text)[start - 1..end]));
    }
  }

  lemma NoLines(cut: string)
    ensures InsertAtLine("", 1, cut, false).Err?
  {
  }

  lemma DeletedApart(text: string, start: int, end: int)
    requires 1 <= start <= end <= |Lines(text)|
    requires DeleteLines(text, start, end) == Ok(Join(Lines(text)[..start - 1]) + Join(Lines(text)[end..]))
    requires Lines(DeleteLines(text, start, end).value) == Lines(text)[..start - 1] + Lines(text)[end..]
    ensures var cut := Join(Lines(text)[start - 1..end]);
      var deleted := DeleteLines(text, start, end).value;
      && (start > 1 ==> (InsertAtLine(deleted, start - 1, cut, true) == Ok(text) <==> EndsLine(cut)))
      && (end < |Lines(text)| ==> (InsertAtLine(deleted, start, cut, false) == Ok(text) <==> EndsLine(cut)))
  {
    hide Lines, Join, EndsLine, Terminated;
    var lines := Lines(text);
    Around(lines[..start - 1], [], lines[end..]);
    PutBack(text, start - 1, end);
  }

  lemma DeletedMerged(text: string, start: int, end: int)
    requires 1 <= start <= end <= |Lines(text)|
    requires Merges(Join(Lines(text)[..start - 1]), Join(Lines(text)[end..]))
    requires DeleteLines(text, start, end) == Ok(Join(Lines(text)[..start - 1]) + Join(Lines(text)[end..]))
    ensures var cut := Join(Lines(text)[start - 1..end]);
      var deleted := DeleteLines(text, start, end).value;
      && InsertAtLine(deleted, start - 1, cut, true) != Ok(text)
      && InsertAtLine(deleted, start, cut, false) != Ok(text)
  {
    hide Lines, Join, EndsLine, Terminated, DeleteLines;
    var lines := Lines(text);
    var front, cut, back := Join(lines[..start - 1]), Join(lines[start - 1..end]), Join(lines[end..]);
    MergedFront(text, start - 1, back);
    var merged := Lines(front + back);
    NotRestored(text, start - 1, end, Terminated(cut) + Join(merged[start - 1..]));
    Assoc(front + "\n", Terminated(cut), Join(merged[start - 1..]));
  }

  lemma NothingToJoin()
    ensures Join([]) == "" && Lines("") == []
  {
  }

  /** What a deletion leaves, as a text and as lines. */
  lemma Deleted(text: string, start: int, end: int)
    requires 1 <= start <= end <= |Lines(text)|
    ensures var lines, deleted := Lines(text), DeleteLines(text, start, end);
      var front, back := Join(lines[..start - 1]), Join(lines[end..]);
      && deleted == Ok(front + back)
      && (Lines(deleted.value) == lines[..start - 1] + lines[end..] <==> !Merges(front, back))
      && (start == 1 && end == |lines| ==> deleted.value == "")
  {
    hide Lines, Join, EndsLine;
    var lines := Lines(text);
    NothingToJoin();
    if start == 1 && end == |lines| {
      assert lines[..start - 1] + lines[end..] == [];
    }
    JoinConcat(lines[..start - 1], lines[end..]);
    Spliced(text, start - 1, end, "");
    FrontIsComplete(text, start - 1);
    var front, back := Join(lines[..start - 1]), Join(lines[end..]);
    assert front + "" == front && "" + back == back;
    Around(lines[..start - 1], [], lines[end..]);
  }

  /**
   * Inserting leaves every line of the text where it was, before or behind the new ones, exactly when
   * the lines in front keep apart from what comes behind them: they do not where the last line has
   * no boundary yet.
   */
  lemma InsertKeepsOthers(text: string, line: int, content: string, after: bool)
    requires 1 <= line <= |Lines(text)|
    ensures var r, lines := InsertAtLine(text, line, content, after), Lines(text);
      var index := if after then line else line - 1;
      && r.Ok?
      && (Lines(r.value) == lines[..index] + Lines(Terminated(content)) + lines[index..] <==>
        Apart(Join(lines[..index]), Terminated(content) + Join(lines[index..])))
  {
    hide Lines, Join;
    TerminatedEnds(content);
    Spliced(text, if after then line else line - 1, if after then line else line - 1, Terminated(content));
  }

  /** In a text without carriage returns nothing merges: only the newline at the end of the cut matters. */
  lemma NewlinesDoNotMerge(text: string, k: nat, behind: string)
    requires '\r' !in text && k <= |Lines(text)|
    ensures !Merges(Join(Lines(text)[..k]), behind)
  {
    hide Lines, Join;
    LinesOfFront(text, k);
    var front := Join(Lines(text)[..k]);
    assert front != "" ==> front[|front| - 1] in text;
  }

  // ---- Edits that cannot be undone ----

  lemma TwoLines(a: string, b: string)
    requires a != "" && b != "" && LineEnd(a) == |a| && LineEnd(b) == |b| && Apart(a, b)
    ensures Lines(a + b) == [a, b]
    ensures var lines := Lines(a + b);
      Join(lines[..1]) == a && Join(lines[1..2]) == b && Join(lines[2..]) == ""
  {
    SingleLine(a);
    SingleLine(b);
    LinesConcat(a, b);
    assert [a, b][..1] == [a] && [a, b][1..2] == [b] && [a, b][2..] == [];
    JoinOne(a);
    JoinOne(b);
  }

  lemma JoinOne(a: string)
    ensures Join([a]) == a
  {
    assert [a][1..] == [] && a + "" == a;
  }

  /** The touched line ends in a newline, and yet the carriage return in front of it takes the new one. */
  lemma ReplacementMerges()
    ensures var text := "a\rb\n";
      var changed := ReplaceLines(text, 2, 2, "\nX").value;
      Join(Lines(text)[1..2]) == "b\n" && ReplaceLines(changed, 2, 2 + |Lines("\nX\n")| - 1, "b\n") != Ok(text)
  {
    var a, b := "a\r", "b\n";
    assert a[1..] == "\r" && b[1..] == "\n" && a + b == "a\rb\n";
    TwoLines(a, b);
    hide Lines, Join, ReplaceLines;
    assert Terminated("\nX") == "\nX\n";
    assert Lines(a + b)[2 - 1..2] == Lines(a + b)[1..2] && Lines(a + b)[..2 - 1] == Lines(a + b)[..1];
    ReplaceUndo(a + b, 2, 2, "\nX");
  }

  /** The same for a deletion: the empty line behind it moves up to the carriage return. */
  lemma DeletionMerges()
    ensures var text := "a\rb\n\n";
      var deleted := DeleteLines(text, 2, 2).value;
      && Join(Lines(text)[1..2]) == "b\n"
      && InsertAtLine(deleted, 1, "b\n", true) != Ok(text) && InsertAtLine(deleted, 2, "b\n", false) != Ok(text)
  {
    hide Lines, Join, DeleteLines, InsertAtLine;
    var a, b, c := "a\r", "b\n", "\n";
    assert a[1..] == "\r" && b[1..] == "\n";
    TwoLines(a, b);
    SingleLine(c);
    LinesConcat(a + b, c);
    var text := a + b + c;
    assert text == "a\rb\n\n" && Lines(text) == [a, b, c];
    assert Lines(text)[..2 - 1] == [a] && Lines(text)[2 - 1..2] == [b] && Lines(text)[2..] == [c];
    JoinOne(a);
    JoinOne(b);
    JoinOne(c);
    DeleteUndo(text, 2, 2);
  }

  /** A last line without its newline comes back with one. */
  lemma LastLineGrows()
    ensures var text := "a\nb";
      var changed := ReplaceLines(text, 2, 2, "X").value;
      Join(Lines(text)[1..2]) == "b" && ReplaceLines(changed, 2, 2 + |Lines("X\n")| - 1, "b") != Ok(text)
  {
    var a, b := "a\n", "b";
    assert a[1..] == "\n" && b[1..] == "" && a + b == "a\nb";
    TwoLines(a, b);
    hide Lines, Join, ReplaceLines;
    assert Terminated("X") == "X\n";
    assert Lines(a + b)[2 - 1..2] == Lines(a + b)[1..2];
    ReplaceUndo(a + b, 2, 2, "X");
  }
}
