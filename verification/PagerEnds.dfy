/** When paging ends: the number of pages of a completed artifact, and the text pages that cannot be formed. */
module PagerEnds {
  import opened Wrappers
  import opened ByteStrings
  import opened Frames
  import opened Pager
  import opened PageContents
  import Utf8

  // ---- Base64 pages of a completed artifact ----

  /** A reader of a completed log who asks for raw bytes, `m` at a time. */
  predicate Reading(fs: seq<Frame>, v: View, m: nat) {
    Committed(v, fs) && !v.text && !v.active && m > 0
  }

  lemma RawPage(fs: seq<Frame>, v: View, c: Cursor, m: nat)
    requires Reading(fs, v, m) && CursorOk(fs, c)
    ensures m > 0 && Decoded(c) && c.logical <= |Logical(fs)|
    ensures var r := PageOf(v, c, m);
      && r.Ok?
      && var raw := Joined(r.value.pieces);
         && |raw| == Min(m, |Logical(fs)| - c.logical) && raw == Logical(fs)[c.logical..c.logical + |raw|]
         && (r.value.next.Some? <==> |raw| == m)
         && (r.value.next.Some? ==> CursorOk(fs, r.value.next.value) && r.value.next.value.logical == c.logical + m)
  {
    hide Committed, Spot, Payload, Joined, Of, PageOf, WellMade;
    PageDelivers(fs, v, c, m);
  }

  /** Every page from cursor `c` on, following next_cursor until there is none. */
  ghost function ReadAll(fs: seq<Frame>, v: View, c: Cursor, m: nat): seq<Page>
    requires Reading(fs, v, m) && CursorOk(fs, c)
    decreases |Logical(fs)| - c.logical
  {
    RawPage(fs, v, c, m);
    var page := PageOf(v, c, m).value;
    if page.next.None? then [page]
    else
      RawPage(fs, v, page.next.value, m);
      [page] + ReadAll(fs, v, page.next.value, m)
  }

  function Contents(pages: seq<Page>): Bytes {
    if pages == [] then [] else Joined(pages[0].pieces) + Contents(pages[1..])
  }

  /** The pages from a cursor on hold exactly the bytes from there to the end. */
  lemma {:induction false} AllContents(fs: seq<Frame>, v: View, c: Cursor, m: nat)
    requires Reading(fs, v, m) && CursorOk(fs, c)
    ensures c.logical <= |Logical(fs)| && Contents(ReadAll(fs, v, c, m)) == Logical(fs)[c.logical..]
    decreases |Logical(fs)| - c.logical
  {
    hide Reading, CursorOk, PageOf, Joined, Logical;
    RawPage(fs, v, c, m);
    var page, all := PageOf(v, c, m).value, Logical(fs);
    if page.next.Some? {
      var next := page.next.value;
      AllContents(fs, v, next, m);
      ContentsOf(page, ReadAll(fs, v, next, m));
      hide Contents;
      SplitTail(all, c.logical, m);
    } else {
      assert [page][1..] == [] && Contents([]) == [];
    }
  }

  lemma SplitTail(all: Bytes, from: nat, m: nat)
    requires from + m <= |all|
    ensures all[from..] == all[from..from + m] + all[from + m..]
  {
  }

  lemma ContentsOf(page: Page, rest: seq<Page>)
    ensures Contents([page] + rest) == Joined(page.pieces) + Contents(rest)
  {
    assert ([page] + rest)[1..] == rest;
  }

  /** n bytes left take exactly floor(n/m) + 1 pages. */
  lemma {:induction false} PageCount(fs: seq<Frame>, v: View, c: Cursor, m: nat)
    requires Reading(fs, v, m) && CursorOk(fs, c)
    ensures c.logical <= |Logical(fs)| && |ReadAll(fs, v, c, m)| == (|Logical(fs)| - c.logical) / m + 1
    decreases |Logical(fs)| - c.logical
  {
    hide Reading, CursorOk, PageOf, Joined, Logical;
    RawPage(fs, v, c, m);
    var page, n := PageOf(v, c, m).value, |Logical(fs)| - c.logical;
    if page.next.Some? {
      PageCount(fs, v, page.next.value, m);
      NextQuotient(n, m);
    } else {
      Quotient(n, m, 0, n);
    }
  }

  lemma NextQuotient(n: int, m: int)
    requires m > 0
    ensures n / m == (n - m) / m + 1
  {
    var q, r := (n - m) / m, (n - m) % m;
    assert (q + 1) * m == q * m + m;
    Quotient(n, m, q + 1, r);
  }

  lemma Quotient(n: int, m: int, q: int, r: int)
    requires m > 0 && 0 <= r < m && n == q * m + r
    ensures n / m == q
  {
    var d := n / m - q;
    assert d * m == (n / m) * m - q * m == r - n % m;
    assert d >= 1 ==> d * m >= m;
    assert d <= -1 ==> d * m <= -m;
  }

  /** A completed artifact of n bytes, read from the start. */
  lemma WholeArtifact(fs: seq<Frame>, v: View, m: nat)
    requires Reading(fs, v, m)
    ensures CursorOk(fs, Cursor(1, 0, 0, 0))
    ensures var pages := ReadAll(fs, v, Cursor(1, 0, 0, 0), m);
      |pages| == |Logical(fs)| / m + 1 && Contents(pages) == Logical(fs)
  {
    FirstCursorOk(fs);
    PageCount(fs, v, Cursor(1, 0, 0, 0), m);
    AllContents(fs, v, Cursor(1, 0, 0, 0), m);
  }

  // ---- Text pages ----

  /** What frame `j` has to offer a walk that enters frame `k` `start` bytes in. */
  function RestOf(fs: seq<Frame>, k: nat, start: nat, j: nat): Bytes
    requires k <= j < |fs| && start <= |fs[k].data|
  {
    if j == k then fs[j].data[start..] else fs[j].data
  }

  /** The budget left when the walk from `start` bytes into frame `k` gets to frame `j`. */
  function LeftAt(fs: seq<Frame>, phase: Byte, k: nat, start: nat, j: nat, budget: int): int
    requires k <= j <= |fs|
  {
    if j == k then budget else budget - (|Payload(fs[k..j], phase)| - start)
  }

  /** No text can be formed from the first `left` bytes of `rest`, although there are some. */
  ghost predicate Unformable(rest: Bytes, left: nat) {
    rest != [] && forall i :: 0 < i <= Min(left, |rest|) ==> !Utf8.Valid(rest[..i])
  }

  /** All records of the stream in front of frame `j` are text to their end. */
  ghost predicate TextUpTo(fs: seq<Frame>, phase: Byte, k: nat, start: nat, j: nat)
    requires j <= |fs| && (k < |fs| ==> start <= |fs[k].data|)
  {
    forall i :: k <= i < j && fs[i].stream == phase ==> Utf8.Valid(RestOf(fs, k, start, i))
  }

  /** The walk gets to frame `j` with some budget left, and no text can be formed there. */
  ghost predicate SplitsAt(fs: seq<Frame>, phase: Byte, k: nat, start: nat, j: nat, budget: int)
    requires k <= j < |fs| && start <= |fs[k].data|
  {
    var left := LeftAt(fs, phase, k, start, j, budget);
    fs[j].stream == phase && TextUpTo(fs, phase, k, start, j) && left > 0 && Unformable(RestOf(fs, k, start, j), left)
  }

  /** Some frame on the way cannot start a text. */
  ghost predicate SomeSplit(fs: seq<Frame>, phase: Byte, k: nat, start: nat, budget: int)
    requires k < |fs| ==> start <= |fs[k].data|
  {
    exists j: nat {:trigger SplitsAt(fs, phase, k, start, j, budget)} ::
      k <= j < |fs| && SplitsAt(fs, phase, k, start, j, budget)
  }

  /** The rest of the stream is text, record by record, and ends within the budget. */
  ghost predicate EndsWithin(fs: seq<Frame>, phase: Byte, k: nat, start: nat, budget: int)
    requires k <= |fs| && (k < |fs| ==> start <= |fs[k].data|)
  {
    TextUpTo(fs, phase, k, start, |fs|) && |Payload(fs[k..], phase)| - start < budget
  }

  /** What frame `k` takes off the budget when it is taken to its end. */
  function Rest(fs: seq<Frame>, phase: Byte, k: nat, start: nat): int
    requires k < |fs|
  {
    if fs[k].stream == phase then |fs[k].data| - start else 0
  }

  lemma LeftShifts(fs: seq<Frame>, phase: Byte, k: nat, start: nat, j: nat, budget: int)
    requires k < j <= |fs| && start <= |fs[k].data| && (fs[k].stream != phase ==> start == 0)
    ensures var left := budget - Rest(fs, phase, k, start);
      LeftAt(fs, phase, k, start, j, budget) == LeftAt(fs, phase, k + 1, 0, j, left) <= left
  {
    assert fs[k..j] == [fs[k]] + fs[k + 1..j];
    PayloadAppend([fs[k]], fs[k + 1..j], phase);
    assert Payload([fs[k]], phase) == (if fs[k].stream == phase then fs[k].data else []) + Payload([], phase);
    assert fs[k + 1..k + 1] == [];
  }

  /** One frame further, on the way to frame `j`. */
  lemma SplitShifts(fs: seq<Frame>, phase: Byte, k: nat, start: nat, j: nat, budget: int)
    requires k < j < |fs| && start <= |fs[k].data| && (fs[k].stream != phase ==> start == 0)
    ensures var left := budget - Rest(fs, phase, k, start);
      SplitsAt(fs, phase, k, start, j, budget) <==>
        && left > 0 && (fs[k].stream == phase ==> Utf8.Valid(fs[k].data[start..]))
        && SplitsAt(fs, phase, k + 1, 0, j, left)
  {
    LeftShifts(fs, phase, k, start, j, budget);
    TextShifts(fs, phase, k, start, j);
    assert RestOf(fs, k, start, j) == RestOf(fs, k + 1, 0, j) by {
      assert fs[j].data[0..] == fs[j].data;
    }
    hide Payload, Utf8.Valid, TextUpTo, Unformable, RestOf, LeftAt;
  }

  lemma TextShifts(fs: seq<Frame>, phase: Byte, k: nat, start: nat, j: nat)
    requires k < j <= |fs| && start <= |fs[k].data|
    ensures TextUpTo(fs, phase, k, start, j) <==>
      (fs[k].stream == phase ==> Utf8.Valid(fs[k].data[start..])) && TextUpTo(fs, phase, k + 1, 0, j)
  {
    hide Utf8.Valid;
    assert forall i :: k < i < j ==> RestOf(fs, k, start, i) == RestOf(fs, k + 1, 0, i) by {
      forall i | k < i < j
        ensures RestOf(fs, k, start, i) == RestOf(fs, k + 1, 0, i)
      {
        assert fs[i].data[0..] == fs[i].data;
      }
    }
    assert RestOf(fs, k, start, k) == fs[k].data[start..];
  }

  /** Where a walk fails: at this frame, or behind it when it is text to its end and leaves some budget. */
  lemma SplitHereOrLater(fs: seq<Frame>, phase: Byte, k: nat, start: nat, budget: nat)
    requires k < |fs| && start <= |fs[k].data| && (fs[k].stream != phase ==> start == 0) && budget > 0
    ensures var left := budget - Rest(fs, phase, k, start);
      SomeSplit(fs, phase, k, start, budget) <==>
        || (fs[k].stream == phase && Unformable(fs[k].data[start..], budget))
        || (left > 0 && (fs[k].stream == phase ==> Utf8.Valid(fs[k].data[start..]))
          && SomeSplit(fs, phase, k + 1, 0, left))
  {
    var left := budget - Rest(fs, phase, k, start);
    assert SplitsAt(fs, phase, k, start, k, budget) <==>
      fs[k].stream == phase && Unformable(fs[k].data[start..], budget);
    hide SplitsAt, Unformable, Utf8.Valid;
    forall j: nat | k < j < |fs|
      ensures SplitsAt(fs, phase, k, start, j, budget) <==>
        && left > 0 && (fs[k].stream == phase ==> Utf8.Valid(fs[k].data[start..]))
        && SplitsAt(fs, phase, k + 1, 0, j, left)
    {
      SplitShifts(fs, phase, k, start, j, budget);
    }
    if SomeSplit(fs, phase, k, start, budget) {
      var j: nat :| k <= j < |fs| && SplitsAt(fs, phase, k, start, j, budget);
      assert j > k ==> SplitsAt(fs, phase, k + 1, 0, j, left);
    }
    if left > 0 && SomeSplit(fs, phase, k + 1, 0, left) {
      var j: nat :| k < j < |fs| && SplitsAt(fs, phase, k + 1, 0, j, left);
      assert (fs[k].stream == phase ==> Utf8.Valid(fs[k].data[start..])) ==> SplitsAt(fs, phase, k, start, j, budget);
    }
  }

  lemma EndHereOrLater(fs: seq<Frame>, phase: Byte, k: nat, start: nat, budget: int)
    requires k < |fs| && start <= |fs[k].data| && (fs[k].stream != phase ==> start == 0)
    ensures EndsWithin(fs, phase, k, start, budget) <==>
      && (fs[k].stream == phase ==> Utf8.Valid(fs[k].data[start..]))
      && EndsWithin(fs, phase, k + 1, 0, budget - Rest(fs, phase, k, start))
  {
    hide TextUpTo, Payload;
    TextShifts(fs, phase, k, start, |fs|);
    PayloadFrom(fs, k, phase);
  }

  /** The turn of a frame of the stream in a text page. */
  lemma TextTurn(v: View, data: Bytes, here: nat, start: nat, budget: nat)
    requires v.text && start <= |data| && budget > 0
    ensures var rest, next := data[start..], here + HEADER + |data|;
      var turn := Spend(Within(data, start, budget), start, |data|, budget, v.text, here, next);
      && (turn.Bad? <==> Unformable(rest, budget))
      && (turn.Take? <==> Utf8.Valid(rest) && |rest| < budget)
      && (turn.Take? ==> turn == Take(rest, next)) && !turn.Skip? && !turn.End?
  {
    var rest, cut := data[start..], Within(data, start, budget);
    var piece := Utf8.LongestValid(cut);
    Utf8.LongestValidIsLongest(cut);
    assert cut == rest[..|cut|] && |cut| == Min(budget, |rest|);
    assert forall i :: 0 <= i <= |cut| ==> cut[..i] == rest[..i];
    assert piece == rest[..|piece|] && cut[..|cut|] == cut;
    assert Utf8.Valid(rest) && |rest| < budget ==> cut == rest;
    assert |piece| == |rest| ==> piece == rest;
    hide Utf8.Valid, Utf8.LongestValid;
  }

  /**
   * Exactly when a walk over a text stream fails and when it comes to the end: it fails where it
   * still has some budget and no text can be formed; it ends when all that is left is text and
   * fits. The records need not be text.
   */
  lemma {:induction false} TextWalk(
    fs: seq<Frame>, v: View, phase: Byte, co: nat, ci: nat, k: nat, budget: nat, acc: seq<Piece>, start: nat)
    requires Committed(v, fs) && v.text && budget > 0 && k <= |fs| && co <= Offset(fs, k)
    requires start == (if Offset(fs, k) == co then ci else 0)
    requires if k < |fs| then start <= |fs[k].data| && (fs[k].stream != phase ==> start == 0) else start == 0
    ensures var w := Walk(v, phase, co, ci, Offset(fs, k), budget, acc);
      && (w.Failed? <==> SomeSplit(fs, phase, k, start, budget))
      && (w.Exhausted? <==> EndsWithin(fs, phase, k, start, budget))
    decreases |fs| - k
  {
    hide Committed, EncodeAll, TurnAt, PayloadTurn, Payload, Utf8.Valid, SplitsAt, SomeSplit, EndsWithin, Spend, Within,
      PieceOf, Unformable;
    CommittedHeader(fs, v, phase, co, ci, k, budget);
    if k == |fs| {
      NothingLeft(fs, phase, budget);
    } else {
      OffsetsGrow(fs, k, k + 1);
      SplitHereOrLater(fs, phase, k, start, budget);
      EndHereOrLater(fs, phase, k, start, budget);
      if fs[k].stream != phase {
        TextWalk(fs, v, phase, co, ci, k + 1, budget, acc, 0);
      } else {
        var data := fs[k].data;
        var rest := data[start..];
        CommittedPayload(v, data, Offset(fs, k), start, budget);
        TextTurn(v, data, Offset(fs, k), start, budget);
        NoBudgetNoEnd(fs, phase, k + 1, budget - |rest|);
        FormableOrNot(rest, budget);
        if Utf8.Valid(rest) && |rest| < budget {
          TextWalk(fs, v, phase, co, ci, k + 1, budget - |rest|, acc + PieceOf(phase, rest), 0);
        }
      }
    }
  }

  lemma NothingLeft(fs: seq<Frame>, phase: Byte, budget: nat)
    requires budget > 0
    ensures !SomeSplit(fs, phase, |fs|, 0, budget) && EndsWithin(fs, phase, |fs|, 0, budget)
  {
    assert Payload(fs[|fs|..], phase) == [];
  }

  lemma NoBudgetNoEnd(fs: seq<Frame>, phase: Byte, k: nat, left: int)
    requires k <= |fs|
    ensures left <= 0 ==> !EndsWithin(fs, phase, k, 0, left)
  {
    hide Payload, TextUpTo;
  }

  /** Text that fits the budget is no obstacle. */
  lemma FormableOrNot(rest: Bytes, budget: nat)
    requires budget > 0
    ensures Utf8.Valid(rest) && |rest| < budget ==> !Unformable(rest, budget)
  {
    hide Utf8.Valid;
    assert rest[..|rest|] == rest;
  }

  /** For a record that is text, the budget runs out inside its first character. */
  lemma UnformableText(rest: Bytes, left: nat)
    requires Utf8.Valid(rest) && left > 0
    ensures Unformable(rest, left) <==> left < Utf8.FirstRune(rest)
  {
    hide Utf8.Valid, Utf8.FirstRune, Utf8.LongestValid;
    if left < |rest| {
      Utf8.CutKeepsNothing(rest, left);
      Utf8.LongestValidIsLongest(rest[..left]);
      assert forall i :: 0 <= i <= left ==> rest[..left][..i] == rest[..i];
      var piece := Utf8.LongestValid(rest[..left]);
      assert piece == rest[..|piece|];
    } else {
      assert rest[..|rest|] == rest;
    }
  }

  /** Where a text page from frame `k` of the cursor's stream cannot be formed. */
  ghost predicate PageSplits(fs: seq<Frame>, active: bool, c: Cursor, m: nat, k: nat)
    requires 1 <= c.phase <= 2 && c.intra >= 0 && k <= |fs| && (k < |fs| ==> c.intra <= |fs[k].data|)
  {
    if c.phase == 2 then !active && SomeSplit(fs, 2, k, c.intra, m)
    else
      || SomeSplit(fs, 1, k, c.intra, m)
      || (!active && EndsWithin(fs, 1, k, c.intra, m) && SomeSplit(fs, 2, 0, 0, m - (|Payload(fs, 1)| - c.logical)))
  }

  lemma StreamOfText(
    fs: seq<Frame>, v: View, phase: Byte, offset: nat, intra: nat, k: nat, budget: nat, acc: seq<Piece>, pos: int)
    requires Committed(v, fs) && v.text && budget > 0 && 1 <= phase <= 2
    requires k <= |fs| && Offset(fs, k) == offset && SpotAt(fs, phase, k, intra, pos)
    ensures k < |fs| ==> intra <= |fs[k].data|
    ensures var s := StreamSpan(v, phase, offset, intra, budget, acc);
      && (s.Stuck? <==> SomeSplit(fs, phase, k, intra, budget))
      && (s.Eof? <==> !v.active && EndsWithin(fs, phase, k, intra, budget))
  {
    hide Committed, Walk, SomeSplit, EndsWithin;
    TextWalk(fs, v, phase, offset, intra, k, budget, acc, intra);
  }

  /**
   * Exactly when a text page fails, from any cursor the log issued and for any records: the first
   * walk meets a record from which no text can be formed, or stdout ends within the budget and the
   * walk over stderr meets one with the bytes left.
   */
  lemma TextPageFails(fs: seq<Frame>, v: View, c: Cursor, m: nat) returns (k: nat)
    requires Committed(v, fs) && v.text && CursorOk(fs, c) && m > 0
    ensures Decoded(c) && k <= |fs| && Offset(fs, k) == c.offset && (k < |fs| ==> c.intra <= |fs[k].data|)
    ensures PageOf(v, c, m).Err? <==> PageSplits(fs, v.active, c, m, k)
  {
    hide Committed, EncodeAll, Payload, SomeSplit, EndsWithin, StreamSpan, Joined;
    var pos := if c.phase == 1 then c.logical else c.logical - |Payload(fs, 1)|;
    k :| k <= |fs| && Offset(fs, k) == c.offset && SpotAt(fs, c.phase, k, c.intra, pos);
    StreamOfText(fs, v, c.phase, c.offset, c.intra, k, m, [], pos);
    if c.phase == 1 {
      var first := StreamSpan(v, 1, c.offset, c.intra, m, []);
      if first.Eof? {
        BehindStdout(fs, v, c, m, first);
      }
    }
  }

  lemma FirstSpot(fs: seq<Frame>)
    ensures SpotAt(fs, 2, 0, 0, 0) && Offset(fs, 0) == 0
  {
    assert fs[..0] == [];
  }

  lemma BehindStdout(fs: seq<Frame>, v: View, c: Cursor, m: nat, first: Span)
    requires Committed(v, fs) && v.text && CursorOk(fs, c) && Decoded(c) && m > 0 && c.phase == 1
    requires first == StreamSpan(v, 1, c.offset, c.intra, m, []) && first.Eof?
    ensures var left := m - (|Payload(fs, 1)| - c.logical);
      && left > 0 && left == m - |Joined(first.pieces)|
      && (StreamSpan(v, 2, 0, 0, left, first.pieces).Stuck? <==> SomeSplit(fs, 2, 0, 0, left))
  {
    hide Committed, EncodeAll, Payload, SomeSplit, EndsWithin, StreamSpan, Joined, Spot, Offset, SpotAt;
    var left := m - (|Payload(fs, 1)| - c.logical);
    NothingJoined();
    EmptyIsWellMade(true);
    SpanShape(v, 1, c.offset, c.intra, m, []);
    StreamDelivers(fs, v, 1, c.offset, c.intra, m, [], c.logical);
    FirstSpot(fs);
    StreamOfText(fs, v, 2, 0, 0, 0, left, first.pieces, 0);
  }

  /** A record of one byte, then a record that is one two-byte character. */
  const SHORT_THEN_WIDE := [Frame(1, [0x61]), Frame(1, [0xC3, 0xA9])]

  lemma WideIsSplit()
    ensures SomeSplit(SHORT_THEN_WIDE, 1, 0, 0, 2)
  {
    var fs := SHORT_THEN_WIDE;
    assert fs[0..1] == [fs[0]] && RestOf(fs, 0, 0, 0) == fs[0].data && RestOf(fs, 0, 0, 1) == fs[1].data;
    assert Payload([fs[0]], 1) == [0x61] + Payload([], 1);
    assert Utf8.Valid(fs[0].data) && Utf8.Valid(fs[1].data);
    UnformableText(fs[1].data, 1);
    assert SplitsAt(fs, 1, 0, 0, 1, 2);
  }

  /** Valid text, and yet no page of two bytes can be formed. */
  lemma TextPageCanFail(v: View)
    requires Committed(v, SHORT_THEN_WIDE) && v.text
    ensures PageOf(v, Cursor(1, 0, 0, 0), 2) == Err(NoUtf8Boundary)
  {
    var fs, c := SHORT_THEN_WIDE, Cursor(1, 0, 0, 0);
    FirstCursorOk(fs);
    assert fs[..0] == [] && fs[..1] == [fs[0]] && fs[..2] == fs;
    WideIsSplit();
    hide Committed, Payload, SomeSplit, Walk, PageIs, CursorOk;
    var k := TextPageFails(fs, v, c, 2);
    assert k == 0;
    PageDelivers(fs, v, c, 2);
  }
}
