/**
 * Whole runs of one artifact: a writer that appends records and closes, and a reader that
 * follows next_cursor, each page split into the locked sample and the read that comes later.
 */
module PagerRuns {
  import opened Wrappers
  import opened ByteStrings
  import opened Frames
  import opened Pager
  import opened PageContents

  /** The part of readPage under the store's lock: the committed frames and whether the source looked active. */
  datatype Sample = Sample(committed: nat, active: bool)

  /** `cursor` is None once eof was reported. */
  datatype State = State(frames: seq<Frame>, complete: bool, cursor: Option<Cursor>, delivered: Bytes,
    sample: Option<Sample>)

  datatype Event =
    | Append(frame: Frame)
    | Complete
    | Look(active: bool)
    | Deliver(inFlight: Bytes, text: bool, maximum: nat)

  const START := State([], false, Some(Cursor(1, 0, 0, 0)), [], None)

  function ViewOf(limit: int, s: State, e: Event): View
    requires e.Deliver? && s.sample.Some? && s.sample.value.committed <= |s.frames|
  {
    View(EncodeAll(s.frames) + e.inFlight, Offset(s.frames, s.sample.value.committed), limit, e.text,
      s.sample.value.active)
  }

  /**
   * When an event may happen. Records fit the item limit; a source looks inactive only once its
   * completion marker is in place, but may look active at any time, because other readers and
   * companion writes count as activity.
   */
  predicate Enabled(limit: int, s: State, e: Event) {
    match e
    case Append(f) => !s.complete && |f.data| <= limit
    case Complete => !s.complete
    case Look(active) => s.cursor.Some? && s.sample.None? && (active || s.complete)
    case Deliver(_, _, maximum) =>
      s.cursor.Some? && Decoded(s.cursor.value) && s.sample.Some? && s.sample.value.committed <= |s.frames|
        && maximum > 0
  }

  function Step(limit: int, s: State, e: Event): State
    requires Enabled(limit, s, e)
  {
    match e
    case Append(f) => s.(frames := s.frames + [f])
    case Complete => s.(complete := true)
    case Look(active) => s.(sample := Some(Sample(|s.frames|, active)))
    case Deliver(_, _, maximum) =>
      match PageOf(ViewOf(limit, s, e), s.cursor.value, maximum)
      case Err(_) => s.(sample := None)
      case Ok(page) => s.(sample := None, cursor := page.next, delivered := s.delivered + Joined(page.pieces))
  }

  /** `es` is a run from `s` to `t`. */
  predicate Run(limit: int, s: State, es: seq<Event>, t: State)
    decreases es
  {
    if es == [] then s == t else Enabled(limit, s, es[0]) && Run(limit, Step(limit, s, es[0]), es[1..], t)
  }

  /** The bytes a reader may have at this point: only stdout until the artifact is complete. */
  function Readable(s: State): Bytes { Visible(s.frames, !s.complete) }

  ghost predicate Inv(limit: int, s: State) {
    && Fits(s.frames, limit) && s.delivered <= Readable(s)
    && (s.cursor.None? ==> s.complete && s.delivered == Logical(s.frames))
    && (s.cursor.Some? ==>
      |s.delivered| == s.cursor.value.logical && CursorOk(s.frames, s.cursor.value)
        && (s.cursor.value.phase == 2 ==> s.complete))
    && (s.sample.Some? && s.cursor.Some? ==>
      && s.sample.value.committed <= |s.frames|
      && CursorOk(s.frames[..s.sample.value.committed], s.cursor.value)
      && (s.cursor.value.phase == 2 || !s.sample.value.active ==> s.complete && s.sample.value.committed == |s.frames|))
  }

  // ---- Every step keeps the invariant ----

  lemma PayloadGrows(fs: seq<Frame>, n: nat)
    requires n <= |fs|
    ensures Payload(fs[..n], 1) <= Payload(fs, 1) && EncodeAll(fs[..n]) <= EncodeAll(fs)
  {
    PayloadSplitAt(fs, n, 1);
    SplitAt(fs, n);
  }

  lemma CursorSurvivesAppend(fs: seq<Frame>, n: nat, c: Cursor)
    requires n <= |fs| && CursorOk(fs[..n], c) && (c.phase == 1 || n == |fs|)
    ensures CursorOk(fs, c)
  {
    if n == |fs| {
      assert fs[..n] == fs;
    } else {
      assert fs == fs[..n] + fs[n..];
      SpotSurvivesAppend(fs[..n], fs[n..], 1, c.offset, c.intra, c.logical);
    }
  }

  lemma AppendKeeps(limit: int, s: State, f: Frame)
    requires Inv(limit, s) && Enabled(limit, s, Append(f))
    ensures Inv(limit, Step(limit, s, Append(f)))
  {
    var more := s.frames + [f];
    assert more[..|s.frames|] == s.frames;
    PayloadGrows(more, |s.frames|);
    if s.cursor.Some? {
      CursorSurvivesAppend(more, |s.frames|, s.cursor.value);
      if s.sample.Some? {
        var n := s.sample.value.committed;
        assert more[..n] == s.frames[..n];
      }
    }
  }

  lemma LookKeeps(limit: int, s: State, active: bool)
    requires Inv(limit, s) && Enabled(limit, s, Look(active))
    ensures Inv(limit, Step(limit, s, Look(active)))
  {
    hide CursorOk, Payload;
    assert s.frames[..|s.frames|] == s.frames;
  }

  lemma CompleteKeeps(limit: int, s: State)
    requires Inv(limit, s) && Enabled(limit, s, Complete)
    ensures Inv(limit, Step(limit, s, Complete))
  {
    hide CursorOk, Payload;
  }

  /** A stretch of a prefix, behind what was delivered before it. */
  lemma Extends(done: Bytes, seen: Bytes, all: Bytes, to: nat)
    requires done <= all && seen <= all && |done| <= to <= |seen|
    ensures done + seen[|done|..to] <= all && |done + seen[|done|..to]| == to
    ensures to == |all| ==> done + seen[|done|..to] == all
  {
    assert done + seen[|done|..to] == all[..to];
  }

  lemma DeliverKeeps(limit: int, s: State, e: Event)
    requires limit < INT64_LIMIT && Inv(limit, s) && e.Deliver? && Enabled(limit, s, e)
    ensures Inv(limit, Step(limit, s, e))
    ensures var r := PageOf(ViewOf(limit, s, e), s.cursor.value, e.maximum);
      if r.Ok? then r.value.start == |s.delivered| else e.text && r.error == NoUtf8Boundary
  {
    hide Payload, EncodeAll, PageOf, CursorOk, Spot, Joined;
    var n, c, v := s.sample.value.committed, s.cursor.value, ViewOf(limit, s, e);
    var fs := s.frames[..n];
    PayloadGrows(s.frames, n);
    PageDelivers(fs, v, c, e.maximum);
    var r := PageOf(v, c, e.maximum);
    if r.Ok? {
      var page := r.value;
      if n == |s.frames| {
        assert fs == s.frames;
      }
      if page.next.Some? {
        CursorSurvivesAppend(s.frames, n, page.next.value);
      }
      if c.phase == 1 || !v.active {
        Extends(s.delivered, Visible(fs, v.active), Readable(s), c.logical + |Joined(page.pieces)|);
      } else {
        NothingJoined(s.delivered, page);
      }
    }
  }

  /** What the reader has after a page is no more than the log held when the page was begun. */
  lemma DeliveredWasCommitted(limit: int, s: State, e: Event)
    requires limit < INT64_LIMIT && Inv(limit, s) && e.Deliver? && Enabled(limit, s, e)
    ensures var r := PageOf(ViewOf(limit, s, e), s.cursor.value, e.maximum);
      r.Ok? ==> |Step(limit, s, e).delivered| <= |Logical(s.frames[..s.sample.value.committed])|
  {
    hide Payload, EncodeAll, PageOf, Spot, Joined;
    var n, c, v := s.sample.value.committed, s.cursor.value, ViewOf(limit, s, e);
    var fs := s.frames[..n];
    PayloadGrows(s.frames, n);
    PageDelivers(fs, v, c, e.maximum);
    var r := PageOf(v, c, e.maximum);
    if r.Ok? && c.phase == 2 && v.active {
      assert fs == s.frames;
      NothingJoined(s.delivered, r.value);
    } else if r.Ok? {
      assert |Visible(fs, v.active)| <= |Logical(fs)|;
      assert c.logical + |Joined(r.value.pieces)| <= |Visible(fs, v.active)|;
    }
  }

  lemma NothingJoined(done: Bytes, page: Page)
    requires page.pieces == []
    ensures done + Joined(page.pieces) == done
  {
  }

  lemma StepKeeps(limit: int, s: State, e: Event)
    requires limit < INT64_LIMIT && Inv(limit, s) && Enabled(limit, s, e)
    ensures Inv(limit, Step(limit, s, e))
  {
    hide Inv, Step;
    match e
    case Append(f) => AppendKeeps(limit, s, f);
    case Complete => CompleteKeeps(limit, s);
    case Look(active) => LookKeeps(limit, s, active);
    case Deliver(_, _, _) => DeliverKeeps(limit, s, e);
  }

  lemma {:induction false} RunKeeps(limit: int, s: State, es: seq<Event>, t: State)
    requires limit < INT64_LIMIT && Inv(limit, s) && Run(limit, s, es, t)
    ensures Inv(limit, t)
    decreases es
  {
    if es != [] {
      StepKeeps(limit, s, es[0]);
      hide Inv, Enabled, Step;
      RunKeeps(limit, Step(limit, s, es[0]), es[1..], t);
    }
  }

  /**
   * Safety over every run: whatever the interleaving, the successful pages have contiguous
   * ranges and add up to a prefix of stdout ++ stderr, to a prefix of stdout alone while the
   * source is active, and to the whole content once eof was reported.
   */
  lemma PagesAreAPrefix(limit: int, es: seq<Event>, t: State)
    requires limit < INT64_LIMIT && Run(limit, START, es, t)
    ensures t.delivered <= Readable(t) <= Logical(t.frames)
    ensures !t.complete ==> t.delivered <= Payload(t.frames, 1)
    ensures t.cursor.Some? ==> CursorOk(t.frames, t.cursor.value) && t.cursor.value.logical == |t.delivered|
    ensures t.cursor.None? ==> t.complete && t.delivered == Logical(t.frames)
  {
    FirstCursorOk([]);
    RunKeeps(limit, START, es, t);
  }
}
