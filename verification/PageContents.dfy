/** What a page holds, in terms of the frames the writer committed. */
module PageContents {
  import opened Wrappers
  import opened ByteStrings
  import opened Frames
  import opened Pager
  import Utf8

  /** The reader's view of a log whose committed part is exactly `fs`; bytes behind it may be a write in flight. */
  predicate Committed(v: View, fs: seq<Frame>) {
    EncodeAll(fs) <= v.log && v.end == |EncodeAll(fs)| && Fits(fs, v.limit) && v.limit < INT64_LIMIT
  }

  /** The pieces of one stream, in order: the "records" payload filtered by its labels. */
  function Of(ps: seq<Piece>, stream: Byte): Bytes {
    if ps == [] then [] else (if ps[0].stream == stream then ps[0].data else []) + Of(ps[1..], stream)
  }

  lemma {:induction false} OfAppend(a: seq<Piece>, b: seq<Piece>, stream: Byte)
    ensures Of(a + b, stream) == Of(a, stream) + Of(b, stream)
  {
    if a == [] {
      assert a + b == b;
    } else {
      assert (a + b)[1..] == a[1..] + b;
      OfAppend(a[1..], b, stream);
    }
  }

  lemma OfPiece(ps: seq<Piece>, phase: Byte, data: Bytes, stream: Byte)
    ensures Of(ps + PieceOf(phase, data), stream) == Of(ps, stream) + if phase == stream then data else []
  {
    OfAppend(ps, PieceOf(phase, data), stream);
    if data != [] {
      assert [Piece(phase, data)][1..] == [];
    }
  }

  /** Frame `k`, `i` bytes into its payload, is where `pos` payload bytes of the stream lie behind the reader. */
  predicate SpotAt(fs: seq<Frame>, phase: Byte, k: nat, i: int, pos: int)
    requires k <= |fs|
  {
    0 <= i && (i > 0 ==> k < |fs| && fs[k].stream == phase && i < |fs[k].data|) && pos == |Payload(fs[..k], phase)| + i
  }

  /** A file offset and an intra-frame offset that name such a place. */
  ghost predicate Spot(fs: seq<Frame>, phase: Byte, offset: int, i: int, pos: int) {
    exists k: nat {:trigger Offset(fs, k)} :: k <= |fs| && Offset(fs, k) == offset && SpotAt(fs, phase, k, i, pos)
  }

  /** A cursor stays good when the writer appends. */
  lemma SpotSurvivesAppend(fs: seq<Frame>, more: seq<Frame>, phase: Byte, offset: int, i: int, pos: int)
    requires Spot(fs, phase, offset, i, pos)
    ensures Spot(fs + more, phase, offset, i, pos)
  {
    var k: nat :| k <= |fs| && Offset(fs, k) == offset && SpotAt(fs, phase, k, i, pos);
    assert (fs + more)[..k] == fs[..k];
    assert Offset(fs + more, k) == offset;
  }

  /** Payload bytes of the stream behind the end of frame `k`. */
  lemma PayloadAt(fs: seq<Frame>, phase: Byte, k: nat)
    requires k < |fs| && fs[k].stream == phase
    ensures var p := |Payload(fs[..k], phase)|;
      && p + |fs[k].data| == |Payload(fs[..k + 1], phase)| <= |Payload(fs, phase)|
      && Payload(fs, phase)[p..p + |fs[k].data|] == fs[k].data
  {
    PayloadNext(fs, k, phase);
    PayloadSplitAt(fs, k + 1, phase);
  }

  /** A part of a frame's payload is a part of the stream. */
  lemma PartOfFrame(fs: seq<Frame>, phase: Byte, k: nat, from: nat, to: nat)
    requires k < |fs| && fs[k].stream == phase && from <= to <= |fs[k].data|
    ensures var p := |Payload(fs[..k], phase)|;
      && p + to <= |Payload(fs, phase)|
      && Payload(fs, phase)[p + from..p + to] == fs[k].data[from..to]
  {
    PayloadAt(fs, phase, k);
    var p, all := |Payload(fs[..k], phase)|, Payload(fs, phase);
    hide Payload;
    SliceOfSlice(all, p, |fs[k].data|, from, to);
  }

  /** `ps` is `acc` and the stretch [from..to] of stream `phase`, labelled with that stream. */
  predicate Added(acc: seq<Piece>, ps: seq<Piece>, fs: seq<Frame>, phase: Byte, from: int, to: int)
    requires 1 <= phase <= 2
  {
    && 0 <= from <= to <= |Payload(fs, phase)|
    && Joined(ps) == Joined(acc) + Payload(fs, phase)[from..to]
    && Of(ps, phase) == Of(acc, phase) + Payload(fs, phase)[from..to]
    && Of(ps, 3 - phase) == Of(acc, 3 - phase)
  }

  /** The bytes of a payload within the budget. */
  function Within(data: Bytes, start: nat, budget: nat): Bytes
    requires start <= |data|
  {
    data[start..start + Min(budget, |data| - start)]
  }

  /** The part of a payload one turn adds to the page. */
  function Taken(data: Bytes, start: nat, budget: nat, text: bool): Bytes
    requires start <= |data|
  {
    Shown(Within(data, start, budget), text)
  }

  lemma TakenIsPart(data: Bytes, start: nat, budget: nat, text: bool)
    requires start <= |data|
    ensures var n := |Taken(data, start, budget, text)|;
      n <= budget && start + n <= |data| && Taken(data, start, budget, text) == data[start..start + n]
    ensures !text ==> |Taken(data, start, budget, text)| == Min(budget, |data| - start)
  {
    var cut := Within(data, start, budget);
    ShownIsPrefix(cut, text);
    var n := |Shown(cut, text)|;
    SliceOfSlice(data, start, |cut|, 0, n);
    hide Utf8.LongestValid, Utf8.Valid;
  }

  /** On committed bytes a turn sees the header of one whole frame. */
  lemma CommittedHeader(fs: seq<Frame>, v: View, phase: Byte, co: nat, ci: nat, k: nat, budget: nat)
    requires Committed(v, fs) && k <= |fs| && budget > 0
    ensures k == |fs| ==> TurnAt(v, phase, co, ci, Offset(fs, k), budget) == End
    ensures k < |fs| ==> Offset(fs, k + 1) == Offset(fs, k) + HEADER + |fs[k].data| <= v.end <= |v.log|
    ensures k < |fs| ==> v.log[Offset(fs, k) + HEADER..Offset(fs, k + 1)] == fs[k].data
    ensures k < |fs| ==>
      TurnAt(v, phase, co, ci, Offset(fs, k), budget) ==
        if fs[k].stream != phase then Skip(Offset(fs, k + 1))
        else PayloadTurn(v, Offset(fs, k), |fs[k].data|, if Offset(fs, k) == co then ci else 0, budget)
  {
    hide EncodeAll, LengthAt, PayloadTurn;
    if k == |fs| {
      assert fs[..k] == fs;
    } else {
      FrameBytes(fs, k);
      FrameAt(fs, k, v.log);
    }
  }

  lemma CommittedPayload(v: View, data: Bytes, here: nat, start: nat, budget: nat)
    requires budget > 0 && start <= |data|
    requires here + HEADER + |data| <= v.end <= |v.log| && v.log[here + HEADER..here + HEADER + |data|] == data
    ensures PayloadTurn(v, here, |data|, start, budget) ==
      Spend(Within(data, start, budget), start, |data|, budget, v.text, here, here + HEADER + |data|)
  {
    hide Spend;
    SliceOfSlice(v.log, here + HEADER, |data|, start, start + Min(budget, |data| - start));
  }

  /**
   * What a walk from place `pos` delivers: it fails only for want of a character boundary, an
   * exhausted walk has delivered the rest of the stream, and a paused one the stretch up to the
   * place it names, the whole budget when bytes need no boundary.
   */
  ghost predicate Delivered(w: Walked, v: View, fs: seq<Frame>, phase: Byte, budget: nat, acc: seq<Piece>, pos: int)
    requires 1 <= phase <= 2
  {
    && (w.Failed? ==> v.text && w.error == NoUtf8Boundary)
    && (!w.Failed? ==>
      var to := pos + |Joined(w.pieces)| - |Joined(acc)|;
      && Added(acc, w.pieces, fs, phase, pos, to)
      && (w.Exhausted? ==> w.physical == v.end && to == |Payload(fs, phase)|)
      && (w.Paused? ==> Spot(fs, phase, w.offset, w.intra, to) && to > pos && (!v.text ==> to == pos + budget)))
  }

  lemma {:induction false} WalkDelivers(
    fs: seq<Frame>, v: View, phase: Byte, co: nat, ci: nat, k: nat, budget: nat, acc: seq<Piece>, pos: int)
    requires Committed(v, fs) && k <= |fs| && budget > 0 && co <= Offset(fs, k) && 1 <= phase <= 2
    requires SpotAt(fs, phase, k, if Offset(fs, k) == co then ci else 0, pos)
    ensures Delivered(Walk(v, phase, co, ci, Offset(fs, k), budget, acc), v, fs, phase, budget, acc, pos)
    decreases |fs| - k, 1
  {
    CommittedHeader(fs, v, phase, co, ci, k, budget);
    if k == |fs| {
      assert fs[..k] == fs;
      hide EncodeAll, TurnAt, Payload, Joined, Of;
      assert Payload(fs, phase)[pos..pos] == [];
    } else if fs[k].stream != phase {
      OffsetsGrow(fs, k, k + 1);
      PayloadNext(fs, k, phase);
      hide EncodeAll, TurnAt, Payload, Joined, Of, Delivered;
      WalkDelivers(fs, v, phase, co, ci, k + 1, budget, acc, pos);
    } else {
      FrameDelivers(fs, v, phase, co, ci, k, budget, acc, pos);
    }
  }

  lemma {:induction false} FrameDelivers(
    fs: seq<Frame>, v: View, phase: Byte, co: nat, ci: nat, k: nat, budget: nat, acc: seq<Piece>, pos: int)
    requires Committed(v, fs) && k < |fs| && budget > 0 && co <= Offset(fs, k) && 1 <= phase <= 2
    requires fs[k].stream == phase
    requires SpotAt(fs, phase, k, if Offset(fs, k) == co then ci else 0, pos)
    ensures Delivered(Walk(v, phase, co, ci, Offset(fs, k), budget, acc), v, fs, phase, budget, acc, pos)
    decreases |fs| - k, 0
  {
    hide Committed, EncodeAll, TurnAt, PayloadTurn, Payload, Joined, Of, Shown, Within, PieceOf, Added, Delivered, Spot;
    var start, data, here, next := if Offset(fs, k) == co then ci else 0, fs[k].data, Offset(fs, k), Offset(fs, k + 1);
    var piece := Taken(data, start, budget, v.text);
    var more, mid := acc + PieceOf(phase, piece), pos + |piece|;
    CommittedHeader(fs, v, phase, co, ci, k, budget);
    CommittedPayload(v, data, here, start, budget);
    FrameAdds(fs, phase, k, start, budget, v.text, acc, pos);
    var turn := Spend(Within(data, start, budget), start, |data|, budget, v.text, here, next);
    var w := Walk(v, phase, co, ci, here, budget, acc);
    if turn.Take? {
      WalkDelivers(fs, v, phase, co, ci, k + 1, budget - |piece|, more, mid);
      DeliveredAfter(w, v, fs, phase, budget, acc, more, pos, mid);
    } else {
      TurnDelivers(turn, v, data, start, budget, fs, phase, k, acc, pos);
    }
  }

  /** A turn that ends the walk delivers its piece and names the next place. */
  lemma TurnDelivers(
    turn: Turn, v: View, data: Bytes, start: nat, budget: nat, fs: seq<Frame>, phase: Byte, k: nat, acc: seq<Piece>,
    pos: int)
    requires k < |fs| && fs[k].stream == phase && data == fs[k].data && SpotAt(fs, phase, k, start, pos)
    requires 1 <= phase <= 2 && budget > 0
    requires turn == Spend(Within(data, start, budget), start, |data|, budget, v.text, Offset(fs, k), Offset(fs, k + 1))
    ensures turn.Bad? ==> Delivered(Failed(turn.error), v, fs, phase, budget, acc, pos)
    ensures turn.Cut? ==>
      Delivered(Paused(turn.offset, turn.intra, acc + PieceOf(phase, turn.piece)), v, fs, phase, budget, acc, pos)
  {
    hide EncodeAll, Payload, Joined, Of, Shown, PieceOf, Added;
    FrameAdds(fs, phase, k, start, budget, v.text, acc, pos);
    if turn.Cut? {
      var mid := pos + |turn.piece|;
      AddedLength(acc, acc + PieceOf(phase, turn.piece), fs, phase, pos, mid);
      assert SpotAt(fs, phase, if turn.intra > 0 then k else k + 1, turn.intra, mid);
    }
  }

  lemma AddedLength(acc: seq<Piece>, ps: seq<Piece>, fs: seq<Frame>, phase: Byte, from: int, to: int)
    requires 1 <= phase <= 2 && Added(acc, ps, fs, phase, from, to)
    ensures |Joined(ps)| == |Joined(acc)| + to - from && 0 <= from <= to
  {
  }

  /** A frame's turn adds its stretch of the stream, and leads to the next place. */
  lemma FrameAdds(fs: seq<Frame>, phase: Byte, k: nat, start: nat, budget: nat, text: bool, acc: seq<Piece>, pos: int)
    requires k < |fs| && fs[k].stream == phase && SpotAt(fs, phase, k, start, pos) && 1 <= phase <= 2
    ensures var piece := Taken(fs[k].data, start, budget, text);
      && Added(acc, acc + PieceOf(phase, piece), fs, phase, pos, pos + |piece|)
      && |piece| <= budget && start + |piece| <= |fs[k].data|
      && (!text ==> |piece| == Min(budget, |fs[k].data| - start))
      && (start + |piece| == |fs[k].data| ==> SpotAt(fs, phase, k + 1, 0, pos + |piece|))
  {
    hide Taken, Added, Payload;
    var piece := Taken(fs[k].data, start, budget, text);
    TakenIsPart(fs[k].data, start, budget, text);
    PartOfFrame(fs, phase, k, start, start + |piece|);
    PayloadNext(fs, k, phase);
    PieceAdds(fs, phase, pos, piece, acc);
  }

  /** A piece that is a stretch of the stream, added to the page. */
  lemma PieceAdds(fs: seq<Frame>, phase: Byte, pos: int, piece: Bytes, acc: seq<Piece>)
    requires 1 <= phase <= 2 && 0 <= pos && pos + |piece| <= |Payload(fs, phase)|
    requires Payload(fs, phase)[pos..pos + |piece|] == piece
    ensures Added(acc, acc + PieceOf(phase, piece), fs, phase, pos, pos + |piece|)
  {
    hide Payload, Joined, Of, PieceOf;
    JoinedPiece(acc, phase, piece);
    OfPiece(acc, phase, piece, phase);
    OfPiece(acc, phase, piece, 3 - phase);
    assert Of(acc, 3 - phase) + [] == Of(acc, 3 - phase);
  }

  lemma AddedTwice(
    acc: seq<Piece>, more: seq<Piece>, ps: seq<Piece>, fs: seq<Frame>, phase: Byte, from: int, mid: int, to: int)
    requires 1 <= phase <= 2 && Added(acc, more, fs, phase, from, mid) && Added(more, ps, fs, phase, mid, to)
    ensures Added(acc, ps, fs, phase, from, to)
  {
    var all := Payload(fs, phase);
    hide Payload, Joined, Of;
    assert all[from..to] == all[from..mid] + all[mid..to];
  }

  lemma DeliveredAfter(
    w: Walked, v: View, fs: seq<Frame>, phase: Byte, budget: nat, acc: seq<Piece>, more: seq<Piece>, pos: int,
    mid: int)
    requires 1 <= phase <= 2 && Added(acc, more, fs, phase, pos, mid) && mid - pos <= budget
    requires Delivered(w, v, fs, phase, budget - (mid - pos), more, mid)
    ensures Delivered(w, v, fs, phase, budget, acc, pos)
  {
    hide Payload, Joined, Of, Added, Spot;
    AddedLength(acc, more, fs, phase, pos, mid);
    if !w.Failed? {
      AddedTwice(acc, more, w.pieces, fs, phase, pos, mid, mid + |Joined(w.pieces)| - |Joined(more)|);
    }
  }

  // ---- Whole pages ----

  /** A cursor this log issued: it names a frame boundary and an offset inside that frame. */
  ghost predicate CursorOk(fs: seq<Frame>, c: Cursor) {
    && 1 <= c.phase <= 2
    && Spot(fs, c.phase, c.offset, c.intra, if c.phase == 1 then c.logical else c.logical - |Payload(fs, 1)|)
  }

  lemma CursorOkDecodes(fs: seq<Frame>, c: Cursor)
    requires CursorOk(fs, c)
    ensures Decoded(c)
  {
  }

  /** The content a reader may see: an active source shows stdout only. */
  function Visible(fs: seq<Frame>, active: bool): Bytes {
    if active then Payload(fs, 1) else Logical(fs)
  }

  /** `raw` is the stretch of the visible content from `from` on, split into its two streams. */
  predicate Stretch(ps: seq<Piece>, fs: seq<Frame>, active: bool, from: int, to: int) {
    var all, stdout := Visible(fs, active), |Payload(fs, 1)|;
    && 0 <= from <= to <= |all| && Joined(ps) == all[from..to]
    && Joined(ps) == Of(ps, 1) + Of(ps, 2) && |Of(ps, 1)| == Min(to, stdout) - Min(from, stdout)
  }

  /** Exactly what a page holds and where the next one starts. */
  ghost predicate PageIs(fs: seq<Frame>, v: View, c: Cursor, maximum: nat, page: Page) {
    var size, all := |Joined(page.pieces)|, |Visible(fs, v.active)|;
    var to := c.logical + size;
    && page.start == c.logical && size <= maximum && WellMade(v.text, page.pieces)
    && if v.active && c.phase == 2 then page.pieces == [] && page.next == Some(c)
       else
         && Stretch(page.pieces, fs, v.active, c.logical, to)
         && (page.next.None? ==> !v.active && to == all)
         && (page.next.Some? ==> CursorOk(fs, page.next.value) && page.next.value.logical == to)
         && (page.next.Some? ==> if v.active then page.next.value.phase == 1 else size > 0)
         && (!v.text ==> size == Min(maximum, all - c.logical))
         && (!v.text && !v.active ==> (page.next.Some? <==> size == maximum))
  }

  ghost predicate SpanIs(span: Span, v: View, fs: seq<Frame>, phase: Byte, budget: nat, acc: seq<Piece>, pos: int)
    requires 1 <= phase <= 2
  {
    && (span.Stuck? ==> v.text && span.error == NoUtf8Boundary)
    && (!span.Stuck? ==>
      var to := pos + |Joined(span.pieces)| - |Joined(acc)|;
      && Added(acc, span.pieces, fs, phase, pos, to)
      && (span.Eof? ==> !v.active && to == |Payload(fs, phase)|)
      && (span.More? ==>
        && span.phase == phase && Spot(fs, phase, span.offset, span.intra, to)
        && (!v.active ==> to > pos)
        && (!v.text ==> to == pos + budget || (v.active && to == |Payload(fs, phase)|))))
  }

  lemma SpotWalk(fs: seq<Frame>, v: View, phase: Byte, offset: nat, intra: nat, budget: nat, acc: seq<Piece>, pos: int)
    requires Committed(v, fs) && budget > 0 && 1 <= phase <= 2 && Spot(fs, phase, offset, intra, pos)
    ensures Delivered(Walk(v, phase, offset, intra, offset, budget, acc), v, fs, phase, budget, acc, pos)
  {
    hide Committed, EncodeAll, Payload, Delivered, Walk;
    var k: nat :| k <= |fs| && Offset(fs, k) == offset && SpotAt(fs, phase, k, intra, pos);
    WalkDelivers(fs, v, phase, offset, intra, k, budget, acc, pos);
  }

  /** One turn of the outer loop from a good place. */
  lemma StreamDelivers(
    fs: seq<Frame>, v: View, phase: Byte, offset: nat, intra: nat, budget: nat, acc: seq<Piece>, pos: int)
    requires Committed(v, fs) && budget > 0 && 1 <= phase <= 2 && Spot(fs, phase, offset, intra, pos)
    ensures SpanIs(StreamSpan(v, phase, offset, intra, budget, acc), v, fs, phase, budget, acc, pos)
  {
    hide Walk, Delivered, SpanIs, Spot;
    var w := Walk(v, phase, offset, intra, offset, budget, acc);
    SpotWalk(fs, v, phase, offset, intra, budget, acc, pos);
    if w.Exhausted? {
      EndSpan(w, fs, v, phase, budget, acc, pos);
    } else {
      OtherSpan(w, fs, v, phase, budget, acc, pos);
    }
  }

  lemma EndSpan(w: Walked, fs: seq<Frame>, v: View, phase: Byte, budget: nat, acc: seq<Piece>, pos: int)
    requires w.Exhausted? && 1 <= phase <= 2 && Committed(v, fs) && Delivered(w, v, fs, phase, budget, acc, pos)
    ensures var span := if v.active then More(phase, w.physical, 0, w.pieces) else Eof(w.pieces);
      SpanIs(span, v, fs, phase, budget, acc, pos)
  {
    hide EncodeAll, Payload, Joined, Added, Spot;
    EndIsSpot(fs, phase);
  }

  lemma OtherSpan(w: Walked, fs: seq<Frame>, v: View, phase: Byte, budget: nat, acc: seq<Piece>, pos: int)
    requires !w.Exhausted? && 1 <= phase <= 2 && Delivered(w, v, fs, phase, budget, acc, pos)
    ensures w.Failed? ==> SpanIs(Stuck(w.error), v, fs, phase, budget, acc, pos)
    ensures w.Paused? ==> SpanIs(More(phase, w.offset, w.intra, w.pieces), v, fs, phase, budget, acc, pos)
  {
    hide Payload, Joined, Added, Spot;
  }

  lemma EndIsSpot(fs: seq<Frame>, phase: Byte)
    ensures Spot(fs, phase, |EncodeAll(fs)|, 0, |Payload(fs, phase)|)
  {
    assert fs[..|fs|] == fs;
    assert SpotAt(fs, phase, |fs|, 0, |Payload(fs, phase)|);
    assert Offset(fs, |fs|) == |EncodeAll(fs)|;
  }

  lemma StartIsSpot(fs: seq<Frame>, phase: Byte)
    ensures Spot(fs, phase, 0, 0, 0)
  {
    assert fs[..0] == [];
    assert SpotAt(fs, phase, 0, 0, 0);
    assert Offset(fs, 0) == 0;
  }

  /** The first page starts at a good cursor. */
  lemma FirstCursorOk(fs: seq<Frame>)
    ensures CursorOk(fs, Cursor(1, 0, 0, 0))
  {
    StartIsSpot(fs, 1);
  }

  /**
   * The contents of every page. A page fails only for want of a character boundary in a text
   * page; every other one is exactly the stretch of stdout ++ stderr that starts where the
   * cursor stands, its records carry the right stream, and its next cursor is good again.
   */
  lemma PageDelivers(fs: seq<Frame>, v: View, c: Cursor, maximum: nat)
    requires Committed(v, fs) && CursorOk(fs, c) && maximum > 0
    ensures Decoded(c)
    ensures match PageOf(v, c, maximum)
      case Err(e) => v.text && e == NoUtf8Boundary
      case Ok(page) => PageIs(fs, v, c, maximum, page)
  {
    hide Committed, Spans, PageIs, CursorOk;
    CursorOkDecodes(fs, c);
    if c.phase == 1 {
      StdoutPage(fs, v, c, maximum);
    } else if v.active {
      IdlePage(fs, v, c, maximum);
    } else {
      StderrPage(fs, v, c, maximum);
    }
  }

  /** An active source has nothing to show behind stdout: the cursor stays. */
  lemma IdlePage(fs: seq<Frame>, v: View, c: Cursor, maximum: nat)
    requires Decoded(c) && c.phase == 2 && v.active && maximum > 0
    ensures PageOf(v, c, maximum).Ok? && PageIs(fs, v, c, maximum, PageOf(v, c, maximum).value)
  {
    hide Of, Visible, CursorOk, Stretch, StreamSpan;
  }

  lemma StderrPage(fs: seq<Frame>, v: View, c: Cursor, maximum: nat)
    requires Committed(v, fs) && CursorOk(fs, c) && Decoded(c) && c.phase == 2 && !v.active && maximum > 0
    ensures var r := PageOf(v, c, maximum);
      if r.Err? then v.text && r.error == NoUtf8Boundary else PageIs(fs, v, c, maximum, r.value)
  {
    hide Committed, StreamSpan, Joined, Payload, Spot, WellMade, PageIs, PageOf, SpanIs;
    NothingJoined();
    EmptyIsWellMade(v.text);
    var pos := c.logical - |Payload(fs, 1)|;
    StreamDelivers(fs, v, 2, c.offset, c.intra, maximum, [], pos);
    SpanShape(v, 2, c.offset, c.intra, maximum, []);
    var span := StreamSpan(v, 2, c.offset, c.intra, maximum, []);
    if span.Stuck? {
      StuckSpan(span, v, fs, 2, maximum, [], pos);
      StuckPage(v, c, maximum);
    } else {
      StderrTail(fs, v, c, maximum, span);
    }
  }

  /** What a span that began with an empty page holds. */
  lemma WholeSpan(span: Span, v: View, fs: seq<Frame>, phase: Byte, budget: nat, pos: int)
    requires !span.Stuck? && 1 <= phase <= 2 && SpanIs(span, v, fs, phase, budget, [], pos)
    ensures var size := |Joined(span.pieces)|;
      && Added([], span.pieces, fs, phase, pos, pos + size)
      && (span.Eof? ==> !v.active && pos + size == |Payload(fs, phase)|)
      && (span.More? ==> span.phase == phase && Spot(fs, phase, span.offset, span.intra, pos + size))
      && (span.More? && !v.active ==> size > 0 && (!v.text ==> size == budget))
  {
    hide Joined, Payload, Spot, Added;
    NothingJoined();
  }

  lemma StderrTail(fs: seq<Frame>, v: View, c: Cursor, maximum: nat, span: Span)
    requires Decoded(c) && c.phase == 2 && !v.active && maximum > 0 && !span.Stuck?
    requires span == Spans(v, c, maximum) && SpanIs(span, v, fs, 2, maximum, [], c.logical - |Payload(fs, 1)|)
    requires |Joined(span.pieces)| <= maximum && WellMade(v.text, span.pieces)
    requires span.Eof? ==> |Joined(span.pieces)| < maximum
    ensures PageOf(v, c, maximum).Ok? && PageIs(fs, v, c, maximum, PageOf(v, c, maximum).value)
  {
    hide Spans, Joined, Payload, Spot, Added, WellMade, PageIs, PageOf, Stretch, Visible, SpanIs, CursorOk;
    var stdout := |Payload(fs, 1)|;
    var from, size := c.logical - stdout, |Joined(span.pieces)|;
    WholeSpan(span, v, fs, 2, maximum, from);
    StderrStretch(fs, span.pieces, from, from + size);
    StretchEnds(span.pieces, fs, v.active, c.logical, c.logical + size);
    if span.More? {
      StderrCursor(fs, span.offset, span.intra, from + size);
    }
    SpanPage(fs, v, c, maximum, span);
  }

  lemma StderrCursor(fs: seq<Frame>, offset: int, intra: int, pos: int)
    requires Spot(fs, 2, offset, intra, pos)
    ensures CursorOk(fs, Cursor(2, offset, intra, |Payload(fs, 1)| + pos))
  {
  }

  lemma StuckSpan(span: Span, v: View, fs: seq<Frame>, phase: Byte, budget: nat, acc: seq<Piece>, pos: int)
    requires span.Stuck? && 1 <= phase <= 2 && SpanIs(span, v, fs, phase, budget, acc, pos)
    ensures v.text && span.error == NoUtf8Boundary
  {
  }

  /** A span with the right contents is the right page. */
  lemma SpanPage(fs: seq<Frame>, v: View, c: Cursor, maximum: nat, span: Span)
    requires Decoded(c) && maximum > 0 && span == Spans(v, c, maximum) && !span.Stuck? && (v.active ==> c.phase == 1)
    requires |Joined(span.pieces)| <= maximum && WellMade(v.text, span.pieces)
    requires var to, all := c.logical + |Joined(span.pieces)|, |Visible(fs, v.active)|;
      && Stretch(span.pieces, fs, v.active, c.logical, to)
      && (span.Eof? ==> !v.active && to == all && to < c.logical + maximum)
      && (span.More? ==> CursorOk(fs, Cursor(span.phase, span.offset, span.intra, to)) && to <= all)
      && (span.More? ==> if v.active then span.phase == 1 else to > c.logical)
      && (span.More? && !v.text ==> to == c.logical + maximum || (v.active && to == all))
    ensures PageOf(v, c, maximum).Ok? && PageIs(fs, v, c, maximum, PageOf(v, c, maximum).value)
  {
    hide Spans, Joined, WellMade, Visible, Stretch, CursorOk;
  }

  lemma StuckPage(v: View, c: Cursor, maximum: nat)
    requires Decoded(c) && maximum > 0 && Spans(v, c, maximum).Stuck?
    ensures PageOf(v, c, maximum) == Err(Spans(v, c, maximum).error)
  {
    hide Spans;
  }

  lemma EmptyIsWellMade(text: bool)
    ensures WellMade(text, [])
  {
  }

  lemma StderrStretch(fs: seq<Frame>, ps: seq<Piece>, from: int, to: int)
    requires Added([], ps, fs, 2, from, to)
    ensures var stdout := |Payload(fs, 1)|;
      Stretch(ps, fs, false, stdout + from, stdout + to) && |Visible(fs, false)| == stdout + |Payload(fs, 2)|
  {
    assert Joined([]) == [] && Of([], 1) == [] && Of([], 2) == [];
    var stdout, stderr := Payload(fs, 1), Payload(fs, 2);
    hide Joined, Of, Payload;
    SliceBehind(stdout, stderr, from, to);
    assert Joined(ps) == stderr[from..to] && Of(ps, 1) == [] && Of(ps, 2) == stderr[from..to];
    hide Added;
  }

  lemma StdoutStretch(fs: seq<Frame>, ps: seq<Piece>, active: bool, from: int, to: int)
    requires Added([], ps, fs, 1, from, to)
    ensures Stretch(ps, fs, active, from, to)
    ensures |Visible(fs, active)| == |Payload(fs, 1)| + if active then 0 else |Payload(fs, 2)|
  {
    assert Joined([]) == [] && Of([], 1) == [] && Of([], 2) == [];
    var stdout, stderr := Payload(fs, 1), Payload(fs, 2);
    hide Joined, Of, Payload;
    SliceOfConcat(stdout, stderr, from, to);
  }

  lemma CrossingStretch(fs: seq<Frame>, first: seq<Piece>, ps: seq<Piece>, from: int, to: int)
    requires Added([], first, fs, 1, from, |Payload(fs, 1)|) && Added(first, ps, fs, 2, 0, to)
    ensures var stdout := |Payload(fs, 1)|;
      Stretch(ps, fs, false, from, stdout + to) && |Visible(fs, false)| == stdout + |Payload(fs, 2)|
  {
    assert Joined([]) == [] && Of([], 1) == [] && Of([], 2) == [];
    var stdout, stderr := Payload(fs, 1), Payload(fs, 2);
    hide Joined, Of, Payload;
    assert Joined(first) == Of(first, 1) == stdout[from..|stdout|] && Of(first, 2) == [];
    assert Joined(ps) == stdout[from..|stdout|] + stderr[0..to] && Of(ps, 1) == stdout[from..|stdout|]
      && Of(ps, 2) == stderr[0..to];
    hide Added;
    SliceAcross(stdout, stderr, from, to);
  }

  /** A page that starts in stdout. */
  lemma StdoutPage(fs: seq<Frame>, v: View, c: Cursor, maximum: nat)
    requires Committed(v, fs) && CursorOk(fs, c) && Decoded(c) && c.phase == 1 && maximum > 0
    ensures var r := PageOf(v, c, maximum);
      if r.Err? then v.text && r.error == NoUtf8Boundary else PageIs(fs, v, c, maximum, r.value)
  {
    hide Committed, StreamSpan, Joined, Payload, Spot, Added, WellMade, PageIs, PageOf;
    NothingJoined();
    EmptyIsWellMade(v.text);
    StreamDelivers(fs, v, 1, c.offset, c.intra, maximum, [], c.logical);
    SpanShape(v, 1, c.offset, c.intra, maximum, []);
    var span := StreamSpan(v, 1, c.offset, c.intra, maximum, []);
    if span.Eof? {
      CrossingPage(fs, v, c, maximum, span.pieces);
    } else if span.More? {
      StoppedPage(fs, v, c, maximum, span);
    } else {
      StuckPage(v, c, maximum);
    }
  }

  /** A page that ends in stdout. */
  lemma StoppedPage(fs: seq<Frame>, v: View, c: Cursor, maximum: nat, span: Span)
    requires Decoded(c) && c.phase == 1 && maximum > 0 && span.More?
    requires span == StreamSpan(v, 1, c.offset, c.intra, maximum, []) && SpanIs(span, v, fs, 1, maximum, [], c.logical)
    requires |Joined(span.pieces)| <= maximum && WellMade(v.text, span.pieces)
    ensures PageOf(v, c, maximum).Ok? && PageIs(fs, v, c, maximum, PageOf(v, c, maximum).value)
  {
    hide StreamSpan, Joined, Payload, Spot, Added, WellMade, PageIs, PageOf, Stretch, Visible, SpanIs;
    var to := c.logical + |Joined(span.pieces)|;
    StoppedSpan(span, v, fs, maximum, c.logical);
    StdoutStretch(fs, span.pieces, v.active, c.logical, to);
    StretchEnds(span.pieces, fs, v.active, c.logical, to);
    SpanPage(fs, v, c, maximum, span);
  }

  lemma StoppedSpan(span: Span, v: View, fs: seq<Frame>, maximum: nat, pos: int)
    requires span.More? && SpanIs(span, v, fs, 1, maximum, [], pos)
    ensures var size := |Joined(span.pieces)|;
      && Added([], span.pieces, fs, 1, pos, pos + size) && span.phase == 1
      && Spot(fs, 1, span.offset, span.intra, pos + size)
      && (!v.active ==> size > 0) && (!v.text ==> size == maximum || (v.active && pos + size == |Payload(fs, 1)|))
  {
    hide Joined, Payload, Spot, Added;
    NothingJoined();
  }

  lemma StretchEnds(ps: seq<Piece>, fs: seq<Frame>, active: bool, from: int, to: int)
    requires Stretch(ps, fs, active, from, to)
    ensures to <= |Visible(fs, active)|
  {
    hide Joined, Of, Visible, Payload;
  }

  /** A page that takes the rest of stdout and goes on into stderr. */
  lemma CrossingPage(fs: seq<Frame>, v: View, c: Cursor, maximum: nat, first: seq<Piece>)
    requires Committed(v, fs) && Decoded(c) && c.phase == 1 && maximum > 0 && !v.active
    requires StreamSpan(v, 1, c.offset, c.intra, maximum, []) == Eof(first) && WellMade(v.text, first)
    requires |Joined(first)| == |Payload(fs, 1)| - c.logical < maximum
    requires Added([], first, fs, 1, c.logical, |Payload(fs, 1)|)
    ensures var r := PageOf(v, c, maximum);
      if r.Err? then v.text && r.error == NoUtf8Boundary else PageIs(fs, v, c, maximum, r.value)
  {
    hide Committed, StreamSpan, Joined, Payload, Spot, Added, WellMade, PageIs, PageOf, SpanIs;
    StartIsSpot(fs, 2);
    var left := maximum - |Joined(first)|;
    StreamDelivers(fs, v, 2, 0, 0, left, first, 0);
    SpanShape(v, 2, 0, 0, left, first);
    var span := StreamSpan(v, 2, 0, 0, left, first);
    if span.Stuck? {
      StuckSpan(span, v, fs, 2, left, first, 0);
      StuckPage(v, c, maximum);
    } else {
      CrossingTail(fs, v, c, maximum, first, span);
    }
  }

  lemma CrossingTail(fs: seq<Frame>, v: View, c: Cursor, maximum: nat, first: seq<Piece>, span: Span)
    requires Decoded(c) && c.phase == 1 && maximum > 0 && !v.active && !span.Stuck? && span == Spans(v, c, maximum)
    requires |Joined(first)| == |Payload(fs, 1)| - c.logical < maximum
    requires Added([], first, fs, 1, c.logical, |Payload(fs, 1)|)
    requires SpanIs(span, v, fs, 2, maximum - |Joined(first)|, first, 0)
    requires |Joined(span.pieces)| <= maximum && WellMade(v.text, span.pieces)
    requires span.Eof? ==> |Joined(span.pieces)| < maximum
    ensures PageOf(v, c, maximum).Ok? && PageIs(fs, v, c, maximum, PageOf(v, c, maximum).value)
  {
    hide Spans, Joined, Payload, Spot, Added, WellMade, PageIs, PageOf, Stretch, Visible;
    CrossingStretch(fs, first, span.pieces, c.logical, |Joined(span.pieces)| - |Joined(first)|);
    StretchEnds(span.pieces, fs, v.active, c.logical, c.logical + |Joined(span.pieces)|);
    SpanPage(fs, v, c, maximum, span);
  }
}
