/** One page of an artifact: the two-phase walk of readPage over an interleaved record log. */
module Pager {
  import opened Wrappers
  import opened ByteStrings
  import opened Frames
  import Utf8

  datatype Cursor = Cursor(phase: int, offset: int, intra: int, logical: int)

  /** A run of bytes of one stream; readPage lists these when the payload kind is "records". */
  datatype Piece = Piece(stream: Byte, data: Bytes)

  datatype PageError = InvalidCursor | BadFrameLength | ReadFailed | NoUtf8Boundary

  datatype Page = Page(start: int, pieces: seq<Piece>, next: Option<Cursor>)

  /** What one call of readPage looks at: the file, the committed end it sampled, the payload kind. */
  datatype View = View(log: Bytes, end: int, limit: int, text: bool, active: bool)

  function Joined(pieces: seq<Piece>): Bytes {
    if pieces == [] then [] else pieces[0].data + Joined(pieces[1..])
  }

  lemma NothingJoined()
    ensures Joined([]) == []
  {
  }

  lemma {:induction false} JoinedAppend(a: seq<Piece>, b: seq<Piece>)
    ensures Joined(a + b) == Joined(a) + Joined(b)
  {
    if a == [] {
      assert a + b == b;
    } else {
      assert (a + b)[1..] == a[1..] + b;
      JoinedAppend(a[1..], b);
    }
  }

  function Min(a: int, b: int): int { if a < b then a else b }

  /** io.ReadFull of `n` bytes; reading nothing succeeds anywhere. */
  function Slice(log: Bytes, from: nat, n: nat): Bytes
    requires n == 0 || from + n <= |log|
  {
    if n == 0 then [] else log[from..from + n]
  }

  // ---- The walk over one stream ----

  datatype Walked =
    | Failed(error: PageError)
    | Paused(offset: nat, intra: nat, pieces: seq<Piece>)
    | Exhausted(physical: nat, pieces: seq<Piece>)

  /** An empty read leaves no record. */
  function PieceOf(stream: Byte, data: Bytes): seq<Piece> {
    if data == [] then [] else [Piece(stream, data)]
  }

  lemma JoinedPiece(ps: seq<Piece>, stream: Byte, data: Bytes)
    ensures Joined(ps + PieceOf(stream, data)) == Joined(ps) + data
  {
    JoinedAppend(ps, PieceOf(stream, data));
    if data != [] {
      assert [Piece(stream, data)][1..] == [];
    }
  }

  /** One turn of the inner loop: an error, the end, a frame skipped, a frame taken to its end, or a page boundary. */
  datatype Turn =
    | Bad(error: PageError)
    | End
    | Skip(next: nat)
    | Take(piece: Bytes, next: nat)
    | Cut(piece: Bytes, offset: nat, intra: nat)

  /** The bytes of `cut` a page shows: all of them, or for text those up to a character boundary. */
  function Shown(cut: Bytes, text: bool): Bytes {
    if text then Utf8.LongestValid(cut) else cut
  }

  lemma ShownIsPrefix(cut: Bytes, text: bool)
    ensures |Shown(cut, text)| <= |cut| && Shown(cut, text) == cut[..|Shown(cut, text)|]
    ensures text ==> Utf8.Valid(Shown(cut, text))
  {
    Utf8.LongestValidIsLongest(cut);
  }

  /** The turn after `cut` was read, `start` bytes into a payload of `length` bytes at `here`. */
  function Spend(cut: Bytes, start: nat, length: nat, budget: nat, text: bool, here: nat, next: nat): Turn {
    var piece := Shown(cut, text);
    if piece == [] && cut != [] then Bad(NoUtf8Boundary)
    else if start + |piece| < length then Cut(piece, here, start + |piece|)
    else if |piece| == budget then Cut(piece, next, 0)
    else Take(piece, next)
  }

  /** The part of a turn spent on the payload of a frame of the wanted stream, entered `start` bytes in. */
  function PayloadTurn(v: View, physical: nat, length: nat, start: nat, budget: nat): (t: Turn)
    requires budget > 0 && physical + HEADER + length <= v.end
    ensures t.Take? ==> t.next == physical + HEADER + length && |t.piece| < budget
    ensures !t.Skip? && !t.End?
  {
    var body := physical + HEADER;
    if start > length then Bad(InvalidCursor)
    else
      var take := Min(budget, length - start);
      if take > 0 && body + start + take > |v.log| then Bad(ReadFailed)
      else
        ShownIsPrefix(Slice(v.log, body + start, take), v.text);
        Spend(Slice(v.log, body + start, take), start, length, budget, v.text, physical, body + length)
  }

  /** The turn at file position `physical`; the frame at the cursor's own offset `co` is entered `ci` bytes in. */
  function TurnAt(v: View, phase: Byte, co: nat, ci: nat, physical: nat, budget: nat): (t: Turn)
    requires budget > 0
    ensures t.Skip? || t.Take? ==> physical < t.next <= v.end
    ensures t.Take? ==> |t.piece| < budget
  {
    if physical >= v.end || physical >= |v.log| then End
    else if physical + HEADER > |v.log| then Bad(ReadFailed)
    else
      var length := LengthAt(v.log, physical);
      var body := physical + HEADER;
      if length < 0 || length > v.limit || length > v.end - body then Bad(BadFrameLength)
      else if v.log[physical] != phase then Skip(body + length)
      else PayloadTurn(v, physical, length, if physical == co then ci else 0, budget)
  }

  /**
   * What a turn refuses, on any file: a header cut short, a length out of range or past the committed
   * end, a cursor past the end of its frame, a payload cut short.
   */
  lemma TurnRefuses(v: View, phase: Byte, co: nat, ci: nat, physical: nat, budget: nat)
    requires budget > 0
    ensures var t, start := TurnAt(v, phase, co, ci, physical, budget), if physical == co then ci else 0;
      && (t == End <==> physical >= v.end || physical >= |v.log|)
      && (physical < v.end && physical < |v.log| < physical + 9 ==> t == Bad(ReadFailed))
      && (physical < v.end && physical + 9 <= |v.log| ==>
        var n := Declared(v.log, physical);
        && (t == Bad(BadFrameLength) <==> n >= 0x8000_0000_0000_0000 || n > v.limit || physical + 9 + n > v.end)
        && (t != Bad(BadFrameLength) && v.log[physical] != phase ==> t == Skip(physical + 9 + n))
        && (t == Bad(InvalidCursor) <==> t != Bad(BadFrameLength) && v.log[physical] == phase && start > n)
        && (t == Bad(ReadFailed) <==>
          t != Bad(BadFrameLength) && v.log[physical] == phase && start < n
          && physical + 9 + (if n < start + budget then n else start + budget) > |v.log|))
  {
    hide Utf8.LongestValid, Utf8.Valid, FromBigEndian;
    if physical < v.end && physical + 9 <= |v.log| {
      DeclaredLength(v.log, physical);
    }
  }

  /**
   * The frames of stream `phase` from file position `physical` on, with `budget` bytes left to
   * spend and `acc` already collected.
   */
  function Walk(v: View, phase: Byte, co: nat, ci: nat, physical: nat, budget: nat, acc: seq<Piece>): Walked
    requires budget > 0
    decreases v.end - physical
  {
    match TurnAt(v, phase, co, ci, physical, budget)
    case Bad(e) => Failed(e)
    case End => Exhausted(physical, acc)
    case Skip(next) => Walk(v, phase, co, ci, next, budget, acc)
    case Take(piece, next) => Walk(v, phase, co, ci, next, budget - |piece|, acc + PieceOf(phase, piece))
    case Cut(piece, o, i) => Paused(o, i, acc + PieceOf(phase, piece))
  }

  predicate WellMade(text: bool, ps: seq<Piece>) {
    forall p :: p in ps ==> p.data != [] && (text ==> Utf8.Valid(p.data))
  }

  lemma TurnShape(v: View, phase: Byte, co: nat, ci: nat, physical: nat, budget: nat)
    requires budget > 0
    ensures var t := TurnAt(v, phase, co, ci, physical, budget);
      t.Take? || t.Cut? ==> |t.piece| <= budget && (v.text ==> Utf8.Valid(t.piece))
  {
    hide Utf8.LongestValid, Utf8.Valid, LengthAt;
    if physical < v.end && physical + HEADER <= |v.log| {
      var length, start := LengthAt(v.log, physical), if physical == co then ci else 0;
      if start <= length {
        var take := Min(budget, length - start);
        if take == 0 || physical + HEADER + start + take <= |v.log| {
          ShownIsPrefix(Slice(v.log, physical + HEADER + start, take), v.text);
        }
      }
    }
  }

  /** A walk stays within its budget, and its pieces are whole characters when text is asked for. */
  lemma {:induction false} WalkShape(
    v: View, phase: Byte, co: nat, ci: nat, physical: nat, budget: nat, acc: seq<Piece>)
    requires budget > 0 && WellMade(v.text, acc)
    ensures var w := Walk(v, phase, co, ci, physical, budget, acc);
      && (w.Paused? ==> |Joined(w.pieces)| <= |Joined(acc)| + budget)
      && (w.Exhausted? ==> |Joined(w.pieces)| < |Joined(acc)| + budget)
      && (!w.Failed? ==> WellMade(v.text, w.pieces))
    decreases v.end - physical
  {
    hide TurnAt, Joined, Utf8.Valid;
    TurnShape(v, phase, co, ci, physical, budget);
    match TurnAt(v, phase, co, ci, physical, budget)
    case Bad(_) =>
    case End =>
    case Skip(next) => WalkShape(v, phase, co, ci, next, budget, acc);
    case Take(piece, next) =>
      JoinedPiece(acc, phase, piece);
      WalkShape(v, phase, co, ci, next, budget - |piece|, acc + PieceOf(phase, piece));
    case Cut(piece, _, _) => JoinedPiece(acc, phase, piece);
  }

  // ---- Both streams ----

  datatype Span =
    | Stuck(error: PageError)
    | More(phase: int, offset: int, intra: int, pieces: seq<Piece>)
    | Eof(pieces: seq<Piece>)

  predicate Decoded(c: Cursor) { 1 <= c.phase <= 2 && c.offset >= 0 && c.intra >= 0 && c.logical >= 0 }

  /** One turn of the outer loop: an exhausted stream of an active source is only paused. */
  function StreamSpan(v: View, phase: Byte, co: nat, ci: nat, budget: nat, acc: seq<Piece>): Span
    requires budget > 0
  {
    match Walk(v, phase, co, ci, co, budget, acc)
    case Failed(e) => Stuck(e)
    case Paused(o, i, ps) => More(phase, o, i, ps)
    case Exhausted(p, ps) => if v.active then More(phase, p, 0, ps) else Eof(ps)
  }

  lemma SpanShape(v: View, phase: Byte, co: nat, ci: nat, budget: nat, acc: seq<Piece>)
    requires budget > 0 && WellMade(v.text, acc)
    ensures var s := StreamSpan(v, phase, co, ci, budget, acc);
      && (s.Eof? ==> !v.active && |Joined(s.pieces)| < |Joined(acc)| + budget)
      && (s.More? ==> |Joined(s.pieces)| <= |Joined(acc)| + budget)
      && (!s.Stuck? ==> WellMade(v.text, s.pieces))
  {
    WalkShape(v, phase, co, ci, co, budget, acc);
  }

  /** stdout from the cursor, then stderr; an active source never shows stderr. */
  function Spans(v: View, c: Cursor, budget: nat): Span
    requires Decoded(c) && budget > 0
  {
    if c.phase == 2 then
      if v.active then More(2, c.offset, c.intra, []) else StreamSpan(v, 2, c.offset, c.intra, budget, [])
    else
      var first := StreamSpan(v, 1, c.offset, c.intra, budget, []);
      SpanShape(v, 1, c.offset, c.intra, budget, []);
      if first.Eof? then StreamSpan(v, 2, 0, 0, budget - |Joined(first.pieces)|, first.pieces) else first
  }

  /** The page readPage returns, for any file and any decoded cursor. */
  function PageOf(v: View, c: Cursor, maximum: nat): Result<Page, PageError>
    requires Decoded(c) && maximum > 0
  {
    match Spans(v, c, maximum)
    case Stuck(e) => Err(e)
    case More(p, o, i, ps) => Ok(Page(c.logical, ps, Some(Cursor(p, o, i, c.logical + |Joined(ps)|))))
    case Eof(ps) => Ok(Page(c.logical, ps, None))
  }

  /** A page's next cursor can be encoded. */
  lemma NextDecodes(v: View, c: Cursor, maximum: nat)
    requires Decoded(c) && maximum > 0
    ensures var r := PageOf(v, c, maximum);
      r.Ok? && r.value.next.Some? ==> Decoded(r.value.next.value)
  {
    hide Walk, Joined;
  }

  /** maximum as readPage clamps it. */
  function Clamp(maximum: int): (m: nat)
    ensures 1 <= m <= 0x4_0000 && (1 <= maximum <= 0x4_0000 ==> m == maximum)
    ensures maximum <= 0 ==> m == 0x1_0000
    ensures maximum > 0x4_0000 ==> m == 0x4_0000
  {
    if maximum <= 0 then 64 * 1024 else if maximum > 256 * 1024 then 256 * 1024 else maximum
  }

  /** The byte-by-byte retreat to a UTF-8 boundary. */
  method TrimToValid(piece: Bytes) returns (trimmed: Bytes)
    ensures trimmed == Utf8.LongestValid(piece)
  {
    var validLength := |piece|;
    assert piece[..validLength] == piece;
    while validLength > 0 && !Utf8.Valid(piece[..validLength])
      invariant validLength <= |piece|
      invariant forall i :: validLength < i <= |piece| ==> !Utf8.Valid(piece[..i])
    {
      validLength := validLength - 1;
    }
    trimmed := piece[..validLength];
    Utf8.LongestValidIs(piece, validLength);
  }

  /** Reading the payload of a frame: seek, read, trim, seek past the rest. */
  method ReadPayload(v: View, frameStart: nat, length: nat, start: nat, budget: nat) returns (t: Turn)
    requires budget > 0 && frameStart + HEADER + length <= v.end
    ensures t == PayloadTurn(v, frameStart, length, start, budget)
  {
    hide Utf8.LongestValid, Utf8.Valid;
    if start > length {
      return Bad(InvalidCursor);
    }
    var offset := frameStart + HEADER + start;
    var take := Min(budget, length - start);
    if take > 0 && offset + take > |v.log| {
      return Bad(ReadFailed);
    }
    var cut := Slice(v.log, offset, take);
    var piece := cut;
    offset := offset + take;
    offset := offset + (length - start - take);
    if v.text {
      piece := TrimToValid(cut);
      if piece == [] && cut != [] {
        return Bad(NoUtf8Boundary);
      }
    }
    assert piece == Shown(cut, v.text);
    if start + |piece| < length {
      return Cut(piece, frameStart, start + |piece|);
    }
    if |piece| == budget {
      return Cut(piece, offset, 0);
    }
    return Take(piece, offset);
  }

  /** The body of the inner loop, with the file offset moved by reads and seeks. */
  method ReadFrame(v: View, phase: Byte, co: nat, ci: nat, physical: nat, budget: nat) returns (t: Turn)
    requires budget > 0
    ensures t == TurnAt(v, phase, co, ci, physical, budget)
  {
    hide LengthAt, PayloadTurn;
    var offset := physical;
    if physical >= v.end || offset >= |v.log| {
      return End;
    }
    if offset + HEADER > |v.log| {
      return Bad(ReadFailed);
    }
    var stream, length := v.log[offset], LengthAt(v.log, offset);
    offset := offset + HEADER;
    if length < 0 || length > v.limit || length > v.end - offset {
      return Bad(BadFrameLength);
    }
    if stream != phase {
      offset := offset + length;
      return Skip(offset);
    }
    t := ReadPayload(v, physical, length, if physical == co then ci else 0, budget);
  }

  /** The inner loop over the frames of one stream, and where it leaves the cursor. */
  method WalkFrames(v: View, phase: Byte, co: nat, ci: nat, budget: nat, acc: seq<Piece>) returns (s: Span)
    requires budget > 0
    ensures s == StreamSpan(v, phase, co, ci, budget, acc)
  {
    hide TurnAt, PieceOf;
    var physical, left, pieces := co, budget, acc;
    while true
      invariant left > 0
      invariant Walk(v, phase, co, ci, physical, left, pieces) == Walk(v, phase, co, ci, co, budget, acc)
      decreases v.end - physical
    {
      var turn := ReadFrame(v, phase, co, ci, physical, left);
      match turn {
        case Bad(e) => return Stuck(e);
        case End => return if v.active then More(phase, physical, 0, pieces) else Eof(pieces);
        case Cut(piece, o, i) => return More(phase, o, i, pieces + PieceOf(phase, piece));
        case Skip(next) => physical := next;
        case Take(piece, next) =>
          physical, left, pieces := next, left - |piece|, pieces + PieceOf(phase, piece);
      }
    }
  }

  /** The outer loop over stdout and stderr, and the cursor it leaves behind. */
  method WalkPhases(v: View, cursor: Cursor, maximum: nat) returns (r: Result<Page, PageError>)
    requires Decoded(cursor) && maximum > 0
    ensures r == PageOf(v, cursor, maximum)
  {
    hide StreamSpan, Joined, Utf8.Valid;
    NothingJoined();
    var pieces: seq<Piece>, current, hasMore := [], cursor, false;
    var phaseLimit := if v.active then 1 else 2;
    var phase := cursor.phase;
    while phase <= phaseLimit
      invariant cursor.phase <= phase <= 3 && |Joined(pieces)| < maximum && WellMade(v.text, pieces) && !hasMore
      invariant v.active ==> phase == cursor.phase && current == cursor
      invariant phase == cursor.phase ==> pieces == []
      invariant phase == 2 && cursor.phase == 1 ==>
        StreamSpan(v, 1, cursor.offset, cursor.intra, maximum, []) == Eof(pieces)
      invariant phase == 3 ==> Spans(v, cursor, maximum) == Eof(pieces)
      decreases 3 - phase
    {
      var start := if phase == cursor.phase then cursor.offset else 0;
      var intra := if phase == cursor.phase then cursor.intra else 0;
      SpanShape(v, phase, start, intra, maximum - |Joined(pieces)|, pieces);
      var span := WalkFrames(v, phase, start, intra, maximum - |Joined(pieces)|, pieces);
      if span.Stuck? {
        return Err(span.error);
      }
      pieces := span.pieces;
      if span.More? {
        current := Cursor(span.phase, span.offset, span.intra, cursor.logical + |Joined(pieces)|);
        hasMore := true;
        break;
      }
      current := Cursor(phase + 1, 0, 0, cursor.logical + |Joined(pieces)|);
      phase := phase + 1;
    }
    if v.active {
      hasMore := true;
    }
    r := Ok(Page(cursor.logical, pieces, if hasMore then Some(current) else None));
  }
}
