/**
 * What becomes of the bytes of a stream, told by where its newlines are: how the text is cut into
 * pieces, and which record each piece gives.
 */
module Redactions {
  import opened ByteStrings
  import opened OutputStreams

  /**
   * Whole: a line, or the rest of one. Flushed: a long stretch of a line without anything suspicious.
   * Hidden: the rest of a line in which a secret may have begun. Ending: the newline behind it.
   */
  datatype Sort = Whole | Flushed | Hidden | Ending

  /** The bytes of a text from one position up to another. */
  datatype Piece = Piece(sort: Sort, from: nat, to: nat)

  predicate NoNewline(t: Bytes, from: nat, to: nat)
    requires to <= |t|
  {
    forall j :: from <= j < to ==> t[j] != 10
  }

  /** The pieces lie side by side and cover the first `n` bytes. */
  predicate Covers(t: Bytes, ps: seq<Piece>, n: nat) {
    && n <= |t| && (forall i :: 0 <= i < |ps| ==> ps[i].from < ps[i].to <= n)
    && (forall i, j :: 0 <= i < |ps| && j == i + 1 && j < |ps| ==> ps[i].to == ps[j].from)
    && (if ps == [] then n == 0 else ps[0].from == 0 && ps[|ps| - 1].to == n)
  }

  /** More than 65,536 bytes of a line, which may hold a secret. */
  predicate Suspicious(r: Redactor, t: Bytes, from: nat, to: nat) {
    from + 65536 < to <= |t| && NoNewline(t, from, to) && r.mayContainSecret(t[from..to])
  }

  /** A line ends with its newline or with the text. */
  predicate IsLine(t: Bytes, p: Piece)
    requires p.from < p.to <= |t|
  {
    NoNewline(t, p.from, p.to - 1) && (t[p.to - 1] == 10 || p.to == |t|)
  }

  /** With the 4,096 bytes behind it more than 65,536 bytes of one line, and no secret in all of them. */
  predicate IsClean(r: Redactor, t: Bytes, p: Piece)
    requires p.from < p.to <= |t|
  {
    && p.to + 4096 <= |t| && p.from + 65536 < p.to + 4096 && NoNewline(t, p.from, p.to + 4096)
    && !r.mayContainSecret(t[p.from..p.to + 4096])
  }

  ghost predicate IsHidden(r: Redactor, t: Bytes, p: Piece)
    requires p.from < p.to <= |t|
  {
    NoNewline(t, p.from, p.to) && exists m: nat :: m <= p.to && Suspicious(r, t, p.from, m)
  }

  /** Why a piece may be what it is. */
  ghost predicate Justified(r: Redactor, t: Bytes, ps: seq<Piece>, i: nat)
    requires i < |ps| && ps[i].from < ps[i].to <= |t|
  {
    var p := ps[i];
    match p.sort
    case Whole => IsLine(t, p)
    case Flushed => IsClean(r, t, p)
    case Hidden => IsHidden(r, t, p) && (p.to == |t| || (i + 1 < |ps| && ps[i + 1].sort == Ending))
    case Ending => p.to == p.from + 1 && t[p.from] == 10 && i > 0 && ps[i - 1].sort == Hidden
  }

  ghost predicate CutOf(r: Redactor, t: Bytes, ps: seq<Piece>, n: nat) {
    Covers(t, ps, n) && forall i :: 0 <= i < |ps| ==> Justified(r, t, ps, i)
  }

  predicate Begins(r: Redactor, t: Bytes, p: Piece) {
    p.sort == Whole && p.from < p.to <= |t| && r.beginsKey(t[p.from..p.to])
  }

  predicate Ends(r: Redactor, t: Bytes, p: Piece) {
    p.sort == Whole && p.from < p.to <= |t| && r.endsKey(t[p.from..p.to])
  }

  /** Piece `i` lies in a key block: one begins before it, and no line in between ends it. */
  ghost predicate Inside(r: Redactor, t: Bytes, ps: seq<Piece>, i: nat)
    requires i <= |ps|
    decreases i
  {
    exists b ::
      && 0 <= b < i && Begins(r, t, ps[b]) && !Inside(r, t, ps, b)
      && forall j :: b < j < i ==> !Ends(r, t, ps[j])
  }

  /** The record of one piece, a line outside of every key block or no line at all. */
  predicate RecordIs(r: Redactor, t: Bytes, p: Piece, record: Bytes)
    requires p.from < p.to <= |t|
  {
    match p.sort
    case Whole => record == if r.beginsKey(t[p.from..p.to]) then r.keyMark else r.redact(t[p.from..p.to])
    case Flushed => record == r.redact(t[p.from..p.to])
    case Hidden => record == r.oversizedMark
    case Ending => record == [10]
  }

  /** A line inside a key block gives no record. */
  ghost predicate Silent(r: Redactor, t: Bytes, ps: seq<Piece>, i: nat)
    requires i < |ps|
  {
    ps[i].sort == Whole && Inside(r, t, ps, i)
  }

  predicate Increasing(a: seq<nat>) { forall i, j :: 0 <= i < j < |a| ==> a[i] < a[j] }

  /** The places of the pieces that give a record: all but the lines inside a key block. */
  ghost predicate Giving(r: Redactor, t: Bytes, ps: seq<Piece>, places: seq<nat>) {
    && Increasing(places)
    && (forall k :: 0 <= k < |places| ==> places[k] < |ps| && !Silent(r, t, ps, places[k]))
    && (forall i :: 0 <= i < |ps| && !Silent(r, t, ps, i) ==> i in places)
  }

  /** One record for each piece that gives one, in their order. */
  ghost predicate RecordsAt(r: Redactor, t: Bytes, ps: seq<Piece>, places: seq<nat>, out: seq<Bytes>)
    requires forall i :: 0 <= i < |ps| ==> ps[i].from < ps[i].to <= |t|
  {
    && Giving(r, t, ps, places) && |out| == |places|
    && forall k :: 0 <= k < |places| ==> RecordIs(r, t, ps[places[k]], out[k])
  }

  // ---- One more piece ----

  function EndOf(ps: seq<Piece>): nat { if ps == [] then 0 else ps[|ps| - 1].to }

  /** A line opens a key block when none is open, and closes it; nothing else does. */
  lemma InsideNext(r: Redactor, t: Bytes, ps: seq<Piece>, i: nat)
    requires i < |ps|
    ensures Inside(r, t, ps, i + 1) <==> if Inside(r, t, ps, i) then !Ends(r, t, ps[i]) else Begins(r, t, ps[i])
  {
    hide Begins, Ends;
    if Inside(r, t, ps, i) && !Ends(r, t, ps[i]) {
      var b :| 0 <= b < i && Begins(r, t, ps[b]) && !Inside(r, t, ps, b)
        && forall j :: b < j < i ==> !Ends(r, t, ps[j]);
      assert forall j :: b < j < i + 1 ==> !Ends(r, t, ps[j]);
    }
  }

  lemma {:induction false} InsideBefore(r: Redactor, t: Bytes, ps: seq<Piece>, more: seq<Piece>, i: nat)
    requires i <= |ps|
    ensures Inside(r, t, ps + more, i) == Inside(r, t, ps, i)
  {
    hide Inside, Begins, Ends;
    if i == 0 {
      OutsideAtFirst(r, t, ps);
      OutsideAtFirst(r, t, ps + more);
    } else {
      InsideBefore(r, t, ps, more, i - 1);
      InsideNext(r, t, ps, i - 1);
      InsideNext(r, t, ps + more, i - 1);
    }
  }

  lemma OutsideAtFirst(r: Redactor, t: Bytes, ps: seq<Piece>)
    ensures !Inside(r, t, ps, 0)
  {
  }

  lemma JustifiedStill(r: Redactor, t: Bytes, ps: seq<Piece>, more: seq<Piece>, i: nat)
    requires i < |ps| && ps[i].from < ps[i].to <= |t| && Justified(r, t, ps, i)
    ensures Justified(r, t, ps + more, i)
  {
    hide IsLine, IsClean, IsHidden;
  }

  lemma SilentStill(r: Redactor, t: Bytes, ps: seq<Piece>, p: Piece)
    ensures forall i :: 0 <= i < |ps| ==> Silent(r, t, ps + [p], i) == Silent(r, t, ps, i)
    ensures Silent(r, t, ps + [p], |ps|) <==> p.sort == Whole && Inside(r, t, ps, |ps|)
  {
    hide Inside;
    forall i | 0 <= i <= |ps|
      ensures Inside(r, t, ps + [p], i) == Inside(r, t, ps, i)
    {
      InsideBefore(r, t, ps, [p], i);
    }
  }

  lemma AddPlace(r: Redactor, t: Bytes, ps: seq<Piece>, places: seq<nat>, p: Piece)
    requires Giving(r, t, ps, places)
    ensures Giving(r, t, ps + [p], if Silent(r, t, ps + [p], |ps|) then places else places + [|ps|])
  {
    hide Silent;
    SilentStill(r, t, ps, p);
    var more := places + [|ps|];
    assert more[|places|] in more && forall i :: i in places ==> i in more;
  }

  /** One more piece, and its record unless it is a line inside a key block. */
  lemma AddPiece(
    r: Redactor, t: Bytes, ps: seq<Piece>, places: seq<nat>, out: seq<Bytes>, p: Piece, record: Bytes, silent: bool)
    requires Covers(t, ps, EndOf(ps)) && RecordsAt(r, t, ps, places, out)
    requires p.from == EndOf(ps) < p.to <= |t| && (silent <==> p.sort == Whole && Inside(r, t, ps, |ps|))
    requires !silent ==> RecordIs(r, t, p, record)
    ensures Covers(t, ps + [p], p.to) && EndOf(ps + [p]) == p.to
    ensures var placesNow := if silent then places else places + [|ps|];
      RecordsAt(r, t, ps + [p], placesNow, if silent then out else out + [record])
  {
    hide RecordIs, Inside, Silent, Giving;
    SilentStill(r, t, ps, p);
    AddPlace(r, t, ps, places, p);
    PlacesFit(r, t, ps, places);
  }

  lemma PlacesFit(r: Redactor, t: Bytes, ps: seq<Piece>, places: seq<nat>)
    requires Giving(r, t, ps, places)
    ensures forall k :: 0 <= k < |places| ==> places[k] < |ps|
  {
    hide Silent;
  }

  // ---- A capture that is reading ----

  /** The rest of a line is held back: its mark is out, and no piece stands for it yet. */
  ghost predicate Hiding(r: Redactor, t: Bytes, ps: seq<Piece>, places: seq<nat>, out: seq<Bytes>, to: nat, n: nat)
    requires to <= n <= |t| && Covers(t, ps, EndOf(ps))
  {
    && NoNewline(t, EndOf(ps), to) && (exists m: nat :: m <= n && Suspicious(r, t, EndOf(ps), m))
    && out != [] && out[|out| - 1] == r.oversizedMark && RecordsAt(r, t, ps, places, out[..|out| - 1])
  }

  /** The capture has seen `n` bytes of the text, and `ps` covers all that is decided. */
  ghost predicate Reading(r: Redactor, t: Bytes, ps: seq<Piece>, places: seq<nat>, s: Stage, n: nat) {
    && CutOf(r, t, ps, EndOf(ps)) && EndOf(ps) + |s.pending| <= n <= |t|
    && s.pending == t[n - |s.pending|..n] && (s.privateKey <==> Inside(r, t, ps, |ps|))
    && if s.oversized then Hiding(r, t, ps, places, s.out, n - |s.pending|, n)
       else EndOf(ps) + |s.pending| == n && RecordsAt(r, t, ps, places, s.out)
  }

  lemma CutMore(r: Redactor, t: Bytes, ps: seq<Piece>, more: seq<Piece>)
    requires CutOf(r, t, ps, EndOf(ps)) && Covers(t, ps + more, EndOf(ps + more))
    requires forall i :: |ps| <= i < |ps + more| ==> Justified(r, t, ps + more, i)
    ensures CutOf(r, t, ps + more, EndOf(ps + more))
  {
    hide Justified;
    forall i | 0 <= i < |ps|
      ensures Justified(r, t, ps + more, i)
    {
      JustifiedStill(r, t, ps, more, i);
    }
  }

  /** A line becomes a piece, when it is complete or when the text ends. */
  lemma LineIsPiece(
    r: Redactor, t: Bytes, ps: seq<Piece>, places: seq<nat>, s: Stage, to: nat)
    returns (more: seq<nat>)
    requires CutOf(r, t, ps, EndOf(ps)) && RecordsAt(r, t, ps, places, s.out)
    requires s.privateKey <==> Inside(r, t, ps, |ps|)
    requires EndOf(ps) < to <= |t| && IsLine(t, Piece(Whole, EndOf(ps), to))
    ensures var p, after := Piece(Whole, EndOf(ps), to), EmitLine(r, s, t[EndOf(ps)..to]);
      && CutOf(r, t, ps + [p], to) && EndOf(ps + [p]) == to && RecordsAt(r, t, ps + [p], more, after.out)
      && (after.privateKey <==> Inside(r, t, ps + [p], |ps + [p]|))
  {
    hide RecordsAt, Inside, CutOf, IsLine, Covers;
    var p, line := Piece(Whole, EndOf(ps), to), t[EndOf(ps)..to];
    var record := if r.beginsKey(line) then r.keyMark else r.redact(line);
    CoversCut(r, t, ps);
    AddPiece(r, t, ps, places, s.out, p, record, s.privateKey);
    CutMore(r, t, ps, [p]);
    more := if s.privateKey then places else places + [|ps|];
    InsideNext(r, t, ps + [p], |ps|);
    InsideBefore(r, t, ps, [p], |ps|);
  }

  lemma CoversCut(r: Redactor, t: Bytes, ps: seq<Piece>)
    requires CutOf(r, t, ps, EndOf(ps))
    ensures Covers(t, ps, EndOf(ps)) && EndOf(ps) <= |t|
  {
    hide Justified;
  }

  /** Past the newline of a line that was held back. */
  lemma HiddenIsPieces(r: Redactor, t: Bytes, ps: seq<Piece>, places: seq<nat>, out: seq<Bytes>, q: nat)
    returns (more: seq<nat>)
    requires q < |t| && t[q] == 10 && CutOf(r, t, ps, EndOf(ps)) && Hiding(r, t, ps, places, out, q, q)
    ensures var qs := ps + [Piece(Hidden, EndOf(ps), q), Piece(Ending, q, q + 1)];
      && CutOf(r, t, qs, q + 1) && EndOf(qs) == q + 1 && RecordsAt(r, t, qs, more, out + [[10]])
      && Inside(r, t, qs, |qs|) == Inside(r, t, ps, |ps|)
  {
    hide RecordsAt, Inside, Covers, Suspicious;
    var p, e, last := Piece(Hidden, EndOf(ps), q), Piece(Ending, q, q + 1), |out| - 1;
    var m: nat :| m <= q && Suspicious(r, t, EndOf(ps), m);
    LongStretch(r, t, EndOf(ps), m);
    AddPiece(r, t, ps, places, out[..last], p, r.oversizedMark, false);
    assert out[..last] + [r.oversizedMark] == out;
    AddPiece(r, t, ps + [p], places + [|ps|], out, e, [10], false);
    more := places + [|ps|] + [|ps| + 1];
    assert ps + [p] + [e] == ps + [p, e];
    CutMore(r, t, ps, [p, e]);
    InsideNext(r, t, ps + [p, e], |ps| + 1);
    InsideNext(r, t, ps + [p, e], |ps|);
    InsideBefore(r, t, ps, [p, e], |ps|);
  }

  lemma LongStretch(r: Redactor, t: Bytes, from: nat, to: nat)
    requires Suspicious(r, t, from, to)
    ensures from + 65536 < to <= |t| && NoNewline(t, from, to)
  {
  }

  /** The front of a long line that shows nothing suspicious. */
  lemma FlushIsPiece(r: Redactor, t: Bytes, ps: seq<Piece>, places: seq<nat>, out: seq<Bytes>, to: nat)
    returns (more: seq<nat>)
    requires CutOf(r, t, ps, EndOf(ps)) && RecordsAt(r, t, ps, places, out)
    requires EndOf(ps) < to <= |t| && IsClean(r, t, Piece(Flushed, EndOf(ps), to))
    ensures var qs := ps + [Piece(Flushed, EndOf(ps), to)];
      && CutOf(r, t, qs, to) && EndOf(qs) == to && RecordsAt(r, t, qs, more, out + [r.redact(t[EndOf(ps)..to])])
      && Inside(r, t, qs, |qs|) == Inside(r, t, ps, |ps|)
  {
    hide RecordsAt, Inside, CutOf, IsClean, Covers;
    var p := Piece(Flushed, EndOf(ps), to);
    CoversCut(r, t, ps);
    AddPiece(r, t, ps, places, out, p, r.redact(t[EndOf(ps)..to]), false);
    CutMore(r, t, ps, [p]);
    more := places + [|ps|];
    InsideNext(r, t, ps + [p], |ps|);
    InsideBefore(r, t, ps, [p], |ps|);
  }

  /** What waits, cut behind its first newline. */
  lemma Waits(t: Bytes, b: Bytes, n: nat, i: nat)
    requires i < |b| <= n <= |t| && b == t[n - |b|..n] && b[i] == 10 && forall j :: 0 <= j < i ==> b[j] != 10
    ensures var from := n - |b|;
      t[from + i] == 10 && NoNewline(t, from, from + i) && b[..i + 1] == t[from..from + i + 1]
      && b[i + 1..] == t[from + i + 1..n]
  {
    var from := n - |b|;
    assert forall j :: from <= j < from + i ==> t[j] == b[j - from];
  }

  /** What was held back ends in front of the newline. */
  lemma HidingUpTo(
    r: Redactor, t: Bytes, ps: seq<Piece>, places: seq<nat>, out: seq<Bytes>, to: nat, n: nat, q: nat)
    requires to <= q < n <= |t| && Covers(t, ps, EndOf(ps)) && EndOf(ps) <= to && Hiding(r, t, ps, places, out, to, n)
    requires t[q] == 10 && NoNewline(t, to, q)
    ensures Hiding(r, t, ps, places, out, q, q)
  {
    hide RecordsAt, Covers, Suspicious;
    var m: nat :| m <= n && Suspicious(r, t, EndOf(ps), m);
    LongStretch(r, t, EndOf(ps), m);
  }

  lemma ReadWhole(r: Redactor, t: Bytes, ps: seq<Piece>, places: seq<nat>, s: Stage, n: nat, i: nat)
    returns (qs: seq<Piece>, more: seq<nat>)
    requires Reading(r, t, ps, places, s, n) && !s.oversized && i < |s.pending| && s.pending[i] == 10
    requires forall j :: 0 <= j < i ==> s.pending[j] != 10
    ensures Reading(r, t, qs, more, TakeLine(r, s, i), n)
  {
    hide RecordsAt, Inside, CutOf, Covers, NoNewline, Hiding;
    var q := n - |s.pending| + i;
    Waits(t, s.pending, n, i);
    CoversCut(r, t, ps);
    more := LineIsPiece(r, t, ps, places, s, q + 1);
    qs := ps + [Piece(Whole, EndOf(ps), q + 1)];
  }

  lemma ReadHidden(r: Redactor, t: Bytes, ps: seq<Piece>, places: seq<nat>, s: Stage, n: nat, i: nat)
    returns (qs: seq<Piece>, more: seq<nat>)
    requires Reading(r, t, ps, places, s, n) && s.oversized && i < |s.pending| && s.pending[i] == 10
    requires forall j :: 0 <= j < i ==> s.pending[j] != 10
    ensures Reading(r, t, qs, more, TakeLine(r, s, i), n)
  {
    hide RecordsAt, Inside, CutOf, Covers, NoNewline, Hiding, EmitLine;
    var q := n - |s.pending| + i;
    Waits(t, s.pending, n, i);
    CoversCut(r, t, ps);
    HidingUpTo(r, t, ps, places, s.out, n - |s.pending|, n, q);
    more := HiddenIsPieces(r, t, ps, places, s.out, q);
    qs := ps + [Piece(Hidden, EndOf(ps), q), Piece(Ending, q, q + 1)];
  }

  lemma ReadLine(r: Redactor, t: Bytes, ps: seq<Piece>, places: seq<nat>, s: Stage, n: nat, i: nat)
    returns (qs: seq<Piece>, more: seq<nat>)
    requires Reading(r, t, ps, places, s, n) && i < |s.pending| && s.pending[i] == 10
    requires forall j :: 0 <= j < i ==> s.pending[j] != 10
    ensures Reading(r, t, qs, more, TakeLine(r, s, i), n)
  {
    hide Reading, TakeLine;
    if s.oversized {
      qs, more := ReadHidden(r, t, ps, places, s, n, i);
    } else {
      qs, more := ReadWhole(r, t, ps, places, s, n, i);
    }
  }

  /** The last 4,096 bytes of what waits without a newline. */
  lemma Overlap(t: Bytes, b: Bytes, n: nat)
    requires MAX_RECORD < |b| <= n <= |t| && b == t[n - |b|..n] && NoNewline(b, 0, |b|)
    ensures b[|b| - OVERLAP..] == t[n - OVERLAP..n] && b[..|b| - OVERLAP] == t[n - |b|..n - OVERLAP]
    ensures NoNewline(t, n - |b|, n)
  {
    var from := n - |b|;
    assert forall j :: from <= j < n ==> t[j] == b[j - from];
  }

  /** A line that is held back goes on. */
  lemma HideOn(r: Redactor, t: Bytes, ps: seq<Piece>, places: seq<nat>, s: Stage, n: nat)
    requires Reading(r, t, ps, places, s, n) && s.oversized && |s.pending| > MAX_RECORD
    requires NoNewline(t, n - |s.pending|, n)
    ensures Reading(r, t, ps, places, s.(pending := t[n - OVERLAP..n]), n)
  {
    hide RecordsAt, Inside, CutOf, Covers, Suspicious;
  }

  /** A long line becomes suspicious. */
  lemma HideFromHere(r: Redactor, t: Bytes, ps: seq<Piece>, places: seq<nat>, s: Stage, n: nat)
    requires Reading(r, t, ps, places, s, n) && !s.oversized && |s.pending| > MAX_RECORD
    requires NoNewline(t, n - |s.pending|, n) && r.mayContainSecret(s.pending)
    ensures Reading(r, t, ps, places, Stage(t[n - OVERLAP..n], s.privateKey, true, s.out + [r.oversizedMark]), n)
  {
    hide RecordsAt, Inside, CutOf, Covers;
    CoversCut(r, t, ps);
    assert Suspicious(r, t, EndOf(ps), n);
    assert (s.out + [r.oversizedMark])[..|s.out|] == s.out;
  }

  lemma FlushOn(r: Redactor, t: Bytes, ps: seq<Piece>, places: seq<nat>, s: Stage, n: nat)
    returns (qs: seq<Piece>, more: seq<nat>)
    requires Reading(r, t, ps, places, s, n) && !s.oversized && |s.pending| > MAX_RECORD
    requires NoNewline(t, n - |s.pending|, n) && !r.mayContainSecret(s.pending)
    ensures Reading(r, t, qs, more,
      s.(pending := t[n - OVERLAP..n], out := s.out + [r.redact(t[n - |s.pending|..n - OVERLAP])]), n)
  {
    hide RecordsAt, Inside, CutOf, Covers;
    CoversCut(r, t, ps);
    var to := n - OVERLAP;
    more := FlushIsPiece(r, t, ps, places, s.out, to);
    qs := ps + [Piece(Flushed, EndOf(ps), to)];
  }

  lemma ReadRest(r: Redactor, t: Bytes, ps: seq<Piece>, places: seq<nat>, s: Stage, n: nat)
    returns (qs: seq<Piece>, more: seq<nat>)
    requires Reading(r, t, ps, places, s, n) && NoNewline(s.pending, 0, |s.pending|)
    ensures Reading(r, t, qs, more, Overflow(r, s), n) && NoNewline(Overflow(r, s).pending, 0, |Overflow(r, s).pending|)
  {
    hide RecordsAt, Inside, CutOf, Hiding;
    qs, more := ps, places;
    if |s.pending| > MAX_RECORD {
      Overlap(t, s.pending, n);
      if s.oversized {
        HideOn(r, t, ps, places, s, n);
      } else if r.mayContainSecret(s.pending) {
        HideFromHere(r, t, ps, places, s, n);
      } else {
        qs, more := FlushOn(r, t, ps, places, s, n);
      }
    }
  }

  /** The loop of Write cuts what waits into pieces and emits their records. */
  lemma {:induction false} ReadAll(r: Redactor, t: Bytes, ps: seq<Piece>, places: seq<nat>, s: Stage, n: nat)
    returns (qs: seq<Piece>, more: seq<nat>)
    requires Reading(r, t, ps, places, s, n)
    ensures Reading(r, t, qs, more, Absorb(r, s), n) && NoNewline(Absorb(r, s).pending, 0, |Absorb(r, s).pending|)
    decreases |s.pending|
  {
    hide Reading, TakeLine;
    var i := NewlineAt(s.pending);
    if i < |s.pending| {
      qs, more := ReadLine(r, t, ps, places, s, n, i);
      qs, more := ReadAll(r, t, qs, more, TakeLine(r, s, i), n);
    } else {
      qs, more := ReadRest(r, t, ps, places, s, n);
    }
  }

  /** One more chunk arrives. */
  lemma ReadMore(r: Redactor, t: Bytes, ps: seq<Piece>, places: seq<nat>, s: Stage, n: nat, data: Bytes)
    requires Reading(r, t, ps, places, s, n) && n + |data| <= |t| && data == t[n..n + |data|]
    ensures Reading(r, t, ps, places, s.(pending := s.pending + data), n + |data|)
  {
    hide RecordsAt, Inside, CutOf, Covers, Suspicious, NoNewline;
    SideBySide(t, n - |s.pending|, n, n + |data|);
  }

  lemma SideBySide(t: Bytes, a: nat, b: nat, c: nat)
    requires a <= b <= c <= |t|
    ensures t[a..b] + t[b..c] == t[a..c]
  {
  }

  lemma {:induction false} ReadChunks(r: Redactor, t: Bytes, chunks: seq<Bytes>)
    returns (ps: seq<Piece>, places: seq<nat>)
    requires Flatten(chunks) <= t
    ensures var s := WriteAll(r, chunks);
      Reading(r, t, ps, places, s, |Flatten(chunks)|) && NoNewline(s.pending, 0, |s.pending|)
  {
    hide Absorb, RecordsAt, Flatten;
    if chunks == [] {
      ps, places := [], [];
      NothingRead(r, t);
    } else {
      var front, last := chunks[..|chunks| - 1], chunks[|chunks| - 1];
      assert chunks == front + [last];
      FlattenLast(front, last);
      ps, places := ReadChunks(r, t, front);
      var s := WriteAll(r, front);
      ReadMore(r, t, ps, places, s, |Flatten(front)|, last);
      ps, places := ReadAll(r, t, ps, places, s.(pending := s.pending + last), |Flatten(chunks)|);
    }
  }

  lemma NothingRead(r: Redactor, t: Bytes)
    ensures Reading(r, t, [], [], FRESH, |Flatten([])|)
  {
  }

  /** Close: the rest of the text is its last line, or held back to the end. */
  lemma ReadEnd(r: Redactor, t: Bytes, ps: seq<Piece>, places: seq<nat>, s: Stage)
    returns (qs: seq<Piece>, more: seq<nat>)
    requires Reading(r, t, ps, places, s, |t|) && NoNewline(s.pending, 0, |s.pending|)
    ensures CutOf(r, t, qs, |t|) && RecordsAt(r, t, qs, more, CloseAll(r, s).out)
  {
    hide RecordsAt, Inside, CutOf, Covers, Suspicious;
    qs, more := ps, places;
    var from := |t| - |s.pending|;
    CoversCut(r, t, ps);
    assert forall j :: from <= j < |t| ==> t[j] == s.pending[j - from];
    if s.oversized {
      more := HiddenToEnd(r, t, ps, places, s.out);
      qs := ps + [Piece(Hidden, EndOf(ps), |t|)];
    } else if s.pending != [] {
      more := LineIsPiece(r, t, ps, places, s, |t|);
      qs := ps + [Piece(Whole, EndOf(ps), |t|)];
    }
  }

  lemma HiddenToEnd(r: Redactor, t: Bytes, ps: seq<Piece>, places: seq<nat>, out: seq<Bytes>) returns (more: seq<nat>)
    requires CutOf(r, t, ps, EndOf(ps)) && Hiding(r, t, ps, places, out, |t|, |t|)
    ensures CutOf(r, t, ps + [Piece(Hidden, EndOf(ps), |t|)], |t|)
    ensures RecordsAt(r, t, ps + [Piece(Hidden, EndOf(ps), |t|)], more, out)
  {
    hide RecordsAt, Inside, Covers, Suspicious;
    var p, last := Piece(Hidden, EndOf(ps), |t|), |out| - 1;
    var m: nat :| m <= |t| && Suspicious(r, t, EndOf(ps), m);
    LongStretch(r, t, EndOf(ps), m);
    AddPiece(r, t, ps, places, out[..last], p, r.oversizedMark, false);
    assert out[..last] + [r.oversizedMark] == out;
    CutMore(r, t, ps, [p]);
    more := places + [|ps|];
  }

  // ---- The records of any output ----

  /** The records of a stream that carried these bytes, in whatever chunks. */
  ghost predicate RecordsOfText(r: Redactor, t: Bytes, out: seq<Bytes>) {
    exists ps, places :: CutOf(r, t, ps, |t|) && RecordsAt(r, t, ps, places, out)
  }

  /**
   * However the output comes in chunks, its text is cut into lines, stretches of long lines that
   * show no secret, and rests of long lines that are held back; every byte belongs to one of them,
   * and the records are theirs.
   */
  lemma AnyOutput(r: Redactor, chunks: seq<Bytes>)
    ensures RecordsOfText(r, Flatten(chunks), CloseAll(r, WriteAll(r, chunks)).out)
  {
    hide Reading, CutOf, RecordsAt, CloseAll, WriteAll;
    var ps, places := ReadChunks(r, Flatten(chunks), chunks);
    ps, places := ReadEnd(r, Flatten(chunks), ps, places, WriteAll(r, chunks));
  }

  /** Whatever holds for the marks, for a newline and for everything redacted holds for every record. */
  lemma NothingElseIsEmitted(r: Redactor, t: Bytes, out: seq<Bytes>, safe: Bytes -> bool)
    requires RecordsOfText(r, t, out) && safe(r.keyMark) && safe(r.oversizedMark) && safe([10])
    requires forall b :: safe(r.redact(b))
    ensures forall k :: 0 <= k < |out| ==> safe(out[k])
  {
    hide Giving, Justified;
    var ps: seq<Piece>, places: seq<nat> :| CutOf(r, t, ps, |t|) && RecordsAt(r, t, ps, places, out);
    PlacesFit(r, t, ps, places);
    assert forall k :: 0 <= k < |out| ==> RecordIs(r, t, ps[places[k]], out[k]);
  }

  // ---- Texts without long lines ----

  /** No line is longer than 65,536 bytes. */
  ghost predicate LinesFit(t: Bytes) {
    forall from: nat, to: nat :: from <= to <= |t| && NoNewline(t, from, to) ==> to - from <= 65536
  }

  lemma StretchInTail(t: Bytes, n: nat, from: nat, to: nat)
    requires n <= from <= to <= |t|
    ensures NoNewline(t, from, to) <==> NoNewline(t[n..], from - n, to - n)
  {
    assert forall j :: from <= j < to ==> t[j] == t[n..][j - n];
    assert forall j :: from - n <= j < to - n ==> t[n..][j] == t[j + n];
  }

  /** Lines fit when the first one does and the others do. */
  lemma FirstLineFits(t: Bytes, n: nat)
    requires n < |t| && t[n] == 10 && NoNewline(t, 0, n)
    ensures LinesFit(t) <==> n <= 65536 && LinesFit(t[n + 1..])
  {
    var rest := t[n + 1..];
    if LinesFit(t) {
      forall from: nat, to: nat | from <= to <= |rest| && NoNewline(rest, from, to)
        ensures to - from <= 65536
      {
        StretchInTail(t, n + 1, n + 1 + from, n + 1 + to);
      }
    }
    if n <= 65536 && LinesFit(rest) {
      forall from: nat, to: nat | from <= to <= |t| && NoNewline(t, from, to)
        ensures to - from <= 65536
      {
        if from > n {
          StretchInTail(t, n + 1, from, to);
        }
      }
    }
  }

  /** The lines of a text fit when each of them, one after the other, is short. */
  lemma {:induction false} ShortLinesFit(t: Bytes)
    ensures ShortLines(t) <==> LinesFit(t)
    decreases |t|
  {
    hide LinesFit;
    var n := NewlineAt(t);
    if n < |t| {
      FirstLineFits(t, n);
      ShortLinesFit(t[n + 1..]);
    } else {
      OneLineFits(t);
    }
  }

  lemma OneLineFits(t: Bytes)
    requires NoNewline(t, 0, |t|)
    ensures LinesFit(t) <==> |t| <= 65536
  {
    assert LinesFit(t) ==> NoNewline(t, 0, |t|);
  }

  /** The pieces are the lines, cut behind every newline and nowhere else. */
  ghost predicate LinesOf(t: Bytes, ps: seq<Piece>) {
    Covers(t, ps, |t|) && forall i :: 0 <= i < |ps| ==> ps[i].sort == Whole && IsLine(t, ps[i])
  }

  /** The records of a text, read line by line. */
  ghost predicate LineRecords(r: Redactor, t: Bytes, out: seq<Bytes>) {
    exists ps, places :: LinesOf(t, ps) && RecordsAt(r, t, ps, places, out)
  }

  /** Without long lines there is nothing but lines. */
  lemma OnlyLines(r: Redactor, t: Bytes, out: seq<Bytes>)
    requires RecordsOfText(r, t, out) && LinesFit(t)
    ensures LineRecords(r, t, out)
  {
    hide RecordsAt, IsLine, LinesFit, Justified;
    var ps: seq<Piece>, places: seq<nat> :| CutOf(r, t, ps, |t|) && RecordsAt(r, t, ps, places, out);
    forall i | 0 <= i < |ps|
      ensures ps[i].sort == Whole && IsLine(t, ps[i])
    {
      PieceIsLine(r, t, ps, i);
    }
  }

  lemma HiddenIsLong(r: Redactor, t: Bytes, p: Piece)
    requires p.from < p.to <= |t| && IsHidden(r, t, p)
    ensures !LinesFit(t)
  {
    var m: nat :| m <= p.to && Suspicious(r, t, p.from, m);
    LongStretch(r, t, p.from, m);
  }

  lemma NothingLong(r: Redactor, t: Bytes, p: Piece)
    requires LinesFit(t) && p.from < p.to <= |t|
    ensures !IsHidden(r, t, p) && !IsClean(r, t, p)
  {
    if IsHidden(r, t, p) {
      HiddenIsLong(r, t, p);
    }
  }

  lemma PieceIsLine(r: Redactor, t: Bytes, ps: seq<Piece>, i: nat)
    requires LinesFit(t) && CutOf(r, t, ps, |t|) && i < |ps|
    ensures ps[i].sort == Whole && IsLine(t, ps[i])
  {
    hide IsHidden, IsClean, IsLine, LinesFit;
    assert Justified(r, t, ps, i);
    NothingLong(r, t, ps[i]);
    if ps[i].sort == Ending {
      assert Justified(r, t, ps, i - 1);
      NothingLong(r, t, ps[i - 1]);
    }
  }

  /** A text has one list of lines. */
  lemma {:induction false} SameLines(t: Bytes, ps: seq<Piece>, qs: seq<Piece>, i: nat)
    requires LinesOf(t, ps) && LinesOf(t, qs) && i <= |ps|
    ensures i <= |qs| && ps[..i] == qs[..i]
  {
    if i > 0 {
      SameLines(t, ps, qs, i - 1);
      var p := ps[i - 1];
      assert i >= 2 ==> ps[i - 2] == ps[..i - 1][i - 2] == qs[..i - 1][i - 2] == qs[i - 2];
      assert i >= 2 ==> ps[i - 2].to == ps[i - 1].from;
      assert i - 1 < |qs|;
      var q := qs[i - 1];
      assert p.from == q.from;
      assert p.to == q.to;
      assert ps[..i] == ps[..i - 1] + [p] && qs[..i] == qs[..i - 1] + [q];
    }
  }

  /** Two increasing lists with a common beginning: what one has next, the other has no later. */
  lemma NextPlace(a: seq<nat>, b: seq<nat>, k: nat)
    requires Increasing(a) && Increasing(b) && k < |a| && k <= |b| && a[..k] == b[..k]
    requires forall x :: x in a ==> x in b
    ensures k < |b| && b[k] <= a[k]
  {
    assert forall i :: 0 <= i < k ==> b[i] == b[..k][i] == a[..k][i] == a[i];
    assert a[k] in b;
    var i: nat :| i < |b| && b[i] == a[k];
    assert i >= k;
  }

  lemma {:induction false} SamePlaces(a: seq<nat>, b: seq<nat>, k: nat)
    requires Increasing(a) && Increasing(b) && k <= |a|
    requires (forall x :: x in a ==> x in b) && (forall x :: x in b ==> x in a)
    ensures k <= |b| && a[..k] == b[..k]
    decreases k
  {
    if k > 0 {
      SamePlaces(a, b, k - 1);
      NextPlace(a, b, k - 1);
      NextPlace(b, a, k - 1);
      assert a[..k] == a[..k - 1] + [a[k - 1]] && b[..k] == b[..k - 1] + [b[k - 1]];
    }
  }

  lemma OnePlacing(r: Redactor, t: Bytes, ps: seq<Piece>, a: seq<nat>, b: seq<nat>)
    requires Giving(r, t, ps, a) && Giving(r, t, ps, b)
    ensures a == b
  {
    hide Silent;
    assert forall x :: x in a ==> x in b;
    assert forall x :: x in b ==> x in a;
    SamePlaces(a, b, |a|);
    SamePlaces(b, a, |b|);
  }

  /** A text read line by line has one list of records. */
  lemma LineRecordsAreUnique(r: Redactor, t: Bytes, out: seq<Bytes>, other: seq<Bytes>)
    requires LineRecords(r, t, out) && LineRecords(r, t, other)
    ensures out == other
  {
    hide Giving, IsLine;
    var ps: seq<Piece>, places: seq<nat> :| LinesOf(t, ps) && RecordsAt(r, t, ps, places, out);
    var qs: seq<Piece>, others: seq<nat> :| LinesOf(t, qs) && RecordsAt(r, t, qs, others, other);
    SameLines(t, ps, qs, |ps|);
    SameLines(t, qs, ps, |qs|);
    assert ps == qs;
    OnePlacing(r, t, ps, places, others);
    PlacesFit(r, t, ps, places);
  }

  // ---- What that means for key blocks ----

  /** In a text that begins no key block the records are the lines, each of them redacted. */
  lemma PlainText(r: Redactor, t: Bytes, ps: seq<Piece>, places: seq<nat>, out: seq<Bytes>)
    requires LinesOf(t, ps) && RecordsAt(r, t, ps, places, out)
    requires forall i :: 0 <= i < |ps| ==> !r.beginsKey(t[ps[i].from..ps[i].to])
    ensures |out| == |ps| && forall i :: 0 <= i < |ps| ==> out[i] == r.redact(t[ps[i].from..ps[i].to])
  {
    hide Giving, IsLine;
    var all := seq(|ps|, (i: nat) => i);
    AllGive(r, t, ps, all);
    OnePlacing(r, t, ps, places, all);
    assert forall i :: 0 <= i < |ps| ==> RecordIs(r, t, ps[places[i]], out[i]);
  }

  lemma AllGive(r: Redactor, t: Bytes, ps: seq<Piece>, all: seq<nat>)
    requires forall i :: 0 <= i < |ps| ==> !Begins(r, t, ps[i])
    requires |all| == |ps| && forall i :: 0 <= i < |ps| ==> all[i] == i
    ensures Giving(r, t, ps, all)
  {
    hide Begins;
    forall i | 0 <= i < |ps|
      ensures i in all
    {
      assert all[i] == i;
    }
  }

  /**
   * A key block from its first line up to the line that ends it: its first line gives the mark,
   * the others nothing, and what stands behind is outside.
   */
  lemma BlockGivesOneMark(
    r: Redactor, t: Bytes, ps: seq<Piece>, places: seq<nat>, out: seq<Bytes>, b: nat, e: nat)
    requires LinesOf(t, ps) && RecordsAt(r, t, ps, places, out)
    requires b < e < |ps| && b in places && r.beginsKey(t[ps[b].from..ps[b].to])
    requires r.endsKey(t[ps[e].from..ps[e].to])
    requires forall j :: b < j < e ==> !r.endsKey(t[ps[j].from..ps[j].to])
    ensures exists k :: 0 <= k < |places| && places[k] == b && out[k] == r.keyMark
    ensures forall j :: b < j <= e ==> j !in places
    ensures !Inside(r, t, ps, e + 1)
  {
    hide IsLine;
    var k :| 0 <= k < |places| && places[k] == b;
    assert !Silent(r, t, ps, b) && RecordIs(r, t, ps[places[k]], out[k]);
    forall j | b < j <= e
      ensures Silent(r, t, ps, j)
    {
      assert Begins(r, t, ps[b]);
    }
    InsideNext(r, t, ps, e);
  }
}
