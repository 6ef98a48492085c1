/**
 * One artifact of a real store, written and read at the same time while the store serves others:
 * its history is a run of `PagerRuns`, so what the reader received is what that run delivers.
 */
module StoreRuns {
  import opened Wrappers
  import opened ByteStrings
  import opened Frames
  import opened Tallies
  import opened Disks
  import opened Pager
  import opened PageContents
  import opened ArtifactStores
  import opened StoreBooks
  import Cursors
  import Runs = PagerRuns

  lemma {:induction false} RunGoesOn(limit: int, s: Runs.State, es: seq<Runs.Event>, t: Runs.State, e: Runs.Event)
    requires Runs.Run(limit, s, es, t) && Runs.Enabled(limit, t, e)
    ensures Runs.Run(limit, s, es + [e], Runs.Step(limit, t, e))
    decreases es
  {
    hide Runs.Enabled, Runs.Step;
    if es == [] {
      assert [e][0] == e && [e][1..] == [];
    } else {
      assert (es + [e])[0] == es[0] && (es + [e])[1..] == es[1..] + [e];
      RunGoesOn(limit, Runs.Step(limit, s, es[0]), es[1..], t, e);
    }
  }

  lemma OffsetKept(fs: seq<Frame>, f: Frame, n: nat)
    requires n <= |fs|
    ensures Offset(fs + [f], n) == Offset(fs, n) && (fs + [f])[..n] == fs[..n]
  {
    assert (fs + [f])[..n] == fs[..n];
  }

  /** What a store does for others in the meantime. */
  datatype Activity =
    | Open(id: string)
    | Append(other: ArtifactWriter, stream: Byte, data: Bytes)
    | Close(other: ArtifactWriter, complete: bool)
    | Companion(id: string, kind: Kind, content: Bytes)
    | Look(id: string)
    | Answer(id: string, payload: string, sample: Sample, cursor: Cursor, maximum: int, now: int)

  /** The writer of one artifact, opened in this session, and a reader that follows next_cursor. */
  class Session {
    const store: ArtifactStore
    const writer: ArtifactWriter
    const crypto: Cursors.Crypto
    const payload: string

    var token: string
    var done: bool
    var looked: Option<Sample>
    var received: Bytes

    ghost var events: seq<Runs.Event>
    ghost var state: Runs.State

    /** What happened so far is a run. */
    ghost predicate Played()
      reads `events, `state
    {
      Runs.Run(store.itemLimit, Runs.START, events, state)
    }

    /** The log is the one of the history, and a marker is in place only when it was completed. */
    ghost predicate Recording()
      reads `state, writer, store`active, store`disk, store`logs, store`owed, store`writing, store`sealed
    {
      var id := writer.id;
      && writer.store == store && id in store.logs && store.logs[id] == state.frames
      && (state.complete <==> id in store.sealed)
      && (Content(store.disk, id, Marker).Some? ==> id in store.sealed)
      && (if writer.finished then id !in store.writing && Get(store.owed, id) == 0 else writer.Open())
    }

    /** What the sample of a page in progress says about the log. */
    ghost predicate Sampled(s: Sample, m: Runs.Sample)
      reads `state, writer`finished
    {
      && m.committed <= |state.frames| && s.end == Offset(state.frames, m.committed)
      && s.size == LogicalSize(state.frames[..m.committed])
      && if s.active then m.active else writer.finished && m.active == !state.complete
    }

    /** The holds of this session on its artifact: the writer's, and the reader's during a page. */
    function Holds(): nat
      reads `looked, writer`finished
    {
      (if writer.finished then 0 else 1) + if looked.Some? then 1 else 0
    }

    /** The reader's token, its page in progress, and what it received. */
    ghost predicate Reading()
      reads `token, `done, `looked, `received, `state, writer`finished, store`active
    {
      && Cursors.Lawful(crypto) && received == state.delivered && (done <==> state.cursor.None?)
      && (!done ==> Cursors.DecodeCursor(crypto, writer.id, payload, token) == Ok(state.cursor.value))
      && (looked.Some? <==> state.sample.Some?)
      && (looked.Some? ==> !done && Sampled(looked.value, state.sample.value))
      && Get(store.active, writer.id) >= Holds()
    }

    ghost predicate Live()
      reads this, writer, store
    {
      store.Valid() && Played() && Recording() && Reading()
    }

    /** The artifact was evicted: closed, not being read, and nothing of it is left. */
    ghost predicate Over()
      reads this, writer, store
    {
      store.Valid() && Played() && writer.finished && looked.None? && NothingLeft(store.Now(), writer.id)
    }

    /** A session begins where create ends. */
    constructor (writer: ArtifactWriter, crypto: Cursors.Crypto, payload: string)
      requires writer.store.Valid() && writer.Open() && writer.store.logs[writer.id] == [] && Cursors.Lawful(crypto)
      ensures Live() && this.writer == writer && this.store == writer.store && events == [] && looked.None? && !done
    {
      hide Content, EncodeAll;
      this.store, this.writer, this.crypto, this.payload := writer.store, writer, crypto, payload;
      token, done, looked, received := "", false, None, [];
      events, state := [], Runs.START;
      new;
    }

    /** One more event, and the state it leads to. */
    ghost method Record(e: Runs.Event)
      requires Played() && Runs.Enabled(store.itemLimit, state, e)
      modifies `events, `state
      ensures Played() && events == old(events) + [e] && state == Runs.Step(store.itemLimit, old(state), e)
    {
      hide Runs.Run, Runs.Enabled, Runs.Step;
      RunGoesOn(store.itemLimit, Runs.START, events, state, e);
      events, state := events + [e], Runs.Step(store.itemLimit, state, e);
    }

    /** A log being written has no marker and no seal. */
    lemma StillOpen()
      requires store.Consistent() && writer.store == store && writer.Open()
      ensures writer.id !in store.sealed && Content(store.disk, writer.id, Marker).None? && writer.id in store.active
    {
      hide Balanced, Logged, EncodeAll, Logical;
    }

    lemma SealShows()
      requires store.Consistent()
      ensures writer.id in store.sealed ==> Content(store.disk, writer.id, Marker).Some?
    {
      hide Balanced, Logged, EncodeAll, Logical;
    }

    /** WriteRecord is `Append`, or nothing. */
    method WriteRecord(stream: Byte, data: Bytes) returns (r: Result<(), StoreError>)
      requires Live() && !writer.finished
      modifies `events, `state, store, writer`position
      ensures Live()
      ensures events == if r.Ok? then old(events) + [Runs.Append(Frame(stream, data))] else old(events)
    {
      hide store.Consistent, Content, EncodeAll, Runs.Run, Played;
      store.WriterSize(writer.id);
      StillOpen();
      if looked.Some? {
        OffsetKept(state.frames, Frame(stream, data), state.sample.value.committed);
      }
      r := writer.WriteRecord(stream, data);
      StillOpen();
      if r.Ok? {
        Record(Runs.Append(Frame(stream, data)));
      }
    }

    /** Finish with a marker is `Complete`; without one nothing can follow. */
    method Finish(complete: bool) returns (r: Result<(), StoreError>)
      requires Live() && !writer.finished && Get(store.owed, writer.id) == 0
      modifies `events, `state, store, writer`fileOpen, writer`finished
      ensures Live() && writer.finished
      ensures events == if complete && r.Ok? then old(events) + [Runs.Complete] else old(events)
    {
      hide store.Consistent, Content, EncodeAll, Played;
      StillOpen();
      r := writer.Finish(complete);
      SealShows();
      if complete && r.Ok? {
        Record(Runs.Complete);
      }
    }

    /** The locked beginning of readPage is `Look`. */
    method BeginPage() returns (ghost active: bool)
      requires Live() && !done && looked.None?
      modifies `events, `state, `looked, store`active
      ensures Live() && looked.Some? && events == old(events) + [Runs.Look(active)]
    {
      hide store.Consistent, Content, EncodeAll, Played;
      store.EndIs(writer.id);
      assert state.frames[..|state.frames|] == state.frames;
      var s := store.BeginRead(writer.id);
      looked := Some(s);
      active := s.active || !state.complete;
      Record(Runs.Look(active));
    }

    /** What the walk of a page in progress looks at is what the run says it looks at. */
    lemma ViewAgrees(maximum: nat) returns (e: Runs.Event)
      requires Live() && looked.Some? && maximum > 0
      ensures e.Deliver? && e.text == (payload != "base64") && e.maximum == maximum
      ensures Runs.Enabled(store.itemLimit, state, e) && Content(store.disk, writer.id, Records).Some?
      ensures store.ViewOf(writer.id, payload, looked.value, Content(store.disk, writer.id, Records).value) ==
        Runs.ViewOf(store.itemLimit, state, e)
    {
      hide store.Consistent, Content, EncodeAll, Played, ArtifactStore.MarkerOf;
      LogInFront();
      MarkerShows();
      Cursors.DecodedIsDecoded(crypto, writer.id, payload, token);
      var file := Content(store.disk, writer.id, Records).value;
      var n := |EncodeAll(state.frames)|;
      assert file == file[..n] + file[n..];
      e := Runs.Deliver(file[n..], payload != "base64", maximum);
    }

    lemma LogInFront()
      requires Live()
      ensures Content(store.disk, writer.id, Records).Some?
      ensures EncodeAll(state.frames) <= Content(store.disk, writer.id, Records).value
    {
      hide Balanced, Total, EncodeAll, LogicalSize, Reading, Played;
    }

    lemma MarkerShows()
      requires Live()
      ensures store.MarkerOf(writer.id).Some? <==> state.complete
    {
      if state.complete {
        store.SealTells(writer.id);
      }
      hide store.Consistent, Reading, Played;
    }

    /** The cursor a run has reached can be encoded. */
    lemma CursorFits()
      requires store.Valid() && Played() && writer.id in store.logs && store.logs[writer.id] == state.frames
      requires state.cursor.Some?
      ensures Cursors.Fits64(state.cursor.value)
    {
      hide store.Consistent, EncodeAll, Runs.Run;
      assert store.itemLimit < INT64_LIMIT by {
        LimitFits();
      }
      Runs.PagesAreAPrefix(store.itemLimit, events, state);
      store.LogFits(writer.id);
      Cursors.GoodCursorFits(state.frames, state.cursor.value);
    }

    lemma LimitFits()
      requires store.Valid()
      ensures store.itemLimit < INT64_LIMIT
    {
      hide Balanced, Logged;
    }

    /** What the answer to a page request means for a reader whose run takes this step. */
    lemma DeliveryIs(e: Runs.Event)
      requires Live() && e.Deliver? && Runs.Enabled(store.itemLimit, state, e)
      ensures var r := PageOf(Runs.ViewOf(store.itemLimit, state, e), state.cursor.value, e.maximum);
        r.Err? ==> e.text && r.error == NoUtf8Boundary
    {
      hide store.Valid, Reading, Recording, Runs.Inv, Runs.Enabled, PageOf, Runs.Run;
      LimitFits();
      FirstCursorOk([]);
      StartKeeps();
      Runs.RunKeeps(store.itemLimit, Runs.START, events, state);
      Runs.DeliverKeeps(store.itemLimit, state, e);
    }

    lemma StartKeeps()
      ensures Runs.Inv(store.itemLimit, Runs.START)
    {
      FirstCursorOk([]);
    }

    /** The reader after a page: the bytes, and the token or the end. */
    method Keep(r: Result<Reply, ReadError>, ghost page: Result<Page, PageError>)
      requires store.Valid() && Played() && Recording() && Cursors.Lawful(crypto)
      requires state.sample.None? && !done && looked.Some?
      requires state.delivered == if page.Ok? then received + Joined(page.value.pieces) else received
      requires if page.Ok? then state.cursor == page.value.next
        else state.cursor.Some? && Cursors.DecodeCursor(crypto, writer.id, payload, token) == Ok(state.cursor.value)
      requires match page
        case Err(e) => r == Err(Unreadable(e))
        case Ok(p) =>
          && r.Ok? && r.value.page == p && (p.next.Some? ==> Decoded(p.next.value))
          && r.value.next ==
            if p.next.Some? then Some(Cursors.EncodeCursor(crypto, writer.id, payload, p.next.value)) else None
      requires Get(store.active, writer.id) >= if writer.finished then 0 else 1
      modifies `token, `done, `looked, `received
      ensures Live() && looked.None? && (r.Ok? ==> (done <==> r.value.next.None?))
      ensures received == if r.Ok? then old(received) + Joined(r.value.page.pieces) else old(received)
    {
      hide store.Valid, Content, EncodeAll, Played, Cursors.Lawful;
      looked := None;
      if r.Ok? {
        received := received + Joined(r.value.page.pieces);
        if r.value.next.Some? {
          token := r.value.next.value;
          CursorFits();
          Cursors.CursorRoundTrip(crypto, writer.id, payload, state.cursor.value);
        } else {
          done := true;
        }
      }
    }

    /** The size a page reports is enough for all the reader has after it. */
    lemma SizeCovers(e: Runs.Event)
      requires Live() && looked.Some? && e.Deliver? && Runs.Enabled(store.itemLimit, state, e)
      ensures var marker := store.MarkerOf(writer.id);
        var size := if marker.Some? then marker.value.size else looked.value.size;
        PageOf(Runs.ViewOf(store.itemLimit, state, e), state.cursor.value, e.maximum).Ok? ==>
          |Runs.Step(store.itemLimit, state, e).delivered| <= size
    {
      hide store.Consistent, Content, EncodeAll, PageOf, Cursors.Lawful, LogicalSize, ArtifactStore.MarkerOf, Runs.Run,
        Payload, CursorOk;
      LimitFits();
      StartKeeps();
      Runs.RunKeeps(store.itemLimit, Runs.START, events, state);
      Runs.DeliveredWasCommitted(store.itemLimit, state, e);
      MarkerShows();
      var n := state.sample.value.committed;
      Cursors.PayloadsFit(state.frames[..n]);
      if state.complete {
        store.SealTells(writer.id);
        Runs.PayloadGrows(state.frames, n);
        PayloadSplitAt(state.frames, n, 2);
      }
    }

    /** The page the reader gets, before it is kept. */
    method Fetch(maximum: int, now: int)
      returns (r: Result<Reply, ReadError>, ghost e: Runs.Event, ghost page: Result<Page, PageError>)
      requires Live() && looked.Some?
      modifies store`disk, store`active
      ensures store.Valid() && Recording()
      ensures Get(store.active, writer.id) >= if writer.finished then 0 else 1
      ensures e.Deliver? && e.text == (payload != "base64") && e.maximum == Clamp(maximum)
      ensures Runs.Enabled(store.itemLimit, state, e)
      ensures page == PageOf(Runs.ViewOf(store.itemLimit, state, e), state.cursor.value, e.maximum)
      ensures page.Err? ==> payload != "base64" && page.error == NoUtf8Boundary
      ensures match page
        case Err(e) => r == Err(Unreadable(e))
        case Ok(p) =>
          && r.Ok? && r.value.page == p && (p.next.Some? ==> Decoded(p.next.value))
          && r.value.next ==
            if p.next.Some? then Some(Cursors.EncodeCursor(crypto, writer.id, payload, p.next.value)) else None
      ensures r.Ok? ==> (r.value.digest.Some? <==> r.value.complete)
      ensures r.Ok? ==> |Runs.Step(store.itemLimit, state, e).delivered| <= r.value.size
    {
      hide store.Consistent, Content, EncodeAll, PageOf, Cursors.Lawful, LogicalSize, Runs.Step, Played, Runs.Enabled;
      e := ViewAgrees(Clamp(maximum));
      DeliveryIs(e);
      page := PageOf(Runs.ViewOf(store.itemLimit, state, e), state.cursor.value, e.maximum);
      var c := Cursors.DecodeCursor(crypto, writer.id, payload, token).value;
      SizeCovers(e);
      r := store.FinishRead(crypto, writer.id, payload, looked.value, c, maximum, now);
    }

    /** The rest of readPage is `Deliver`. */
    method FinishPage(maximum: int, now: int) returns (r: Result<Reply, ReadError>, ghost inFlight: Bytes)
      requires Live() && looked.Some?
      modifies `events, `state, `token, `done, `looked, `received, store`disk, store`active
      ensures Live() && looked.None?
      ensures events == old(events) + [Runs.Deliver(inFlight, payload != "base64", Clamp(maximum))]
      ensures r.Err? ==> r == Err(Unreadable(NoUtf8Boundary)) && payload != "base64" && received == old(received)
      ensures r.Ok? ==> received == old(received) + Joined(r.value.page.pieces) && (done <==> r.value.next.None?)
      ensures r.Ok? ==> |received| <= r.value.size && (r.value.digest.Some? <==> r.value.complete)
    {
      hide store.Consistent, Content, EncodeAll, PageOf, Cursors.Lawful, Cursors.DecodeCursor, Played;
      ghost var e, page;
      r, e, page := Fetch(maximum, now);
      inFlight := e.inFlight;
      Record(e);
      Keep(r, page);
    }

    // ---- Everybody else ----

    /** Whatever leaves a held log alone, and an idle one whole or gone, is nothing to this session. */
    twostate lemma OthersKeep(new held: set<string>, new besides: set<string>)
      requires old(Live()) && store.Valid() && unchanged(`token, `done, `looked, `received, `events, `state)
      requires unchanged(writer`position, writer`fileOpen, writer`finished)
      requires Spared(held, besides, old(store.Now()), store.Now()) && writer.id !in besides
      requires writer.id in old(store.active) ==> writer.id in held
      requires Get(store.owed, writer.id) == Get(old(store.owed), writer.id)
      requires Get(store.active, writer.id) >= Holds()
      ensures Live() || Over()
    {
      hide store.Consistent, Content, EncodeAll, Runs.Run, Cursors.DecodeCursor, Cursors.Lawful, Spared;
      WasSpared(held, besides, old(store.Now()), store.Now(), writer.id);
    }

    twostate lemma OthersKeepBut(new kinds: set<Kind>)
      requires old(Live()) && store.Valid() && unchanged(`token, `done, `looked, `received, `events, `state)
      requires unchanged(writer`position, writer`fileOpen, writer`finished)
      requires Get(store.active, writer.id) >= Holds()
      requires SameBut(old(store.Now()), store.Now(), writer.id, kinds) && Records !in kinds && Marker !in kinds
      requires Get(store.owed, writer.id) == Get(old(store.owed), writer.id)
      ensures Live()
    {
      hide store.Consistent, Content, EncodeAll, Runs.Run, Cursors.DecodeCursor, Cursors.Lawful;
    }

    /** What others may do while they keep to their own holds. */
    ghost predicate Fair(a: Activity)
      reads this, writer, store, if a.Append? || a.Close? then {a.other} else {}
    {
      match a
      case Open(id) => id != writer.id
      case Append(w, _, _) => w.store == store && w.id != writer.id && (w.fileOpen ==> w.Open())
      case Close(w, _) =>
        w.store == store && w.id != writer.id && (!w.finished ==> w.Open() && Get(store.owed, w.id) == 0)
      case Companion(_, kind, _) => kind.Json? || kind.LogsJson?
      case Look(_) => true
      case Answer(id, _, _, cursor, _, _) =>
        && Decoded(cursor) && id in store.active && (id == writer.id ==> store.active[id] > Holds())
        && (store.active[id] == 1 ==> id !in store.writing && Get(store.owed, id) == 0)
    }

    /** Any other call of the store: the session goes on, or its closed artifact was evicted. */
    method Elsewhere(a: Activity)
      requires Live() && Fair(a)
      modifies store, if a.Append? || a.Close? then {a.other} else {}
      ensures Live() || Over()
      ensures state == old(state) && received == old(received)
    {
      hide Live, Over;
      if a.Look? || a.Answer? {
        ReadElsewhere(a);
      } else {
        WriteElsewhere(a);
      }
    }

    method WriteElsewhere(a: Activity)
      requires Live() && Fair(a) && !a.Look? && !a.Answer?
      modifies store, if a.Append? || a.Close? then {a.other} else {}
      ensures Live() || Over()
    {
      hide store.Consistent, Content, EncodeAll, Recording, Played, ArtifactWriter.Open, Sampled, Spared, SameBut,
        Cursors.DecodeCursor, Cursors.Lawful, NothingOwed;
      ghost var held := store.active.Keys;
      match a {
        case Open(id) =>
          var w := store.Create(id);
          OthersKeep(held, {id});
        case Append(w, stream, data) =>
          var r := w.WriteRecord(stream, data);
          OthersKeep(held, {w.id});
        case Close(w, complete) =>
          var r := w.Finish(complete);
          OthersKeep(held, {w.id});
        case Companion(id, kind, content) =>
          var r := store.WriteCompanion(id, kind, content);
          if id == writer.id {
            OthersKeepBut({kind});
          } else {
            OthersKeep(held, {id});
          }
      }
    }

    method ReadElsewhere(a: Activity)
      requires Live() && Fair(a) && (a.Look? || a.Answer?)
      modifies store
      ensures Live() || Over()
    {
      hide store.Consistent, Content, EncodeAll, Recording, Played, Sampled, Spared, Cursors.DecodeCursor,
        Cursors.Lawful, NothingOwed;
      ghost var held := store.active.Keys;
      match a {
        case Look(id) =>
          var s := store.BeginRead(id);
          NothingMoved(held, store.Now());
          FewerHold(old(store.active), store.active, store.owed, id);
          OthersKeep(held, {});
        case Answer(id, payload, s, cursor, maximum, now) =>
          var r := store.FinishRead(crypto, id, payload, s, cursor, maximum, now);
          AnswerSpares(held, old(store.Now()), store.Now(), id);
          FewerHold(old(store.active), store.active, store.owed, id);
          OthersKeep(held, {});
      }
    }

    lemma AnswerSpares(held: set<string>, a: Archive, b: Archive, id: string)
      requires OnlyFiles(a, b, id, {})
      ensures Spared(held, {}, a, b)
    {
      hide Content;
    }

    /**
     * What the reader received is a prefix of the artifact's content as the store holds it, of stdout
     * alone until the artifact is sealed, and all of it once eof was reported.
     */
    lemma ReaderIsSafe()
      requires Live()
      ensures writer.id in store.logs && received <= Logical(store.logs[writer.id])
      ensures writer.id !in store.sealed ==> received <= Payload(store.logs[writer.id], 1)
      ensures done ==> writer.id in store.sealed && received == Logical(store.logs[writer.id])
    {
      hide store.Valid, Runs.Run, EncodeAll, Payload, Content;
      LimitFits();
      Runs.PagesAreAPrefix(store.itemLimit, events, state);
    }
  }
}
