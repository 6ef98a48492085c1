/** The two streams of a command at the same time: their emits, half by half, in any interleaving. */
module Interleavings {
  import opened ByteStrings
  import opened Frames
  import opened OutputStreams
  import opened Redactions
  import opened ArtifactStores
  import opened OutputStore
  import opened CommandRuns

  /** Half an emit of one stream: the record goes into the log, or its copy into the companion. */
  datatype Turn =
    | Mirror(stream: Byte, data: Bytes)
    | Copy(stream: Byte)

  /** Whether a stream is in the middle of an emit behind these turns. */
  predicate Busy(turns: seq<Turn>, stream: Byte) {
    if turns == [] then false
    else
      var last := turns[|turns| - 1];
      if last.stream == stream then last.Mirror? else Busy(turns[..|turns| - 1], stream)
  }

  /** Each stream takes its own turns in order, and both come to the end of their last emit. */
  ghost predicate Orderly(turns: seq<Turn>) {
    && (forall i {:trigger turns[i]} :: 0 <= i < |turns| ==>
      1 <= turns[i].stream <= 2 && (turns[i].Mirror? <==> !Busy(turns[..i], turns[i].stream)))
    && !Busy(turns, 1) && !Busy(turns, 2)
  }

  /** What one stream emits in these turns. */
  function RecordsIn(turns: seq<Turn>, stream: Byte): seq<Bytes> {
    if turns == [] then []
    else
      var front, last := RecordsIn(turns[..|turns| - 1], stream), turns[|turns| - 1];
      if last.Mirror? && last.stream == stream then front + [last.data] else front
  }

  lemma OneMoreTurn(turns: seq<Turn>, i: nat, stream: Byte)
    requires i < |turns|
    ensures turns[i].stream != stream ==>
      RecordsIn(turns[..i + 1], stream) == RecordsIn(turns[..i], stream)
      && Busy(turns[..i + 1], stream) == Busy(turns[..i], stream)
    ensures turns[i].stream == stream ==> Busy(turns[..i + 1], stream) == turns[i].Mirror?
    ensures turns[i] == Copy(stream) ==> RecordsIn(turns[..i + 1], stream) == RecordsIn(turns[..i], stream)
    ensures turns[i].Mirror? && turns[i].stream == stream ==>
      RecordsIn(turns[..i + 1], stream) == RecordsIn(turns[..i], stream) + [turns[i].data]
  {
    assert turns[..i + 1][..i] == turns[..i];
  }

  lemma {:induction false} RecordsGrow(turns: seq<Turn>, i: nat, stream: Byte)
    requires i <= |turns|
    ensures RecordsIn(turns[..i], stream) <= RecordsIn(turns, stream)
    decreases |turns| - i
  {
    if i == |turns| {
      assert turns[..i] == turns;
    } else {
      RecordsGrow(turns, i + 1, stream);
      OneMoreTurn(turns, i, stream);
      if turns[i].stream == stream && turns[i].Copy? {
        assert turns[i] == Copy(stream);
      }
    }
  }

  /** Where a stream stands behind these turns, unless it failed: then it takes no more of them. */
  ghost predicate Stands(c: StreamCapture, turns: seq<Turn>, failed: bool)
    reads c
  {
    if failed then !c.healthy && c.copying.None?
    else c.healthy && c.Mirrored() == RecordsIn(turns, c.stream) && (c.copying.Some? <==> Busy(turns, c.stream))
  }

  /** A turn finds room when all of them do. */
  lemma RoomForTurn(capture: CommandCapture, turns: seq<Turn>, i: nat)
    requires i < |turns| && turns[i].Mirror? && Orderly(turns) && capture.Sound()
    requires Stands(capture.Of(turns[i].stream), turns[..i], false)
    requires Stands(capture.Beyond(turns[i].stream), turns[..i], false)
    ensures capture.RoomFor(RecordsIn(turns, 1), RecordsIn(turns, 2)) ==>
      capture.RoomWith(turns[i].stream, capture.Of(turns[i].stream).records + [turns[i].data])
  {
    hide RecordsIn, Busy, CommandCapture.RoomFor, StreamCapture.Ready, StreamCapture.Agrees, CommandCapture.Accounted;
    var s := turns[i].stream;
    OneMoreTurn(turns, i, s);
    RecordsGrow(turns, i + 1, s);
    RecordsGrow(turns, i, 3 - s);
    if s == 1 {
      capture.LessRoom(RecordsIn(turns, 1), RecordsIn(turns, 2), RecordsIn(turns[..i + 1], 1),
        RecordsIn(turns[..i], 2));
    } else {
      capture.LessRoom(RecordsIn(turns, 1), RecordsIn(turns, 2), RecordsIn(turns[..i], 1),
        RecordsIn(turns[..i + 1], 2));
    }
  }

  lemma StreamsAre(capture: CommandCapture)
    requires capture.Sound()
    ensures capture.stdout != capture.stderr && capture.stdout.stream == 1 && capture.stderr.stream == 2
  {
    hide StreamCapture.Ready, StreamCapture.Agrees;
  }

  /** One turn of one stream; a stream that failed once takes no more turns. */
  method TakeTurn(capture: CommandCapture, turns: seq<Turn>, i: nat, failed: bool) returns (now: bool)
    requires i < |turns| && Orderly(turns) && capture.Sound()
    requires Stands(capture.Of(turns[i].stream), turns[..i], failed)
    modifies capture.Of(turns[i].stream), capture.artifact`position, capture.artifact.store
    ensures capture.Sound() && capture.artifact.store.active == old(capture.artifact.store.active)
    ensures Stands(capture.Of(turns[i].stream), turns[..i + 1], now) && (failed ==> now)
    ensures old(!failed && Stands(capture.Beyond(turns[i].stream), turns[..i], false)) ==>
      old(capture.RoomFor(RecordsIn(turns, 1), RecordsIn(turns, 2))) ==> !now
  {
    hide RecordsIn, Busy, CommandCapture.RoomFor, CommandCapture.RoomWith, CommandCapture.Sound;
    StreamsAre(capture);
    OneMoreTurn(turns, i, turns[i].stream);
    capture.RoomIsCalm(RecordsIn(turns, 1), RecordsIn(turns, 2));
    if failed {
      return true;
    }
    if Stands(capture.Beyond(turns[i].stream), turns[..i], false) && turns[i].Mirror? {
      RoomForTurn(capture, turns, i);
    }
    var ok;
    match turns[i] {
      case Mirror(stream, data) => ok := capture.Mirror(stream, data);
      case Copy(stream) => ok := capture.Copy(stream);
    }
    now := !ok;
  }

  /** All turns of both streams. */
  method PlayTurns(capture: CommandCapture, turns: seq<Turn>) returns (ok: bool)
    requires Orderly(turns) && capture.Sound() && Stands(capture.stdout, [], false) && Stands(capture.stderr, [], false)
    modifies capture.stdout, capture.stderr, capture.artifact`position, capture.artifact.store
    ensures capture.Sound() && capture.stdout.copying.None? && capture.stderr.copying.None?
    ensures capture.artifact.store.active == old(capture.artifact.store.active)
    ensures ok ==>
      && capture.stdout.healthy && capture.stdout.records == RecordsIn(turns, 1)
      && capture.stderr.healthy && capture.stderr.records == RecordsIn(turns, 2)
    ensures capture.RoomFor(RecordsIn(turns, 1), RecordsIn(turns, 2)) ==> ok
  {
    hide RecordsIn, Busy, CommandCapture.RoomFor, CommandCapture.Sound;
    StreamsAre(capture);
    var outLost, errLost := false, false;
    assert turns[..0] == [];
    for i := 0 to |turns|
      invariant capture.Sound() && capture.artifact.store.active == old(capture.artifact.store.active)
      invariant Stands(capture.stdout, turns[..i], outLost) && Stands(capture.stderr, turns[..i], errLost)
      invariant capture.RoomFor(RecordsIn(turns, 1), RecordsIn(turns, 2)) ==> !outLost && !errLost
    {
      OneMoreTurn(turns, i, 3 - turns[i].stream);
      if turns[i].stream == 1 {
        outLost := TakeTurn(capture, turns, i, outLost);
      } else {
        errLost := TakeTurn(capture, turns, i, errLost);
      }
    }
    assert turns[..|turns|] == turns;
    ok := !outLost && !errLost;
  }

  /**
   * Both streams are emitted at the same time and the artifact is closed: however their turns were
   * interleaved, it holds the records of stdout, then those of stderr, and nothing goes wrong in a
   * calm environment if and only if both quotas leave room for them.
   */
  method CaptureTurns(capture: CommandCapture, turns: seq<Turn>) returns (ok: bool)
    requires Orderly(turns) && capture.Sound() && Stands(capture.stdout, [], false) && Stands(capture.stderr, [], false)
    requires !capture.artifact.finished
    modifies capture.stdout, capture.stderr, capture.artifact, capture.artifact.store
    ensures capture.artifact.store.Valid()
    ensures ok ==>
      && capture.artifact.id in capture.artifact.store.sealed && capture.artifact.id in capture.artifact.store.logs
      && Logical(capture.artifact.store.logs[capture.artifact.id]) ==
        Flatten(RecordsIn(turns, 1)) + Flatten(RecordsIn(turns, 2))
    ensures ok ==> Affordable(capture.artifact.store, RecordsIn(turns, 1), RecordsIn(turns, 2))
    ensures old(capture.artifact.store.Alone(capture.artifact.id)) ==>
      Affordable(capture.artifact.store, RecordsIn(turns, 1), RecordsIn(turns, 2)) ==> ok
  {
    hide RecordsIn, Busy, Flatten, Logical, Affordable, CommandCapture.RoomFor, CommandCapture.Sound,
      ArtifactStore.Valid;
    capture.RoomIfAffordable(RecordsIn(turns, 1), RecordsIn(turns, 2));
    var whole := PlayTurns(capture, turns);
    ok := capture.CloseArtifact(whole);
  }

  /** The same from the start of the command, on a store that serves others. */
  method CaptureCommand(
    store: ArtifactStore, id: string, limit: int, redactor: Redactor, turns: seq<Turn>, ghost output: seq<Chunk>)
    returns (ok: bool)
    requires store.Valid() && id !in store.artifactUse && id !in store.active && Orderly(turns)
    modifies store
    ensures store.Valid()
    ensures ok ==>
      && id in store.sealed && id in store.logs
      && Logical(store.logs[id]) == Flatten(RecordsIn(turns, 1)) + Flatten(RecordsIn(turns, 2))
    ensures ok && (forall s :: 1 <= s <= 2 ==> RecordsIn(turns, s) == RecordsOf(redactor, output, s)) ==>
      && Redacted(redactor, output, Logical(store.logs[id]))
      && (LinesFit(TextOf(output, 1)) && LinesFit(TextOf(output, 2)) ==>
        RedactedLines(redactor, output, Logical(store.logs[id])))
    ensures ok ==> Affordable(store, RecordsIn(turns, 1), RecordsIn(turns, 2))
    ensures store.calm && old(store.active) == map[] ==>
      Affordable(store, RecordsIn(turns, 1), RecordsIn(turns, 2)) ==> ok
  {
    hide RecordsIn, Busy, Flatten, Logical, Affordable, LinesFit, TextOf, Redacted, RedactedLines, RecordsOf,
      CommandCapture.Sound, ArtifactStore.Consistent, ArtifactStore.Settled;
    RecordsAreLines(redactor, output);
    var started := CommandCapture.Start(store, id, limit, redactor);
    if started.Err? {
      return false;
    }
    NothingEmitted(started.value);
    ok := CaptureTurns(started.value, turns);
  }

  lemma NothingEmitted(capture: CommandCapture)
    requires capture.Valid() && capture.stdout.healthy && capture.stderr.healthy
    requires capture.stdout.records == capture.stderr.records == []
    ensures Stands(capture.stdout, [], false) && Stands(capture.stderr, [], false)
  {
    hide StreamCapture.Ready, StreamCapture.Agrees;
  }
}
