/**
 * From the bytes a command writes to the bytes a client reads: the capture of a whole command, its
 * sealed artifact, and the pages a client gets by following next_cursor.
 */
module CommandRuns {
  import opened Wrappers
  import opened ByteStrings
  import opened Frames
  import opened Tallies
  import opened Disks
  import opened Pager
  import opened PageContents
  import opened StoreBooks
  import opened ArtifactStores
  import opened OutputStreams
  import opened Redactions
  import opened OutputStore
  import PagerEnds
  import Cursors
  import PlainCodecs

  /** The next stretch of `all`, a full page or the last one, and what the reply says about the whole. */
  ghost predicate StretchOf(reply: Reply, all: Bytes, digest: string, from: nat, m: nat)
    requires from <= |all|
  {
    var size := Min(m, |all| - from);
    && Joined(reply.page.pieces) == all[from..from + size] && (reply.next.Some? <==> size == m)
    && reply.complete && reply.size == |all| && reply.digest == Some(digest)
  }

  /** The token of a reply leads `m` bytes on. */
  ghost predicate LeadsOn(k: Cursors.Crypto, id: string, fs: seq<Frame>, reply: Reply, from: int, m: nat) {
    && reply.next.Some? && reply.page.next.Some? && reply.page.next.value.logical == from + m
    && CursorOk(fs, reply.page.next.value)
    && Cursors.DecodeCursor(k, id, "base64", reply.next.value) == Ok(reply.page.next.value)
  }

  /** One page of a sealed artifact that nobody holds, for a good token. */
  method FetchPage(
    store: ArtifactStore, k: Cursors.Crypto, id: string, token: string, maximum: int, now: int, ghost c: Cursor)
    returns (reply: Reply)
    requires store.Valid() && Cursors.Lawful(k) && id in store.sealed && id !in store.active && id in store.logs
    requires Cursors.DecodeCursor(k, id, "base64", token) == Ok(c) && CursorOk(store.logs[id], c)
    modifies store`disk, store`active
    ensures store.Valid() && store.active == old(store.active)
    ensures forall x, kind :: Content(store.disk, x, kind) == Content(old(store.disk), x, kind)
    ensures 0 <= c.logical <= |Logical(store.logs[id])|
    ensures var all := Logical(store.logs[id]);
      StretchOf(reply, all, store.codec.digest(all), c.logical, Clamp(maximum))
    ensures reply.next.Some? ==> LeadsOn(k, id, store.logs[id], reply, c.logical, Clamp(maximum))
  {
    hide store.Valid, Content, Logical, CursorOk, Joined, Cursors.DecodeCursor, Cursors.Lawful;
    var r := store.ReadPage(k, id, "base64", token, maximum, now);
    reply := r.value;
  }

  /** Full pages so far, and one more stretch. */
  lemma OneMorePage(reply: Reply, all: Bytes, digest: string, from: nat, m: nat, pages: nat)
    requires from <= |all| && m > 0 && from == pages * m && StretchOf(reply, all, digest, from, m)
    ensures var raw := all[..from] + Joined(reply.page.pieces);
      if reply.next.Some? then from + m == (pages + 1) * m && from + m <= |all| && raw == all[..from + m]
      else raw == all && |all| / m == pages
  {
    hide Joined;
    if reply.next.None? {
      PagerEnds.Quotient(|all|, m, pages, |all| - from);
    }
  }

  /** The client holds `pages` full pages and the token of the next one. */
  ghost predicate Fetching(
    k: Cursors.Crypto, id: string, fs: seq<Frame>, token: string, c: Cursor, raw: Bytes, pages: nat, m: nat)
  {
    && Cursors.DecodeCursor(k, id, "base64", token) == Ok(c) && CursorOk(fs, c)
    && 0 <= c.logical <= |Logical(fs)| && raw == Logical(fs)[..c.logical] && c.logical == pages * m
  }

  lemma FetchStarts(k: Cursors.Crypto, id: string, fs: seq<Frame>, m: nat)
    requires m > 0
    ensures FetchedSoFar(k, id, fs, m, "", Cursor(1, 0, 0, 0), [], 0, true)
  {
    hide CursorOk, Logical;
    FirstCursorOk(fs);
  }

  lemma TokenIsGood(
    k: Cursors.Crypto, id: string, fs: seq<Frame>, token: string, c: Cursor, raw: Bytes, pages: nat, m: nat)
    requires Fetching(k, id, fs, token, c, raw, pages, m)
    ensures Cursors.DecodeCursor(k, id, "base64", token) == Ok(c) && CursorOk(fs, c) && 0 <= c.logical <= |Logical(fs)|
  {
  }

  lemma FetchGoesOn(
    k: Cursors.Crypto, id: string, fs: seq<Frame>, token: string, c: Cursor, raw: Bytes, pages: nat, m: nat,
    reply: Reply, digest: string)
    requires m > 0 && Fetching(k, id, fs, token, c, raw, pages, m)
    requires StretchOf(reply, Logical(fs), digest, c.logical, m)
    requires reply.next.Some? ==> LeadsOn(k, id, fs, reply, c.logical, m)
    ensures var next := raw + Joined(reply.page.pieces);
      if reply.next.Some? then
        && reply.page.next.Some? && reply.page.next.value.logical == c.logical + m <= |Logical(fs)|
        && Fetching(k, id, fs, reply.next.value, reply.page.next.value, next, pages + 1, m)
      else
        next == Logical(fs) && |Logical(fs)| / m == pages
  {
    hide CursorOk, Logical, Joined, StretchOf, Cursors.DecodeCursor;
    OneMorePage(reply, Logical(fs), digest, c.logical, m, pages);
  }

  /** Good for a client that has read everything, or knows where to go on. */
  ghost predicate FetchedSoFar(
    k: Cursors.Crypto, id: string, fs: seq<Frame>, m: nat, token: string, c: Cursor, raw: Bytes, pages: nat, more: bool)
    requires m > 0
  {
    if more then Fetching(k, id, fs, token, c, raw, pages, m)
    else raw == Logical(fs) && pages == |Logical(fs)| / m + 1
  }

  /** One turn of the client's loop. */
  method FetchNext(
    store: ArtifactStore, k: Cursors.Crypto, id: string, maximum: int, now: int,
    token: string, raw: Bytes, pages: nat, ghost c: Cursor)
    returns (token': string, raw': Bytes, more: bool, ghost c': Cursor)
    requires store.Valid() && Cursors.Lawful(k) && id in store.sealed && id !in store.active && id in store.logs
    requires Fetching(k, id, store.logs[id], token, c, raw, pages, Clamp(maximum))
    modifies store`disk, store`active
    ensures store.Valid() && store.active == old(store.active)
    ensures forall x, kind :: Content(store.disk, x, kind) == Content(old(store.disk), x, kind)
    ensures FetchedSoFar(k, id, store.logs[id], Clamp(maximum), token', c', raw', pages + 1, more)
    ensures more ==> c.logical < c'.logical <= |Logical(store.logs[id])|
  {
    hide store.Valid, Content, Logical, Joined, StretchOf, LeadsOn, Cursors.Lawful, Fetching, CursorOk,
      Cursors.DecodeCursor;
    ghost var fs := store.logs[id];
    TokenIsGood(k, id, fs, token, c, raw, pages, Clamp(maximum));
    var reply := FetchPage(store, k, id, token, maximum, now, c);
    FetchGoesOn(k, id, fs, token, c, raw, pages, Clamp(maximum), reply, store.codec.digest(Logical(fs)));
    raw', more := raw + Joined(reply.page.pieces), reply.next.Some?;
    token' := if more then reply.next.value else "";
    c' := if more then reply.page.next.value else c;
  }

  lemma SealedHasLog(store: ArtifactStore, id: string)
    requires store.Valid() && id in store.sealed
    ensures id in store.logs
  {
    hide Content, Logical;
    store.SealedIs(id);
  }

  /** A client that follows next_cursor from the first page to the last. */
  method FetchAll(store: ArtifactStore, k: Cursors.Crypto, id: string, maximum: int, now: int)
    returns (raw: Bytes, pages: nat)
    requires store.Valid() && Cursors.Lawful(k) && id in store.sealed && id !in store.active
    modifies store`disk, store`active
    ensures store.Valid() && store.active == old(store.active)
    ensures forall x, kind :: Content(store.disk, x, kind) == Content(old(store.disk), x, kind)
    ensures id in store.logs && raw == Logical(store.logs[id]) && pages == |raw| / Clamp(maximum) + 1
  {
    hide store.Valid, Content, Logical, Fetching, Cursors.Lawful;
    SealedHasLog(store, id);
    ghost var fs := store.logs[id];
    FetchStarts(k, id, fs, Clamp(maximum));
    var token, more := "", true;
    ghost var c := Cursor(1, 0, 0, 0);
    raw, pages := [], 0;
    while more
      invariant store.Valid() && store.active == old(store.active)
      invariant forall x, kind :: Content(store.disk, x, kind) == Content(old(store.disk), x, kind)
      invariant FetchedSoFar(k, id, fs, Clamp(maximum), token, c, raw, pages, more)
      decreases more, |Logical(fs)| - c.logical
    {
      token, raw, more, c := FetchNext(store, k, id, maximum, now, token, raw, pages, c);
      pages := pages + 1;
    }
  }

  // ---- A whole command ----

  /** What a command wrote: chunks of stdout (1) and stderr (2) in the order they came. */
  datatype Chunk = Chunk(stream: Byte, data: Bytes)

  function ChunksOf(output: seq<Chunk>, stream: Byte): seq<Bytes> {
    if output == [] then []
    else
      var front, last := output[..|output| - 1], output[|output| - 1];
      ChunksOf(front, stream) + if last.stream == stream then [last.data] else []
  }

  lemma ChunksOfOne(c: Chunk, stream: Byte)
    ensures ChunksOf([c], stream) == if c.stream == stream then [c.data] else []
  {
    assert ChunksOf([c][..0], stream) == [];
  }

  /** The chunks of a stream are those with its number, in their order. */
  lemma {:induction false} ChunksOfBoth(a: seq<Chunk>, b: seq<Chunk>, stream: Byte)
    ensures ChunksOf(a + b, stream) == ChunksOf(a, stream) + ChunksOf(b, stream)
    decreases |b|
  {
    if b == [] {
      assert a + b == a;
    } else {
      var front := b[..|b| - 1];
      assert (a + b)[..|a + b| - 1] == a + front;
      ChunksOfBoth(a, front, stream);
    }
  }

  /** What a stream carried. */
  function TextOf(output: seq<Chunk>, stream: Byte): Bytes { Flatten(ChunksOf(output, stream)) }

  /** The bytes of the records of stdout, then of stderr, whatever the chunks. */
  ghost predicate Redacted(r: Redactor, output: seq<Chunk>, raw: Bytes) {
    exists out, err ::
      && RecordsOfText(r, TextOf(output, 1), out) && RecordsOfText(r, TextOf(output, 2), err)
      && raw == Flatten(out) + Flatten(err)
  }

  /** The same for texts without long lines: one record for each line outside of key blocks, and one for each block. */
  ghost predicate RedactedLines(r: Redactor, output: seq<Chunk>, raw: Bytes) {
    exists out, err ::
      && LineRecords(r, TextOf(output, 1), out) && LineRecords(r, TextOf(output, 2), err)
      && raw == Flatten(out) + Flatten(err)
  }

  /** The records of one stream, once it is closed. */
  function RecordsOf(r: Redactor, output: seq<Chunk>, stream: Byte): seq<Bytes> {
    CloseAll(r, WriteAll(r, ChunksOf(output, stream))).out
  }

  /** The records are those of the texts, and without long lines those of the lines. */
  lemma RecordsAreLines(r: Redactor, output: seq<Chunk>)
    ensures var raw := Flatten(RecordsOf(r, output, 1)) + Flatten(RecordsOf(r, output, 2));
      && Redacted(r, output, raw)
      && (LinesFit(TextOf(output, 1)) && LinesFit(TextOf(output, 2)) ==> RedactedLines(r, output, raw))
  {
    hide Flatten, WriteAll, CloseAll, RecordsOfText, LinesFit, LineRecords, ChunksOf;
    AnyOutput(r, ChunksOf(output, 1));
    AnyOutput(r, ChunksOf(output, 2));
    if LinesFit(TextOf(output, 1)) && LinesFit(TextOf(output, 2)) {
      OnlyLines(r, TextOf(output, 1), RecordsOf(r, output, 1));
      OnlyLines(r, TextOf(output, 2), RecordsOf(r, output, 2));
    }
  }

  /** What was written to both streams so far. */
  ghost predicate Captured(capture: CommandCapture, output: seq<Chunk>)
    reads capture.stdout`chunks, capture.stderr`chunks
  {
    capture.stdout.chunks == ChunksOf(output, 1) && capture.stderr.chunks == ChunksOf(output, 2)
  }

  /** The records both streams have after these chunks fit into the quotas, and nothing goes wrong. */
  ghost predicate RoomAfter(capture: CommandCapture, output: seq<Chunk>)
    reads capture.artifact.store`active
  {
    capture.RoomFor(
      WriteAll(capture.stdout.redactor, ChunksOf(output, 1)).out,
      WriteAll(capture.stderr.redactor, ChunksOf(output, 2)).out)
  }

  lemma {:induction false} MoreChunks(r: Redactor, output: seq<Chunk>, stream: Byte, i: nat)
    requires i <= |output|
    ensures WriteAll(r, ChunksOf(output[..i], stream)).out <= WriteAll(r, ChunksOf(output, stream)).out
    decreases |output| - i
  {
    if i == |output| {
      assert output[..i] == output;
    } else {
      MoreChunks(r, output, stream, i + 1);
      OneMoreChunk(r, output, stream, i);
    }
  }

  lemma OneMoreChunk(r: Redactor, output: seq<Chunk>, stream: Byte, i: nat)
    requires i < |output|
    ensures output[i].stream != stream ==> ChunksOf(output[..i + 1], stream) == ChunksOf(output[..i], stream)
    ensures output[i].stream == stream ==>
      WriteAll(r, ChunksOf(output[..i + 1], stream)) ==
        WriteOne(r, WriteAll(r, ChunksOf(output[..i], stream)), output[i].data)
    ensures WriteAll(r, ChunksOf(output[..i], stream)).out <= WriteAll(r, ChunksOf(output[..i + 1], stream)).out
  {
    assert output[..i + 1][..i] == output[..i];
    assert ChunksOf(output[..i], stream) + [] == ChunksOf(output[..i], stream);
    WriteAdds(r, WriteAll(r, ChunksOf(output[..i], stream)), output[i].data);
    WrittenOnce(r, ChunksOf(output[..i], stream), output[i].data);
    hide WriteOne, WriteAll;
  }

  /** When all chunks find room, so does the next one. */
  lemma RoomForNext(capture: CommandCapture, output: seq<Chunk>, i: nat)
    requires i < |output| && 1 <= output[i].stream <= 2 && capture.Valid() && Captured(capture, output[..i])
    requires capture.stdout.healthy && capture.stderr.healthy
    ensures RoomAfter(capture, output) ==>
      var c := output[i];
      capture.RoomWith(c.stream, WriteOne(capture.Of(c.stream).redactor, capture.Of(c.stream).Now(), c.data).out)
  {
    hide WriteOne, WriteAll, ChunksOf, CommandCapture.RoomFor, CommandCapture.Sound;
    var out, err := capture.stdout.redactor, capture.stderr.redactor;
    OneMoreChunk(out, output, 1, i);
    OneMoreChunk(err, output, 2, i);
    MoreChunks(out, output, 1, i + 1);
    MoreChunks(err, output, 2, i + 1);
    capture.LessRoom(
      WriteAll(out, ChunksOf(output, 1)).out, WriteAll(err, ChunksOf(output, 2)).out,
      WriteAll(out, ChunksOf(output[..i + 1], 1)).out, WriteAll(err, ChunksOf(output[..i + 1], 2)).out);
  }

  /** The chunks of a command, one after the other; a chunk that could not be kept makes the capture unhealthy. */
  method WriteAllChunks(capture: CommandCapture, output: seq<Chunk>) returns (ok: bool)
    requires capture.Valid() && Captured(capture, []) && capture.stdout.healthy && capture.stderr.healthy
    requires forall c :: c in output ==> 1 <= c.stream <= 2
    modifies capture.stdout, capture.stderr, capture.artifact`position, capture.artifact.store
    ensures capture.Valid() && Captured(capture, output)
    ensures capture.artifact.store.active == old(capture.artifact.store.active)
    ensures ok ==> capture.stdout.healthy && capture.stderr.healthy
    ensures RoomAfter(capture, output) ==> ok
  {
    hide CommandCapture.Sound, StreamCapture.Faithful, WriteOne, WriteAll, CommandCapture.RoomFor,
      CommandCapture.RoomWith;
    ok := true;
    var i := 0;
    assert output[..0] == [];
    while i < |output|
      invariant i <= |output| && capture.Valid() && Captured(capture, output[..i])
      invariant capture.artifact.store.active == old(capture.artifact.store.active)
      invariant ok ==> capture.stdout.healthy && capture.stderr.healthy
      invariant RoomAfter(capture, output) ==> ok
    {
      var c := output[i];
      if ok {
        RoomForNext(capture, output, i);
      }
      TwoStreams(capture);
      var written := capture.Write(c.stream, c.data);
      ok := ok && written;
      assert output[..i + 1][..i] == output[..i];
      i := i + 1;
    }
    assert output[..i] == output;
  }

  lemma TwoStreams(capture: CommandCapture)
    requires capture.Sound()
    ensures capture.stdout != capture.stderr
  {
    hide StreamCapture.Ready, StreamCapture.Agrees;
  }

  /** commandCapture.Close, in terms of the command's output. */
  method CloseCapture(capture: CommandCapture, output: seq<Chunk>) returns (ok: bool)
    requires capture.Valid() && !capture.artifact.finished && Captured(capture, output)
    requires capture.stdout.redactor == capture.stderr.redactor
    modifies capture.stdout, capture.stderr, capture.artifact, capture.artifact.store
    ensures capture.artifact.store.Valid()
    ensures Get(capture.artifact.store.active, capture.artifact.id) ==
      old(Get(capture.artifact.store.active, capture.artifact.id)) - 1
    ensures ok ==>
      capture.artifact.id in capture.artifact.store.sealed && capture.artifact.id in capture.artifact.store.logs
    ensures var r, store := capture.stdout.redactor, capture.artifact.store;
      var out, err := RecordsOf(r, output, 1), RecordsOf(r, output, 2);
      old(capture.stdout.healthy && capture.stderr.healthy) ==>
        && (ok ==> Affordable(store, out, err))
        && (ok ==> Logical(store.logs[capture.artifact.id]) == Flatten(out) + Flatten(err))
        && (old(store.Alone(capture.artifact.id)) && Affordable(store, out, err) ==> ok)
  {
    hide ArtifactStore.Consistent, Logical, Flatten, CloseAll, WriteAll, Content, EncodeAll, Affordable,
      CommandCapture.Sound;
    ok := capture.Close();
  }

  lemma NobodyHolds(store: ArtifactStore, id: string)
    requires store.Valid() && Get(store.active, id) == 0
    ensures id !in store.active
  {
    hide Content;
  }

  /**
   * A command from start to end: its output is captured, closed and read back page by page. What
   * the client has is the records of stdout, then those of stderr, in exactly as many pages as they
   * need: redacted line by line when no line is long. When nothing goes wrong and nobody else
   * holds an artifact, the client gets them if and only if both quotas leave room for them.
   */
  method RunCommand(
    store: ArtifactStore, id: string, limit: int, redactor: Redactor, output: seq<Chunk>,
    k: Cursors.Crypto, maximum: int, now: int)
    returns (r: Option<(Bytes, nat)>)
    requires store.Valid() && Cursors.Lawful(k) && id !in store.artifactUse && id !in store.active
    requires forall c :: c in output ==> 1 <= c.stream <= 2
    modifies store
    ensures store.Valid()
    ensures r.Some? ==> r.value.1 == |r.value.0| / Clamp(maximum) + 1
    ensures r.Some? ==>
      r.value.0 == Flatten(RecordsOf(redactor, output, 1)) + Flatten(RecordsOf(redactor, output, 2))
    ensures r.Some? ==> Redacted(redactor, output, r.value.0)
    ensures r.Some? && LinesFit(TextOf(output, 1)) && LinesFit(TextOf(output, 2)) ==>
      RedactedLines(redactor, output, r.value.0)
    ensures r.Some? ==> Affordable(store, RecordsOf(redactor, output, 1), RecordsOf(redactor, output, 2))
    ensures store.calm && old(store.active) == map[] ==>
      Affordable(store, RecordsOf(redactor, output, 1), RecordsOf(redactor, output, 2)) ==> r.Some?
  {
    hide store.Consistent, store.Settled, Logical, LinesFit, TextOf, Flatten, Redacted, RedactedLines,
      CommandCapture.Valid, Content, Affordable, RecordsOf, Spared;
    RecordsAreLines(redactor, output);
    var started := CommandCapture.Start(store, id, limit, redactor);
    if started.Err? {
      return None;
    }
    var capture := started.value;
    RoomWhileWriting(capture, output);
    var kept := WriteAllChunks(capture, output);
    var closed := CloseCapture(capture, output);
    if !kept || !closed {
      return None;
    }
    NobodyHolds(store, id);
    var raw, pages := FetchAll(store, k, id, maximum, now);
    r := Some((raw, pages));
  }

  /** What finds room when it is closed finds room before. */
  lemma RoomWhileWriting(capture: CommandCapture, output: seq<Chunk>)
    requires capture.stdout.redactor == capture.stderr.redactor
    ensures var r := capture.stdout.redactor;
      capture.artifact.store.Alone(capture.artifact.id)
      && Affordable(capture.artifact.store, RecordsOf(r, output, 1), RecordsOf(r, output, 2)) ==>
        RoomAfter(capture, output)
  {
    hide CloseAll, WriteAll, CommandCapture.RoomFor, Affordable;
    var r := capture.stdout.redactor;
    var out, err := WriteAll(r, ChunksOf(output, 1)), WriteAll(r, ChunksOf(output, 2));
    CloseAdds(r, out);
    CloseAdds(r, err);
    capture.LessRoom(CloseAll(r, out).out, CloseAll(r, err).out, out.out, err.out);
    capture.RoomIfAffordable(CloseAll(r, out).out, CloseAll(r, err).out);
  }

  lemma NothingDamaged()
    ensures forall id, limit :: !Damaged(map[], id, limit)
  {
    hide ScanFrom;
  }

  /** With the plain codec a marker takes 72 bytes. */
  lemma PlainRoom(store: ArtifactStore, out: seq<Bytes>, err: seq<Bytes>)
    requires store.codec == PlainCodecs.CODEC
    requires store.totalLimit == DEFAULT_TOTAL && store.itemLimit == DEFAULT_ITEM
    ensures Affordable(store, out, err) <==>
      Cost(out) + Cost(err) + 72 <= 10 * 1024 * 1024 * 1024 && |Flatten(out)| + |Flatten(err)| <= 5 * 1024 * 1024 * 1024
  {
    hide Flatten, Cost;
    PlainCodecs.MarkerSize(Flatten(out) + Flatten(err));
  }

  /** The whole chain on an empty disk, with the plain codec and key: no requirement rules it out. */
  method FirstCommand(redactor: Redactor, output: seq<Chunk>, calm: bool) returns (r: Option<(Bytes, nat)>)
    requires forall c :: c in output ==> 1 <= c.stream <= 2
    ensures var out, err := RecordsOf(redactor, output, 1), RecordsOf(redactor, output, 2);
      && (r.Some? ==> Redacted(redactor, output, r.value.0))
      && (r.Some? ==> r.value == (Flatten(out) + Flatten(err), |Flatten(out) + Flatten(err)| / (64 * 1024) + 1))
      && (calm ==>
        (r.Some? <==>
        && Cost(out) + Cost(err) + 72 <= 10 * 1024 * 1024 * 1024
        && |Flatten(out)| + |Flatten(err)| <= 5 * 1024 * 1024 * 1024))
  {
    hide Redacted, RedactedLines, LinesFit, TextOf, Flatten, ArtifactStores.Lawful, Cursors.Lawful, RecordsOf, Cost;
    PlainCodecs.CodecIsLawful();
    PlainCodecs.CryptoIsLawful();
    NothingDamaged();
    var found := ArtifactStore.Open(PlainCodecs.CODEC, 0, 0, 0, 0, map[], 0, calm);
    if found.Err? {
      return None;
    }
    PlainRoom(found.value, RecordsOf(redactor, output, 1), RecordsOf(redactor, output, 2));
    r := RunCommand(found.value, "first", 0, redactor, output, PlainCodecs.CRYPTO, 0, 0);
  }
}
