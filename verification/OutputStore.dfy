/** Capturing the output of a command: two streams, each mirrored into the record log and its own companion file. */
module OutputStore {
  import opened Wrappers
  import opened ByteStrings
  import opened Frames
  import opened Tallies
  import opened Disks
  import opened StoreBooks
  import opened OutputStreams
  import opened ArtifactStores
  import Previews
  import Utf8

  function KindOf(stream: Byte): Kind { if stream == 1 then Stdout else Stderr }

  /** The parts of a store that other holders rely on. */
  datatype Snapshot = Snapshot(archive: Archive, owed: Tally, active: Tally)

  ghost function Snap(store: ArtifactStore): Snapshot
    reads store
  {
    Snapshot(store.Now(), store.owed, store.active)
  }

  /** One stream of command `id` went on: its records follow the old log, and what it has in flight moved by `delta`. */
  ghost predicate Undisturbed(id: string, stream: Byte, delta: int, a: Snapshot, b: Snapshot) {
    var before, after := a.archive, b.archive;
    && b.active == a.active && Moved(a.owed, b.owed, id, delta)
    && id in before.logs && id in after.logs && before.logs[id] <= after.logs[id]
    && (forall x: Byte :: x != stream ==> Payload(after.logs[id], x) == Payload(before.logs[id], x))
    && (forall k :: k != Records && k != KindOf(stream) ==> Content(after.disk, id, k) == Content(before.disk, id, k))
    && Spared(a.active.Keys, {id}, before, after)
  }

  lemma UndisturbedTwice(id: string, stream: Byte, first: int, second: int, a: Snapshot, b: Snapshot, c: Snapshot)
    requires Undisturbed(id, stream, first, a, b) && Undisturbed(id, stream, second, b, c)
    ensures Undisturbed(id, stream, first + second, a, c)
  {
    hide Payload, Content, Moved, Spared;
    MovedTwice(a.owed, b.owed, c.owed, id, first, second);
    SparedTwice(a.active.Keys, {id}, a.archive, b.archive, c.archive);
  }

  /** What the records of one stream cost: a frame each, and a copy in the companion. */
  function Cost(records: seq<Bytes>): nat { HEADER * |records| + 2 * |Flatten(records)| }

  lemma CostsOneMore(records: seq<Bytes>, data: Bytes)
    ensures Cost(records + [data]) == Cost(records) + HEADER + 2 * |data|
    ensures Flatten(records + [data]) == Flatten(records) + data
  {
    FlattenLast(records, data);
  }

  lemma CostsNoMore(less: seq<Bytes>, more: seq<Bytes>)
    requires less <= more
    ensures Cost(less) <= Cost(more) && |Flatten(less)| <= |Flatten(more)|
  {
    assert more == less + more[|less|..];
    FlattenAppend(less, more[|less|..]);
  }

  /** What stands beside the records of one stream: the other charges of the artifact, and the other holders. */
  datatype Beside = Beside(charged: int, size: int, alone: bool)

  /** It leaves room for these records in both quotas, and nothing goes wrong. */
  predicate Leaves(b: Beside, totalLimit: int, itemLimit: int, out: seq<Bytes>) {
    b.alone && b.charged + Cost(out) <= totalLimit && b.size + |Flatten(out)| <= itemLimit
  }

  lemma LeavesLess(b: Beside, totalLimit: int, itemLimit: int, less: seq<Bytes>, more: seq<Bytes>)
    requires less <= more
    ensures Leaves(b, totalLimit, itemLimit, more) ==> Leaves(b, totalLimit, itemLimit, less)
  {
    hide Cost;
    CostsNoMore(less, more);
  }

  /** streamCapture: one redacted stream of a command. */
  class StreamCapture {
    const redactor: Redactor
    const artifact: ArtifactWriter
    const stream: Byte
    const headLimit: nat
    const tailLimit: nat

    var pending: Bytes
    var privateKey: bool
    var oversized: bool
    var head: Bytes
    var tail: Bytes
    var total: nat

    // The record that `emit` has put into the log and not yet into the file.
    var copying: Option<Bytes>

    // The chunks written so far, the records emitted for them, and whether every emit succeeded.
    ghost var chunks: seq<Bytes>
    ghost var records: seq<Bytes>
    ghost var healthy: bool

    constructor (redactor: Redactor, artifact: ArtifactWriter, stream: Byte, headLimit: int, tailLimit: int)
      ensures this.redactor == redactor && this.artifact == artifact && this.stream == stream
      ensures this.headLimit == (if headLimit > 0 then headLimit else 0)
      ensures this.tailLimit == (if tailLimit > 0 then tailLimit else 0)
      ensures Now() == FRESH && chunks == [] && healthy && head == tail == [] && total == 0 && copying.None?
    {
      this.redactor, this.artifact, this.stream := redactor, artifact, stream;
      this.headLimit, this.tailLimit := Max(headLimit, 0), Max(tailLimit, 0);
      pending, privateKey, oversized, head, tail, total := [], false, false, [], [], 0;
      copying, chunks, records, healthy := None, [], [], true;
    }

    ghost function Now(): Stage
      reads `pending, `privateKey, `oversized, `records
    {
      Stage(pending, privateKey, oversized, records)
    }

    /** The bytes in the companion file. */
    ghost function Companion(): Bytes
      reads artifact.store`disk
    {
      match Content(artifact.store.disk, artifact.id, KindOf(stream))
      case None => []
      case Some(b) => b
    }

    /** The records in the log: those in the file, and the one on its way there. */
    ghost function Mirrored(): seq<Bytes>
      reads `records, `copying
    {
      match copying
      case None => records
      case Some(data) => records + [data]
    }

    /** Log, companion, counter and windows all show the same stream: the emitted records. */
    ghost predicate Agrees()
      reads `records, `copying, `head, `tail, `total, artifact.store`disk, artifact.store`logs
    {
      var all := Flatten(records);
      && Companion() == all && artifact.id in artifact.store.logs
      && Payload(artifact.store.logs[artifact.id], stream) == Flatten(Mirrored())
      && total == |all| && head == Prefix(all, headLimit) && tail == Suffix(all, tailLimit)
    }

    /** The bytes promised to the companion that are not there yet. */
    ghost function Promised(): nat
      reads `copying
    {
      if copying.Some? then |copying.value| else 0
    }

    /** The store is in order, the record file is open, and what this stream promised is reserved. */
    ghost predicate Ready()
      reads `copying, artifact, artifact.store
    {
      && 1 <= stream <= 2 && artifact.store.Valid() && artifact.Open() && artifact.companionCopies == 1
      && Get(artifact.store.owed, artifact.id) >= Promised()
      && Content(artifact.store.disk, artifact.id, KindOf(stream)).Some?
    }

    /** No emit of this stream is under way. */
    ghost predicate Steady()
      reads `copying, artifact, artifact.store
    {
      Ready() && copying.None?
    }

    ghost function Rest(): Beside
      reads `records, `copying, artifact.store`artifactUse, artifact.store`logicalSizes, artifact.store`active
    {
      Beside(Get(artifact.store.artifactUse, artifact.id) - Cost(Mirrored()),
             Get(artifact.store.logicalSizes, artifact.id) - |Flatten(Mirrored())|,
             artifact.store.Alone(artifact.id))
    }

    /** If this stream came to these records, nothing would stand in the way. */
    ghost predicate Fits(out: seq<Bytes>)
      reads `records, `copying, artifact.store`artifactUse, artifact.store`logicalSizes, artifact.store`active
    {
      Leaves(Rest(), artifact.store.totalLimit, artifact.store.itemLimit, out)
    }

    /** The bounded windows and the counter take in one more record. */
    method Remember(data: Bytes)
      modifies `head, `tail, `total
      ensures total == old(total) + |data|
      ensures head == PushFront(old(head), data, headLimit) && tail == PushBack(old(tail), data, tailLimit)
    {
      total := total + |data|;
      if |head| < headLimit {
        var need := if headLimit - |head| < |data| then headLimit - |head| else |data|;
        head := head + data[..need];
      }
      if tailLimit > 0 {
        tail := tail + data;
        if |tail| > tailLimit {
          tail := tail[|tail| - tailLimit..];
        }
      }
    }

    /**
     * Preview: the beginning and the end of the stream. The bound holds unless the stream fits in the
     * head window and its text is longer than the limit: then the whole of it is returned.
     */
    method Preview(limit: int) returns (r: Bytes)
      ensures limit <= 0 ==> r == []
      ensures limit > 0 ==> (|r| <= limit <==> total > |head| || |Utf8.LongestValid(head)| <= limit)
      ensures limit > 0 && total <= |head| ==> r == Utf8.LongestValid(head)
      ensures limit > 0 && total > |head| ==>
        var back := tail[Previews.Continued(tail)..];
        Previews.Shortened(Utf8.LongestValid(head) + Previews.MARKER + Utf8.LongestValid(back), limit, r)
      ensures limit > 0 && Agrees() && total <= headLimit && Utf8.Valid(Flatten(records)) ==> r == Flatten(records)
    {
      hide Flatten, Content, Payload, Utf8.Valid, Previews.MARKER, Previews.Halves, Previews.LongestFront;
      if limit <= 0 {
        return [];
      }
      var front := Previews.Utf8Window(head, false);
      if total <= |head| {
        return front;
      }
      var back := Previews.Utf8Window(tail, true);
      r := Previews.HeadTailText(front + Previews.MARKER + back, limit);
    }

    ghost function Before(): Snapshot
      reads artifact.store
    {
      Snap(artifact.store)
    }

    /** The log is one record of this stream longer; its copy is promised. */
    twostate predicate LogGrew(data: Bytes)
      reads artifact.store`logs
    {
      var id, logs := artifact.id, artifact.store.logs;
      id in old(artifact.store.logs) && id in logs && logs[id] == old(artifact.store.logs)[id] + [Frame(stream, data)]
    }

    twostate lemma GrowthDisturbsNobody(new data: Bytes)
      requires LogGrew(data) && artifact.store.active == old(artifact.store.active)
      requires Moved(old(artifact.store.owed), artifact.store.owed, artifact.id, |data|)
      requires forall k :: k != Records ==>
        Content(artifact.store.disk, artifact.id, k) == Content(old(artifact.store.disk), artifact.id, k)
      requires Spared(artifact.store.active.Keys, {artifact.id}, old(artifact.store.Now()), artifact.store.Now())
      ensures Undisturbed(artifact.id, stream, |data|, old(Before()), Before())
    {
      forall x: Byte | x != stream
        ensures Payload(artifact.store.logs[artifact.id], x) == Payload(old(artifact.store.logs)[artifact.id], x)
      {
        PayloadAppendOne(old(artifact.store.logs)[artifact.id], Frame(stream, data), x);
      }
      hide Payload, Content, Moved, Spared;
    }

    twostate lemma RefusalDisturbsNobody()
      requires artifact.id in old(artifact.store.logs) && artifact.store.active == old(artifact.store.active)
      requires artifact.id in artifact.store.active && artifact.store.SameOwed()
      requires Spared(artifact.store.active.Keys, {}, old(artifact.store.Now()), artifact.store.Now())
      ensures Undisturbed(artifact.id, stream, 0, old(Before()), Before())
      ensures forall k ::
        Content(artifact.store.disk, artifact.id, k) == Content(old(artifact.store.disk), artifact.id, k)
    {
      hide Payload, Content, Moved, Spared, Get;
      HeldSpared(artifact.store.active.Keys, old(artifact.store.Now()), artifact.store.Now(), artifact.id, {});
      NotMoved(old(artifact.store.owed), artifact.store.owed, artifact.id);
    }

    /** One more record in the log, and not yet in the file: the two views of the stream agree on that. */
    twostate lemma MirrorAgrees(new data: Bytes)
      requires old(Agrees()) && LogGrew(data) && old(copying).None? && copying == Some(data)
      requires records == old(records) && total == old(total) && head == old(head) && tail == old(tail)
      requires Companion() == old(Companion())
      ensures Agrees()
    {
      hide Flatten, Payload, Prefix, Suffix, Content;
      FlattenLast(records, data);
      PayloadAppendOne(old(artifact.store.logs)[artifact.id], Frame(stream, data), stream);
    }

    /** The record costs what it is charged: what stands beside the stream is the same. */
    twostate lemma MirrorCosts(new data: Bytes)
      requires artifact.companionCopies == 1 && old(copying).None? && copying == Some(data)
      requires records == old(records) && artifact.store.active == old(artifact.store.active)
      requires Get(artifact.store.artifactUse, artifact.id) ==
        Get(old(artifact.store.artifactUse), artifact.id) + HEADER + 2 * |data|
      requires Get(artifact.store.logicalSizes, artifact.id) ==
        Get(old(artifact.store.logicalSizes), artifact.id) + |data|
      ensures Rest() == old(Rest())
    {
      hide Cost, Flatten;
      CostsOneMore(records, data);
    }

    /** One more record would fit. */
    ghost predicate FitsWith(data: Bytes)
      reads `records, `copying, artifact.store`artifactUse, artifact.store`logicalSizes, artifact.store`active
    {
      Fits(records + [data])
    }

    lemma MirrorFits(data: Bytes)
      requires copying.None? && artifact.companionCopies == 1
      ensures FitsWith(data) ==>
        artifact.store.Alone(artifact.id) && artifact.store.Affords(artifact.id, artifact.FrameBytes(data), |data|)
      ensures artifact.FrameBytes(data) == HEADER + 2 * |data|
    {
      hide Cost, Flatten;
      CostsOneMore(records, data);
    }

    /** The first half of emit: the record is mirrored into the log, and its copy is promised. */
    method Mirror(data: Bytes) returns (ok: bool)
      requires Steady()
      modifies `copying, `healthy, artifact`position, artifact.store
      ensures Ready() && Undisturbed(artifact.id, stream, if ok then |data| else 0, old(Before()), Before())
      ensures copying == (if ok then Some(data) else None) && healthy == (old(healthy) && ok)
      ensures ok && old(Agrees()) ==> Agrees()
      ensures ok ==> Rest() == old(Rest())
      ensures old(FitsWith(data)) ==> ok
    {
      hide artifact.store.Consistent, EncodeAll, Content, Undisturbed, Spared, Moved, SameTally, NothingOwed, Agrees,
        Rest, Leaves, Unmarked, Mirrored, ArtifactStore.Affords;
      artifact.WriterHolds();
      MirrorFits(data);
      var r := artifact.WriteRecord(stream, data);
      ok := r.Ok?;
      if ok {
        copying := Some(data);
        MovedBy(old(artifact.store.owed), artifact.store.owed, artifact.id, |data|);
        GrowthDisturbsNobody(data);
        MirrorCosts(data);
        if old(Agrees()) {
          MirrorAgrees(data);
        }
      } else {
        healthy := false;
        RefusalDisturbsNobody();
        NotMoved(old(artifact.store.owed), artifact.store.owed, artifact.id);
        MovedBy(old(artifact.store.owed), artifact.store.owed, artifact.id, 0);
      }
    }

    /** The write to the companion file behind the mirror; bytes that did not arrive are given back. */
    method WriteFile(data: Bytes) returns (ok: bool)
      requires 1 <= stream <= 2 && artifact.store.Consistent() && artifact.Open()
      requires |data| <= Get(artifact.store.owed, artifact.id)
      requires Content(artifact.store.disk, artifact.id, KindOf(stream)).Some?
      modifies artifact.store`disk, artifact.store`owed, artifact.store`usage, artifact.store`artifactUse,
        artifact.store`diskAvailable
      ensures artifact.store.Consistent() && artifact.Open() && artifact.store.usage <= old(artifact.store.usage)
      ensures Moved(old(artifact.store.owed), artifact.store.owed, artifact.id, 0 - |data|)
      ensures OnlyFiles(old(artifact.store.Now()), artifact.store.Now(), artifact.id, {KindOf(stream)})
      ensures Content(artifact.store.disk, artifact.id, KindOf(stream)).Some?
      ensures ok ==> Companion() == old(Companion()) + data
      ensures ok ==> Get(artifact.store.artifactUse, artifact.id) == old(Get(artifact.store.artifactUse, artifact.id))
      ensures artifact.store.calm ==> ok
    {
      hide artifact.store.Consistent, EncodeAll, Content, OnlyFiles, Moved;
      var fails := artifact.store.Fails();
      var written := |data|;
      if fails {
        written :| 0 <= written <= |data|;
      }
      assert data[..|data|] == data;
      artifact.store.AppendOutput(Path(artifact.id, KindOf(stream)), data, written);
      OnlyFilesSpare({}, old(artifact.store.Now()), artifact.store.Now(), artifact.id, {KindOf(stream)});
      artifact.StaysOpen(old(artifact.store.Now()), {KindOf(stream)});
      ok := !fails;
    }

    twostate lemma CopyDisturbsNobody(new data: Bytes)
      requires artifact.id in old(artifact.store.logs) && artifact.store.active == old(artifact.store.active)
      requires Moved(old(artifact.store.owed), artifact.store.owed, artifact.id, 0 - |data|)
      requires OnlyFiles(old(artifact.store.Now()), artifact.store.Now(), artifact.id, {KindOf(stream)})
      ensures Undisturbed(artifact.id, stream, 0 - |data|, old(Before()), Before())
    {
      hide Payload, Content, Moved, Spared;
      OnlyFilesSpare(artifact.store.active.Keys, old(artifact.store.Now()), artifact.store.Now(), artifact.id,
        {KindOf(stream)});
    }

    /** The record has arrived on both sides, and all views of the stream agree again. */
    twostate lemma CopyAgrees(new data: Bytes)
      requires old(Agrees()) && old(copying) == Some(data) && copying.None? && Companion() == old(Companion()) + data
      requires artifact.store.logs == old(artifact.store.logs)
      requires records == old(records) + [data] && total == old(total) + |data|
      requires head == PushFront(old(head), data, headLimit) && tail == PushBack(old(tail), data, tailLimit)
      ensures Agrees()
    {
      hide Flatten, Payload, Prefix, Suffix, PushFront, PushBack, Content;
      FlattenLast(old(records), data);
      PrefixGrows(Flatten(old(records)), data, headLimit);
      SuffixGrows(Flatten(old(records)), data, tailLimit);
    }

    twostate lemma CopyCosts(new data: Bytes)
      requires old(copying) == Some(data) && copying.None? && records == old(records) + [data]
      requires Get(artifact.store.artifactUse, artifact.id) == old(Get(artifact.store.artifactUse, artifact.id))
      requires unchanged(artifact.store`logicalSizes, artifact.store`active)
      ensures Rest() == old(Rest())
    {
      hide Cost, Flatten;
    }

    lemma StillSettled(first: Tally, data: Bytes)
      requires NothingOwed(artifact.store.active, first) && artifact.id in artifact.store.active
      requires Moved(first, artifact.store.owed, artifact.id, 0 - |data|) && |data| <= Get(first, artifact.id)
      ensures artifact.store.Settled() && Get(artifact.store.owed, artifact.id) >= 0
    {
      HolderMayOwe(artifact.store.active, first, artifact.store.owed, artifact.id, 0 - |data|);
    }

    /** The second half of emit: the promised copy, and then the windows. */
    method Copy() returns (ok: bool)
      requires Ready() && copying.Some?
      modifies `copying, `head, `tail, `total, `records, `healthy, artifact.store
      ensures Steady() && Undisturbed(artifact.id, stream, 0 - |old(copying).value|, old(Before()), Before())
      ensures healthy == (old(healthy) && ok)
      ensures records == if ok then old(records) + [old(copying).value] else old(records)
      ensures ok && old(Agrees()) ==> Agrees()
      ensures ok ==> Rest() == old(Rest())
      ensures artifact.store.calm ==> ok
    {
      hide artifact.store.Consistent, EncodeAll, Content, Undisturbed, Moved, NothingOwed, OnlyFiles, PushFront,
        PushBack,
        Flatten, Payload, Unmarked, Agrees, Rest;
      artifact.WriterHolds();
      var data := copying.value;
      ok := WriteFile(data);
      CopyDisturbsNobody(data);
      StillSettled(old(artifact.store.owed), data);
      Arrive(data, ok);
      if ok {
        CopyCosts(data);
        if old(Agrees()) {
          CopyAgrees(data);
        }
      }
    }

    /** The end of emit in memory: the windows take in what arrived. */
    method Arrive(data: Bytes, ok: bool)
      modifies `copying, `head, `tail, `total, `records, `healthy
      ensures copying.None? && healthy == (old(healthy) && ok)
      ensures ok ==> records == old(records) + [data] && total == old(total) + |data|
      ensures ok ==> head == PushFront(old(head), data, headLimit) && tail == PushBack(old(tail), data, tailLimit)
      ensures !ok ==> records == old(records)
    {
      hide PushFront, PushBack;
      copying := None;
      if ok {
        Remember(data);
        records := records + [data];
      } else {
        healthy := false;
      }
    }

    lemma CalmIfFits(out: seq<Bytes>)
      ensures Fits(out) ==> artifact.store.calm
    {
    }

    /** emit: the record log, then the companion, then the windows. */
    method Emit(data: Bytes) returns (ok: bool)
      requires Steady()
      modifies `copying, `head, `tail, `total, `records, `healthy, artifact`position, artifact.store
      ensures Steady() && Undisturbed(artifact.id, stream, 0, old(Before()), Before())
      ensures healthy == (old(healthy) && ok) && records == if ok then old(records) + [data] else old(records)
      ensures ok && old(Agrees()) ==> Agrees()
      ensures ok ==> Rest() == old(Rest())
      ensures old(FitsWith(data)) ==> ok
    {
      hide Content, Payload, Flatten, Ready, Undisturbed, Agrees, Rest, Leaves;
      CalmIfFits(records + [data]);
      ok := Mirror(data);
      if ok {
        ghost var mirrored := Before();
        ok := Copy();
        UndisturbedTwice(artifact.id, stream, |data|, 0 - |data|, old(Before()), mirrored, Before());
      }
    }

    lemma HasLog()
      requires Steady()
      ensures artifact.id in artifact.store.logs
    {
    }

    /** A line inside a key block: nothing is emitted. */
    method SkipLine(line: Bytes)
      requires Steady() && privateKey
      modifies `privateKey
      ensures Steady() && Undisturbed(artifact.id, stream, 0, old(Before()), Before())
      ensures Now() == EmitLine(redactor, old(Now()), line) && (old(Agrees()) ==> Agrees())
      ensures privateKey == !redactor.endsKey(line)
    {
      hide Ready, Undisturbed, Agrees, Rest, Leaves;
      HasLog();
      privateKey := !redactor.endsKey(line);
      NothingDisturbed();
    }

    /** emitRedactedLine. */
    method EmitRedactedLine(line: Bytes) returns (ok: bool)
      requires Steady()
      modifies `privateKey, `copying, `head, `tail, `total, `records, `healthy, artifact`position, artifact.store
      ensures Steady() && Undisturbed(artifact.id, stream, 0, old(Before()), Before())
      ensures healthy == (old(healthy) && ok)
      ensures ok ==> Now() == EmitLine(redactor, old(Now()), line) && (old(Agrees()) ==> Agrees())
      ensures ok ==>
        records == old(records) +
        if old(privateKey) then []
        else if redactor.beginsKey(line) then [redactor.keyMark]
        else [redactor.redact(line)]
      ensures ok ==> privateKey == if old(privateKey) then !redactor.endsKey(line) else redactor.beginsKey(line)
      ensures ok ==> Rest() == old(Rest())
      ensures old(Fits(EmitLine(redactor, Now(), line).out)) ==> ok
    {
      hide Content, Payload, Flatten, Ready, Undisturbed, Agrees, Rest, Leaves;
      if privateKey {
        SkipLine(line);
        return true;
      }
      var begins := redactor.beginsKey(line);
      ok := Emit(if begins then redactor.keyMark else redactor.redact(line));
      privateKey := begins;
    }

    lemma NothingDisturbed()
      requires artifact.id in artifact.store.logs
      ensures Undisturbed(artifact.id, stream, 0, Before(), Before())
    {
      hide Payload, Content;
    }

    /** One line off the front of what waits: past an oversized record only its newline is kept. */
    method TakeOne(newline: nat) returns (ok: bool)
      requires Steady() && newline < |pending|
      modifies `pending, `oversized, `privateKey, `copying, `head, `tail, `total, `records, `healthy, artifact`position,
        artifact.store
      ensures Steady() && Undisturbed(artifact.id, stream, 0, old(Before()), Before())
      ensures healthy == (old(healthy) && ok)
      ensures |pending| < old(|pending|)
      ensures ok ==>
        Now() == TakeLine(redactor, old(Now()), newline) && oversized == false && (old(Agrees()) ==> Agrees())
      ensures ok ==> Rest() == old(Rest())
      ensures old(Fits(TakeLine(redactor, Now(), newline).out)) ==> ok
    {
      hide Content, Payload, Flatten, Ready, Undisturbed, Agrees, Rest, Leaves;
      var line, rest := pending[..newline + 1], pending[newline + 1..];
      if oversized {
        ok := Emit([NEWLINE]);
        oversized := false;
      } else {
        ok := EmitRedactedLine(line);
      }
      pending := rest;
    }

    /** What Write does when no newline is left. */
    method Spill() returns (ok: bool)
      requires Steady()
      modifies `pending, `oversized, `copying, `head, `tail, `total, `records, `healthy, artifact`position,
        artifact.store
      ensures Steady() && Undisturbed(artifact.id, stream, 0, old(Before()), Before())
      ensures healthy == (old(healthy) && ok)
      ensures ok ==> Now() == Overflow(redactor, old(Now())) && (old(Agrees()) ==> Agrees())
      ensures ok ==>
        records == old(records) +
        if |old(pending)| <= 65536 || old(oversized) then []
        else if redactor.mayContainSecret(old(pending)) then [redactor.oversizedMark]
        else [redactor.redact(old(pending)[..|old(pending)| - 4096])]
      ensures ok ==> Rest() == old(Rest())
      ensures old(Fits(Overflow(redactor, Now()).out)) ==> ok
    {
      hide Content, Payload, Flatten, Ready, Undisturbed, Agrees, Rest, Leaves;
      var flush := |pending| - OVERLAP;
      if |pending| <= MAX_RECORD || oversized {
        DropWaiting();
        return true;
      }
      var secret := redactor.mayContainSecret(pending);
      ok := Emit(if secret then redactor.oversizedMark else redactor.redact(pending[..flush]));
      if ok {
        pending, oversized := pending[flush..], secret;
      }
    }

    /** Waiting for a newline, or already past the point where a secret may have begun: nothing to emit. */
    method DropWaiting()
      requires Steady() && (|pending| <= MAX_RECORD || oversized)
      modifies `pending
      ensures Steady() && Undisturbed(artifact.id, stream, 0, old(Before()), Before())
      ensures Now() == Overflow(redactor, old(Now())) && (old(Agrees()) ==> Agrees())
    {
      hide Content, Payload, Flatten, Ready, Undisturbed, Agrees, Rest, Leaves;
      HasLog();
      if |pending| > MAX_RECORD {
        pending := pending[|pending| - OVERLAP..];
      }
      NothingDisturbed();
    }

    /** The lines Write takes off the front, until none is complete or one cannot be kept. */
    method TakeLines() returns (ok: bool)
      requires Steady()
      modifies `pending, `oversized, `privateKey, `copying, `head, `tail, `total, `records, `healthy, artifact`position,
        artifact.store
      ensures Steady() && Undisturbed(artifact.id, stream, 0, old(Before()), Before())
      ensures healthy == (old(healthy) && ok)
      ensures ok ==> Absorb(redactor, old(Now())) == Overflow(redactor, Now()) && (old(Agrees()) ==> Agrees())
      ensures ok ==> Rest() == old(Rest())
      ensures old(Fits(Absorb(redactor, Now()).out)) ==> ok
    {
      hide Content, Payload, Flatten, Ready, Agrees, TakeLine, Overflow, Undisturbed, Rest, Leaves;
      HasLog();
      NothingDisturbed();
      ghost var start, first := Now(), Before();
      ok := true;
      while ok && NewlineAt(pending) < |pending|
        invariant Steady() && Undisturbed(artifact.id, stream, 0, first, Before()) && healthy == (old(healthy) && ok)
        invariant ok ==> Absorb(redactor, Now()) == Absorb(redactor, start) && (old(Agrees()) ==> Agrees())
        invariant ok ==> Rest() == old(Rest())
        invariant old(Fits(Absorb(redactor, Now()).out)) ==> ok
        decreases ok, |pending|
      {
        ghost var last := Before();
        AbsorbTakes(redactor, Now());
        LeavesLess(Rest(), artifact.store.totalLimit, artifact.store.itemLimit,
          TakeLine(redactor, Now(), NewlineAt(pending)).out, Absorb(redactor, start).out);
        ok := TakeOne(NewlineAt(pending));
        UndisturbedTwice(artifact.id, stream, 0, 0, first, last, Before());
      }
    }

    /** streamCapture.Write: every complete line, then what is left. */
    method Write(data: Bytes) returns (ok: bool)
      requires Steady()
      modifies `pending, `oversized, `privateKey, `copying, `head, `tail, `total, `records, `healthy, `chunks,
        artifact`position, artifact.store
      ensures Steady() && Undisturbed(artifact.id, stream, 0, old(Before()), Before())
      ensures healthy == (old(healthy) && ok)
      ensures chunks == old(chunks) + [data]
      ensures ok ==> Now() == WriteOne(redactor, old(Now()), data) && (old(Agrees()) ==> Agrees())
      ensures ok ==> Rest() == old(Rest())
      ensures old(Fits(WriteOne(redactor, Now(), data).out)) ==> ok
    {
      hide Content, Payload, Flatten, Ready, Agrees, Absorb, Overflow, Undisturbed, Rest, Leaves;
      pending := pending + data;
      chunks := chunks + [data];
      ghost var first := Before();
      ok := TakeLines();
      if ok {
        ghost var last := Before();
        ok := Spill();
        UndisturbedTwice(artifact.id, stream, 0, 0, first, last, Before());
      }
    }

    /** streamCapture.Close: the last line needs no newline. */
    method Close() returns (ok: bool)
      requires Steady()
      modifies `pending, `privateKey, `copying, `head, `tail, `total, `records, `healthy, artifact`position,
        artifact.store
      ensures Steady() && Undisturbed(artifact.id, stream, 0, old(Before()), Before())
      ensures ok ==> Now() == CloseAll(redactor, old(Now())) && healthy == old(healthy)
      ensures healthy ==> old(healthy) && Rest() == old(Rest()) && (old(Agrees()) ==> Agrees())
      ensures old(Fits(CloseAll(redactor, Now()).out)) ==> ok
    {
      hide Content, Payload, Flatten, Ready, Agrees, EmitLine, Undisturbed, Rest, Leaves;
      HasLog();
      NothingDisturbed();
      CalmIfFits(CloseAll(redactor, Now()).out);
      if |pending| > 0 && !oversized {
        ok := EmitRedactedLine(pending);
        if !ok {
          return;
        }
      }
      pending := [];
      var syncFails := artifact.store.Fails();
      ok := !syncFails;
    }

    /** While every emit succeeded, the stream is what its chunks make it. */
    ghost predicate Faithful()
      reads `pending, `privateKey, `oversized, `records, `chunks, `healthy
    {
      healthy ==> Now() == WriteAll(redactor, chunks)
    }

    lemma NothingYet()
      requires records == [] && head == tail == [] && total == 0 && copying.None?
      requires artifact.id in artifact.store.logs && artifact.store.logs[artifact.id] == []
      requires Content(artifact.store.disk, artifact.id, KindOf(stream)) == Some([])
      ensures Agrees()
    {
    }

    /** What the other stream's writing leaves alone. */
    twostate lemma OtherKeeps(new other: Byte, new delta: int)
      requires Undisturbed(artifact.id, other, delta, old(Before()), Before()) && other != stream && 1 <= other <= 2
      requires 1 <= stream <= 2 && unchanged(`records, `copying, `head, `tail, `total)
      ensures old(Agrees()) ==> Agrees()
      ensures Content(artifact.store.disk, artifact.id, KindOf(stream)) ==
        Content(old(artifact.store.disk), artifact.id, KindOf(stream))
      ensures artifact.store.active == old(artifact.store.active)
      ensures Get(artifact.store.owed, artifact.id) == Get(old(artifact.store.owed), artifact.id) + delta
    {
      hide Payload, Content, Flatten, Prefix, Suffix, Spared, SameTally;
    }
  }

  /** Both quotas leave room for these records of the two streams, and for the marker of what they make up. */
  ghost predicate Affordable(store: ArtifactStore, out: seq<Bytes>, err: seq<Bytes>) {
    && Cost(out) + Cost(err) + |store.MarkerFor(Flatten(out) + Flatten(err))| <= store.totalLimit
    && |Flatten(out)| + |Flatten(err)| <= store.itemLimit
  }

  /** commandCapture: both streams of one command, and the artifact that holds them. */
  class CommandCapture {
    const stdout: StreamCapture
    const stderr: StreamCapture
    const artifact: ArtifactWriter

    constructor (stdout: StreamCapture, stderr: StreamCapture, artifact: ArtifactWriter)
      ensures this.stdout == stdout && this.stderr == stderr && this.artifact == artifact
    {
      this.stdout, this.stderr, this.artifact := stdout, stderr, artifact;
    }

    ghost predicate Joined()
    {
      stdout != stderr && stdout.artifact == stderr.artifact == artifact && stdout.stream == 1 && stderr.stream == 2
    }

    /** The artifact takes what the records of both streams cost. */
    ghost predicate Accounted()
      reads stdout`records, stdout`copying, stderr`records, stderr`copying, artifact.store`artifactUse,
        artifact.store`logicalSizes
    {
      var out, err := stdout.Mirrored(), stderr.Mirrored();
      && Get(artifact.store.artifactUse, artifact.id) == Cost(out) + Cost(err)
      && Get(artifact.store.logicalSizes, artifact.id) == |Flatten(out)| + |Flatten(err)|
    }

    /** Both streams are in order, whichever of them is in the middle of an emit. */
    ghost predicate Sound()
      reads stdout, stderr, artifact, artifact.store, stdout.artifact, stdout.artifact.store, stderr.artifact,
        stderr.artifact.store
    {
      && Joined() && stdout.Ready() && stderr.Ready()
      && Get(artifact.store.owed, artifact.id) == stdout.Promised() + stderr.Promised()
      && (stdout.healthy ==> stdout.Agrees()) && (stderr.healthy ==> stderr.Agrees())
      && (stdout.healthy && stderr.healthy ==> Accounted())
    }

    /** Between two chunks no emit is under way, and both streams are what their chunks make them. */
    ghost predicate Valid()
      reads stdout, stderr, artifact, artifact.store, stdout.artifact, stdout.artifact.store, stderr.artifact,
        stderr.artifact.store
    {
      Sound() && stdout.copying.None? && stderr.copying.None? && stdout.Faithful() && stderr.Faithful()
    }

    /** Nobody else holds an artifact, nothing goes wrong, and both quotas leave room for these records. */
    ghost predicate RoomFor(out: seq<Bytes>, err: seq<Bytes>)
      reads artifact.store`active
    {
      && artifact.store.Alone(artifact.id) && Cost(out) + Cost(err) <= artifact.store.totalLimit
      && |Flatten(out)| + |Flatten(err)| <= artifact.store.itemLimit
    }

    lemma RoomIsCalm(out: seq<Bytes>, err: seq<Bytes>)
      ensures RoomFor(out, err) ==> artifact.store.calm
    {
      hide Cost, Flatten;
    }

    lemma LessRoom(out: seq<Bytes>, err: seq<Bytes>, less: seq<Bytes>, fewer: seq<Bytes>)
      requires less <= out && fewer <= err
      ensures RoomFor(out, err) ==> RoomFor(less, fewer)
    {
      hide Cost;
      CostsNoMore(less, out);
      CostsNoMore(fewer, err);
    }

    /** The two output files, empty, then the artifact; without it the files are removed again. */
    static method OpenFiles(store: ArtifactStore, id: string) returns (r: Result<ArtifactWriter, StoreError>)
      requires store.Consistent() && store.Settled() && id !in store.artifactUse && id !in store.active
      modifies store
      ensures store.Consistent() && store.Settled() && Get(store.owed, id) == 0 && store.usage <= old(store.usage)
      ensures r.Ok? ==>
        store.Valid() && fresh(r.value) && r.value.store == store && r.value.id == id && r.value.Open()
          && r.value.companionCopies == 0
      ensures r.Ok? ==> store.active == Add(old(store.active), id, 1)
      ensures r.Ok? ==>
        id in store.logs && store.logs[id] == []
          && Content(store.disk, id, Stdout) == Content(store.disk, id, Stderr) == Some([])
      ensures r.Ok? ==> Get(store.artifactUse, id) == Get(store.logicalSizes, id) == 0
      ensures r.Err? ==> store.active == old(store.active)
      ensures Spared(old(store.active).Keys, {id}, old(store.Now()), store.Now())
      ensures store.calm && old(store.usage) <= store.totalLimit ==> r.Ok?
    {
      hide Content, Total, Size, store.Consistent, store.Settled, Spared, BytesOf, CompanionBytes;
      store.UnusedIsEmpty(id);
      NothingMoved(store.active.Keys, store.Now());
      SparedLess(store.active.Keys, {}, {id}, store.Now(), store.Now());
      var outFails := store.Fails();
      var errFails := store.Fails();
      if outFails {
        return Err(IoFailure);
      }
      OpenBoth(store, id, errFails);
      if errFails {
        return Err(IoFailure);
      }
      store.UnusedIsEmpty(id);
      ghost var prepared := store.Now();
      r := store.Create(id);
      SparedTwice(old(store.active).Keys, {id}, old(store.Now()), prepared, store.Now());
      if r.Err? {
        ghost var created := store.Now();
        RemoveBoth(store, id);
        SparedTwice(old(store.active).Keys, {id}, old(store.Now()), created, store.Now());
      } else {
        StillNoBytes(prepared.disk, store.disk, id);
      }
    }

    /** The two output files are opened with truncation; the second may fail. */
    static method OpenBoth(store: ArtifactStore, id: string, errFails: bool)
      requires store.Consistent() && store.Settled() && id !in store.artifactUse && id !in store.active
      modifies store`disk
      ensures store.Consistent() && store.Settled()
      ensures !errFails ==> Content(store.disk, id, Stdout) == Content(store.disk, id, Stderr) == Some([])
      ensures Spared(store.active.Keys, {id}, old(store.Now()), store.Now())
    {
      hide Content, Total, Size, store.Consistent, store.Settled, Spared;
      store.UnusedIsEmpty(id);
      store.OpenEmpty(Path(id, Stdout));
      OnlyFilesSpare(store.active.Keys, old(store.Now()), store.Now(), id, {Stdout});
      if !errFails {
        ghost var first := store.Now();
        store.UnusedIsEmpty(id);
        store.OpenEmpty(Path(id, Stderr));
        OnlyFilesSpare(store.active.Keys, first, store.Now(), id, {Stderr});
        SparedTwice(store.active.Keys, {id}, old(store.Now()), first, store.Now());
      }
    }

    /** The way back when there is no artifact for them. */
    static method RemoveBoth(store: ArtifactStore, id: string)
      requires store.Consistent() && store.Settled() && id !in store.artifactUse && id !in store.active
      modifies store`disk
      ensures store.Consistent() && store.Settled()
      ensures Spared(store.active.Keys, {id}, old(store.Now()), store.Now())
    {
      hide Content, Total, Size, store.Consistent, store.Settled, Spared;
      store.UnusedIsEmpty(id);
      store.RemoveEmpty(Path(id, Stdout));
      OnlyFilesSpare(store.active.Keys, old(store.Now()), store.Now(), id, {Stdout});
      ghost var first := store.Now();
      store.UnusedIsEmpty(id);
      store.RemoveEmpty(Path(id, Stderr));
      OnlyFilesSpare(store.active.Keys, first, store.Now(), id, {Stderr});
      SparedTwice(store.active.Keys, {id}, old(store.Now()), first, store.Now());
    }

    /** The two captures on top of the new artifact, each with one companion copy of its records. */
    static method Attach(artifact: ArtifactWriter, limit: int, redactor: Redactor) returns (capture: CommandCapture)
      requires artifact.store.Valid() && artifact.Open() && Get(artifact.store.owed, artifact.id) == 0
      requires artifact.id in artifact.store.logs && artifact.store.logs[artifact.id] == []
      requires Content(artifact.store.disk, artifact.id, Stdout) == Content(artifact.store.disk, artifact.id, Stderr) ==
        Some([])
      requires Get(artifact.store.artifactUse, artifact.id) == Get(artifact.store.logicalSizes, artifact.id) == 0
      modifies artifact`companionCopies
      ensures fresh(capture) && fresh(capture.stdout) && fresh(capture.stderr)
      ensures capture.Valid() && capture.artifact == artifact
      ensures capture.stdout.redactor == capture.stderr.redactor == redactor
      ensures capture.stdout.chunks == capture.stderr.chunks == [] && capture.stdout.healthy && capture.stderr.healthy
      ensures capture.stdout.records == capture.stderr.records == []
      ensures capture.stdout.headLimit == capture.stdout.tailLimit == (if limit > 0 then limit else 0)
      ensures capture.stderr.headLimit == capture.stderr.tailLimit == (if limit > 0 then limit else 0)
    {
      hide Content, Total, artifact.store.Valid, artifact.store.WritingIs, StreamCapture.Agrees, Unmarked;
      artifact.companionCopies := 1;
      var stdout := new StreamCapture(redactor, artifact, 1, limit, limit);
      var stderr := new StreamCapture(redactor, artifact, 2, limit, limit);
      stdout.NothingYet();
      stderr.NothingYet();
      capture := new CommandCapture(stdout, stderr, artifact);
    }

    /** newCommandCapture, for the identifier of a new command. */
    static method Start(store: ArtifactStore, id: string, limit: int, redactor: Redactor)
      returns (r: Result<CommandCapture, StoreError>)
      requires store.Consistent() && store.Settled() && id !in store.artifactUse && id !in store.active
      modifies store
      ensures store.Consistent() && store.Settled() && store.usage <= old(store.usage)
      ensures r.Ok? ==> fresh(r.value) && fresh(r.value.stdout) && fresh(r.value.stderr) && fresh(r.value.artifact)
      ensures r.Ok? ==> r.value.Valid() && r.value.artifact.store == store && r.value.artifact.id == id
      ensures r.Ok? ==> !r.value.artifact.finished
      ensures r.Ok? ==> store.active == Add(old(store.active), id, 1)
      ensures r.Ok? ==> r.value.stdout.redactor == r.value.stderr.redactor == redactor
      ensures r.Ok? ==>
        r.value.stdout.chunks == r.value.stderr.chunks == [] && r.value.stdout.healthy && r.value.stderr.healthy
      ensures r.Ok? ==> r.value.stdout.records == r.value.stderr.records == []
      ensures r.Ok? ==> r.value.stdout.headLimit == r.value.stdout.tailLimit == (if limit > 0 then limit else 0)
      ensures r.Ok? ==> r.value.stderr.headLimit == r.value.stderr.tailLimit == (if limit > 0 then limit else 0)
      ensures r.Err? ==> store.active == old(store.active)
      ensures Spared(old(store.active).Keys, {id}, old(store.Now()), store.Now())
      ensures store.calm && old(store.usage) <= store.totalLimit ==> r.Ok?
    {
      hide Content, Total, store.Consistent, store.Settled, ArtifactStore.WritingIs, Spared, Unmarked,
        CommandCapture.Sound, StreamCapture.Faithful;
      var artifact := OpenFiles(store, id);
      if artifact.Err? {
        return Err(artifact.error);
      }
      var capture := Attach(artifact.value, limit, redactor);
      r := Ok(capture);
    }

    /** What stands beside one stream is the other one. */
    ghost function Other(records: seq<Bytes>): Beside
      reads artifact.store`active
    {
      Beside(Cost(records), |Flatten(records)|, artifact.store.Alone(artifact.id))
    }

    lemma AccountedMeans()
      requires Joined()
      ensures Accounted() <==> stdout.Rest() == Other(stderr.Mirrored())
      ensures Accounted() <==> stderr.Rest() == Other(stdout.Mirrored())
    {
      hide Cost, Flatten, StreamCapture.Mirrored;
    }

    /** One of the two streams, and the other one. */
    function Of(stream: Byte): StreamCapture { if stream == 1 then stdout else stderr }

    function Beyond(stream: Byte): StreamCapture { if stream == 1 then stderr else stdout }

    /** A stream between two chunks. */
    ghost predicate Idle(stream: Byte)
      reads Of(stream)
    {
      Of(stream).copying.None? && Of(stream).Faithful()
    }

    twostate lemma WasAccounted(new stream: Byte)
      requires Joined() && 1 <= stream <= 2
      ensures old(Accounted()) <==> old(Of(stream).Rest()) == old(Other(Beyond(stream).Mirrored()))
    {
      hide Cost, Flatten, StreamCapture.Mirrored;
    }

    /** One stream took a step, the other one none: both are in order again. */
    twostate lemma StillSound(new stream: Byte, new delta: int)
      requires old(Sound()) && 1 <= stream <= 2 && unchanged(Beyond(stream))
      requires Of(stream).Ready() && Undisturbed(artifact.id, stream, delta, old(stdout.Before()), stdout.Before())
      requires Of(stream).Promised() == old(Of(stream).Promised()) + delta
      requires Of(stream).healthy ==> old(Of(stream).healthy) && Of(stream).Rest() == old(Of(stream).Rest())
      requires Of(stream).healthy && old(Of(stream).Agrees()) ==> Of(stream).Agrees()
      ensures Sound() && artifact.store.active == old(artifact.store.active)
    {
      hide Content, Undisturbed, StreamCapture.Agrees, StreamCapture.Rest, Accounted, Cost, Flatten, Unmarked,
        ArtifactStore.Consistent, StreamCapture.Mirrored;
      Beyond(stream).OtherKeeps(stream, delta);
      WasAccounted(stream);
      AccountedMeans();
    }

    /** Room for these records of one stream beside those the other one has. */
    ghost predicate RoomWith(stream: Byte, out: seq<Bytes>)
      reads stdout, stderr, artifact.store`active
    {
      if stream == 1 then RoomFor(out, stderr.Mirrored()) else RoomFor(stdout.Mirrored(), out)
    }

    lemma RoomFits(stream: Byte, out: seq<Bytes>)
      requires Joined() && 1 <= stream <= 2
      ensures Accounted() && RoomWith(stream, out) ==> Of(stream).Fits(out)
    {
      hide Cost, Flatten, StreamCapture.Mirrored, StreamCapture.Rest, Accounted;
      AccountedMeans();
    }

    lemma SoundFits(stream: Byte, out: seq<Bytes>)
      requires Sound() && 1 <= stream <= 2
      ensures stdout.healthy && stderr.healthy && RoomWith(stream, out) ==> Of(stream).Fits(out)
    {
      hide Cost, Flatten, Accounted, RoomFor, StreamCapture.Ready, StreamCapture.Agrees, StreamCapture.Fits;
      RoomFits(stream, out);
    }

    /** The first half of an emit of one stream, wherever the other one stands. */
    method Mirror(stream: Byte, data: Bytes) returns (ok: bool)
      requires Sound() && 1 <= stream <= 2 && Of(stream).copying.None?
      modifies Of(stream), artifact`position, artifact.store
      ensures Sound() && artifact.store.active == old(artifact.store.active)
      ensures Of(stream).copying == (if ok then Some(data) else None) && Of(stream).records == old(Of(stream).records)
      ensures Of(stream).healthy == (old(Of(stream).healthy) && ok)
      ensures old(stdout.healthy && stderr.healthy && RoomWith(stream, Of(stream).records + [data])) ==> ok
    {
      hide Content, Undisturbed, RoomWith, Accounted, StreamCapture.Agrees, StreamCapture.Rest, StreamCapture.Fits,
        ArtifactStore.Consistent, Unmarked;
      SoundFits(stream, Of(stream).records + [data]);
      ok := Of(stream).Mirror(data);
      StillSound(stream, if ok then |data| else 0);
    }

    /** The second half, which ends with the record on both sides. */
    method Copy(stream: Byte) returns (ok: bool)
      requires Sound() && 1 <= stream <= 2 && Of(stream).copying.Some?
      modifies Of(stream), artifact.store
      ensures Sound() && artifact.store.active == old(artifact.store.active)
      ensures Of(stream).copying.None? && Of(stream).healthy == (old(Of(stream).healthy) && ok)
      ensures Of(stream).records ==
        if ok then old(Of(stream).records) + [old(Of(stream).copying).value] else old(Of(stream).records)
      ensures artifact.store.calm ==> ok
    {
      hide Content, Undisturbed, Accounted, StreamCapture.Agrees, StreamCapture.Rest, ArtifactStore.Consistent,
        Unmarked;
      ok := Of(stream).Copy();
      StillSound(stream, 0 - |old(Of(stream).copying).value|);
    }

    /** A chunk from stdout or stderr, in whatever order they come and wherever the other stream stands. */
    method Write(stream: Byte, data: Bytes) returns (ok: bool)
      requires Sound() && 1 <= stream <= 2 && Idle(stream)
      modifies Of(stream), artifact`position, artifact.store
      ensures Sound() && Idle(stream) && artifact.store.active == old(artifact.store.active)
      ensures Of(stream).chunks == old(Of(stream).chunks) + [data]
      ensures Of(stream).healthy == (old(Of(stream).healthy) && ok)
      ensures old(stdout.healthy && stderr.healthy) ==>
        old(RoomWith(stream, WriteOne(Of(stream).redactor, Of(stream).Now(), data).out)) ==> ok
    {
      hide Content, Undisturbed, RoomWith, Accounted, WriteOne, StreamCapture.Agrees, StreamCapture.Rest,
        StreamCapture.Fits, ArtifactStore.Consistent, Unmarked;
      SoundFits(stream, WriteOne(Of(stream).redactor, Of(stream).Now(), data).out);
      ok := Of(stream).Write(data);
      StillSound(stream, 0);
      WrittenOnce(Of(stream).redactor, old(Of(stream).chunks), data);
    }

    /** What a stream comes to when it is closed. */
    ghost function Final(stream: Byte): seq<Bytes>
      reads Of(stream)
    {
      CloseAll(Of(stream).redactor, Of(stream).Now()).out
    }

    /** Closing one stream. */
    method CloseOne(stream: Byte) returns (ok: bool)
      requires Sound() && 1 <= stream <= 2 && Idle(stream)
      modifies Of(stream), artifact`position, artifact.store
      ensures Sound() && Of(stream).copying.None? && artifact.store.active == old(artifact.store.active)
      ensures Of(stream).chunks == old(Of(stream).chunks)
      ensures ok ==> Of(stream).healthy == old(Of(stream).healthy) && Of(stream).records == old(Final(stream))
      ensures old(stdout.healthy && stderr.healthy && RoomWith(stream, Final(stream))) ==> ok
    {
      hide Content, Undisturbed, RoomWith, Accounted, CloseAll, StreamCapture.Agrees, StreamCapture.Rest,
        StreamCapture.Fits, ArtifactStore.Consistent, Unmarked;
      SoundFits(stream, Final(stream));
      ok := Of(stream).Close();
      StillSound(stream, 0);
    }

    lemma RoomToClose()
      requires Sound() && Idle(1) && Idle(2)
      ensures stdout != stderr && stderr.Mirrored() == stderr.records
      ensures RoomFor(Final(1), Final(2)) ==> RoomWith(1, Final(1))
    {
      hide Cost, Flatten, Accounted, CloseAll, RoomFor, StreamCapture.Ready, StreamCapture.Agrees;
      CloseAdds(stderr.redactor, stderr.Now());
      LessRoom(Final(1), Final(2), Final(1), stderr.records);
    }

    /** Both streams are closed, whatever happens to the first. */
    method CloseStreams() returns (ok: bool)
      requires Sound() && Idle(1) && Idle(2)
      modifies stdout, stderr, artifact`position, artifact.store
      ensures Sound() && stdout.copying.None? && stderr.copying.None?
      ensures artifact.store.active == old(artifact.store.active)
      ensures stdout.chunks == old(stdout.chunks) && stderr.chunks == old(stderr.chunks)
      ensures ok ==> stdout.healthy == old(stdout.healthy) && stderr.healthy == old(stderr.healthy)
      ensures ok ==> stdout.records == old(Final(1)) && stderr.records == old(Final(2))
      ensures old(stdout.healthy && stderr.healthy && RoomFor(Final(1), Final(2))) ==> ok
    {
      hide Sound, RoomFor, CloseAll;
      RoomToClose();
      var left := CloseOne(1);
      var right := CloseOne(2);
      ok := left && right;
    }

    /** With both streams closed the artifact holds stdout, then stderr. */
    lemma BothAgree()
      requires Sound() && stdout.copying.None? && stderr.copying.None? && stdout.healthy && stderr.healthy
      ensures artifact.id in artifact.store.logs && Get(artifact.store.owed, artifact.id) == 0
      ensures Logical(artifact.store.logs[artifact.id]) == Flatten(stdout.records) + Flatten(stderr.records)
      ensures Content(artifact.store.disk, artifact.id, Stdout) == Some(Flatten(stdout.records))
      ensures Content(artifact.store.disk, artifact.id, Stderr) == Some(Flatten(stderr.records))
    {
      hide Payload, Flatten, Content, Cost, ArtifactStore.Valid, ArtifactWriter.Open;
    }

    /** Whether the quotas leave room for the marker is whether they leave room for everything. */
    lemma MarkerFits()
      requires Sound() && stdout.copying.None? && stderr.copying.None? && stdout.healthy && stderr.healthy
      ensures artifact.store.AffordsMarker(artifact.id) <==>
        Affordable(artifact.store, stdout.records, stderr.records)
    {
      hide Payload, Flatten, Content, Cost, StreamCapture.Ready, StreamCapture.Agrees, ArtifactStore.MarkerFor;
      BothAgree();
    }

    /** The second half of Close: the artifact is finished, with a marker when both streams came to their end. */
    method CloseArtifact(whole: bool) returns (ok: bool)
      requires Sound() && stdout.copying.None? && stderr.copying.None? && !artifact.finished
      modifies artifact, artifact.store
      ensures artifact.store.Valid() && artifact.finished
      ensures Get(artifact.store.active, artifact.id) == old(Get(artifact.store.active, artifact.id)) - 1
      ensures forall x :: x != artifact.id ==> Get(artifact.store.active, x) == old(Get(artifact.store.active, x))
      ensures ok ==> whole && artifact.id in artifact.store.sealed && artifact.id in artifact.store.logs
      ensures ok && stdout.healthy && stderr.healthy ==>
        && Content(artifact.store.disk, artifact.id, Stdout) == Some(Flatten(stdout.records))
        && Content(artifact.store.disk, artifact.id, Stderr) == Some(Flatten(stderr.records))
        && Logical(artifact.store.logs[artifact.id]) == Flatten(stdout.records) + Flatten(stderr.records)
        && Affordable(artifact.store, stdout.records, stderr.records)
      ensures whole && stdout.healthy && stderr.healthy && old(artifact.store.Alone(artifact.id)) ==>
        Affordable(artifact.store, stdout.records, stderr.records) ==> ok
    {
      hide Content, Sound, Flatten, Payload, Logical, Affordable, ArtifactStore.Consistent, ArtifactStore.SealIs,
        ArtifactStore.AffordsMarker, ArtifactWriter.Open, Spared;
      SoundMeans();
      if stdout.healthy && stderr.healthy {
        BothAgree();
        MarkerFits();
      }
      var closed := artifact.Finish(whole);
      ok := whole && closed.Ok?;
    }

    /** commandCapture.Close: both streams, then the artifact; a stream that fails aborts it. */
    method Close() returns (ok: bool)
      requires Sound() && Idle(1) && Idle(2) && !artifact.finished
      modifies stdout, stderr, artifact, artifact.store
      ensures artifact.store.Valid() && artifact.finished
      ensures Get(artifact.store.active, artifact.id) == old(Get(artifact.store.active, artifact.id)) - 1
      ensures forall x :: x != artifact.id ==> Get(artifact.store.active, x) == old(Get(artifact.store.active, x))
      ensures stdout.chunks == old(stdout.chunks) && stderr.chunks == old(stderr.chunks)
      ensures ok ==> artifact.id in artifact.store.sealed && artifact.id in artifact.store.logs
      ensures ok ==> stdout.healthy == old(stdout.healthy) && stderr.healthy == old(stderr.healthy)
      ensures ok ==> stdout.records == old(Final(1)) && stderr.records == old(Final(2))
      ensures ok && stdout.healthy && stderr.healthy ==>
        && Content(artifact.store.disk, artifact.id, Stdout) == Some(Flatten(stdout.records))
        && Content(artifact.store.disk, artifact.id, Stderr) == Some(Flatten(stderr.records))
        && Logical(artifact.store.logs[artifact.id]) == Flatten(stdout.records) + Flatten(stderr.records)
        && Affordable(artifact.store, stdout.records, stderr.records)
      ensures old(stdout.healthy && stderr.healthy && artifact.store.Alone(artifact.id)) ==>
        old(Affordable(artifact.store, Final(1), Final(2))) ==> ok
    {
      hide Content, Sound, RoomFor, CloseAll, Flatten, Payload, Logical, Affordable, ArtifactStore.Consistent,
        ArtifactStore.Settled;
      RoomIfAffordable(Final(1), Final(2));
      var whole := CloseStreams();
      ok := CloseArtifact(whole);
    }

    lemma RoomIfAffordable(out: seq<Bytes>, err: seq<Bytes>)
      ensures artifact.store.Alone(artifact.id) && Affordable(artifact.store, out, err) ==> RoomFor(out, err)
    {
      hide Cost, Flatten;
    }

    lemma SoundMeans()
      requires Sound() && stdout.copying.None? && stderr.copying.None?
      ensures Joined() && artifact.store.Valid() && artifact.Open() && Get(artifact.store.owed, artifact.id) == 0
    {
      hide Content, Flatten, Accounted, StreamCapture.Agrees, ArtifactStore.Valid, ArtifactWriter.Open;
    }
  }

  lemma WrittenOnce(r: Redactor, chunks: seq<Bytes>, data: Bytes)
    ensures WriteAll(r, chunks + [data]) == WriteOne(r, WriteAll(r, chunks), data)
  {
    assert (chunks + [data])[..|chunks|] == chunks;
  }

  /** The bound on a preview can be exceeded: two bytes that fit in the head window, and a limit of one. */
  method PreviewCanExceed(redactor: Redactor, artifact: ArtifactWriter) returns (r: Bytes)
    ensures r == [0x61, 0x61]
  {
    var capture := new StreamCapture(redactor, artifact, 1, 2, 2);
    capture.Remember([0x61, 0x61]);
    assert capture.head == [0x61, 0x61];
    TwoLetters();
    r := capture.Preview(1);
  }

  lemma TwoLetters()
    ensures Utf8.LongestValid([0x61, 0x61]) == [0x61, 0x61]
  {
    var text: Bytes := [0x61, 0x61];
    assert text[1..] == [0x61] && text[1..][1..] == [] && text[..2] == text;
  }
}
