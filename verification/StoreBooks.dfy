/** The invariants that tie the artifact store's counters to the bytes on its disk. */
module StoreBooks {
  import opened Wrappers
  import opened ByteStrings
  import opened Frames
  import opened Tallies
  import opened Disks

  type Logs = map<string, seq<Frame>>

  /**
   * For every artifact, tracked or not: what is charged is what lies on disk plus what a write
   * in flight has reserved but not yet put there.
   */
  ghost predicate Balanced(disk: Disk, use: Tally, owed: Tally) {
    forall id: string {:trigger BytesOf(disk, id)} :: Get(use, id) == BytesOf(disk, id) + Get(owed, id)
      && Get(owed, id) >= 0
  }

  /** The record file starts with exactly the committed frames, and both counters describe them. */
  predicate LogIs(content: Bytes, fs: seq<Frame>, logical: int, end: int, limit: int) {
    EncodeAll(fs) <= content && end == |EncodeAll(fs)| && logical == LogicalSize(fs) && Fits(fs, limit)
  }

  ghost predicate Logged(disk: Disk, logs: Logs, logical: Tally, ends: Tally, limit: int) {
    forall id :: id in logs ==>
      && id in logical && id in ends && Content(disk, id, Records).Some?
      && LogIs(Content(disk, id, Records).value, logs[id], logical[id], ends[id], limit)
  }

  // ---- Charging and giving back ----

  lemma ChargeKeepsBalance(disk: Disk, use: Tally, owed: Tally, id: string, amount: int)
    requires Balanced(disk, use, owed) && Get(owed, id) + amount >= 0
    ensures Balanced(disk, Add(use, id, amount), Add(owed, id, amount))
    ensures Total(Add(use, id, amount)) == Total(use) + amount
  {
    TotalUpdate(use, id, Get(use, id) + amount);
    forall x: string
      ensures Get(Add(use, id, amount), x) == BytesOf(disk, x) + Get(Add(owed, id, amount), x)
      ensures Get(Add(owed, id, amount), x) >= 0
    {
      assert Get(use, x) == BytesOf(disk, x) + Get(owed, x);
    }
  }

  /** Putting bytes on disk turns a reservation into disk use. */
  lemma PutKeepsBalance(disk: Disk, use: Tally, owed: Tally, p: Path, f: File)
    requires Balanced(disk, use, owed)
    requires Get(owed, p.id) - (|f.content| - Size(disk, p)) >= 0
    ensures Balanced(disk[p := f], use, Add(owed, p.id, Size(disk, p) - |f.content|))
  {
    var owed' := Add(owed, p.id, Size(disk, p) - |f.content|);
    forall id: string
      ensures Get(use, id) == BytesOf(disk[p := f], id) + Get(owed', id) && Get(owed', id) >= 0
    {
      PutChangesSize(disk, p, f, id);
      assert Get(use, id) == BytesOf(disk, id) + Get(owed, id);
    }
  }

  lemma TouchKeepsBalance(disk: Disk, use: Tally, owed: Tally, p: Path, f: File)
    requires Balanced(disk, use, owed) && |f.content| == Size(disk, p)
    ensures Balanced(disk[p := f], use, owed)
  {
    forall id: string
      ensures Get(use, id) == BytesOf(disk[p := f], id) + Get(owed, id) && Get(owed, id) >= 0
    {
      PutChangesSize(disk, p, f, id);
      assert Get(use, id) == BytesOf(disk, id) + Get(owed, id);
    }
  }

  lemma SameSizesBalance(d: Disk, e: Disk, use: Tally, owed: Tally)
    requires Balanced(d, use, owed) && forall q: Path :: Size(e, q) == Size(d, q)
    ensures Balanced(e, use, owed)
  {
    forall id: string
      ensures Get(use, id) == BytesOf(e, id) + Get(owed, id) && Get(owed, id) >= 0
    {
      assert Get(use, id) == BytesOf(d, id) + Get(owed, id);
    }
  }

  lemma WithoutSizes(disk: Disk, gone: set<string>, id: string)
    ensures BytesOf(Without(disk, gone), id) == if id in gone then 0 else BytesOf(disk, id)
  {
  }

  /** Removing whole artifacts that have nothing in flight keeps the balance. */
  lemma EvictKeepsBalance(disk: Disk, use: Tally, owed: Tally, gone: set<string>)
    requires Balanced(disk, use, owed) && forall id :: id in gone ==> Get(owed, id) == 0
    ensures Balanced(Without(disk, gone), use - gone, owed)
  {
    forall id: string
      ensures Get(use - gone, id) == BytesOf(Without(disk, gone), id) + Get(owed, id) && Get(owed, id) >= 0
    {
      WithoutSizes(disk, gone, id);
      assert Get(use, id) == BytesOf(disk, id) + Get(owed, id);
    }
  }

  lemma EvictKeepsLogs(disk: Disk, logs: Logs, logical: Tally, ends: Tally, limit: int, gone: set<string>)
    requires Logged(disk, logs, logical, ends, limit)
    ensures Logged(Without(disk, gone), logs - gone, logical - gone, ends - gone, limit)
  {
    hide LogIs;
  }

  lemma ChargesAreNatural(disk: Disk, use: Tally, owed: Tally, id: string)
    requires Balanced(disk, use, owed)
    ensures Get(use, id) == BytesOf(disk, id) + Get(owed, id) && Get(owed, id) >= 0 && Get(use, id) >= 0
  {
  }

  lemma NoFilesNoCharge(disk: Disk, use: Tally, owed: Tally, id: string)
    requires Balanced(disk, use, owed) && NoFiles(disk, id) && Get(owed, id) == 0
    ensures Get(use, id) == 0
  {
    NoFilesNoBytes(disk, id);
  }

  /** One frame more at the end of a whole log. */
  lemma OneFrameMore(fs: seq<Frame>, f: Frame, logical: int, end: int, limit: int)
    requires LogIs(EncodeAll(fs), fs, logical, end, limit) && |f.data| <= limit
    ensures var content := EncodeAll(fs) + Header(f) + f.data;
      && content == EncodeAll(fs + [f]) && |content| == |EncodeAll(fs)| + HEADER + |f.data|
      && LogIs(content, fs + [f], logical + |f.data|, |content|, limit)
  {
    hide EncodeAll, Header, LogicalSize;
    AppendOne(fs, f);
    assert EncodeAll(fs) + Header(f) + f.data == EncodeAll(fs) + Encode(f);
  }

  /** Appending one frame to a record file, with the counters WriteRecord sets. */
  lemma AppendKeepsLogs(disk: Disk, logs: Logs, logical: Tally, ends: Tally, limit: int, id: string, f: Frame, mod: int)
    requires Logged(disk, logs, logical, ends, limit) && id in logs && |f.data| <= limit
    requires Content(disk, id, Records) == Some(EncodeAll(logs[id]))
    ensures var p, content := Path(id, Records), EncodeAll(logs[id]) + Header(f) + f.data;
      && content == EncodeAll(logs[id] + [f])
      && Logged(disk[p := File(content, mod)], logs[id := logs[id] + [f]], Add(logical, id, |f.data|),
        ends[id := |EncodeAll(logs[id])| + HEADER + |f.data|], limit)
  {
    hide LogIs, EncodeAll, Header;
    OneFrameMore(logs[id], f, logical[id], ends[id], limit);
    var content := EncodeAll(logs[id]) + Header(f) + f.data;
    assert forall x, k :: x != id ==>
      Content(disk[Path(id, Records) := File(content, mod)], x, k) == Content(disk, x, k);
  }

  /** An empty record file is a log without frames. */
  lemma EmptyLog(limit: int)
    ensures LogIs([], [], 0, 0, limit)
  {
  }

  /** An empty record file is a log without frames. */
  lemma FreshKeepsLogs(disk: Disk, logs: Logs, logical: Tally, ends: Tally, limit: int, id: string, mod: int)
    requires Logged(disk, logs, logical, ends, limit)
    ensures var blank := Blank(disk, id, mod);
      Logged(blank, logs[id := []], logical[id := 0], ends[id := 0], limit)
  {
    hide LogIs;
    EmptyLog(limit);
  }

  /** Recounting an artifact after its log is emptied and its marker removed. */
  lemma FreshKeepsBalance(disk: Disk, use: Tally, owed: Tally, id: string, mod: int)
    requires Balanced(disk, use, owed) && Get(owed, id) == 0
    ensures var blank := Blank(disk, id, mod);
      && Balanced(blank, use[id := CompanionBytes(blank, id)], owed)
      && CompanionBytes(blank, id) <= Get(use, id)
  {
    var blank := Blank(disk, id, mod);
    forall x: string
      ensures Get(use[id := CompanionBytes(blank, id)], x) == BytesOf(blank, x) + Get(owed, x) && Get(owed, x) >= 0
    {
      assert Get(use, x) == BytesOf(disk, x) + Get(owed, x);
    }
    assert Get(use, id) == BytesOf(disk, id) + Get(owed, id);
  }

  /** The disk after a log is restarted: an empty record file and no marker. */
  function Blank(disk: Disk, id: string, mod: int): Disk {
    (disk - {Path(id, Marker)})[Path(id, Records) := File([], mod)]
  }

  lemma BlankContents(disk: Disk, id: string, mod: int)
    ensures Content(Blank(disk, id, mod), id, Records) == Some([]) && Content(Blank(disk, id, mod), id, Marker).None?
    ensures forall x, k :: x != id || (k != Records && k != Marker) ==>
      Content(Blank(disk, id, mod), x, k) == Content(disk, x, k)
  {
  }

  lemma EvictionContents(disk: Disk, gone: set<string>)
    ensures forall id, k :: id !in gone ==> Content(Without(disk, gone), id, k) == Content(disk, id, k)
  {
  }

  /** Appending to a record file turns the reservation for the frame into disk use. */
  lemma AppendKeepsBalance(disk: Disk, use: Tally, owed: Tally, id: string, f: Frame, content: Bytes, mod: int)
    requires Balanced(disk, use, owed) && Content(disk, id, Records).Some?
    requires |content| == |Content(disk, id, Records).value| + HEADER + |f.data|
    requires HEADER + |f.data| <= Get(owed, id)
    ensures Balanced(disk[Path(id, Records) := File(content, mod)], use, Add(owed, id, 0 - HEADER - |f.data|))
  {
    PutKeepsBalance(disk, use, owed, Path(id, Records), File(content, mod));
  }

  // ---- Starting from whatever is on disk ----

  function IdsOn(disk: Disk): set<string> { set p | p in disk :: p.id }

  /** The artifacts in `seen` are counted byte for byte, and their logs hold what a scan accepts. */
  ghost predicate Scanned(
    disk: Disk, use: Tally, logs: Logs, logical: Tally, ends: Tally, limit: int, seen: set<string>)
  {
    && use.Keys == seen && (forall id :: id in seen ==> use[id] == BytesOf(disk, id))
    && (forall id :: id in logs <==> id in seen && Content(disk, id, Records).Some?)
    && (forall id :: id in logs ==> logs[id] == Accepted(Content(disk, id, Records).value, limit, 0))
    && Logged(disk, logs, logical, ends, limit)
  }

  /** The record log of this artifact has a frame length out of range. */
  predicate Damaged(disk: Disk, id: string, limit: int) {
    Content(disk, id, Records).Some? && ScanFrom(Content(disk, id, Records).value, limit, 0, 0).Err?
  }

  ghost predicate Undamaged(disk: Disk, ids: set<string>, limit: int) {
    forall id :: id in ids ==> !Damaged(disk, id, limit)
  }

  lemma OneMoreUndamaged(disk: Disk, ids: set<string>, limit: int, id: string)
    requires Undamaged(disk, ids, limit) && !Damaged(disk, id, limit)
    ensures Undamaged(disk, ids + {id}, limit)
  {
    hide Damaged;
  }

  lemma AllUndamaged(disk: Disk, limit: int)
    requires Undamaged(disk, IdsOn(disk), limit)
    ensures forall id :: !Damaged(disk, id, limit)
  {
    NoOtherLogs(disk);
    forall id
      ensures !Damaged(disk, id, limit)
    {
      hide ScanFrom, IdsOn;
    }
  }

  lemma NothingScanned(disk: Disk, limit: int)
    ensures Scanned(disk, map[], map[], map[], map[], limit, {}) && Total(map[]) == 0
  {
  }

  lemma NotYetScanned(
    disk: Disk, use: Tally, logs: Logs, logical: Tally, ends: Tally, limit: int, seen: set<string>, id: string)
    requires Scanned(disk, use, logs, logical, ends, limit, seen) && id !in seen
    ensures Total(use[id := BytesOf(disk, id)]) == Total(use) + BytesOf(disk, id)
  {
    hide BytesOf, Total, Logged;
    TotalUpdate(use, id, BytesOf(disk, id));
  }

  lemma NoOtherLogs(disk: Disk)
    ensures forall id :: Content(disk, id, Records).Some? ==> id in IdsOn(disk)
  {
    forall id | Content(disk, id, Records).Some?
      ensures id in IdsOn(disk)
    {
      assert Path(id, Records).id in IdsOn(disk);
    }
  }

  lemma ScanAccepted(log: Bytes, limit: int)
    requires ScanFrom(log, limit, 0, 0).Ok?
    ensures var s := ScanFrom(log, limit, 0, 0).value;
      LogIs(log, Accepted(log, limit, 0), s.logical, s.physical, limit)
  {
    hide Accepted, ScanFrom, EncodeAll;
    ScanAccepts(log, limit, 0, 0);
    var s := ScanFrom(log, limit, 0, 0).value;
    assert log[0..s.physical] == log[..s.physical];
  }

  lemma ScanCounts(
    disk: Disk, use: Tally, logs: Logs, logical: Tally, ends: Tally, limit: int, seen: set<string>, id: string)
    requires Scanned(disk, use, logs, logical, ends, limit, seen) && id !in seen && Content(disk, id, Records).None?
    ensures Scanned(disk, use[id := BytesOf(disk, id)], logs, logical, ends, limit, seen + {id})
  {
    hide Accepted, BytesOf, LogIs, Content;
  }

  lemma ScanAdds(
    disk: Disk, use: Tally, logs: Logs, logical: Tally, ends: Tally, limit: int, seen: set<string>, id: string)
    requires Scanned(disk, use, logs, logical, ends, limit, seen) && id !in seen && Content(disk, id, Records).Some?
    requires ScanFrom(Content(disk, id, Records).value, limit, 0, 0).Ok?
    ensures var log := Content(disk, id, Records).value;
      var s := ScanFrom(log, limit, 0, 0).value;
      Scanned(disk, use[id := BytesOf(disk, id)], logs[id := Accepted(log, limit, 0)], logical[id := s.logical],
        ends[id := s.physical], limit, seen + {id})
  {
    hide Accepted, ScanFrom, BytesOf, LogIs, Content;
    ScanAccepted(Content(disk, id, Records).value, limit);
  }

  lemma ScannedBalances(disk: Disk, use: Tally, logs: Logs, logical: Tally, ends: Tally, limit: int)
    requires Scanned(disk, use, logs, logical, ends, limit, IdsOn(disk))
    ensures Balanced(disk, use, map[])
  {
    forall id: string
      ensures Get(use, id) == BytesOf(disk, id) + Get(map[], id) && Get(map[], id) >= 0
    {
      if id !in IdsOn(disk) {
        NothingOnDisk(disk, id);
      }
    }
  }

  lemma NothingOnDisk(disk: Disk, id: string)
    requires id !in IdsOn(disk)
    ensures BytesOf(disk, id) == 0
  {
    assert forall k :: Path(id, k) in disk ==> Path(id, k).id in IdsOn(disk);
  }

  // ---- The counters of each artifact ----

  datatype Entries = Entries(use: Tally, logical: Tally, ends: Tally)

  function Dropped(e: Entries, gone: set<string>): Entries {
    Entries(e.use - gone, e.logical - gone, e.ends - gone)
  }

  lemma DropsNothing(e: Entries)
    ensures Dropped(e, {}) == e
  {
    DropNothing(e.use);
    DropNothing(e.logical);
    DropNothing(e.ends);
  }

  lemma DropsMore(e: Entries, gone: set<string>, id: string)
    ensures Dropped(Dropped(e, gone), {id}) == Dropped(e, gone + {id})
  {
    DropOneMore(e.use, gone, id);
    DropOneMore(e.logical, gone, id);
    DropOneMore(e.ends, gone, id);
  }

  // ---- What holders rely on ----

  /** The files of a store and what is known about its logs. */
  datatype Archive = Archive(disk: Disk, logs: Logs, writing: set<string>, sealed: set<string>)

  /** The log of an artifact, who writes it and whether it is sealed are the same. */
  predicate SameLog(a: Archive, b: Archive, id: string) {
    && (id in a.logs <==> id in b.logs) && (id in a.logs ==> a.logs[id] == b.logs[id])
    && (id in a.writing <==> id in b.writing) && (id in a.sealed <==> id in b.sealed)
  }

  /** And so are its files, except those named. */
  ghost predicate SameBut(a: Archive, b: Archive, id: string, kinds: set<Kind>) {
    SameLog(a, b, id) && forall k :: k !in kinds ==> Content(b.disk, id, k) == Content(a.disk, id, k)
  }

  ghost predicate SameArtifact(a: Archive, b: Archive, id: string) { SameBut(a, b, id, {}) }

  ghost predicate NothingLeft(b: Archive, id: string) {
    id !in b.logs && id !in b.writing && id !in b.sealed && forall k :: Content(b.disk, id, k).None?
  }

  /** Held artifacts are as they were, idle ones whole or gone; nothing is said about those in `besides`. */
  ghost predicate Spared(held: set<string>, besides: set<string>, a: Archive, b: Archive) {
    forall x :: x !in besides ==> SameArtifact(a, b, x) || (x !in held && NothingLeft(b, x))
  }

  lemma SparedTwice(held: set<string>, besides: set<string>, a: Archive, b: Archive, c: Archive)
    requires Spared(held, besides, a, b) && Spared(held, besides, b, c)
    ensures Spared(held, besides, a, c)
  {
    forall x | x !in besides
      ensures SameArtifact(a, c, x) || (x !in held && NothingLeft(c, x))
    {
      if SameArtifact(a, b, x) && SameArtifact(b, c, x) {
        SameTwice(a, b, c, x, {});
      } else if NothingLeft(b, x) && SameArtifact(b, c, x) {
        StillNothing(b, c, x);
      }
    }
  }

  lemma SameTwice(a: Archive, b: Archive, c: Archive, id: string, kinds: set<Kind>)
    requires SameBut(a, b, id, kinds) && SameBut(b, c, id, kinds)
    ensures SameBut(a, c, id, kinds)
  {
    hide Content;
  }

  lemma StillNothing(a: Archive, b: Archive, id: string)
    requires NothingLeft(a, id) && SameArtifact(a, b, id)
    ensures NothingLeft(b, id)
  {
    hide Content;
  }

  lemma SparedLess(held: set<string>, besides: set<string>, more: set<string>, a: Archive, b: Archive)
    requires Spared(held, besides, a, b) && besides <= more
    ensures Spared(held, more, a, b)
  {
    hide SameArtifact, NothingLeft;
  }

  lemma NothingMoved(held: set<string>, a: Archive)
    ensures Spared(held, {}, a, a)
  {
  }

  lemma WasSpared(held: set<string>, besides: set<string>, a: Archive, b: Archive, id: string)
    requires Spared(held, besides, a, b) && id !in besides
    ensures id in held ==> SameArtifact(a, b, id)
    ensures SameArtifact(a, b, id) || NothingLeft(b, id)
  {
    hide SameArtifact, NothingLeft;
  }

  /** The record file of `id` holds its log and nothing more, and there is no marker. */
  predicate Unmarked(disk: Disk, logs: Logs, id: string) {
    id in logs && Content(disk, id, Records) == Some(EncodeAll(logs[id])) && Content(disk, id, Marker).None?
  }

  lemma StillUnmarked(a: Archive, b: Archive, id: string)
    requires SameArtifact(a, b, id) && Unmarked(a.disk, a.logs, id)
    ensures Unmarked(b.disk, b.logs, id) && b.logs[id] == a.logs[id] && SameLog(a, b, id)
  {
    hide Content, EncodeAll;
  }

  /** Only files of one artifact were written. */
  ghost predicate OnlyFiles(a: Archive, b: Archive, id: string, kinds: set<Kind>) {
    && b.logs == a.logs && b.writing == a.writing && b.sealed == a.sealed
    && forall x, k :: x != id || k !in kinds ==> Content(b.disk, x, k) == Content(a.disk, x, k)
  }

  lemma NothingWritten(a: Archive, id: string)
    ensures OnlyFiles(a, a, id, {})
  {
  }

  lemma OnlyFilesSpare(held: set<string>, a: Archive, b: Archive, id: string, kinds: set<Kind>)
    requires OnlyFiles(a, b, id, kinds)
    ensures Spared(held, {id}, a, b) && SameBut(a, b, id, kinds)
  {
    hide Content;
  }

  lemma HeldSpared(held: set<string>, a: Archive, b: Archive, id: string, kinds: set<Kind>)
    requires Spared(held, {}, a, b) && id in held
    ensures SameArtifact(a, b, id) && SameBut(a, b, id, kinds) && Spared(held, {id}, a, b)
  {
    hide Spared, Content;
    WasSpared(held, {}, a, b, id);
    SparedLess(held, {}, {id}, a, b);
  }

  lemma ThenFiles(held: set<string>, a: Archive, b: Archive, c: Archive, id: string, kinds: set<Kind>)
    requires Spared(held, {id}, a, b) && SameBut(a, b, id, kinds) && OnlyFiles(b, c, id, kinds)
    ensures Spared(held, {id}, a, c) && SameBut(a, c, id, kinds)
  {
    OnlyFilesSpare(held, b, c, id, kinds);
    SparedTwice(held, {id}, a, b, c);
    SameTwice(a, b, c, id, kinds);
  }

  lemma ThenNothing(held: set<string>, a: Archive, b: Archive, c: Archive, id: string)
    requires Spared(held, {}, a, b) && OnlyFiles(b, c, id, {})
    ensures Spared(held, {}, a, c)
  {
    assert Spared(held, {}, b, c);
    SparedTwice(held, {}, a, b, c);
  }

  /** Nothing was promised for an artifact nobody holds. */
  ghost predicate NothingOwed(active: Tally, owed: Tally) {
    forall id :: id !in active ==> Get(owed, id) == 0
  }

  lemma SameOwesNothing(active: Tally, owed: Tally, now: Tally)
    requires NothingOwed(active, owed) && SameTally(owed, now)
    ensures NothingOwed(active, now)
  {
  }

  lemma HolderMayOwe(active: Tally, owed: Tally, now: Tally, id: string, amount: int)
    requires NothingOwed(active, owed) && Moved(owed, now, id, amount) && (id in active || amount == 0)
    ensures NothingOwed(active, now)
  {
  }

  lemma FewerHold(active: Tally, now: Tally, owed: Tally, id: string)
    requires NothingOwed(active, owed) && (Get(owed, id) == 0 || id in now) && active.Keys <= now.Keys + {id}
    ensures NothingOwed(now, owed)
  {
  }

  /** A file that is written, or removed, is the only one to change. */
  lemma PutIsOnly(a: Archive, p: Path, f: File)
    ensures OnlyFiles(a, a.(disk := a.disk[p := f]), p.id, {p.kind})
  {
  }

  lemma RemoveIsOnly(a: Archive, p: Path)
    ensures OnlyFiles(a, a.(disk := a.disk - {p}), p.id, {p.kind})
  {
  }

  lemma TouchIsNone(a: Archive, p: Path, f: File)
    requires Content(a.disk, p.id, p.kind) == Some(f.content)
    ensures OnlyFiles(a, a.(disk := a.disk[p := f]), p.id, {})
  {
    assert p == Path(p.id, p.kind);
  }

  lemma SameRecordsLogged(d: Disk, e: Disk, logs: Logs, logical: Tally, ends: Tally, limit: int)
    requires Logged(d, logs, logical, ends, limit)
    requires forall id :: Content(e, id, Records) == Content(d, id, Records)
    ensures Logged(e, logs, logical, ends, limit)
  {
    hide LogIs, Content;
  }

  lemma SameSize(a: Archive, b: Archive, p: Path)
    requires SameArtifact(a, b, p.id)
    ensures Size(b.disk, p) == Size(a.disk, p)
  {
    assert p == Path(p.id, p.kind);
    assert Content(b.disk, p.id, p.kind) == Content(a.disk, p.id, p.kind);
  }

  /** An artifact that is idle but for one's own hold is still spared. */
  lemma MoreHeld(held: set<string>, a: Archive, b: Archive, id: string)
    requires Spared(held + {id}, {id}, a, b)
    ensures Spared(held, {id}, a, b)
  {
    hide SameArtifact, NothingLeft;
  }

  /** The log of one artifact was restarted: empty, without a marker, and with a writer. */
  ghost predicate LogStarted(a: Archive, b: Archive, id: string) {
    && b.logs == a.logs[id := []] && b.writing == a.writing + {id} && b.sealed == a.sealed - {id}
    && forall x, k :: x != id || (k != Records && k != Marker) ==> Content(b.disk, x, k) == Content(a.disk, x, k)
  }

  lemma StartSpares(held: set<string>, a: Archive, b: Archive, id: string)
    requires LogStarted(a, b, id)
    ensures Spared(held, {id}, a, b)
    ensures forall k :: k != Records && k != Marker ==> Content(b.disk, id, k) == Content(a.disk, id, k)
  {
    hide Content;
  }

  /** One frame more in the log of one artifact. */
  ghost predicate FrameAdded(a: Archive, b: Archive, id: string, f: Frame) {
    && id in a.logs && b.logs == a.logs[id := a.logs[id] + [f]] && b.writing == a.writing && b.sealed == a.sealed
    && forall x, k :: x != id || k != Records ==> Content(b.disk, x, k) == Content(a.disk, x, k)
  }

  lemma FrameSpares(held: set<string>, a: Archive, b: Archive, id: string, f: Frame)
    requires FrameAdded(a, b, id, f)
    ensures Spared(held, {id}, a, b) && forall k :: k != Records ==> Content(b.disk, id, k) == Content(a.disk, id, k)
  {
    hide Content;
  }

  /** Only who writes an artifact or whether it is sealed has changed. */
  lemma OnlyFlags(held: set<string>, a: Archive, b: Archive, id: string)
    requires b.disk == a.disk && b.logs == a.logs
    requires forall x :: x != id ==> (x in b.writing <==> x in a.writing) && (x in b.sealed <==> x in a.sealed)
    ensures Spared(held, {id}, a, b)
  {
    hide Content;
  }

  lemma EvictionSpares(held: set<string>, a: Archive, b: Archive, gone: set<string>)
    requires gone !! held && gone !! a.writing && b.disk == Without(a.disk, gone) && b.writing == a.writing
    requires b.logs == a.logs - gone && b.sealed == a.sealed - gone
    ensures Spared(held, {}, a, b)
  {
  }
}
