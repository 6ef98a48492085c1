/** The artifact store: quota-charged record logs and companions, and the writer of one log. */
module ArtifactStores {
  import opened Wrappers
  import opened ByteStrings
  import opened Frames
  import opened Tallies
  import opened Disks
  import opened StoreBooks
  import opened Eviction
  import opened Pager
  import opened PageContents
  import Completions
  import Cursors
  import Sorting

  datatype Completion = Completion(size: int, sha256: string)

  /** SHA-256 in hexadecimal and the JSON form of the completion marker. */
  datatype Codec = Codec(digest: Bytes -> string, encode: Completion -> Bytes, decode: Bytes -> Option<Completion>)

  const MARKER_LIMIT := 1024
  const DEFAULT_TOTAL := 10 * 1024 * 1024 * 1024
  const DEFAULT_ITEM := 5 * 1024 * 1024 * 1024
  const DEFAULT_TTL := 7 * 24 * 3600 * 1000000000
  const DEFAULT_RESERVE := 2 * 1024 * 1024 * 1024

  /** Hexadecimal text of a SHA-256 sum. */
  predicate IsDigest(s: string) {
    |s| == 64 && forall c :: c in s ==> '0' <= c <= '9' || 'a' <= c <= 'f'
  }

  /** What the store writes into a marker: an int64 size and a digest. */
  predicate Recordable(m: Completion) { 0 <= m.size < INT64_LIMIT && IsDigest(m.sha256) }

  ghost predicate Lawful(c: Codec) {
    && (forall b: Bytes :: IsDigest(c.digest(b)))
    && (forall m: Completion {:trigger c.encode(m)} ::
      Recordable(m) ==> c.decode(c.encode(m)) == Some(m) && |c.encode(m)| <= MARKER_LIMIT)
  }

  datatype StoreError = AlreadyActive | ItemQuota | StoreQuota | DiskCheck | DiskReserve | IoFailure | DamagedLog

  /** What readPage samples under the lock. */
  datatype Sample = Sample(active: bool, end: int, size: int)

  datatype Reply = Reply(page: Page, complete: bool, size: int, digest: Option<string>, next: Option<string>)

  datatype ReadError = BadCursor | Missing | Unreadable(error: PageError)

  function Max(a: int, b: int): int { if a < b then b else a }

  class ArtifactStore {
    const codec: Codec
    const totalLimit: int
    const itemLimit: int
    const ttl: int
    const reserve: int

    // In a calm environment no call of the operating system fails, and a probe of the disk finds
    // room for all that the store may still take.
    const calm: bool

    var usage: int
    var active: Tally
    var artifactUse: Tally
    var logicalSizes: Tally
    var committedEnds: Tally
    var diskAvailable: int
    var diskCapacity: nat
    var diskChecked: bool
    var disk: Disk

    // The committed frames of every log, the bytes reserved but not yet on disk, the logs with
    // an open writer, and those whose completion marker is in place.
    ghost var logs: Logs
    ghost var owed: Tally
    ghost var writing: set<string>
    ghost var sealed: set<string>

    /** The in-memory part of a store that has looked at nothing yet. */
    constructor (codec: Codec, totalLimit: int, itemLimit: int, ttl: int, reserve: int, disk: Disk, calm: bool)
      ensures this.codec == codec && this.disk == disk && this.calm == calm
      ensures this.totalLimit == (if totalLimit <= 0 then 10 * 1024 * 1024 * 1024 else totalLimit)
      ensures this.itemLimit == (if itemLimit <= 0 then 5 * 1024 * 1024 * 1024 else itemLimit)
      ensures this.ttl == (if ttl <= 0 then 7 * 24 * 3600 * 1000000000 else ttl)
      ensures this.reserve == (if reserve < 0 then 2 * 1024 * 1024 * 1024 else reserve)
      ensures usage == 0 && active == artifactUse == logicalSizes == committedEnds == owed == map[]
      ensures logs == map[] && writing == sealed == {} && !diskChecked
    {
      this.codec, this.disk, this.calm := codec, disk, calm;
      this.totalLimit := if totalLimit <= 0 then DEFAULT_TOTAL else totalLimit;
      this.itemLimit := if itemLimit <= 0 then DEFAULT_ITEM else itemLimit;
      this.ttl := if ttl <= 0 then DEFAULT_TTL else ttl;
      this.reserve := if reserve < 0 then DEFAULT_RESERVE else reserve;
      usage, active, artifactUse, logicalSizes, committedEnds := 0, map[], map[], map[], map[];
      diskAvailable, diskCapacity, diskChecked := 0, 0, false;
      logs, owed, writing, sealed := map[], map[], {}, {};
    }

    /** The marker on disk names the size and the digest of exactly what the pager shows. */
    ghost predicate SealIs(id: string)
      reads `disk, `logs
    {
      && id in logs && Content(disk, id, Records) == Some(EncodeAll(logs[id]))
      && Content(disk, id, Marker).Some? && |Content(disk, id, Marker).value| <= MARKER_LIMIT
      && codec.decode(Content(disk, id, Marker).value) ==
        Some(Completion(|Logical(logs[id])|, codec.digest(Logical(logs[id]))))
    }

    ghost predicate WritingIs(id: string)
      reads `active, `disk, `logs
    {
      id in active && Unmarked(disk, logs, id)
    }

    /** What is charged is what is on disk or promised to it, item by item and in sum. */
    ghost predicate Charged()
      reads `usage, `artifactUse, `disk, `owed
    {
      Balanced(disk, artifactUse, owed) && usage == Total(artifactUse)
    }

    /** Every tracked log is readable up to its committed end. */
    ghost predicate Recorded()
      reads `artifactUse, `logicalSizes, `committedEnds, `disk, `logs
    {
      Logged(disk, logs, logicalSizes, committedEnds, itemLimit) && logs.Keys <= artifactUse.Keys
    }

    /** Holders are counted, open writers hold their log, and seals tell the truth. */
    ghost predicate Tended()
      reads `active, `disk, `logs, `writing, `sealed
    {
      && (forall id :: id in active ==> active[id] > 0)
      && (forall id :: id in writing ==> WritingIs(id))
      && (forall id :: id in sealed ==> SealIs(id))
    }

    /** What is free on the disk, and what the store may still take of it. */
    predicate Enough(available: int, capacity: nat)
      reads `usage
    {
      available + usage >= Max(reserve, capacity / 10) + totalLimit
    }

    /** In a calm environment the free-space reserve is never in danger. */
    ghost predicate Roomy()
      reads `usage, `diskAvailable, `diskCapacity, `diskChecked
    {
      calm && diskChecked ==> Enough(diskAvailable, diskCapacity)
    }

    /** Counters, files and logs agree. */
    ghost predicate Consistent()
      reads `usage, `active, `artifactUse, `logicalSizes, `committedEnds, `diskAvailable, `diskCapacity, `diskChecked,
        `disk, `logs, `owed, `writing, `sealed
    {
      && Lawful(codec) && itemLimit < INT64_LIMIT && totalLimit < INT64_LIMIT
      && Charged() && Recorded() && Tended() && Roomy()
    }

    /** Nothing is in flight for an artifact nobody holds. */
    ghost predicate Settled()
      reads `active, `owed
    {
      NothingOwed(active, owed)
    }

    ghost predicate Valid()
      reads `usage, `active, `artifactUse, `logicalSizes, `committedEnds, `diskAvailable, `diskCapacity, `diskChecked,
        `disk, `logs, `owed, `writing, `sealed
    {
      Consistent() && Settled() && usage <= totalLimit
    }

    /** What is taken from the free space is added to the usage, and the other way round. */
    twostate predicate SameRoom()
      reads `usage, `diskAvailable, `diskCapacity, `diskChecked
    {
      && diskCapacity == old(diskCapacity) && diskChecked == old(diskChecked)
      && (diskChecked ==> diskAvailable + usage == old(diskAvailable + usage))
    }

    /** Whether a call of the operating system fails. */
    method Fails() returns (r: bool)
      ensures calm ==> !r
    {
      r := *;
      r := r && !calm;
    }

    /** artifactDiskSpace: what is free on the disk, and how large it is. */
    method Probe() returns (r: Option<(int, nat)>)
      ensures calm ==> r.Some? && Enough(r.value.0, r.value.1)
    {
      var fails := Fails();
      var available: int, capacity: nat := *, *;
      if fails {
        return None;
      }
      if calm {
        available := Max(available, Max(reserve, capacity / 10) + totalLimit - usage);
      }
      r := Some((available, capacity));
    }

    function SceneOf(incoming: int, now: int): Scene
      reads this
    {
      Scene(disk, artifactUse, active.Keys, now, ttl, incoming, totalLimit)
    }

    ghost function Now(): Archive
      reads `disk, `logs, `writing, `sealed
    {
      Archive(disk, logs, writing, sealed)
    }

    /** What is charged for `id`, and the size of its content, are as they were. */
    twostate predicate SameCharge(id: string)
      reads `artifactUse, `logicalSizes
    {
      && Get(artifactUse, id) == Get(old(artifactUse), id)
      && Get(logicalSizes, id) == Get(old(logicalSizes), id)
    }

    /** Both quotas leave room for so much more. */
    ghost predicate Affords(id: string, physical: int, logical: int)
      reads `artifactUse, `logicalSizes
    {
      Get(logicalSizes, id) + logical <= itemLimit && Get(artifactUse, id) + physical <= totalLimit
    }

    /** Nobody holds anything else, and nothing goes wrong. */
    ghost predicate Alone(id: string)
      reads `active
    {
      calm && active.Keys == {id}
    }

    function Counted(): Entries
      reads `artifactUse, `logicalSizes, `committedEnds
    {
      Entries(artifactUse, logicalSizes, committedEnds)
    }

    method Forget(id: string)
      modifies this`artifactUse, this`logicalSizes, this`committedEnds
      ensures Counted() == Dropped(old(Counted()), {id})
    {
      artifactUse := artifactUse - {id};
      logicalSizes := logicalSizes - {id};
      committedEnds := committedEnds - {id};
    }

    /** The first loop of cleanupLocked: drop entries without files, list the other idle ones. */
    method ListCandidates(now: int, ghost scene: Scene) returns (candidates: seq<Candidate>)
      requires scene == SceneOf(scene.incoming, now)
      modifies this`artifactUse, this`logicalSizes, this`committedEnds
      ensures Listed(scene, candidates, {})
      ensures Counted() == Dropped(old(Counted()), Stale(scene))
    {
      hide NoFiles, LastTouched, NewestMod, Listed, Stale, StaleOutside, Dropped;
      candidates := [];
      var names := artifactUse.Keys;
      NothingListed(scene);
      StaleEnds(scene);
      DropsNothing(Counted());
      while names != {}
        invariant names <= scene.use.Keys
        invariant Counted() == Dropped(old(Counted()), StaleOutside(scene, names))
        invariant Listed(scene, candidates, names)
        decreases |names|
      {
        var id :| id in names;
        var mod := NewestMod(disk, id);
        NewestIsLast(disk, id);
        StaleSoFar(scene, names, id);
        if id in active {
          SkipOne(scene, candidates, names, id);
        } else if mod.None? {
          SkipOne(scene, candidates, names, id);
          DropsMore(old(Counted()), StaleOutside(scene, names), id);
          Forget(id);
        } else {
          StillTracked(scene, names, id);
          KeepsTracked(old(Counted()), StaleOutside(scene, names), id);
          var candidate := Candidate(id, mod.value, artifactUse[id], now - mod.value > ttl);
          ListOne(scene, candidates, names, candidate);
          candidates := candidates + [candidate];
        }
        names := names - {id};
      }
    }

    /** The body of the second loop: delete the files and the entries, give the bytes back. */
    method RemoveArtifact(candidate: Candidate)
      modifies this`usage, this`artifactUse, this`logicalSizes, this`committedEnds, this`diskAvailable, this`disk
      ensures disk == old(disk) - PathsOf(candidate.id) && usage == old(usage) - candidate.size
      ensures diskAvailable == old(diskAvailable) + candidate.size
      ensures Counted() == Dropped(old(Counted()), {candidate.id})
    {
      disk := disk - PathsOf(candidate.id);
      usage := usage - candidate.size;
      diskAvailable := diskAvailable + candidate.size;
      Forget(candidate.id);
    }

    /** What is left of the files and counters when the artifacts in `gone` are removed. */
    ghost predicate Remains(scene: Scene, all: Entries, gone: set<string>)
      reads `usage, `artifactUse, `logicalSizes, `committedEnds, `disk
    {
      Counted() == Dropped(all, gone) && disk == Without(scene.disk, gone) && usage == Total(scene.use - gone)
    }

    /** What cleanup changes, and what it leaves alone, while it removes artifacts nobody holds. */
    twostate predicate OnlyRemoved(new scene: Scene, new gone: set<string>)
      reads this
    {
      && scene == old(SceneOf(scene.incoming, scene.now))
      && Remains(scene, old(Counted()), gone) && gone !! old(active).Keys
      && active == old(active) && owed == old(owed) && writing == old(writing) && SameRoom()
      && logs == old(logs) - gone && sealed == old(sealed) - gone
    }

    twostate lemma RemovalIsCharged(new scene: Scene, new gone: set<string>)
      requires old(Charged() && Settled()) && OnlyRemoved(scene, gone)
      ensures Charged() && Settled()
    {
      hide Balanced, Total, Without;
      EvictKeepsBalance(old(disk), old(artifactUse), old(owed), gone);
    }

    twostate lemma RemovalIsTended(new scene: Scene, new gone: set<string>)
      requires old(Tended()) && OnlyRemoved(scene, gone)
      ensures Tended() && Spared(old(active).Keys, {}, old(Now()), Now())
    {
      hide Total, Content, Spared, EncodeAll, Logical, Without;
      EvictionSpares(old(active).Keys, old(Now()), Now(), gone);
      EvictionContents(old(disk), gone);
    }

    /** Removing artifacts nobody holds disturbs no log, no seal and no open writer. */
    twostate lemma RemovalKeeps(new scene: Scene, new gone: set<string>)
      requires old(Consistent() && Settled()) && OnlyRemoved(scene, gone)
      ensures Consistent() && Settled()
      ensures forall id :: id in old(active) ==> SameCharge(id)
      ensures Spared(old(active).Keys, {}, old(Now()), Now())
    {
      hide Charged, Tended, Settled, Spared;
      RemovalIsCharged(scene, gone);
      RemovalIsTended(scene, gone);
      EvictKeepsLogs(old(disk), old(logs), old(logicalSizes), old(committedEnds), itemLimit, gone);
      hide Logged, Total, Without;
    }

    /** Once the stale entries are forgotten, the files are still those of the scene. */
    lemma NothingRemoved(scene: Scene, all: Entries, sorted: seq<Candidate>)
      requires forall id :: Idle(scene, id) && NoFiles(scene.disk, id) ==> Get(scene.use, id) == 0
      requires Counted() == Dropped(all, Stale(scene)) && disk == scene.disk && usage == Total(scene.use)
      ensures Remains(scene, all, GoneAfter(scene, sorted, 0))
    {
      hide Total, Stale, GoneAfter, Without, NoFiles;
      StaleIsFree(scene, sorted);
    }

    /** The second loop of cleanupLocked: remove in order while expired or over the limit. */
    method EvictInOrder(sorted: seq<Candidate>, incoming: int, ghost scene: Scene, ghost all: Entries)
      returns (ghost m: nat)
      requires Listing(scene, sorted) && Remains(scene, all, GoneAfter(scene, sorted, 0))
      requires forall id :: Get(scene.use, id) >= 0
      modifies `usage, `artifactUse, `logicalSizes, `committedEnds, `diskAvailable, `disk
      ensures m <= |sorted| && Remains(scene, all, GoneAfter(scene, sorted, m)) && usage <= old(usage)
      ensures diskAvailable + usage == old(diskAvailable + usage)
      ensures m < |sorted| ==> !sorted[m].expired && usage + incoming <= totalLimit
      ensures m > 0 && !sorted[m - 1].expired ==> usage + sorted[m - 1].size + incoming > totalLimit
    {
      hide Listing, Total, GoneAfter, Without, PathsOf, Get, Dropped;
      var i := 0;
      while i < |sorted|
        invariant i <= |sorted| && Remains(scene, all, GoneAfter(scene, sorted, i)) && usage <= old(usage)
        invariant diskAvailable + usage == old(diskAvailable + usage)
        invariant i > 0 && !sorted[i - 1].expired ==> usage + sorted[i - 1].size + incoming > totalLimit
      {
        var candidate := sorted[i];
        if !candidate.expired && usage + incoming <= totalLimit {
          break;
        }
        EvictOne(scene, sorted, i);
        DropsMore(all, GoneAfter(scene, sorted, i), candidate.id);
        RemoveArtifact(candidate);
        i := i + 1;
      }
      m := i;
    }

    /** cleanupLocked: list the idle artifacts, sort them, and remove while expired or over the limit. */
    method CleanupLocked(incoming: int, now: int) returns (ok: bool, ghost gone: set<string>)
      requires Consistent() && Settled()
      modifies this`usage, this`artifactUse, this`logicalSizes, this`committedEnds, this`diskAvailable, this`disk,
        this`logs, this`sealed
      ensures Consistent() && Settled() && usage <= old(usage)
      ensures ok <==> usage + incoming <= totalLimit
      ensures EvictionIs(old(SceneOf(incoming, now)), gone, ok)
      ensures disk == Without(old(disk), gone) && artifactUse == old(artifactUse) - gone
      ensures logs == old(logs) - gone && sealed == old(sealed) - gone
      ensures forall id :: id in old(active) ==> SameCharge(id)
      ensures Spared(old(active).Keys, {}, old(Now()), Now())
    {
      hide Listing, Listed, Total, EvictionIs, Stale, GoneAfter, Content, Consistent, Settled, Without,
        PathsOf, Get, Idle, NoFiles, Sorting.Sort, EvictFirst, Spared, Remains, Dropped, SameCharge;
      ghost var scene, all := SceneOf(incoming, now), Counted();
      ChargesMakeSense(scene);
      var candidates := ListCandidates(now, scene);
      SortedListing(scene, candidates);
      var sorted := Sorting.Sort(candidates, EvictFirst);
      NothingRemoved(scene, all, sorted);
      ghost var m := EvictInOrder(sorted, incoming, scene, all);
      gone := GoneAfter(scene, sorted, m);
      logs, sealed := logs - gone, sealed - gone;
      ok := usage + incoming <= totalLimit;
      CleanupDone(scene, sorted, m);
    }

    lemma ChargesMakeSense(scene: Scene)
      requires Consistent() && Settled() && scene.disk == disk && scene.use == artifactUse && scene.busy == active.Keys
      ensures usage == Total(scene.use) && forall id :: Get(scene.use, id) >= 0
      ensures forall id :: Idle(scene, id) && NoFiles(scene.disk, id) ==> Get(scene.use, id) == 0
    {
      hide NoFiles, Logged, SealIs, WritingIs, Total, Balanced, BytesOf;
      forall id
        ensures Get(scene.use, id) >= 0
        ensures Idle(scene, id) && NoFiles(scene.disk, id) ==> Get(scene.use, id) == 0
      {
        ChargesAreNatural(disk, artifactUse, owed, id);
        if Idle(scene, id) && NoFiles(disk, id) {
          NoFilesNoCharge(disk, artifactUse, owed, id);
        }
      }
    }

    twostate lemma CleanupDone(new scene: Scene, new sorted: seq<Candidate>, new m: nat)
      requires old(Consistent() && Settled()) && m <= |sorted| && Listing(scene, sorted)
      requires scene == old(SceneOf(scene.incoming, scene.now))
      requires Remains(scene, old(Counted()), GoneAfter(scene, sorted, m))
      requires m < |sorted| ==> !sorted[m].expired && usage + scene.incoming <= totalLimit
      requires m > 0 && !sorted[m - 1].expired ==> usage + sorted[m - 1].size + scene.incoming > totalLimit
      requires active == old(active) && owed == old(owed) && writing == old(writing) && SameRoom()
      requires logs == old(logs) - GoneAfter(scene, sorted, m) && sealed == old(sealed) - GoneAfter(scene, sorted, m)
      ensures Consistent() && Settled() && forall id :: id in old(active) ==> SameCharge(id)
      ensures Spared(old(active).Keys, {}, old(Now()), Now())
      ensures EvictionIs(scene, GoneAfter(scene, sorted, m), usage + scene.incoming <= totalLimit)
      ensures var gone := GoneAfter(scene, sorted, m);
        disk == Without(old(disk), gone) && artifactUse == old(artifactUse) - gone
    {
      hide Listing, Consistent, Settled, EvictionIs, Total, GoneAfter, Spared, SameCharge, Without;
      EvictionFromLoop(scene, sorted, m);
      GoneIsIdle(scene, sorted, m);
      RemovalKeeps(scene, GoneAfter(scene, sorted, m));
    }

    // ---- Opening a store on what is already on disk ----

    /** What a scan that has seen these artifacts leaves in memory. */
    ghost predicate Seen(seen: set<string>)
      reads `usage, `artifactUse, `logicalSizes, `committedEnds, `logs, `disk
    {
      usage == Total(artifactUse) && Scanned(disk, artifactUse, logs, logicalSizes, committedEnds, itemLimit, seen)
    }

    /** The body of scan's loop. */
    method ScanArtifact(id: string, ghost seen: set<string>) returns (r: Result<(), StoreError>)
      requires Seen(seen) && id !in seen
      modifies `usage, `artifactUse, `logicalSizes, `committedEnds, `logs
      ensures r.Ok? ==> Seen(seen + {id})
      ensures r.Err? <==> Damaged(disk, id, itemLimit)
      ensures r.Err? ==> r.error == DamagedLog
    {
      hide Scanned, ScanFrom, BytesOf, Total, Content;
      var combined, file := BytesOf(disk, id), Content(disk, id, Records);
      NotYetScanned(disk, artifactUse, logs, logicalSizes, committedEnds, itemLimit, seen, id);
      if file.Some? {
        var scan := ScanArtifactFrames(file.value, itemLimit);
        if scan.Err? {
          return Err(DamagedLog);
        }
        ScanAdds(disk, artifactUse, logs, logicalSizes, committedEnds, itemLimit, seen, id);
        logicalSizes, committedEnds := logicalSizes[id := scan.value.logical], committedEnds[id := scan.value.physical];
        logs := logs[id := Accepted(file.value, itemLimit, 0)];
      } else {
        ScanCounts(disk, artifactUse, logs, logicalSizes, committedEnds, itemLimit, seen, id);
      }
      usage := usage + combined;
      artifactUse := artifactUse[id := combined];
      r := Ok(());
    }

    lemma NothingSeen()
      requires usage == 0 && artifactUse == logicalSizes == committedEnds == map[] && logs == map[]
      ensures Seen({})
    {
      NothingScanned(disk, itemLimit);
    }

    /** scan: count every file of every artifact and walk every record log. */
    method Scan() returns (r: Result<(), StoreError>)
      requires usage == 0 && artifactUse == logicalSizes == committedEnds == map[] && logs == map[]
      modifies `usage, `artifactUse, `logicalSizes, `committedEnds, `logs
      ensures r.Ok? ==> Seen(IdsOn(disk))
      ensures r.Err? <==> exists id :: Damaged(disk, id, itemLimit)
      ensures r.Err? ==> r.error == DamagedLog
    {
      hide Damaged, Seen, IdsOn;
      NothingSeen();
      ghost var all := IdsOn(disk);
      var names := IdsOn(disk);
      assert all - names == {};
      while names != {}
        invariant names <= all && Seen(all - names) && Undamaged(disk, all - names, itemLimit)
        decreases |names|
      {
        var id :| id in names;
        r := ScanArtifact(id, all - names);
        if r.Err? {
          return;
        }
        OneMoreUndamaged(disk, all - names, itemLimit, id);
        OneFewer(all, names, id);
        names := names - {id};
      }
      assert all - {} == all;
      AllUndamaged(disk, itemLimit);
      r := Ok(());
    }

    lemma OneFewer(all: set<string>, names: set<string>, id: string)
      requires id in names && names <= all
      ensures all - names + {id} == all - (names - {id})
    {
    }

    lemma ScannedIsConsistent()
      requires Lawful(codec) && itemLimit < INT64_LIMIT && totalLimit < INT64_LIMIT && Seen(IdsOn(disk))
      requires active == owed == map[] && writing == sealed == {} && !diskChecked
      ensures Consistent() && Settled()
      ensures forall id :: id in logs ==>
        Content(disk, id, Records).Some? && logs[id] == Accepted(Content(disk, id, Records).value, itemLimit, 0)
    {
      hide Balanced, Logged, Total, SealIs, Content, BytesOf;
      ScannedBalances(disk, artifactUse, logs, logicalSizes, committedEnds, itemLimit);
    }

    /** Every marker that tells the truth is a seal. */
    ghost method SealAll()
      requires Consistent()
      modifies `sealed
      ensures Consistent() && forall id :: id in sealed <==> id in logs && SealIs(id)
    {
      hide Balanced, Logged, Total, SealIs, WritingIs;
      sealed := set id | id in logs && SealIs(id);
    }

    /** newArtifactStore: scan what is on disk, then sweep. */
    static method Open(
      codec: Codec, totalLimit: int, itemLimit: int, ttl: int, reserve: int, disk: Disk, now: int, calm: bool)
      returns (r: Result<ArtifactStore, StoreError>)
      requires Lawful(codec) && itemLimit < INT64_LIMIT && totalLimit < INT64_LIMIT
      ensures r.Ok? ==> fresh(r.value) && r.value.Valid() && r.value.active == map[]
      ensures r.Ok? ==> r.value.codec == codec && r.value.calm == calm
      ensures r.Ok? ==> r.value.totalLimit == if totalLimit <= 0 then 10 * 1024 * 1024 * 1024 else totalLimit
      ensures r.Ok? ==> r.value.itemLimit == if itemLimit <= 0 then 5 * 1024 * 1024 * 1024 else itemLimit
      ensures r.Ok? ==> r.value.ttl == if ttl <= 0 then 7 * 24 * 3600 * 1000000000 else ttl
      ensures r.Ok? ==> r.value.reserve == if reserve < 0 then 2 * 1024 * 1024 * 1024 else reserve
      ensures r.Ok? ==> forall id :: id in r.value.logs ==>
        && Content(disk, id, Records).Some?
        && r.value.logs[id] == Accepted(Content(disk, id, Records).value, r.value.itemLimit, 0)
        && forall kind :: Content(r.value.disk, id, kind) == Content(disk, id, kind)
      ensures r.Ok? ==> forall id :: id in r.value.logs && r.value.SealIs(id) ==> id in r.value.sealed
      ensures r.Ok? ==> r.value.artifactUse.Keys <= IdsOn(disk)
      ensures r.Err? ==> r.error == DamagedLog
      ensures var limit := if itemLimit <= 0 then 5 * 1024 * 1024 * 1024 else itemLimit;
        r.Err? <==> exists id :: Damaged(disk, id, limit)
    {
      var store := new ArtifactStore(codec, totalLimit, itemLimit, ttl, reserve, disk, calm);
      hide Total, Content, EvictionIs, Scanned, Accepted, Damaged, store.SealIs;
      var scanned := store.Scan();
      if scanned.Err? {
        return Err(scanned.error);
      }
      store.ScannedIsConsistent();
      TrackedAreOnDisk(store);
      ghost var scene := store.SceneOf(0, now);
      var ok, gone := store.CleanupLocked(0, now);
      EverythingMayGo(scene, gone, ok);
      EvictionContents(disk, gone);
      store.SealAll();
      r := if ok then Ok(store) else Err(StoreQuota);
    }

    // ---- Charging writes ----

    /** Seals, open writers and logs do not depend on the charges. */
    twostate lemma OnlyChargesChanged()
      requires old(Consistent()) && Balanced(disk, artifactUse, owed) && usage == Total(artifactUse)
      requires unchanged(`disk, `logs, `logicalSizes, `committedEnds, `active, `writing, `sealed) && SameRoom()
      requires old(artifactUse).Keys <= artifactUse.Keys
      ensures Consistent()
    {
      hide Balanced, Logged, Total;
    }

    /** The counters move together; a negative amount gives a reservation back. */
    method Charge(id: string, amount: int)
      requires Consistent() && Get(owed, id) + amount >= 0
      modifies this`usage, this`artifactUse, this`diskAvailable, this`owed
      ensures Consistent() && usage == old(usage) + amount && diskAvailable == old(diskAvailable) - amount
      ensures owed == Add(old(owed), id, amount) && artifactUse == Add(old(artifactUse), id, amount)
    {
      hide Balanced, Logged, Total, SealIs, WritingIs;
      ChargeKeepsBalance(disk, artifactUse, owed, id, amount);
      diskAvailable := diskAvailable - amount;
      usage := usage + amount;
      artifactUse := Add(artifactUse, id, amount);
      owed := Add(owed, id, amount);
      OnlyChargesChanged();
    }

    lemma OwedIsNatural(id: string)
      requires Consistent()
      ensures Get(owed, id) >= 0 && Get(artifactUse, id) == BytesOf(disk, id) + Get(owed, id)
    {
      ChargesAreNatural(disk, artifactUse, owed, id);
    }

    /** rollbackWrite: give a reservation back. */
    method RollbackWrite(id: string, amount: nat)
      requires Consistent() && amount <= Get(owed, id)
      modifies this`usage, this`artifactUse, this`diskAvailable, this`owed
      ensures Consistent() && usage == old(usage) - amount && owed == Add(old(owed), id, 0 - amount)
      ensures artifactUse == Add(old(artifactUse), id, 0 - amount)
    {
      Charge(id, 0 - amount);
    }

    /** The free-space check of reserveWrite: probe the disk unless that was done within a second. */
    method CheckDisk(physicalAmount: nat) returns (r: Result<(), StoreError>)
      requires Consistent()
      modifies this`diskAvailable, this`diskCapacity, this`diskChecked
      ensures Consistent()
      ensures r.Ok? ==> diskAvailable - physicalAmount >= reserve && diskAvailable - physicalAmount >= diskCapacity / 10
      ensures r.Err? ==> r.error == DiskCheck || r.error == DiskReserve
      ensures r == Err(DiskReserve) ==>
        diskAvailable - physicalAmount < reserve || diskAvailable - physicalAmount < diskCapacity / 10
      ensures calm && usage + physicalAmount <= totalLimit ==> r.Ok?
    {
      hide Charged, Recorded, Tended, Lawful;
      var recent: bool := *;
      if !recent || !diskChecked {
        var found := Probe();
        if found.None? {
          return Err(DiskCheck);
        }
        diskAvailable, diskCapacity, diskChecked := found.value.0, found.value.1, true;
      }
      if diskAvailable - physicalAmount < Max(reserve, diskCapacity / 10) {
        return Err(DiskReserve);
      }
      r := Ok(());
    }

    /** The sweep of reserveWrite, when the incoming bytes would not fit. */
    method MakeRoom(physicalAmount: nat) returns (ok: bool)
      requires Valid()
      modifies this`usage, this`artifactUse, this`logicalSizes, this`committedEnds, this`diskAvailable, this`disk,
        this`logs, this`sealed
      ensures Valid() && (ok <==> usage + physicalAmount <= totalLimit)
      ensures Spared(active.Keys, {}, old(Now()), Now()) && forall x :: x in active ==> SameCharge(x)
      ensures !ok ==> artifactUse.Keys <= active.Keys
    {
      hide Consistent, Settled, Content, Total, Spared;
      NothingMoved(active.Keys, Now());
      ok := true;
      if usage + physicalAmount > totalLimit {
        var now: int := *;
        ghost var gone;
        ok, gone := CleanupLocked(physicalAmount, now);
      }
    }

    /** When everything charged belongs to holders, and `id` is the only one, its charge is the usage. */
    lemma OnlyCharge(id: string)
      requires Consistent() && artifactUse.Keys <= active.Keys && active.Keys == {id}
      ensures usage == Get(artifactUse, id)
    {
      hide Balanced, Recorded, Tended;
      TotalWithout(artifactUse, id);
      assert artifactUse - {id} == map[];
    }

    /** A charge is part of the usage. */
    lemma ChargeBelowUsage(id: string)
      requires Consistent()
      ensures 0 <= Get(artifactUse, id) <= usage
    {
      hide Balanced, Recorded, Tended, Total;
      forall x | x in artifactUse
        ensures artifactUse[x] >= 0
      {
        OwedIsNatural(x);
      }
      EntryBelowTotal(artifactUse, id);
    }

    /** reserveWrite: item quota, store quota with eviction, free-space reserve, then charge. */
    method ReserveWrite(id: string, physicalAmount: nat, logicalAmount: nat) returns (r: Result<(), StoreError>)
      requires Valid()
      modifies this
      ensures Consistent() && usage <= totalLimit && active == old(active) && writing == old(writing)
      ensures Spared(active.Keys, {}, old(Now()), Now())
      ensures r.Ok? ==> owed == Add(old(owed), id, physicalAmount)
      ensures r.Ok? ==> diskAvailable >= reserve && diskAvailable >= diskCapacity / 10
      ensures r.Err? ==> owed == old(owed)
      ensures r == Err(ItemQuota) <==> old(Get(logicalSizes, id)) + logicalAmount > itemLimit
      ensures r == Err(StoreQuota) ==> usage + physicalAmount > totalLimit && artifactUse.Keys <= active.Keys
      ensures r == Err(DiskReserve) ==>
        diskAvailable - physicalAmount < reserve || diskAvailable - physicalAmount < diskCapacity / 10
      ensures id in active && r.Ok? ==>
        && old(Affords(id, physicalAmount, logicalAmount))
        && Get(artifactUse, id) == Get(old(artifactUse), id) + physicalAmount
        && Get(logicalSizes, id) == Get(old(logicalSizes), id)
      ensures id in active && r.Err? ==> SameCharge(id)
      ensures Alone(id) && old(Affords(id, physicalAmount, logicalAmount)) ==> r.Ok?
    {
      hide Consistent, Total, Spared, NothingOwed;
      if Get(logicalSizes, id) + logicalAmount > itemLimit {
        NothingMoved(active.Keys, Now());
        return Err(ItemQuota);
      }
      var ok := MakeRoom(physicalAmount);
      if !ok {
        if Alone(id) {
          OnlyCharge(id);
        }
        return Err(StoreQuota);
      }
      r := TakeSpace(id, physicalAmount);
    }

    /** The end of reserveWrite, once the bytes fit into the store. */
    method TakeSpace(id: string, physicalAmount: nat) returns (r: Result<(), StoreError>)
      requires Consistent() && usage + physicalAmount <= totalLimit
      modifies `usage, `artifactUse, `owed, `diskAvailable, `diskCapacity, `diskChecked
      ensures Consistent() && usage <= totalLimit && 0 <= Get(artifactUse, id) <= usage
      ensures if r.Ok? then owed == Add(old(owed), id, physicalAmount) else owed == old(owed)
      ensures if r.Ok? then artifactUse == Add(old(artifactUse), id, physicalAmount)
        else artifactUse == old(artifactUse)
      ensures r.Ok? ==> diskAvailable >= reserve && diskAvailable >= diskCapacity / 10
      ensures r.Err? ==> r.error == DiskCheck || r.error == DiskReserve
      ensures r == Err(DiskReserve) ==>
        diskAvailable - physicalAmount < reserve || diskAvailable - physicalAmount < diskCapacity / 10
      ensures calm ==> r.Ok?
    {
      hide Consistent, Total;
      r := CheckDisk(physicalAmount);
      if r.Ok? {
        OwedIsNatural(id);
        Charge(id, physicalAmount);
      }
      ChargeBelowUsage(id);
    }

    // ---- Holding an artifact ----

    /** active[id]++ */
    method Hold(id: string)
      requires Consistent()
      modifies this`active
      ensures Consistent() && active == old(active)[id := Get(old(active), id) + 1]
      ensures if id in old(active) then active[id] > 1 else active[id] == 1 && id !in writing
    {
      hide Balanced, Logged, Total, SealIs;
      active := Add(active, id, 1);
    }

    /** active[id]-- and removal at zero; the last holder leaves nothing in flight. */
    method Release(id: string)
      requires Consistent() && id in active && (active[id] == 1 ==> id !in writing)
      modifies this`active
      ensures Consistent() && Get(active, id) == old(Get(active, id)) - 1
      ensures active == if old(active)[id] == 1 then old(active) - {id} else old(active)[id := old(active)[id] - 1]
    {
      hide Balanced, Logged, Total, SealIs;
      active := Add(active, id, 0 - 1);
      if active[id] == 0 {
        active := active - {id};
      }
    }

    // ---- Files next to the log ----

    twostate lemma FilesAreTended(new id: string, new kinds: set<Kind>)
      requires old(Tended()) && OnlyFiles(old(Now()), Now(), id, kinds) && Records !in kinds && unchanged(`active)
      requires Marker in kinds ==> id !in writing && id !in sealed
      ensures Tended()
    {
      hide Content, EncodeAll, Logical;
    }

    /** Files other than record logs are only looked at by those who count bytes, and markers by those who sealed. */
    twostate lemma FilesKeep(new id: string, new kinds: set<Kind>)
      requires old(Consistent()) && OnlyFiles(old(Now()), Now(), id, kinds) && Records !in kinds
      requires Marker in kinds ==> id !in writing && id !in sealed
      requires Balanced(disk, artifactUse, owed)
      requires unchanged(`usage, `active, `artifactUse, `logicalSizes, `committedEnds)
      requires unchanged(`diskAvailable, `diskCapacity, `diskChecked)
      ensures Consistent()
    {
      hide Tended, Logged, Balanced, Total, Content;
      FilesAreTended(id, kinds);
      SameRecordsLogged(old(disk), disk, logs, logicalSizes, committedEnds, itemLimit);
    }

    /** Writing or replacing a companion file: its bytes were reserved, or were there before. */
    method PutFile(p: Path, content: Bytes)
      requires Consistent() && p.kind != Records && (p.kind == Marker ==> p.id !in writing && p.id !in sealed)
      requires |content| <= Get(owed, p.id) + Size(disk, p)
      modifies this`disk, this`owed
      ensures Consistent() && owed == Add(old(owed), p.id, Size(old(disk), p) - |content|)
      ensures Content(disk, p.id, p.kind) == Some(content) && OnlyFiles(old(Now()), Now(), p.id, {p.kind})
    {
      hide Balanced, BytesOf, Consistent, OnlyFiles, Size, Get;
      BooksBalance();
      var now: int := *;
      PutKeepsBalance(disk, artifactUse, owed, p, File(content, now));
      PutIsOnly(Now(), p, File(content, now));
      owed := Add(owed, p.id, Size(disk, p) - |content|);
      disk := disk[p := File(content, now)];
      FilesKeep(p.id, {p.kind});
    }

    lemma BooksBalance()
      requires Consistent()
      ensures Balanced(disk, artifactUse, owed)
    {
    }

    /** An artifact the store has never charged for has no bytes on disk. */
    lemma UnusedIsEmpty(id: string)
      requires Consistent() && id !in artifactUse
      ensures Get(owed, id) == 0 && Size(disk, Path(id, Stdout)) == Size(disk, Path(id, Stderr)) == 0
      ensures BytesOf(disk, id) == 0
    {
      OwedIsNatural(id);
    }

    /** Opening an output file with truncation, before there is anything to charge for it. */
    method OpenEmpty(p: Path)
      requires Consistent() && (p.kind.Stdout? || p.kind.Stderr?) && Size(disk, p) == 0
      modifies `disk
      ensures Consistent() && Content(disk, p.id, p.kind) == Some([]) && OnlyFiles(old(Now()), Now(), p.id, {p.kind})
    {
      hide Consistent, Balanced, OnlyFiles;
      BooksBalance();
      var now: int := *;
      PutIsOnly(Now(), p, File([], now));
      SameSizesBalance(disk, disk[p := File([], now)], artifactUse, owed);
      disk := disk[p := File([], now)];
      FilesKeep(p.id, {p.kind});
    }

    method RemoveEmpty(p: Path)
      requires Consistent() && (p.kind.Stdout? || p.kind.Stderr?) && Size(disk, p) == 0
      modifies `disk
      ensures Consistent() && Content(disk, p.id, p.kind) == None && OnlyFiles(old(Now()), Now(), p.id, {p.kind})
    {
      hide Consistent, Balanced, OnlyFiles;
      BooksBalance();
      RemoveIsOnly(Now(), p);
      SameSizesBalance(disk, disk - {p}, artifactUse, owed);
      disk := disk - {p};
      FilesKeep(p.id, {p.kind});
    }

    /** Bytes appended to an output file use up their reservation; what did not arrive is given back. */
    method AppendOutput(p: Path, data: Bytes, written: nat)
      requires Consistent() && (p.kind.Stdout? || p.kind.Stderr?) && Content(disk, p.id, p.kind).Some?
      requires written <= |data| <= Get(owed, p.id)
      modifies `disk, `owed, `usage, `artifactUse, `diskAvailable
      ensures Consistent() && Moved(old(owed), owed, p.id, 0 - |data|) && usage <= old(usage)
      ensures written == |data| ==> Get(artifactUse, p.id) == Get(old(artifactUse), p.id)
      ensures Content(disk, p.id, p.kind) == Some(old(Content(disk, p.id, p.kind)).value + data[..written])
      ensures OnlyFiles(old(Now()), Now(), p.id, {p.kind})
    {
      hide Consistent, BytesOf;
      assert p == Path(p.id, p.kind);
      var file := disk[p].content;
      PutFile(p, file + data[..written]);
      if written < |data| {
        RollbackWrite(p.id, |data| - written);
      }
    }

    /** Nothing more and nothing less is in flight than before. */
    twostate predicate SameOwed()
      reads `owed
    {
      SameTally(old(owed), owed)
    }

    /** A reservation that was used up or given back leaves nothing behind. */
    lemma OwedAgain(m: Tally, reserved: Tally, now: Tally, id: string, size: int)
      requires reserved == Add(m, id, size) && Moved(reserved, now, id, 0 - size)
      ensures SameTally(m, now)
    {
      hide Add, Moved, SameTally;
      AddMoves(m, id, size);
      MovedTwice(m, reserved, now, id, size, 0 - size);
      NotMoved(m, now, id);
    }

    /** The part of writeCompanion behind the reservation: the bytes of the old file are given back at the end. */
    method PutCompanion(id: string, kind: Kind, content: Bytes, previous: nat) returns (r: Result<(), StoreError>)
      requires Consistent() && (kind.Json? || kind.LogsJson?) && |content| <= Get(owed, id)
      requires previous == Size(disk, Path(id, kind))
      modifies this
      ensures Consistent() && usage <= old(usage) && active == old(active) && Moved(old(owed), owed, id, 0 - |content|)
      ensures r.Ok? ==> Content(disk, id, kind) == Some(content) && OnlyFiles(old(Now()), Now(), id, {kind})
      ensures r.Err? ==> Now() == old(Now())
      ensures calm ==> r.Ok?
    {
      hide Consistent, Content, OnlyFiles, Size, BytesOf;
      OwedIsNatural(id);
      var writeFails := Fails();
      if writeFails {
        RollbackWrite(id, |content|);
        return Err(IoFailure);
      }
      PutFile(Path(id, kind), content);
      if previous > 0 {
        RollbackWrite(id, previous);
      }
      r := Ok(());
    }

    /** The body of writeCompanion, for an artifact that is held. */
    method ReplaceCompanion(id: string, kind: Kind, content: Bytes) returns (r: Result<(), StoreError>)
      requires Valid() && id in active && (kind.Json? || kind.LogsJson?)
      modifies this
      ensures Consistent() && usage <= totalLimit && active == old(active) && SameOwed()
      ensures r.Ok? ==> Content(disk, id, kind) == Some(content)
      ensures SameBut(old(Now()), Now(), id, {kind}) && (r.Err? ==> SameArtifact(old(Now()), Now(), id))
      ensures Spared(active.Keys, {id}, old(Now()), Now())
    {
      hide Consistent, Settled, Content, Total, BytesOf, Spared, SameBut, SameArtifact, OnlyFiles, Size,
        SameTally, Moved;
      var previous := Size(disk, Path(id, kind));
      OwedIsNatural(id);
      NotMoved(owed, owed, id);
      r := ReserveWrite(id, |content|, 0);
      ghost var reserved := Now();
      HeldSpared(active.Keys, old(Now()), reserved, id, {kind});
      SameSize(old(Now()), reserved, Path(id, kind));
      if r.Ok? {
        ghost var promised := owed;
        r := PutCompanion(id, kind, content, previous);
        OwedAgain(old(owed), promised, owed, id, |content|);
        if r.Ok? {
          ThenFiles(active.Keys, old(Now()), reserved, Now(), id, {kind});
        }
      }
    }

    /** writeCompanion, as its callers use it for a JSON file next to the log. */
    method WriteCompanion(id: string, kind: Kind, content: Bytes) returns (r: Result<(), StoreError>)
      requires Valid() && (kind.Json? || kind.LogsJson?)
      modifies this
      ensures Valid() && active == old(active) && SameOwed()
      ensures r.Ok? ==> Content(disk, id, kind) == Some(content)
      ensures SameBut(old(Now()), Now(), id, {kind}) && (r.Err? ==> SameArtifact(old(Now()), Now(), id))
      ensures Spared(active.Keys, {id}, old(Now()), Now())
    {
      hide Consistent, Content, Spared, SameArtifact;
      Hold(id);
      assert active.Keys == old(active).Keys + {id};
      r := ReplaceCompanion(id, kind, content);
      Release(id);
      assert active == old(active);
      MoreHeld(active.Keys, old(Now()), Now(), id);
    }

    // ---- Creating a log ----

    /** What opening the truncated record file and resetting the counters leaves behind. */
    twostate predicate Started(new id: string, new stamp: int)
      reads this
    {
      && disk == Blank(old(disk), id, stamp) && artifactUse == old(artifactUse)[id := CompanionBytes(disk, id)]
      && usage == old(usage) + CompanionBytes(disk, id) - Get(old(artifactUse), id)
      && logicalSizes == old(logicalSizes)[id := 0] && committedEnds == old(committedEnds)[id := 0]
      && active == Add(old(active), id, 1)
      && logs == old(logs)[id := []] && writing == old(writing) + {id} && sealed == old(sealed) - {id} && SameRoom()
    }

    twostate lemma StartIsCharged(new id: string, new stamp: int)
      requires old(Charged()) && Get(old(owed), id) == 0 && Started(id, stamp) && unchanged(`owed)
      ensures Charged() && usage <= old(usage)
    {
      hide Balanced, Total, BytesOf, CompanionBytes, Blank;
      FreshKeepsBalance(old(disk), old(artifactUse), owed, id, stamp);
      TotalUpdate(old(artifactUse), id, CompanionBytes(disk, id));
    }

    twostate lemma StartIsTended(new id: string, new stamp: int)
      requires old(Tended()) && id !in old(active) && Started(id, stamp)
      ensures Tended()
    {
      hide Content, CompanionBytes, Blank, Logical, Payload;
      BlankContents(old(disk), id, stamp);
    }

    twostate lemma StartKeeps(new id: string, new stamp: int)
      requires old(Consistent()) && old(Settled()) && id !in old(active) && Started(id, stamp) && unchanged(`owed)
      ensures Consistent() && Settled() && usage <= old(usage)
    {
      hide Charged, Tended;
      StartIsCharged(id, stamp);
      StartIsTended(id, stamp);
      FreshKeepsLogs(old(disk), old(logs), old(logicalSizes), old(committedEnds), itemLimit, id, stamp);
      hide Logged, Blank, CompanionBytes;
    }

    /** A truncated log starts over with what its companions hold. */
    method Recount(id: string, companionTotal: nat)
      modifies `usage, `artifactUse, `diskAvailable, `logicalSizes, `committedEnds
      ensures usage == old(usage) + companionTotal - Get(old(artifactUse), id)
      ensures artifactUse == old(artifactUse)[id := companionTotal]
      ensures logicalSizes == old(logicalSizes)[id := 0] && committedEnds == old(committedEnds)[id := 0]
      ensures SameRoom()
    {
      var delta := companionTotal - Get(artifactUse, id);
      usage := usage + delta;
      if diskChecked {
        diskAvailable := diskAvailable - delta;
      }
      artifactUse := artifactUse[id := companionTotal];
      logicalSizes, committedEnds := logicalSizes[id := 0], committedEnds[id := 0];
    }

    /** The part of create behind the sweep: truncate, drop an old marker, recount, and hold. */
    method StartLog(id: string)
      requires Consistent() && Settled() && id !in active
      modifies this
      ensures Consistent() && Settled() && usage <= old(usage) && owed == old(owed)
      ensures active == Add(old(active), id, 1) && logs == old(logs)[id := []]
      ensures LogStarted(old(Now()), Now(), id) && id in writing && id in logs && logs[id] == []
      ensures Get(artifactUse, id) == CompanionBytes(disk, id) && Get(logicalSizes, id) == 0
    {
      hide Consistent, Settled, Total, Content, CompanionBytes, Blank;
      var stamp: int := *;
      BlankContents(disk, id, stamp);
      disk := Blank(disk, id, stamp);
      Recount(id, CompanionBytes(disk, id));
      TakeLog(id);
      StartKeeps(id, stamp);
    }

    /** The new log has a writer, and nothing in it. */
    method TakeLog(id: string)
      modifies `active, `logs, `writing, `sealed
      ensures active == Add(old(active), id, 1) && logs == old(logs)[id := []]
      ensures writing == old(writing) + {id} && sealed == old(sealed) - {id}
    {
      active := Add(active, id, 1);
      logs, writing, sealed := logs[id := []], writing + {id}, sealed - {id};
    }

    /** create without its writer: sweep, then start the log. */
    method CreateLog(id: string) returns (ok: bool)
      requires Consistent() && Settled() && id !in active
      modifies this
      ensures Consistent() && Settled() && usage <= old(usage) && owed == old(owed)
      ensures ok ==>
        usage <= totalLimit && id in writing && id in logs && logs[id] == [] && active == Add(old(active), id, 1)
          && Get(artifactUse, id) == CompanionBytes(disk, id) && Get(logicalSizes, id) == 0
      ensures !ok ==> active == old(active) && artifactUse.Keys <= old(artifactUse).Keys
      ensures old(usage) <= totalLimit ==> ok
      ensures Spared(old(active).Keys, {id}, old(Now()), Now())
      ensures ok && id !in old(artifactUse) ==> forall k :: k != Records && k != Marker ==>
        Content(disk, id, k) == Content(old(disk), id, k)
    {
      hide Total, Content, EvictionIs, Consistent, Settled, Spared, LogStarted, CompanionBytes;
      var now: int := *;
      ghost var gone;
      ok, gone := CleanupLocked(0, now);
      GoneWasTracked(old(SceneOf(0, now)), gone, ok);
      ghost var swept := Now();
      SparedLess(old(active).Keys, {}, {id}, old(Now()), swept);
      if ok {
        EvictionContents(old(disk), gone);
        StartLog(id);
        StartSpares(old(active).Keys, swept, Now(), id);
        SparedTwice(old(active).Keys, {id}, old(Now()), swept, Now());
      }
    }

    /** create: one writer at a time, and only while the store is within its limit. */
    method Create(id: string) returns (r: Result<ArtifactWriter, StoreError>)
      requires Consistent() && Settled()
      modifies this
      ensures Consistent() && Settled() && usage <= old(usage) && owed == old(owed)
      ensures id in old(active) ==> r == Err(AlreadyActive)
      ensures r == Err(AlreadyActive) ==> unchanged(this)
      ensures r.Ok? ==> Valid() && fresh(r.value) && r.value.store == this && r.value.id == id && r.value.Open()
      ensures r.Ok? ==> r.value.companionCopies == 0 && logs[id] == [] && active == Add(old(active), id, 1)
      ensures r.Err? ==> active == old(active) && artifactUse.Keys <= old(artifactUse).Keys
      ensures old(usage) <= totalLimit ==> (r.Err? <==> id in old(active))
      ensures Spared(old(active).Keys, {id}, old(Now()), Now())
      ensures r.Ok? ==> Get(artifactUse, id) == CompanionBytes(disk, id) && Get(logicalSizes, id) == 0
      ensures r.Ok? && id !in old(artifactUse) ==> forall k :: k != Records && k != Marker ==>
        Content(disk, id, k) == Content(old(disk), id, k)
    {
      hide Content, Consistent, Settled, Spared, CompanionBytes;
      if id in active {
        NothingMoved(active.Keys, Now());
        SparedLess(active.Keys, {}, {id}, Now(), Now());
        return Err(AlreadyActive);
      }
      var ok := CreateLog(id);
      if !ok {
        return Err(StoreQuota);
      }
      WriterIs(id);
      var writer := new ArtifactWriter(this, id);
      r := Ok(writer);
    }

    // ---- Changing a record file ----

    /** One frame more on disk, in the log and in both counters; its reservation is used up. */
    twostate predicate Grown(new id: string, new f: Frame, new now: int)
      requires id in old(logs)
      reads this
    {
      && logs == old(logs)[id := old(logs)[id] + [f]]
      && disk == old(disk)[Path(id, Records) := File(EncodeAll(old(logs)[id]) + Header(f) + f.data, now)]
      && committedEnds == old(committedEnds)[id := |EncodeAll(old(logs)[id])| + HEADER + |f.data|]
      && logicalSizes == Add(old(logicalSizes), id, |f.data|) && owed == Add(old(owed), id, 0 - HEADER - |f.data|)
    }

    twostate lemma CommitKeeps(new id: string, new f: Frame, new now: int)
      requires old(Consistent()) && id in writing && |f.data| <= itemLimit && HEADER + |f.data| <= Get(old(owed), id)
      requires id in old(logs) && Grown(id, f, now)
      requires unchanged(`usage, `artifactUse, `active, `writing, `sealed, `diskAvailable, `diskCapacity, `diskChecked)
      ensures Consistent() && FrameAdded(old(Now()), Now(), id, f)
    {
      hide Logged, Balanced, EncodeAll, Header;
      AppendKeepsBalance(old(disk), artifactUse, old(owed), id, f, EncodeAll(old(logs)[id]) + Header(f) + f.data, now);
      AppendKeepsLogs(old(disk), old(logs), old(logicalSizes), old(committedEnds), itemLimit, id, f, now);
      CommitIsTended(id, f, now);
    }

    twostate lemma CommitIsTended(new id: string, new f: Frame, new now: int)
      requires old(Tended()) && id in writing && id in old(logs) && id !in sealed && Grown(id, f, now)
      requires unchanged(`active, `writing, `sealed)
      requires EncodeAll(old(logs)[id]) + Header(f) + f.data == EncodeAll(old(logs)[id] + [f])
      ensures Tended() && FrameAdded(old(Now()), Now(), id, f)
    {
      hide EncodeAll, Header, Logical;
      assert forall x, k :: x != id || k != Records ==> Content(disk, x, k) == Content(old(disk), x, k);
      hide Content;
    }

    /** The last step of WriteRecord: the written bytes are on disk, both counters move. */
    method CommitFrame(id: string, f: Frame, content: Bytes, start: nat)
      requires Consistent() && id in writing && |f.data| <= itemLimit && HEADER + |f.data| <= Get(owed, id)
      requires id in logs && content == EncodeAll(logs[id]) + Header(f) + f.data && start == |EncodeAll(logs[id])|
      modifies this`disk, this`owed, this`logs, this`logicalSizes, this`committedEnds
      ensures Consistent() && owed == Add(old(owed), id, 0 - HEADER - |f.data|)
      ensures logs == old(logs)[id := old(logs)[id] + [f]] && WritingIs(id) && |EncodeAll(logs[id])| == |content|
      ensures logicalSizes == Add(old(logicalSizes), id, |f.data|)
      ensures committedEnds == old(committedEnds)[id := start + HEADER + |f.data|]
      ensures FrameAdded(old(Now()), Now(), id, f)
    {
      hide Consistent, EncodeAll, Header, WritingIs, Grown, Content, FrameAdded;
      var now: int := *;
      MoveCounters(id, f, content, start, now);
      CommitKeeps(id, f, now);
      WriterIs(id);
      LengthsAgree(id, content);
    }

    /** The fields a committed frame moves. */
    method MoveCounters(id: string, f: Frame, content: Bytes, start: nat, now: int)
      requires id in logs && content == EncodeAll(logs[id]) + Header(f) + f.data && start == |EncodeAll(logs[id])|
      modifies this`disk, this`owed, this`logs, this`logicalSizes, this`committedEnds
      ensures Grown(id, f, now)
      ensures owed == Add(old(owed), id, 0 - HEADER - |f.data|) && logs == old(logs)[id := old(logs)[id] + [f]]
      ensures logicalSizes == Add(old(logicalSizes), id, |f.data|) && Content(disk, id, Records) == Some(content)
      ensures committedEnds == old(committedEnds)[id := start + HEADER + |f.data|]
    {
      hide EncodeAll, Header, Get;
      disk := disk[Path(id, Records) := File(content, now)];
      logicalSizes := Add(logicalSizes, id, |f.data|);
      committedEnds := committedEnds[id := start + HEADER + |f.data|];
      logs := logs[id := logs[id] + [f]];
      owed := Add(owed, id, 0 - HEADER - |f.data|);
    }

    /** The record file of an open writer. */
    method RecordsOf(id: string) returns (content: Bytes)
      requires Unmarked(disk, logs, id)
      ensures id in logs && content == EncodeAll(logs[id])
    {
      hide EncodeAll;
      content := disk[Path(id, Records)].content;
    }

    /** A file written back with the bytes it had: only its modification time is new. */
    method TouchRecords(id: string, content: Bytes, now: int)
      requires Consistent() && Content(disk, id, Records) == Some(content)
      modifies this`disk
      ensures Consistent() && OnlyFiles(old(Now()), Now(), id, {})
      ensures disk == old(disk)[Path(id, Records) := File(content, now)]
    {
      hide Consistent, Balanced, OnlyFiles;
      BooksBalance();
      TouchIsNone(Now(), Path(id, Records), File(content, now));
      TouchKeepsBalance(disk, artifactUse, owed, Path(id, Records), File(content, now));
      disk := disk[Path(id, Records) := File(content, now)];
      FilesKeep(id, {});
    }

    lemma WriterSize(id: string)
      requires Consistent() && id in writing
      ensures Get(logicalSizes, id) >= 0 && id in active && id in logs
    {
      hide Balanced, Total, EncodeAll;
    }

    // ---- The completion marker ----

    ghost predicate Whole(id: string)
      reads `active, `disk, `logs, `writing
    {
      id in active && id !in writing && Unmarked(disk, logs, id)
    }

    lemma WholeFacts(id: string)
      requires Consistent() && Whole(id)
      ensures id !in sealed && Fits(logs[id], itemLimit) && itemLimit < INT64_LIMIT && Get(owed, id) >= 0
      ensures Lawful(codec) && id in logs
    {
      hide Total, EncodeAll, Fits, Balanced, Lawful;
      OwedIsNatural(id);
    }

    /** Nothing charged means nothing larger than the store's limit: offsets fit the cursor token. */
    lemma LogFits(id: string)
      requires Valid() && id in logs
      ensures |EncodeAll(logs[id])| < INT64_LIMIT
    {
      OwedIsNatural(id);
      forall x | x in artifactUse
        ensures artifactUse[x] >= 0
      {
        OwedIsNatural(x);
      }
      EntryBelowTotal(artifactUse, id);
      hide Balanced, Total, EncodeAll, CompanionBytes;
    }

    lemma LogicalFits(id: string)
      requires Valid() && id in logs
      ensures |Logical(logs[id])| < INT64_LIMIT
    {
      hide Valid, EncodeAll, Payload;
      LogFits(id);
      Cursors.PayloadsFit(logs[id]);
    }

    lemma SealFits(id: string, content: Bytes)
      requires Lawful(codec) && Whole(id) && |Logical(logs[id])| < INT64_LIMIT
      requires content == codec.encode(Completion(|Logical(logs[id])|, codec.digest(Logical(logs[id]))))
      ensures |content| <= MARKER_LIMIT
      ensures codec.decode(content) == Some(Completion(|Logical(logs[id])|, codec.digest(Logical(logs[id]))))
    {
      hide EncodeAll, Logical, IsDigest;
      assert Recordable(Completion(|Logical(logs[id])|, codec.digest(Logical(logs[id]))));
    }

    ghost method Seal(id: string)
      requires Consistent() && SealIs(id)
      modifies `sealed
      ensures Consistent() && sealed == old(sealed) + {id}
    {
      hide Balanced, Logged, Total, SealIs, WritingIs;
      sealed := sealed + {id};
    }

    /** The first part of writeCompletionMarker: what the marker of a whole log says. */
    method Summary(id: string) returns (r: Bytes)
      requires Valid() && Whole(id)
      ensures r == MarkerFor(Logical(logs[id])) && |r| <= MARKER_LIMIT
      ensures codec.decode(r) == Some(Completion(|Logical(logs[id])|, codec.digest(Logical(logs[id]))))
    {
      hide Consistent, Content, Total, EncodeAll, Logical, Completions.CollectBoth;
      WholeFacts(id);
      var file := RecordsOf(id);
      var metadata, size := Completions.LogicalMetadata(file, itemLimit);
      Completions.CollectsLogical(logs[id], itemLimit);
      r := codec.encode(Completion(size, codec.digest(metadata.value)));
      LogicalFits(id);
      SealFits(id, r);
    }

    /** The marker is written, and from now on the artifact is sealed. */
    method PlaceMarker(id: string, content: Bytes)
      requires Consistent() && Whole(id) && id !in sealed && |content| <= MARKER_LIMIT && |content| <= Get(owed, id)
      requires codec.decode(content) == Some(Completion(|Logical(logs[id])|, codec.digest(Logical(logs[id]))))
      modifies this`disk, this`owed, this`sealed
      ensures Consistent() && id in sealed && owed == Add(old(owed), id, 0 - |content|)
      ensures Spared(active.Keys, {id}, old(Now()), Now())
      ensures forall k :: k != Marker ==> Content(disk, id, k) == Content(old(disk), id, k)
    {
      hide Consistent, EncodeAll, Logical;
      NoSize(disk, Path(id, Marker));
      PutFile(Path(id, Marker), content);
      OnlyFilesSpare(active.Keys, old(Now()), Now(), id, {Marker});
      hide Content, Spared, SameBut;
      ghost var put := Now();
      Seal(id);
      OnlyFlags(active.Keys, put, Now(), id);
      SparedTwice(active.Keys, {id}, old(Now()), put, Now());
    }

    /** The bytes of the marker of an artifact with this content. */
    ghost function MarkerFor(content: Bytes): Bytes {
      codec.encode(Completion(|content|, codec.digest(content)))
    }

    /** Both quotas leave room for the marker of this log. */
    ghost predicate AffordsMarker(id: string)
      reads `artifactUse, `logicalSizes, `logs
    {
      id in logs && Affords(id, |MarkerFor(Logical(logs[id]))|, 0)
    }

    /** writeCompletionMarker: size and digest of the whole log, charged like any other file. */
    method WriteCompletionMarker(id: string) returns (r: Result<(), StoreError>)
      requires Valid() && Whole(id)
      modifies this
      ensures Consistent() && usage <= totalLimit && active == old(active) && writing == old(writing) && SameOwed()
      ensures r.Ok? ==> id in sealed && old(AffordsMarker(id))
      ensures r.Err? ==> Whole(id)
      ensures id in logs && logs[id] == old(logs)[id]
      ensures forall k :: k != Marker ==> Content(disk, id, k) == Content(old(disk), id, k)
      ensures Spared(active.Keys, {id}, old(Now()), Now())
      ensures Alone(id) && old(AffordsMarker(id)) ==> r.Ok?
    {
      hide Consistent, Settled, Content, Total, EncodeAll, Logical, MarkerFor, Spared, Unmarked, SameTally, Moved, Add;
      WholeFacts(id);
      NotMoved(owed, owed, id);
      NothingMoved(active.Keys, Now());
      HeldSpared(active.Keys, Now(), Now(), id, {Marker});
      var openFails := Fails();
      var writeFails := Fails();
      if openFails {
        return Err(IoFailure);
      }
      var content := Summary(id);
      r := ReserveWrite(id, |content|, 0);
      ghost var reserved := Now();
      HeldSpared(active.Keys, old(Now()), reserved, id, {Marker});
      StillUnmarked(old(Now()), reserved, id);
      if r.Ok? {
        AddMoves(old(owed), id, |content|);
        AddMoves(owed, id, 0 - |content|);
        OwedAgain(old(owed), owed, Add(owed, id, 0 - |content|), id, |content|);
        if writeFails {
          RollbackWrite(id, |content|);
          r := Err(IoFailure);
        } else {
          PlaceMarker(id, content);
          SparedTwice(active.Keys, {id}, old(Now()), reserved, Now());
        }
      }
    }

    /** The writer of `id` has let go of its file. */
    ghost method Unhand(id: string)
      requires Consistent() && id in writing
      modifies `writing
      ensures Consistent() && writing == old(writing) - {id} && Whole(id)
    {
      hide Balanced, Logged, Total, SealIs;
      writing := writing - {id};
    }

    lemma SealedIs(id: string)
      requires Consistent() && id in sealed
      ensures SealIs(id) && Lawful(codec)
    {
    }

    lemma LengthsAgree(id: string, content: Bytes)
      requires WritingIs(id) && Content(disk, id, Records) == Some(content)
      ensures |EncodeAll(logs[id])| == |content|
    {
    }

    // ---- Reading a page ----

    /** The completion a reader believes: one that can be read, parsed, and names a digest. */
    function MarkerOf(id: string): Option<Completion>
      reads `disk
    {
      match Content(disk, id, Marker)
      case None => None
      case Some(content) =>
        if |content| > MARKER_LIMIT then None
        else match codec.decode(content)
          case None => None
          case Some(c) => if c.size < 0 || c.sha256 == "" then None else Some(c)
    }

    /** A marker counts when its file has at most 1,024 bytes and can be decoded into a size and a digest. */
    lemma MarkerCounts(id: string, c: Completion)
      ensures MarkerOf(id) == Some(c) <==>
        && Path(id, Marker) in disk && |disk[Path(id, Marker)].content| <= 1024
        && codec.decode(disk[Path(id, Marker)].content) == Some(c) && c.size >= 0 && c.sha256 != ""
    {
    }

    /** What the page walk looks at, once the marker was read. */
    function ViewOf(id: string, payload: string, s: Sample, file: Bytes): View
      reads `disk
    {
      View(file, s.end, itemLimit, payload != "base64", s.active || MarkerOf(id).None?)
    }

    /** The locked beginning of readPage: sample the counters, then hold the artifact. */
    method BeginRead(id: string) returns (s: Sample)
      requires Consistent()
      modifies `active
      ensures Consistent() && active == Add(old(active), id, 1)
      ensures s == Sample(id in old(active), Get(committedEnds, id), Get(logicalSizes, id))
      ensures if id in old(active) then active[id] > 1 else active[id] == 1 && id !in writing
    {
      s := Sample(id in active, Get(committedEnds, id), Get(logicalSizes, id));
      Hold(id);
    }

    /** What a page says beside its bytes. */
    function ReplyOf(k: Cursors.Crypto, id: string, payload: string, s: Sample, page: Page): (r: Reply)
      requires page.next.Some? ==> Decoded(page.next.value)
      reads `disk
    {
      var marker := MarkerOf(id);
      var complete := !s.active && marker.Some?;
      Reply(page, complete,
            if marker.Some? then marker.value.size else s.size,
            if complete then Some(marker.value.sha256) else None,
            if page.next.Some? then Some(Cursors.EncodeCursor(k, id, payload, page.next.value)) else None)
    }

    /** The rest of readPage: marker, walk, access time, and letting go. */
    method FinishRead(k: Cursors.Crypto, id: string, payload: string, s: Sample, cursor: Cursor, maximum: int, now: int)
      returns (r: Result<Reply, ReadError>)
      requires Consistent() && id in active && (active[id] == 1 ==> id !in writing) && Decoded(cursor)
      modifies `disk, `active
      ensures Consistent() && Get(active, id) == old(Get(active, id)) - 1
      ensures active == if old(active)[id] == 1 then old(active) - {id} else old(active)[id := old(active)[id] - 1]
      ensures OnlyFiles(old(Now()), Now(), id, {})
      ensures r.Ok? ==>
        Path(id, Records) in disk && disk == old(disk)[Path(id, Records) := disk[Path(id, Records)]]
          && disk[Path(id, Records)].mod == now
      ensures r.Err? ==> disk == old(disk)
      ensures r.Ok? ==> (r.value.digest.Some? <==> r.value.complete)
      ensures r.Ok? ==> (r.value.complete <==> !s.active && old(MarkerOf(id)).Some?)
      ensures r.Ok? ==>
        r.value.size == if old(MarkerOf(id)).Some? then old(MarkerOf(id)).value.size else s.size
      ensures Content(disk, id, Records).None? <==> r == Err(Missing)
      ensures Content(disk, id, Records).Some? ==>
        match PageOf(ViewOf(id, payload, s, Content(disk, id, Records).value), cursor, Clamp(maximum))
        case Err(e) => r == Err(Unreadable(e))
        case Ok(page) => (page.next.Some? ==> Decoded(page.next.value)) && r == Ok(ReplyOf(k, id, payload, s, page))
    {
      hide Consistent, PageOf;
      var p := Path(id, Records);
      if p !in disk {
        Release(id);
        return Err(Missing);
      }
      var file := disk[p].content;
      var page := WalkPhases(ViewOf(id, payload, s, file), cursor, Clamp(maximum));
      match page {
        case Err(e) => r := Err(Unreadable(e));
        case Ok(found) =>
          NextDecodes(ViewOf(id, payload, s, file), cursor, Clamp(maximum));
          r := Ok(ReplyOf(k, id, payload, s, found));
          TouchRecords(id, file, now);
      }
      Release(id);
    }

    /** The reader's view of a log of which `fs` was committed when the page was begun. */
    lemma ReaderSees(id: string, payload: string, s: Sample, fs: seq<Frame>)
      requires Consistent() && id in logs && fs <= logs[id] && s.end == |EncodeAll(fs)|
      ensures Content(disk, id, Records).Some?
      ensures Committed(ViewOf(id, payload, s, Content(disk, id, Records).value), fs)
    {
      hide Balanced, Total, EncodeAll, MarkerOf;
      assert logs[id][..|fs|] == fs && forall f :: f in fs ==> f in logs[id];
      SplitAt(logs[id], |fs|);
    }

    /** The answer to a page request from a good cursor: only a text page can fail, and the token leads on. */
    ghost predicate Answers(
      k: Cursors.Crypto, id: string, payload: string, c: Cursor, maximum: int, r: Result<Reply, ReadError>)
      requires id in logs && Content(disk, id, Records).Some?
      reads `active, `disk, `logs, `committedEnds, `logicalSizes
    {
      var s := Sample(id in active, Get(committedEnds, id), Get(logicalSizes, id));
      var v := ViewOf(id, payload, s, Content(disk, id, Records).value);
      if r.Err? then v.text && r.error == Unreadable(NoUtf8Boundary)
      else
        && PageIs(logs[id], v, c, Clamp(maximum), r.value.page)
        && (r.value.next.Some? <==> r.value.page.next.Some?)
        && (r.value.next.Some? ==>
          Cursors.DecodeCursor(k, id, payload, r.value.next.value) == Ok(r.value.page.next.value))
        && r.value.complete == !v.active
        && (MarkerOf(id).None? ==> r.value.size == LogicalSize(logs[id]))
    }

    lemma AnswerIs(k: Cursors.Crypto, id: string, payload: string, c: Cursor, maximum: int, r: Result<Reply, ReadError>)
      requires Valid() && Cursors.Lawful(k) && id in logs && CursorOk(logs[id], c) && Decoded(c)
      requires Content(disk, id, Records).Some?
      requires var s := Sample(id in active, Get(committedEnds, id), Get(logicalSizes, id));
        match PageOf(ViewOf(id, payload, s, Content(disk, id, Records).value), c, Clamp(maximum))
        case Err(e) => r == Err(Unreadable(e))
        case Ok(page) => (page.next.Some? ==> Decoded(page.next.value)) && r == Ok(ReplyOf(k, id, payload, s, page))
      ensures Answers(k, id, payload, c, maximum, r)
    {
      LogFits(id);
      EndIs(id);
      var fs, s := logs[id], Sample(id in active, Get(committedEnds, id), Get(logicalSizes, id));
      ReaderSees(id, payload, s, fs);
      var v := ViewOf(id, payload, s, Content(disk, id, Records).value);
      PageDelivers(fs, v, c, Clamp(maximum));
      if r.Ok? && r.value.page.next.Some? && !(v.active && c.phase == 2) {
        Cursors.GoodCursorFits(fs, r.value.page.next.value);
        Cursors.CursorRoundTrip(k, id, payload, r.value.page.next.value);
      } else {
        Cursors.GoodCursorFits(fs, c);
        Cursors.CursorRoundTrip(k, id, payload, c);
      }
      hide Valid, Committed, EncodeAll, PageOf, CursorOk, MarkerOf, Content, LogicalSize;
    }

    lemma EndIs(id: string)
      requires Consistent() && id in logs
      ensures Get(committedEnds, id) == |EncodeAll(logs[id])| && Content(disk, id, Records).Some?
      ensures Get(logicalSizes, id) == LogicalSize(logs[id])
    {
      hide Balanced, Total, EncodeAll, LogicalSize;
    }

    lemma SealTells(id: string)
      requires Consistent() && id in sealed
      ensures id in logs && MarkerOf(id) == Some(Completion(|Logical(logs[id])|, codec.digest(Logical(logs[id]))))
    {
      hide Consistent, SealIs, Logical, Content, EncodeAll;
      SealedIs(id);
      SealTellsItself(id);
    }

    lemma SealTellsItself(id: string)
      requires SealIs(id) && Lawful(codec)
      ensures MarkerOf(id) == Some(Completion(|Logical(logs[id])|, codec.digest(Logical(logs[id]))))
    {
      hide Logical, Content, EncodeAll;
    }

    /** readPage, with nothing between its two parts. */
    method ReadPage(k: Cursors.Crypto, id: string, payload: string, token: string, maximum: int, now: int)
      returns (r: Result<Reply, ReadError>)
      requires Valid() && Cursors.Lawful(k)
      modifies `disk, `active
      ensures Valid() && active == old(active)
      ensures OnlyFiles(old(Now()), Now(), id, {})
      ensures var c := Cursors.DecodeCursor(k, id, payload, token);
        && (c.Err? ==> r == Err(BadCursor))
        && (c.Ok? ==> (r == Err(Missing) <==> Content(disk, id, Records).None?))
        && (c.Ok? && id in logs && CursorOk(logs[id], c.value) ==>
          Content(disk, id, Records).Some? && Answers(k, id, payload, c.value, maximum, r))
      ensures r.Ok? ==> Path(id, Records) in disk && disk[Path(id, Records)].mod == now
      ensures disk == if r.Ok? then old(disk)[Path(id, Records) := disk[Path(id, Records)]] else old(disk)
      ensures r.Ok? ==> (r.value.digest.Some? <==> r.value.complete)
      ensures r.Ok? ==> (r.value.complete <==> id !in active && MarkerOf(id).Some?)
      ensures r.Ok? && id in logs && MarkerOf(id).None? ==> r.value.size == LogicalSize(logs[id])
      ensures r.Ok? && id in sealed && id !in active ==>
        id in logs && r.value.complete && r.value.size == |Logical(logs[id])|
          && r.value.digest == Some(codec.digest(Logical(logs[id])))
    {
      hide Consistent, PageOf, CursorOk, PageIs, Content, Answers, EncodeAll, Logical, NothingOwed, OnlyFiles,
        Cursors.DecodeCursor, Cursors.Lawful;
      NothingWritten(Now(), id);
      var c := Cursors.DecodeCursor(k, id, payload, token);
      if c.Err? {
        return Err(BadCursor);
      }
      Cursors.DecodedIsDecoded(k, id, payload, token);
      var s := BeginRead(id);
      r := FinishRead(k, id, payload, s, c.value, maximum, now);
      assert active == old(active);
      if id in sealed {
        SealTells(id);
      }
      if id in logs {
        EndIs(id);
      }
      if id in logs && CursorOk(logs[id], c.value) {
        AnswerIs(k, id, payload, c.value, maximum, r);
      }
    }

    /**
     * A page is read at `now`, and the store is swept within the time to live: the artifact goes only
     * if every idle one goes whose files are all older than the page.
     */
    method ReadThenCleanup(
      k: Cursors.Crypto, id: string, payload: string, token: string, maximum: int, now: int, incoming: int, later: int,
      ghost other: string)
      returns (r: Result<Reply, ReadError>, ok: bool, ghost gone: set<string>)
      requires Valid() && Cursors.Lawful(k) && later - now <= ttl
      requires other in artifactUse && other !in active && other != id
      requires forall kind :: Path(other, kind) in disk ==> disk[Path(other, kind)].mod < now
      modifies this`active, this`usage, this`artifactUse, this`logicalSizes, this`committedEnds, this`diskAvailable,
        this`disk, this`logs, this`sealed
      ensures Consistent() && Settled() && active == old(active)
      ensures artifactUse == old(artifactUse) - gone && forall p :: p in disk ==> p.id !in gone
      ensures r.Ok? && id in gone ==> other in gone
    {
      hide Consistent, CursorOk, Content, Answers, NothingOwed, OnlyFiles, EvictionIs, Spared, SameCharge,
        Cursors.DecodeCursor, Cursors.Lawful, LogicalSize, Logical, MarkerOf;
      r := ReadPage(k, id, payload, token, maximum, now);
      ghost var scene := SceneOf(incoming, later);
      ok, gone := CleanupLocked(incoming, later);
      if r.Ok? {
        OlderGoFirst(scene, gone, ok, id, Records, other);
      }
    }

    lemma WriterIs(id: string)
      requires Consistent() && id in writing
      ensures WritingIs(id)
    {
    }
  }

  /** artifactWriter: the open record file of one artifact. */
  class ArtifactWriter {
    const store: ArtifactStore
    const id: string
    var position: nat
    var companionCopies: nat
    var fileOpen: bool
    var finished: bool

    constructor (store: ArtifactStore, id: string)
      ensures this.store == store && this.id == id && position == 0 && companionCopies == 0 && fileOpen && !finished
    {
      this.store, this.id := store, id;
      position, companionCopies, fileOpen, finished := 0, 0, true, false;
    }

    /** The file is open and its offset stands at the end of the committed log. */
    ghost predicate Open()
      reads `position, `fileOpen, `finished, store`active, store`disk, store`logs, store`writing
    {
      !finished && fileOpen && id in store.writing && store.WritingIs(id) && position == |EncodeAll(store.logs[id])|
    }

    /** What WriteRecord charges: the frame, and a copy of the payload for each companion. */
    function FrameBytes(data: Bytes): nat
      reads `companionCopies
    {
      HEADER + |data| + companionCopies * |data|
    }

    /** The header and the payload, written at the offset of an otherwise unchanged file. */
    method WriteFrame(file: Bytes, f: Frame) returns (content: Bytes, ok: bool)
      requires position == |file|
      modifies `position
      ensures position <= |content| && file <= content
      ensures ok ==> content == file + Header(f) + f.data && position == |content|
      ensures store.calm ==> ok
    {
      hide Header;
      content := file;
      var headerFails := store.Fails();
      var payloadFails := store.Fails();
      if headerFails {
        return content, false;
      }
      WriteAtEnd(file, Header(f));
      content := WriteAt(content, position, Header(f));
      position := position + HEADER;
      var written := |f.data|;
      if payloadFails {
        written :| 0 <= written <= |f.data|;
      }
      WriteAtEnd(content, f.data[..written]);
      content := WriteAt(content, position, f.data[..written]);
      position := position + written;
      ok := !payloadFails;
    }

    /** The file is open, and behind the whole log. */
    lemma OpenHere()
      requires !finished && fileOpen && id in store.writing && store.WritingIs(id)
      requires position == |EncodeAll(store.logs[id])|
      ensures Open()
    {
    }

    /** Nothing was written after all: the reservation is given back and the file cut back to where it was. */
    method Retreat(frameBytes: nat, content: Bytes, start: nat)
      requires store.Consistent() && !finished && fileOpen && id in store.writing && frameBytes <= Get(store.owed, id)
      requires store.WritingIs(id) && start == |EncodeAll(store.logs[id])| && EncodeAll(store.logs[id]) <= content
      modifies store, `position
      ensures store.Consistent() && Open() && store.active == old(store.active) && store.writing == old(store.writing)
      ensures store.usage == old(store.usage) - frameBytes && store.owed == Add(old(store.owed), id, 0 - frameBytes)
      ensures OnlyFiles(old(store.Now()), store.Now(), id, {})
    {
      hide store.Consistent, EncodeAll, OnlyFiles, Content;
      assert content[..start] == EncodeAll(store.logs[id]);
      store.RollbackWrite(id, frameBytes);
      var now: int := *;
      store.TouchRecords(id, content[..start], now);
      position := start;
      OnlyFilesSpare({}, old(store.Now()), store.Now(), id, {});
      StillUnmarked(old(store.Now()), store.Now(), id);
    }

    /** Seek, write, and the way back when that fails. */
    method PutInFile(stream: Byte, data: Bytes) returns (ok: bool)
      requires store.Consistent() && Open() && |data| <= store.itemLimit && FrameBytes(data) <= Get(store.owed, id)
      modifies store, `position
      ensures store.Consistent() && Open() && store.active == old(store.active) && store.writing == old(store.writing)
      ensures store.usage == old(store.usage) - if ok then 0 else FrameBytes(data)
      ensures store.owed == Add(old(store.owed), id, 0 - if ok then HEADER + |data| else FrameBytes(data))
      ensures if ok then FrameAdded(old(store.Now()), store.Now(), id, Frame(stream, data))
        else OnlyFiles(old(store.Now()), store.Now(), id, {})
      ensures ok ==> Get(store.artifactUse, id) == Get(old(store.artifactUse), id)
      ensures ok ==> Get(store.logicalSizes, id) == Get(old(store.logicalSizes), id) + |data|
      ensures store.calm ==> ok
    {
      hide store.Consistent, EncodeAll, Header, Content, FrameAdded, OnlyFiles, Unmarked;
      var start, f := position, Frame(stream, data);
      var file := store.RecordsOf(id);
      var content := file;
      var seekFails := store.Fails();
      ok := false;
      if !seekFails {
        content, ok := WriteFrame(file, f);
      }
      if ok {
        store.CommitFrame(id, f, content, start);
        OpenHere();
      } else {
        Retreat(FrameBytes(data), content, start);
      }
    }

    /** Everything behind the reservation; a file that was closed refuses to seek. */
    method PutFrame(stream: Byte, data: Bytes) returns (ok: bool)
      requires store.Consistent() && (fileOpen ==> Open() && |data| <= store.itemLimit)
      requires FrameBytes(data) <= Get(store.owed, id)
      modifies store, `position
      ensures store.Consistent() && store.active == old(store.active) && store.writing == old(store.writing)
      ensures fileOpen ==> Open()
      ensures store.usage == old(store.usage) - if ok then 0 else FrameBytes(data)
      ensures store.owed == Add(old(store.owed), id, 0 - if ok then HEADER + |data| else FrameBytes(data))
      ensures if ok then FrameAdded(old(store.Now()), store.Now(), id, Frame(stream, data))
        else OnlyFiles(old(store.Now()), store.Now(), id, {})
      ensures ok ==> fileOpen && Get(store.artifactUse, id) == Get(old(store.artifactUse), id)
      ensures ok ==> Get(store.logicalSizes, id) == Get(old(store.logicalSizes), id) + |data|
      ensures store.calm && fileOpen ==> ok
    {
      hide store.Consistent, EncodeAll, Header, Content, FrameAdded, Unmarked, Open;
      if fileOpen {
        ok := PutInFile(stream, data);
      } else {
        store.RollbackWrite(id, FrameBytes(data));
        ok := false;
      }
    }

    lemma WriterHolds()
      requires store.Consistent() && Open()
      ensures Get(store.logicalSizes, id) >= 0 && id in store.active && id in store.writing && id in store.logs
    {
      hide EncodeAll;
      store.WriterSize(id);
    }

    /** Writing other files of the artifact leaves the record file where it is. */
    lemma StaysOpen(a: Archive, kinds: set<Kind>)
      requires SameBut(a, store.Now(), id, kinds) && Records !in kinds && Marker !in kinds
      requires !finished && fileOpen && id in a.writing && Unmarked(a.disk, a.logs, id)
      requires id in store.active && position == |EncodeAll(a.logs[id])|
      ensures Open()
    {
      hide EncodeAll;
    }

    /** The file stays open when nothing happened to the artifact. */
    twostate lemma OpenStays(new held: set<string>)
      requires old(Open()) && Spared(held, {}, old(store.Now()), store.Now()) && id in held
      requires unchanged(`position, `fileOpen, `finished, store`active)
      ensures Open() && SameArtifact(old(store.Now()), store.Now(), id)
    {
      hide Spared, EncodeAll, Unmarked;
      WasSpared(held, {}, old(store.Now()), store.Now(), id);
      StillUnmarked(old(store.Now()), store.Now(), id);
    }

    /** What is in flight once the reservation was used, or given back. */
    lemma OwedThen(active: Tally, first: Tally, frameBytes: nat, used: nat)
      requires NothingOwed(active, first) && (used == frameBytes || id in active)
      ensures var now := Add(Add(first, id, frameBytes), id, 0 - used);
        && NothingOwed(active, now) && Moved(first, now, id, frameBytes - used)
        && (used == frameBytes ==> SameTally(first, now))
    {
      var reserved := Add(first, id, frameBytes);
      var now := Add(reserved, id, 0 - used);
      AddMoves(first, id, frameBytes);
      AddMoves(reserved, id, 0 - used);
      MovedTwice(first, reserved, now, id, frameBytes, 0 - used);
      HolderMayOwe(active, first, now, id, frameBytes - used);
      NotMoved(first, now, id);
      hide Add, NothingOwed, SameTally, Moved;
    }

    lemma RecordSpares(held: set<string>, a: Archive, b: Archive, f: Frame, ok: bool)
      requires Spared(held, {}, a, b) && (ok ==> id in held)
      requires if ok then FrameAdded(b, store.Now(), id, f) else OnlyFiles(b, store.Now(), id, {})
      ensures Spared(held, {id}, a, store.Now()) && (!ok ==> Spared(held, {}, a, store.Now()))
      ensures ok ==> id in a.logs && id in store.logs && store.logs[id] == a.logs[id] + [f]
      ensures ok ==> forall k :: k != Records ==> Content(store.disk, id, k) == Content(a.disk, id, k)
    {
      if ok {
        HeldSpared(held, a, b, id, {});
        FrameSpares(held, b, store.Now(), id, f);
        SparedTwice(held, {id}, a, b, store.Now());
      } else {
        ThenNothing(held, a, b, store.Now(), id);
        SparedLess(held, {}, {id}, a, store.Now());
      }
      hide Spared, Content;
    }

    /** WriteRecord: reserve, append one frame, account for it; or give everything back. */
    method WriteRecord(stream: Byte, data: Bytes) returns (r: Result<(), StoreError>)
      requires store.Valid() && (fileOpen ==> Open())
      modifies store, `position
      ensures store.Valid() && store.active == old(store.active) && store.writing == old(store.writing)
      ensures old(fileOpen) ==> Open()
      ensures !old(fileOpen) ==> r.Err?
      ensures r.Ok? ==>
        id in old(store.logs) && id in store.logs && store.logs[id] == old(store.logs)[id] + [Frame(stream, data)]
      ensures r.Ok? ==> Moved(old(store.owed), store.owed, id, companionCopies * |data|)
      ensures r.Ok? ==> forall k :: k != Records ==> Content(store.disk, id, k) == Content(old(store.disk), id, k)
      ensures r.Ok? ==>
        && Get(store.artifactUse, id) == Get(old(store.artifactUse), id) + FrameBytes(data)
        && Get(store.logicalSizes, id) == Get(old(store.logicalSizes), id) + |data|
        && old(store.Affords(id, FrameBytes(data), |data|))
      ensures r.Err? ==> store.SameOwed() && Spared(store.active.Keys, {}, old(store.Now()), store.Now())
      ensures r == Err(ItemQuota) <==> old(Get(store.logicalSizes, id)) + |data| > store.itemLimit
      ensures Spared(store.active.Keys, {id}, old(store.Now()), store.Now())
      ensures old(fileOpen) && store.Alone(id) && old(store.Affords(id, FrameBytes(data), |data|)) ==> r.Ok?
    {
      hide store.Consistent, EncodeAll, Header, Content, Spared, SameArtifact, FrameAdded, OnlyFiles, Open, NothingOwed,
        SameTally, Moved, Add;
      var frameBytes := FrameBytes(data);
      store.OwedIsNatural(id);
      if fileOpen {
        WriterHolds();
      }
      r := store.ReserveWrite(id, frameBytes, |data|);
      ghost var reserved := store.Now();
      SparedLess(store.active.Keys, {}, {id}, old(store.Now()), reserved);
      NotMoved(store.owed, store.owed, id);
      AddMoves(old(store.owed), id, frameBytes);
      if fileOpen {
        OpenStays(store.active.Keys);
      }
      if r.Ok? {
        var ok := PutFrame(stream, data);
        RecordSpares(old(store.active).Keys, old(store.Now()), reserved, Frame(stream, data), ok);
        OwedThen(store.active, old(store.owed), frameBytes, if ok then HEADER + |data| else frameBytes);
        r := if ok then Ok(()) else Err(IoFailure);
      }
    }

    /** The part of finish between the two locks: sync, close, and the marker of a complete log. */
    method CloseLog(complete: bool) returns (r: Result<(), StoreError>)
      requires store.Valid() && id in store.writing
      modifies store, `fileOpen
      ensures store.Consistent() && store.usage <= store.totalLimit && store.SameOwed()
      ensures store.active == old(store.active) && store.writing == old(store.writing) - {id} && id in store.active
      ensures id in old(store.logs) && id in store.logs && store.logs[id] == old(store.logs)[id]
      ensures forall k :: k != Marker ==> Content(store.disk, id, k) == Content(old(store.disk), id, k)
      ensures complete && r.Ok? ==> store.SealIs(id) && id in store.sealed
      ensures !(complete && r.Ok?) ==> Content(store.disk, id, Marker).None?
      ensures complete && r.Ok? ==> old(store.AffordsMarker(id))
      ensures complete ==>
        old(store.Alone(id) && store.AffordsMarker(id)) ==> r.Ok?
      ensures Spared(store.active.Keys, {id}, old(store.Now()), store.Now())
    {
      hide store.Consistent, EncodeAll, Header, Content, Logical, Spared, NothingOwed, SameTally,
        ArtifactStore.MarkerFor;
      ghost var first := store.Now();
      NotMoved(store.owed, store.owed, id);
      store.Unhand(id);
      ghost var left := store.Now();
      OnlyFlags(store.active.Keys, first, left, id);
      r := CloseFile();
      if r.Ok? && complete {
        r := store.WriteCompletionMarker(id);
        SparedTwice(store.active.Keys, {id}, first, left, store.Now());
        if r.Ok? {
          store.SealedIs(id);
        }
      }
    }

    method CloseFile() returns (r: Result<(), StoreError>)
      modifies `fileOpen
      ensures store.calm ==> r.Ok?
    {
      var syncFails := store.Fails();
      if syncFails {
        return Err(IoFailure);
      }
      fileOpen := false;
      var closeFails := store.Fails();
      r := if closeFails then Err(IoFailure) else Ok(());
    }

    /**
     * finish: sync and close the file, write the marker of a complete log, and let go, once. The store
     * stays settled unless the last hold goes while bytes are still in flight.
     */
    method Finish(complete: bool) returns (r: Result<(), StoreError>)
      requires store.Valid() && (!finished ==> Open())
      modifies store, `fileOpen, `finished
      ensures store.Consistent() && store.usage <= store.totalLimit && finished
      ensures old(finished) || Get(store.owed, id) == 0 || id in store.active ==> store.Valid()
      ensures old(finished) ==> r.Ok? && unchanged(store) && fileOpen == old(fileOpen)
      ensures !old(finished) ==>
        Get(store.active, id) == old(Get(store.active, id)) - 1 && store.writing == old(store.writing) - {id}
      ensures forall x :: x != id ==> Get(store.active, x) == Get(old(store.active), x)
      ensures !old(finished) ==> id in old(store.logs) && id in store.logs && store.logs[id] == old(store.logs)[id]
      ensures !old(finished) ==> forall k :: k != Marker ==>
        Content(store.disk, id, k) == Content(old(store.disk), id, k)
      ensures !old(finished) && complete && r.Ok? ==> store.SealIs(id) && id in store.sealed
      ensures !old(finished) && !(complete && r.Ok?) ==> Content(store.disk, id, Marker).None?
      ensures !old(finished) && complete && r.Ok? ==> old(store.AffordsMarker(id))
      ensures !old(finished) && complete ==>
        old(store.Alone(id) && store.AffordsMarker(id)) ==> r.Ok?
      ensures store.SameOwed() && Spared(old(store.active).Keys, {id}, old(store.Now()), store.Now())
    {
      hide store.Consistent, EncodeAll, Content, Spared, NothingOwed, SameTally, ArtifactStore.MarkerFor,
        ArtifactStore.SealIs;
      NotMoved(store.owed, store.owed, id);
      NothingMoved(store.active.Keys, store.Now());
      SparedLess(store.active.Keys, {}, {id}, store.Now(), store.Now());
      if finished {
        return Ok(());
      }
      finished := true;
      r := CloseLog(complete);
      SameOwesNothing(store.active, old(store.owed), store.owed);
      ghost var holders := store.active;
      store.Release(id);
      if Get(store.owed, id) == 0 || id in store.active {
        FewerHold(holders, store.active, store.owed, id);
      }
    }
  }

  /** When nobody holds anything, a sweep always makes room. */
  lemma EverythingMayGo(s: Scene, gone: set<string>, ok: bool)
    requires EvictionIs(s, gone, ok) && s.busy == {} && s.incoming == 0 && s.totalLimit > 0
    ensures ok
  {
    hide NoFiles, Expired, NoNewer;
    assert forall id :: id in s.use ==> Idle(s, id);
    if forall id :: id in s.use ==> id in gone {
      assert s.use - gone == map[];
    }
  }

  lemma TrackedAreOnDisk(store: ArtifactStore)
    requires store.Seen(IdsOn(store.disk))
    ensures store.artifactUse.Keys == IdsOn(store.disk)
  {
  }

  lemma KeepsTracked(e: Entries, gone: set<string>, id: string)
    requires id in e.use && id !in gone
    ensures id in Dropped(e, gone).use && Dropped(e, gone).use[id] == e.use[id]
  {
  }

  lemma NoSize(d: Disk, p: Path)
    requires Content(d, p.id, p.kind).None?
    ensures Size(d, p) == 0
  {
    assert p == Path(p.id, p.kind);
  }
}
