/** Which artifacts cleanup may remove, and which it must. */
module Eviction {
  import opened Tallies
  import opened Disks
  import Sorting

  datatype Candidate = Candidate(id: string, mod: int, size: int, expired: bool)

  /** What cleanup decides by: the files, the charges, who is busy, the clock and the limits. */
  datatype Scene = Scene(disk: Disk, use: Tally, busy: set<string>, now: int, ttl: int, incoming: int, totalLimit: int)

  /** The order of eviction: expired artifacts first, then the oldest. */
  predicate EvictFirst(a: Candidate, b: Candidate) {
    if a.expired != b.expired then a.expired else a.mod <= b.mod
  }

  lemma EvictFirstIsOrder()
    ensures Sorting.TotalPreorder(EvictFirst)
  {
  }

  /** A tracked artifact nobody holds. */
  predicate Idle(s: Scene, id: string) { id in s.use && id !in s.busy }

  /** There are files, and all of them are older than the time to live. */
  ghost predicate Expired(s: Scene, id: string) {
    !NoFiles(s.disk, id) && forall k :: Path(id, k) in s.disk ==> s.now - s.disk[Path(id, k)].mod > s.ttl
  }

  ghost predicate IsCandidate(s: Scene, c: Candidate) {
    && Idle(s, c.id) && LastTouched(s.disk, c.id, c.mod) && c.size == s.use[c.id]
    && c.expired == (s.now - c.mod > s.ttl)
  }

  /** No file of `a` is newer than every file of `b`. */
  ghost predicate NoNewer(s: Scene, a: string, b: string) {
    forall k :: Path(a, k) in s.disk ==>
      exists l :: Path(b, l) in s.disk && s.disk[Path(a, k)].mod <= s.disk[Path(b, l)].mod
  }

  /** A victim that had to go only to make room. */
  ghost predicate ForRoom(s: Scene, id: string) { !NoFiles(s.disk, id) && !Expired(s, id) }

  lemma CandidateExpires(s: Scene, c: Candidate)
    requires IsCandidate(s, c)
    ensures !NoFiles(s.disk, c.id) && c.expired == Expired(s, c.id)
  {
    var k :| Path(c.id, k) in s.disk && s.disk[Path(c.id, k)].mod == c.mod;
  }

  lemma OneCandidate(s: Scene, a: Candidate, b: Candidate)
    requires IsCandidate(s, a) && IsCandidate(s, b) && a.id == b.id
    ensures a == b
  {
    var k :| Path(a.id, k) in s.disk && s.disk[Path(a.id, k)].mod == a.mod;
    var l :| Path(b.id, l) in s.disk && s.disk[Path(b.id, l)].mod == b.mod;
    assert a.mod <= b.mod <= a.mod;
  }

  lemma CandidatesCompare(s: Scene, a: Candidate, b: Candidate)
    requires IsCandidate(s, a) && IsCandidate(s, b) && a.mod <= b.mod
    ensures NoNewer(s, a.id, b.id)
  {
    var l :| Path(b.id, l) in s.disk && s.disk[Path(b.id, l)].mod == b.mod;
    forall k | Path(a.id, k) in s.disk
      ensures s.disk[Path(a.id, k)].mod <= s.disk[Path(b.id, l)].mod
    {
    }
  }

  /**
   * The outcome of one cleanup: nobody busy is touched, everything expired is gone, room is made
   * oldest first and only while it is needed, and failure means nothing idle is left.
   */
  ghost predicate EvictionIs(s: Scene, gone: set<string>, ok: bool) {
    && (forall id :: id in gone ==> Idle(s, id))
    && (forall id :: Idle(s, id) && (Expired(s, id) || NoFiles(s.disk, id)) ==> id in gone)
    && (forall v, k :: v in gone && ForRoom(s, v) && Idle(s, k) && k !in gone ==> NoNewer(s, v, k))
    && ((exists v :: v in gone && ForRoom(s, v)) ==>
      exists last :: last in gone && ForRoom(s, last)
        && (forall v :: v in gone && ForRoom(s, v) ==> NoNewer(s, v, last))
        && Total(s.use - gone) + s.use[last] + s.incoming > s.totalLimit)
    && (ok <==> Total(s.use - gone) + s.incoming <= s.totalLimit)
    && (!ok ==> forall id :: Idle(s, id) ==> id in gone)
  }

  /** The sorted candidates: every idle artifact with files, once. */
  ghost predicate Listing(s: Scene, cs: seq<Candidate>) {
    && Sorting.Sorted(cs, EvictFirst)
    && (forall i :: 0 <= i < |cs| ==> IsCandidate(s, cs[i]))
    && (forall i, j :: 0 <= i < j < |cs| ==> cs[i].id != cs[j].id)
    && (forall id :: Idle(s, id) && !NoFiles(s.disk, id) ==> exists i :: 0 <= i < |cs| && cs[i].id == id)
  }

  /** The candidates as collected so far, in any order; `left` are the names not yet looked at. */
  ghost predicate Listed(s: Scene, cs: seq<Candidate>, left: set<string>) {
    && (forall c :: c in cs ==> IsCandidate(s, c) && c.id !in left)
    && (forall c :: multiset(cs)[c] <= 1)
    && (forall id :: Idle(s, id) && id !in left && !NoFiles(s.disk, id) ==> exists c :: c in cs && c.id == id)
  }

  lemma NothingListed(s: Scene)
    ensures Listed(s, [], s.use.Keys)
  {
  }

  lemma ListOne(s: Scene, cs: seq<Candidate>, left: set<string>, c: Candidate)
    requires Listed(s, cs, left) && c.id in left && IsCandidate(s, c)
    ensures Listed(s, cs + [c], left - {c.id})
  {
    hide NoFiles, LastTouched;
    assert c !in cs;
    assert c in cs + [c];
  }

  lemma SkipOne(s: Scene, cs: seq<Candidate>, left: set<string>, id: string)
    requires Listed(s, cs, left) && (!Idle(s, id) || NoFiles(s.disk, id))
    ensures Listed(s, cs, left - {id})
  {
    hide NoFiles, LastTouched;
  }

  lemma SortedListing(s: Scene, cs: seq<Candidate>)
    requires Listed(s, cs, {})
    ensures Listing(s, Sorting.Sort(cs, EvictFirst))
  {
    hide NoFiles, LastTouched, EvictFirst, Sorting.Sort;
    EvictFirstIsOrder();
    Sorting.SortIsSorted(cs, EvictFirst);
    Sorting.SortKeepsDistinct(cs, EvictFirst);
    Sorting.SortKeepsElements(cs, EvictFirst);
    ListingOf(s, cs, Sorting.Sort(cs, EvictFirst));
  }

  lemma ListingOf(s: Scene, cs: seq<Candidate>, r: seq<Candidate>)
    requires Listed(s, cs, {}) && Sorting.Sorted(r, EvictFirst)
    requires forall i, j :: 0 <= i < j < |r| ==> r[i] != r[j]
    requires forall c :: c in r <==> c in cs
    ensures Listing(s, r)
  {
    hide NoFiles, IsCandidate, EvictFirst;
    assert forall i :: 0 <= i < |r| ==> r[i] in r && IsCandidate(s, r[i]);
    forall i, j | 0 <= i < j < |r|
      ensures r[i].id != r[j].id
    {
      if r[i].id == r[j].id {
        OneCandidate(s, r[i], r[j]);
      }
    }
    forall id | Idle(s, id) && !NoFiles(s.disk, id)
      ensures exists i :: 0 <= i < |r| && r[i].id == id
    {
      var c :| c in cs && c.id == id;
      assert c in r;
    }
  }

  function Ids(cs: seq<Candidate>): set<string> { set c | c in cs :: c.id }

  ghost function Stale(s: Scene): set<string> {
    set id | id in s.use && Idle(s, id) && NoFiles(s.disk, id)
  }

  /** The stale entries among the names already looked at. */
  ghost function StaleOutside(s: Scene, left: set<string>): set<string> { Stale(s) - left }

  lemma StaleSoFar(s: Scene, left: set<string>, id: string)
    requires id in left && id in s.use
    ensures StaleOutside(s, left - {id}) ==
      if Idle(s, id) && NoFiles(s.disk, id) then StaleOutside(s, left) + {id} else StaleOutside(s, left)
  {
    hide NoFiles, LastTouched;
  }

  lemma StillTracked(s: Scene, left: set<string>, id: string)
    requires id in left
    ensures id !in StaleOutside(s, left)
  {
  }

  lemma StaleEnds(s: Scene)
    ensures StaleOutside(s, s.use.Keys) == {} && StaleOutside(s, {}) == Stale(s)
  {
  }

  /** The artifacts gone after `m` turns of the eviction loop. */
  ghost function GoneAfter(s: Scene, cs: seq<Candidate>, m: nat): set<string>
    requires m <= |cs|
  {
    Stale(s) + Ids(cs[..m])
  }

  lemma GoneNext(s: Scene, cs: seq<Candidate>, m: nat)
    requires m < |cs|
    ensures GoneAfter(s, cs, m + 1) == GoneAfter(s, cs, m) + {cs[m].id}
  {
    assert cs[..m + 1] == cs[..m] + [cs[m]];
  }

  lemma NotGoneYet(s: Scene, cs: seq<Candidate>, m: nat)
    requires Listing(s, cs) && m < |cs|
    ensures cs[m].id !in GoneAfter(s, cs, m) && IsCandidate(s, cs[m])
  {
    hide NoFiles, IsCandidate;
    CandidateExpires(s, cs[m]);
  }

  lemma StaleIsFree(s: Scene, cs: seq<Candidate>)
    requires forall id :: Idle(s, id) && NoFiles(s.disk, id) ==> Get(s.use, id) == 0
    ensures GoneAfter(s, cs, 0) == Stale(s) && Total(s.use - Stale(s)) == Total(s.use)
    ensures Without(s.disk, Stale(s)) == s.disk
  {
    assert cs[..0] == [];
    TotalWithoutZeros(s.use, Stale(s));
    forall id | id in Stale(s)
      ensures forall k :: Path(id, k) !in s.disk
    {
      NoFilesNoBytes(s.disk, id);
    }
  }

  /** Where the eviction loop may stop, and what the last removal saw. */
  ghost predicate StoppedAt(s: Scene, cs: seq<Candidate>, m: nat)
    requires m <= |cs|
  {
    var usage := Total(s.use - GoneAfter(s, cs, m));
    && (m < |cs| ==> !cs[m].expired && usage + s.incoming <= s.totalLimit)
    && (m > 0 && !cs[m - 1].expired ==> usage + cs[m - 1].size + s.incoming > s.totalLimit)
  }

  /** Where an idle artifact stands in the listing decides whether it is gone. */
  lemma Standing(s: Scene, cs: seq<Candidate>, m: nat, id: string) returns (i: nat)
    requires Listing(s, cs) && m <= |cs| && Idle(s, id) && !NoFiles(s.disk, id)
    ensures i < |cs| && cs[i].id == id && IsCandidate(s, cs[i])
    ensures id in Stale(s) + Ids(cs[..m]) <==> i < m
  {
    hide NoFiles, LastTouched;
    i :| 0 <= i < |cs| && cs[i].id == id;
    if i < m {
      assert cs[i] in cs[..m];
    }
  }

  lemma OldestFirst(s: Scene, cs: seq<Candidate>, m: nat, v: string, k: string)
    requires Listing(s, cs) && m <= |cs| && ForRoom(s, v) && Idle(s, v) && Idle(s, k)
    requires v in Stale(s) + Ids(cs[..m]) && k !in Stale(s) + Ids(cs[..m])
    ensures NoNewer(s, v, k)
  {
    hide NoFiles, LastTouched, Ids, NoNewer, Expired, IsCandidate;
    var i := Standing(s, cs, m, v);
    var j := Standing(s, cs, m, k);
    assert EvictFirst(cs[i], cs[j]);
    CandidateExpires(s, cs[i]);
    CandidateExpires(s, cs[j]);
    CandidatesCompare(s, cs[i], cs[j]);
  }

  lemma LastIsNewest(s: Scene, cs: seq<Candidate>, m: nat, v: string)
    requires Listing(s, cs) && 0 < m <= |cs| && ForRoom(s, v) && Idle(s, v) && v in Stale(s) + Ids(cs[..m])
    ensures !cs[m - 1].expired && NoNewer(s, v, cs[m - 1].id) && IsCandidate(s, cs[m - 1])
  {
    hide NoFiles, LastTouched, Ids, NoNewer, Expired, IsCandidate;
    var i := Standing(s, cs, m, v);
    assert i < m - 1 ==> EvictFirst(cs[i], cs[m - 1]);
    CandidateExpires(s, cs[i]);
    CandidateExpires(s, cs[m - 1]);
    CandidatesCompare(s, cs[i], cs[m - 1]);
  }

  /** What is left is not stale, has not expired, and found the loop at its end. */
  lemma KeptIsFresh(s: Scene, cs: seq<Candidate>, m: nat, id: string)
    requires Listing(s, cs) && m <= |cs| && StoppedAt(s, cs, m) && Idle(s, id) && id !in Stale(s) + Ids(cs[..m])
    ensures !NoFiles(s.disk, id) && !Expired(s, id) && m < |cs|
  {
    hide NoFiles, Ids, Expired, IsCandidate, Total;
    assert !NoFiles(s.disk, id);
    var i := Standing(s, cs, m, id);
    assert i > m ==> EvictFirst(cs[m], cs[i]);
    CandidateExpires(s, cs[i]);
  }

  /** The last removal for room was needed, and it was the newest. */
  lemma LastWasNeeded(s: Scene, cs: seq<Candidate>, m: nat, v: string)
    requires Listing(s, cs) && m <= |cs| && StoppedAt(s, cs, m)
    requires ForRoom(s, v) && v in Stale(s) + Ids(cs[..m])
    ensures m > 0 && cs[m - 1].id in Stale(s) + Ids(cs[..m]) && ForRoom(s, cs[m - 1].id)
    ensures cs[m - 1].id in s.use
    ensures Total(s.use - GoneAfter(s, cs, m)) + s.use[cs[m - 1].id] + s.incoming > s.totalLimit
  {
    hide NoFiles, Expired, IsCandidate, Total, NoNewer;
    assert v !in Stale(s);
    var i :| 0 <= i < m && cs[i].id == v;
    GoneIsIdle(s, cs, m);
    LastIsNewest(s, cs, m, v);
    assert cs[m - 1] in cs[..m];
    CandidateExpires(s, cs[m - 1]);
    CandidateIs(s, cs[m - 1]);
  }

  lemma CandidateIs(s: Scene, c: Candidate)
    requires IsCandidate(s, c)
    ensures c.id in s.use && c.size == s.use[c.id]
  {
    hide NoFiles, LastTouched;
  }

  /** The outcome follows from the order of the listing and from where the loop stopped. */
  lemma EvictionFromLoop(s: Scene, cs: seq<Candidate>, m: nat)
    requires Listing(s, cs) && m <= |cs| && StoppedAt(s, cs, m)
    ensures var gone := GoneAfter(s, cs, m);
      EvictionIs(s, gone, Total(s.use - gone) + s.incoming <= s.totalLimit)
  {
    hide NoFiles, NoNewer, Total, Expired, IsCandidate, Listing, StoppedAt, Ids;
    var gone := Stale(s) + Ids(cs[..m]);
    GoneIsIdle(s, cs, m);
    forall id | Idle(s, id) && id !in gone
      ensures !NoFiles(s.disk, id) && !Expired(s, id) && m < |cs|
    {
      KeptIsFresh(s, cs, m, id);
    }
    forall v, k | v in gone && ForRoom(s, v) && Idle(s, k) && k !in gone
      ensures NoNewer(s, v, k)
    {
      OldestFirst(s, cs, m, v, k);
    }
    if v :| v in gone && ForRoom(s, v) {
      LastWasNeeded(s, cs, m, v);
      forall w | w in gone && ForRoom(s, w)
        ensures NoNewer(s, w, cs[m - 1].id)
      {
        LastIsNewest(s, cs, m, w);
      }
    }
    StoppedShort(s, cs, m);
  }

  lemma StoppedShort(s: Scene, cs: seq<Candidate>, m: nat)
    requires m <= |cs| && StoppedAt(s, cs, m)
    ensures m < |cs| ==> Total(s.use - GoneAfter(s, cs, m)) + s.incoming <= s.totalLimit
  {
    hide GoneAfter, Total;
  }

  lemma NewerThan(s: Scene, a: string, kind: Kind, b: string)
    requires Path(a, kind) in s.disk && s.now - s.disk[Path(a, kind)].mod <= s.ttl
    requires forall k :: Path(b, k) in s.disk ==> s.disk[Path(b, k)].mod < s.disk[Path(a, kind)].mod
    ensures ForRoom(s, a) && !NoNewer(s, a, b)
  {
  }

  /**
   * An artifact one of whose files was touched within the time to live goes only when every idle
   * artifact that is older throughout has gone as well.
   */
  lemma OlderGoFirst(s: Scene, gone: set<string>, ok: bool, a: string, kind: Kind, b: string)
    requires EvictionIs(s, gone, ok) && Path(a, kind) in s.disk && s.now - s.disk[Path(a, kind)].mod <= s.ttl
    requires Idle(s, b) && forall k :: Path(b, k) in s.disk ==> s.disk[Path(b, k)].mod < s.disk[Path(a, kind)].mod
    ensures a in gone ==> b in gone
  {
    hide Total, NoNewer, ForRoom, Expired, NoFiles;
    NewerThan(s, a, kind, b);
  }

  /** One removal, in terms of what is gone. */
  lemma RemoveStep(s: Scene, gone: set<string>, c: Candidate)
    requires c.id in s.use && c.id !in gone && c.size == s.use[c.id]
    ensures Without(s.disk, gone) - PathsOf(c.id) == Without(s.disk, gone + {c.id})
    ensures Total(s.use - gone) - c.size == Total(s.use - (gone + {c.id}))
  {
    RemoveAll(s.disk, gone, c.id);
    TotalWithout(s.use - gone, c.id);
    DropOneMore(s.use, gone, c.id);
  }

  /** One turn of the eviction loop. */
  lemma EvictOne(s: Scene, cs: seq<Candidate>, m: nat)
    requires Listing(s, cs) && m < |cs|
    ensures var c, gone := cs[m], GoneAfter(s, cs, m);
      && GoneAfter(s, cs, m + 1) == gone + {c.id} && c.size == Get(s.use, c.id)
      && Without(s.disk, gone) - PathsOf(c.id) == Without(s.disk, gone + {c.id})
      && Total(s.use - gone) - c.size == Total(s.use - (gone + {c.id}))
  {
    hide NoFiles, LastTouched, GoneAfter;
    GoneNext(s, cs, m);
    NotGoneYet(s, cs, m);
    var c, gone := cs[m], GoneAfter(s, cs, m);
    RemoveStep(s, gone, c);
  }

  lemma GoneIsIdle(s: Scene, cs: seq<Candidate>, m: nat)
    requires Listing(s, cs) && m <= |cs|
    ensures forall id :: id in GoneAfter(s, cs, m) ==> Idle(s, id)
  {
    hide NoFiles, LastTouched;
  }

  lemma GoneWasTracked(s: Scene, gone: set<string>, ok: bool)
    requires EvictionIs(s, gone, ok)
    ensures gone <= s.use.Keys
  {
    assert forall id :: id in gone ==> Idle(s, id);
  }
}
