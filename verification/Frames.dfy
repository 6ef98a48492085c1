/** The record log of one artifact: frames of a stream byte, an 8-byte length and a payload. */
module Frames {
  import opened Wrappers
  import opened ByteStrings

  const HEADER := 9

  datatype Frame = Frame(stream: Byte, data: Bytes)

  /** WriteRecord's header; the conversion to uint64 keeps the low 8 bytes. */
  function Header(f: Frame): (h: Bytes)
    ensures |h| == HEADER
  {
    [f.stream] + BigEndian(|f.data|, 8)
  }

  /** The stream first, then eight bytes of the length, the most significant one first. */
  lemma HeaderLayout(f: Frame, i: nat)
    requires i < 8
    ensures |Header(f)| == 9 && Header(f)[0] == f.stream
    ensures Pow256(7 - i) > 0 && Header(f)[1 + i] == |f.data| / Pow256(7 - i) % 256
  {
    BigEndianAt(|f.data|, 8, i);
  }

  function Encode(f: Frame): Bytes { Header(f) + f.data }

  function EncodeAll(fs: seq<Frame>): Bytes {
    if fs == [] then [] else Encode(fs[0]) + EncodeAll(fs[1..])
  }

  /** Bytes of payload held by all frames, whatever their stream. */
  function LogicalSize(fs: seq<Frame>): nat {
    if fs == [] then 0 else |fs[0].data| + LogicalSize(fs[1..])
  }

  /** The payload of one stream, in frame order. */
  function Payload(fs: seq<Frame>, stream: Byte): Bytes {
    if fs == [] then [] else (if fs[0].stream == stream then fs[0].data else []) + Payload(fs[1..], stream)
  }

  /** What a reader is promised: all of stdout, then all of stderr. */
  function Logical(fs: seq<Frame>): Bytes { Payload(fs, 1) + Payload(fs, 2) }

  predicate Fits(fs: seq<Frame>, limit: int) {
    forall f :: f in fs ==> |f.data| <= limit
  }

  /** Where frame `k` starts. */
  function Offset(fs: seq<Frame>, k: nat): nat
    requires k <= |fs|
  {
    |EncodeAll(fs[..k])|
  }

  // ---- Concatenation ----

  lemma {:induction false} Append(a: seq<Frame>, b: seq<Frame>)
    ensures EncodeAll(a + b) == EncodeAll(a) + EncodeAll(b)
    ensures LogicalSize(a + b) == LogicalSize(a) + LogicalSize(b)
  {
    if a == [] {
      assert a + b == b;
    } else {
      assert (a + b)[1..] == a[1..] + b;
      Append(a[1..], b);
    }
  }

  lemma NoPayload(stream: Byte)
    ensures Payload([], stream) == []
  {
  }

  lemma {:induction false} PayloadAppend(a: seq<Frame>, b: seq<Frame>, stream: Byte)
    ensures Payload(a + b, stream) == Payload(a, stream) + Payload(b, stream)
  {
    if a == [] {
      assert a + b == b;
    } else {
      assert (a + b)[1..] == a[1..] + b;
      PayloadAppend(a[1..], b, stream);
    }
  }

  lemma AppendOne(fs: seq<Frame>, f: Frame)
    ensures EncodeAll(fs + [f]) == EncodeAll(fs) + Encode(f)
    ensures LogicalSize(fs + [f]) == LogicalSize(fs) + |f.data|
  {
    Append(fs, [f]);
    assert EncodeAll([f]) == Encode(f) + EncodeAll([]);
    assert LogicalSize([f]) == |f.data| + LogicalSize([]);
  }

  lemma PayloadAppendOne(fs: seq<Frame>, f: Frame, stream: Byte)
    ensures Payload(fs + [f], stream) == Payload(fs, stream) + if f.stream == stream then f.data else []
  {
    PayloadAppend(fs, [f], stream);
    assert Payload([f], stream) == (if f.stream == stream then f.data else []) + Payload([], stream);
  }

  /** The log split at frame `k`. */
  lemma SplitAt(fs: seq<Frame>, k: nat)
    requires k <= |fs|
    ensures EncodeAll(fs) == EncodeAll(fs[..k]) + EncodeAll(fs[k..])
    ensures LogicalSize(fs) == LogicalSize(fs[..k]) + LogicalSize(fs[k..])
  {
    assert fs == fs[..k] + fs[k..];
    Append(fs[..k], fs[k..]);
  }

  lemma PayloadSplitAt(fs: seq<Frame>, k: nat, stream: Byte)
    requires k <= |fs|
    ensures Payload(fs, stream) == Payload(fs[..k], stream) + Payload(fs[k..], stream)
  {
    assert fs == fs[..k] + fs[k..];
    PayloadAppend(fs[..k], fs[k..], stream);
  }

  lemma OffsetNext(fs: seq<Frame>, k: nat)
    requires k < |fs|
    ensures Offset(fs, k + 1) == Offset(fs, k) + HEADER + |fs[k].data| <= |EncodeAll(fs)|
    ensures LogicalSize(fs[..k + 1]) == LogicalSize(fs[..k]) + |fs[k].data|
  {
    assert fs[..k + 1] == fs[..k] + [fs[k]];
    AppendOne(fs[..k], fs[k]);
    SplitAt(fs, k + 1);
  }

  lemma PayloadNext(fs: seq<Frame>, k: nat, stream: Byte)
    requires k < |fs|
    ensures Payload(fs[..k + 1], stream) == Payload(fs[..k], stream) + if fs[k].stream == stream then fs[k].data else []
  {
    assert fs[..k + 1] == fs[..k] + [fs[k]];
    PayloadAppendOne(fs[..k], fs[k], stream);
  }

  lemma PayloadFrom(fs: seq<Frame>, k: nat, stream: Byte)
    requires k < |fs|
    ensures Payload(fs[k..], stream) ==
      (if fs[k].stream == stream then fs[k].data else []) + Payload(fs[k + 1..], stream)
  {
    assert fs[k..][0] == fs[k] && fs[k..][1..] == fs[k + 1..];
    assert [] + Payload(fs[k + 1..], stream) == Payload(fs[k + 1..], stream);
  }

  lemma {:induction false} OffsetsGrow(fs: seq<Frame>, j: nat, k: nat)
    requires j <= k <= |fs|
    ensures Offset(fs, j) + HEADER * (k - j) <= Offset(fs, k) <= |EncodeAll(fs)|
  {
    SplitAt(fs, k);
    if j < k {
      OffsetNext(fs, k - 1);
      OffsetsGrow(fs, j, k - 1);
    }
  }

  // ---- Reading a header back ----

  /** int64(binary.BigEndian.Uint64(header[1:])) of the header at `p`. */
  function LengthAt(log: Bytes, p: nat): int
    requires p + HEADER <= |log|
  {
    var n := FromBigEndian(log[p + 1..p + HEADER]);
    if n < INT64_LIMIT then n else n - 2 * INT64_LIMIT
  }

  /** The length a header declares, as an unsigned number of 64 bits. */
  function Declared(log: Bytes, p: nat): nat
    requires p + 9 <= |log|
  {
    FromBigEndian(log[p + 1..p + 9])
  }

  lemma DeclaredLength(log: Bytes, p: nat)
    requires p + 9 <= |log|
    ensures var n := Declared(log, p);
      if n >= 0x8000_0000_0000_0000 then LengthAt(log, p) < 0 else LengthAt(log, p) == n
  {
    FromBigEndianRoundTrip(log[p + 1..p + 9]);
    Pow256Of8();
  }

  lemma FrameBytes(fs: seq<Frame>, k: nat)
    requires k < |fs|
    ensures Offset(fs, k + 1) == Offset(fs, k) + HEADER + |fs[k].data| <= |EncodeAll(fs)|
    ensures EncodeAll(fs)[Offset(fs, k)..Offset(fs, k) + HEADER] == Header(fs[k])
    ensures EncodeAll(fs)[Offset(fs, k) + HEADER..Offset(fs, k + 1)] == fs[k].data
  {
    var before, after := EncodeAll(fs[..k]), EncodeAll(fs[k + 1..]);
    assert EncodeAll(fs) == before + Encode(fs[k]) + after by {
      assert fs[..k + 1] == fs[..k] + [fs[k]];
      AppendOne(fs[..k], fs[k]);
      SplitAt(fs, k + 1);
    }
    OffsetNext(fs, k);
    Parts(before, Header(fs[k]), fs[k].data, after);
  }

  lemma HeaderSays(log: Bytes, p: nat, f: Frame)
    requires p + HEADER <= |log| && log[p..p + HEADER] == Header(f) && |f.data| < INT64_LIMIT
    ensures log[p] == f.stream && LengthAt(log, p) == |f.data|
  {
    hide BigEndian, FromBigEndian, Pow256;
    assert log[p] == log[p..p + HEADER][0];
    assert log[p + 1..p + HEADER] == log[p..p + HEADER][1..] == BigEndian(|f.data|, 8);
    Pow256Of8();
    BigEndianRoundTrip(|f.data|, 8);
  }

  /** Every whole frame of the log is read back from its offset. */
  lemma FrameAt(fs: seq<Frame>, k: nat, log: Bytes)
    requires k < |fs| && |fs[k].data| < INT64_LIMIT
    requires Offset(fs, k) + HEADER <= |log|
    requires log <= EncodeAll(fs) || EncodeAll(fs) <= log
    ensures Offset(fs, k + 1) == Offset(fs, k) + HEADER + |fs[k].data| <= |EncodeAll(fs)|
    ensures log[Offset(fs, k)] == fs[k].stream
    ensures LengthAt(log, Offset(fs, k)) == |fs[k].data|
    ensures Offset(fs, k + 1) <= |log| ==> log[Offset(fs, k) + HEADER..Offset(fs, k + 1)] == fs[k].data
  {
    hide EncodeAll, LengthAt, Header, Offset;
    FrameBytes(fs, k);
    var p, q, all, f := Offset(fs, k), Offset(fs, k + 1), EncodeAll(fs), fs[k];
    SameStretch(log, all, p, p + HEADER);
    HeaderSays(log, p, f);
    if q <= |log| {
      SameStretch(log, all, p + HEADER, q);
    }
  }

  // ---- scanArtifactFrames ----

  datatype Scan = Scan(logical: nat, physical: nat)
  datatype ScanError = InvalidFrameLength

  /** The scan of `log` from a frame boundary `p`, `logical` payload bytes already counted. */
  function ScanFrom(log: Bytes, limit: int, p: nat, logical: nat): Result<Scan, ScanError>
    decreases |log| - p
  {
    if p + HEADER > |log| then Ok(Scan(logical, p))
    else
      var length := LengthAt(log, p);
      if length < 0 || length > limit then Err(InvalidFrameLength)
      else if p + HEADER + length > |log| then Ok(Scan(logical, p))
      else ScanFrom(log, limit, p + HEADER + length, logical + length)
  }

  /** scanArtifactFrames, reading header after header with a moving file offset. */
  method ScanArtifactFrames(file: Bytes, itemLimit: int) returns (r: Result<Scan, ScanError>)
    ensures r == ScanFrom(file, itemLimit, 0, 0)
  {
    var offset: nat, logical: nat, physical: nat := 0, 0, 0;
    while true
      invariant offset == physical <= |file|
      invariant ScanFrom(file, itemLimit, physical, logical) == ScanFrom(file, itemLimit, 0, 0)
      decreases |file| - physical
    {
      if |file| - offset < HEADER {
        return Ok(Scan(logical, physical));
      }
      var length := LengthAt(file, offset);
      offset := offset + HEADER;
      if length < 0 || length > itemLimit {
        return Err(InvalidFrameLength);
      }
      if physical + HEADER + length > |file| {
        return Ok(Scan(logical, physical));
      }
      offset := offset + length;
      physical := physical + HEADER + length;
      logical := logical + length;
    }
  }

  /** How many leading frames fit whole into the first `n` bytes of the log. */
  function WholeFrames(fs: seq<Frame>, n: nat): (k: nat)
    ensures k <= |fs| && Offset(fs, k) <= n
    ensures k < |fs| ==> n < Offset(fs, k + 1)
  {
    assert fs[..|fs|] == fs;
    if |EncodeAll(fs)| <= n then |fs| else WholeBelow(fs, n, |fs|)
  }

  function WholeBelow(fs: seq<Frame>, n: nat, hi: nat): (k: nat)
    requires hi <= |fs| && n < Offset(fs, hi)
    ensures k < hi && Offset(fs, k) <= n < Offset(fs, k + 1)
  {
    assert fs[..0] == [];
    if Offset(fs, hi - 1) <= n then hi - 1 else WholeBelow(fs, n, hi - 1)
  }

  /**
   * Crash recovery: a log cut after any number of bytes is scanned without an error, and the
   * result is the end and the payload size of the longest prefix of whole frames.
   */
  lemma CrashRecovery(fs: seq<Frame>, n: nat, limit: int)
    requires Fits(fs, limit) && limit < INT64_LIMIT && n <= |EncodeAll(fs)|
    ensures var k := WholeFrames(fs, n);
      ScanFrom(EncodeAll(fs)[..n], limit, 0, 0) == Ok(Scan(LogicalSize(fs[..k]), Offset(fs, k)))
  {
    assert fs[..0] == [];
    ScanFromFrame(fs, 0, n, limit);
  }

  /** Before the cut, a scan sees a whole frame. */
  lemma BeforeCut(fs: seq<Frame>, k: nat, n: nat, limit: int)
    requires Fits(fs, limit) && limit < INT64_LIMIT && n <= |EncodeAll(fs)| && k < WholeFrames(fs, n)
    ensures var log, p, q := EncodeAll(fs)[..n], Offset(fs, k), Offset(fs, k + 1);
      && q == p + HEADER + |fs[k].data| <= n
      && log[p] == fs[k].stream && LengthAt(log, p) == |fs[k].data| <= limit && log[p + HEADER..q] == fs[k].data
  {
    hide EncodeAll, LengthAt, WholeFrames;
    OffsetsGrow(fs, k + 1, WholeFrames(fs, n));
    OffsetNext(fs, k);
    FrameAt(fs, k, EncodeAll(fs)[..n]);
  }

  /** At the cut, a scan sees too little of a frame. */
  lemma AtCut(fs: seq<Frame>, n: nat, limit: int)
    requires Fits(fs, limit) && limit < INT64_LIMIT && n <= |EncodeAll(fs)|
    ensures var log, p := EncodeAll(fs)[..n], Offset(fs, WholeFrames(fs, n));
      p + HEADER > n || (0 <= LengthAt(log, p) <= limit && p + HEADER + LengthAt(log, p) > n)
  {
    var k := WholeFrames(fs, n);
    assert fs[..|fs|] == fs;
    hide EncodeAll, LengthAt, WholeFrames;
    if k < |fs| && Offset(fs, k) + HEADER <= n {
      FrameAt(fs, k, EncodeAll(fs)[..n]);
    }
  }

  lemma {:induction false} ScanFromFrame(fs: seq<Frame>, k: nat, n: nat, limit: int)
    requires Fits(fs, limit) && limit < INT64_LIMIT && n <= |EncodeAll(fs)|
    requires k <= WholeFrames(fs, n)
    ensures var w := WholeFrames(fs, n);
      Offset(fs, k) <= n
        && ScanFrom(EncodeAll(fs)[..n], limit, Offset(fs, k), LogicalSize(fs[..k])) ==
          Ok(Scan(LogicalSize(fs[..w]), Offset(fs, w)))
    decreases |fs| - k
  {
    hide EncodeAll, LengthAt, Fits, LogicalSize;
    if k < WholeFrames(fs, n) {
      BeforeCut(fs, k, n, limit);
      OffsetNext(fs, k);
      hide WholeFrames;
      ScanFromFrame(fs, k + 1, n, limit);
    } else {
      AtCut(fs, n, limit);
    }
  }

  /** The frames a successful scan accepts. */
  ghost function Accepted(log: Bytes, limit: int, p: nat): seq<Frame>
    requires p <= |log|
    decreases |log| - p
  {
    if p + HEADER > |log| then []
    else
      var length := LengthAt(log, p);
      if length < 0 || length > limit || p + HEADER + length > |log| then []
      else [Frame(log[p], log[p + HEADER..p + HEADER + length])] + Accepted(log, limit, p + HEADER + length)
  }

  /** Of a log cut after `n` bytes, the accepted frames are the leading whole ones. */
  lemma AcceptedPrefix(fs: seq<Frame>, n: nat, limit: int)
    requires Fits(fs, limit) && limit < INT64_LIMIT && n <= |EncodeAll(fs)|
    ensures Accepted(EncodeAll(fs)[..n], limit, 0) == fs[..WholeFrames(fs, n)]
  {
    assert fs[..0] == [];
    AcceptedFrom(fs, 0, n, limit);
    assert fs[0..WholeFrames(fs, n)] == fs[..WholeFrames(fs, n)];
  }

  lemma {:induction false} AcceptedFrom(fs: seq<Frame>, k: nat, n: nat, limit: int)
    requires Fits(fs, limit) && limit < INT64_LIMIT && n <= |EncodeAll(fs)|
    requires k <= WholeFrames(fs, n)
    ensures Offset(fs, k) <= n && Accepted(EncodeAll(fs)[..n], limit, Offset(fs, k)) == fs[k..WholeFrames(fs, n)]
    decreases |fs| - k
  {
    var w := WholeFrames(fs, n);
    hide EncodeAll, LengthAt, Fits;
    if k < w {
      BeforeCut(fs, k, n, limit);
      hide WholeFrames;
      AcceptedFrom(fs, k + 1, n, limit);
      assert fs[k..w] == [fs[k]] + fs[k + 1..w];
    } else {
      AtCut(fs, n, limit);
    }
  }

  /** On any bytes at all, what a successful scan reports is a log of frames within the limit. */
  lemma {:induction false} ScanAccepts(log: Bytes, limit: int, p: nat, logical: nat)
    requires p <= |log| && ScanFrom(log, limit, p, logical).Ok?
    ensures var fs, s := Accepted(log, limit, p), ScanFrom(log, limit, p, logical).value;
      p <= s.physical <= |log| && EncodeAll(fs) == log[p..s.physical] && s.logical == logical + LogicalSize(fs)
        && Fits(fs, limit)
    decreases |log| - p
  {
    hide LengthAt, Header, BigEndian, EncodeAll, LogicalSize, Fits;
    NoFrames(limit);
    if p + HEADER <= |log| {
      var length := LengthAt(log, p);
      if 0 <= length <= limit && p + HEADER + length <= |log| {
        var q := p + HEADER + length;
        ScanAccepts(log, limit, q, logical + length);
        var end := ScanFrom(log, limit, p, logical).value.physical;
        FrameThenRest(log, limit, p, q, end, Accepted(log, limit, q));
      }
    }
  }

  lemma NoFrames(limit: int)
    ensures EncodeAll([]) == [] && LogicalSize([]) == 0 && Fits([], limit)
  {
  }

  /** One frame of the bytes, and the frames behind it. */
  lemma FrameThenRest(log: Bytes, limit: int, p: nat, q: nat, end: nat, rest: seq<Frame>)
    requires p + HEADER <= q <= end <= |log| && q == p + HEADER + LengthAt(log, p) && q - p - HEADER <= limit
    requires EncodeAll(rest) == log[q..end] && Fits(rest, limit)
    ensures var fs := [Frame(log[p], log[p + HEADER..q])] + rest;
      EncodeAll(fs) == log[p..end] && LogicalSize(fs) == q - p - HEADER + LogicalSize(rest) && Fits(fs, limit)
  {
    HeaderAt(log, p);
    hide LengthAt, Header, BigEndian;
    var f := Frame(log[p], log[p + HEADER..q]);
    assert ([f] + rest)[1..] == rest;
    assert log[p..end] == log[p..p + HEADER] + log[p + HEADER..q] + log[q..end];
    assert log[p..end] == Encode(f) + EncodeAll(rest);
    assert forall g :: g in [f] + rest ==> g == f || g in rest;
  }

  /** A cut inside frame `k` leaves exactly the frames before it whole. */
  lemma WholeIs(fs: seq<Frame>, n: nat, k: nat)
    requires k < |fs| && Offset(fs, k) <= n < Offset(fs, k + 1)
    ensures WholeFrames(fs, n) == k
  {
    var w := WholeFrames(fs, n);
    hide EncodeAll, WholeFrames, Offset;
    OffsetsGrow(fs, if w < k then w + 1 else k, k);
    OffsetsGrow(fs, if w > k then k + 1 else w, w);
  }

  /**
   * Restart after a crash in the middle of a record: the scan finds exactly the frames that were
   * committed, with their counters, whatever part of the next one was already on disk.
   */
  lemma RestartFindsCommitted(fs: seq<Frame>, f: Frame, file: Bytes, limit: int)
    requires Fits(fs + [f], limit) && limit < INT64_LIMIT
    requires EncodeAll(fs) <= file < EncodeAll(fs + [f])
    ensures Accepted(file, limit, 0) == fs
    ensures ScanFrom(file, limit, 0, 0) == Ok(Scan(LogicalSize(fs), |EncodeAll(fs)|))
  {
    hide EncodeAll, Accepted, ScanFrom, LogicalSize, WholeFrames;
    var all, n := fs + [f], |file|;
    assert file == EncodeAll(all)[..n] && all[..|fs|] == fs && all[..|all|] == all;
    CrashRecovery(all, n, limit);
    AcceptedPrefix(all, n, limit);
    WholeIs(all, n, |fs|);
  }

  /** A header read from the log is the header that would be written. */
  lemma HeaderAt(log: Bytes, p: nat)
    requires p + HEADER <= |log| && 0 <= LengthAt(log, p) && p + HEADER + LengthAt(log, p) <= |log|
    ensures Header(Frame(log[p], log[p + HEADER..p + HEADER + LengthAt(log, p)])) == log[p..p + HEADER]
  {
    hide BigEndian, FromBigEndian, Pow256;
    FromBigEndianRoundTrip(log[p + 1..p + HEADER]);
    Pow256Of8();
    assert log[p..p + HEADER] == [log[p]] + log[p + 1..p + HEADER];
  }

  // ---- When a scan fails ----

  /** A header that declares more than a frame may hold. */
  predicate BadHeader(log: Bytes, p: nat, limit: int) {
    p + 9 <= |log| && (Declared(log, p) >= 0x8000_0000_0000_0000 || Declared(log, p) > limit)
  }

  /** Whole frames within the limit, and then a bad header. */
  ghost predicate BadBehind(log: Bytes, limit: int, fs: seq<Frame>) {
    Fits(fs, limit) && EncodeAll(fs) <= log && BadHeader(log, |EncodeAll(fs)|, limit)
  }

  /** A failed scan found whole frames and then a bad header. */
  lemma {:induction false} RefusedBehind(log: Bytes, limit: int, p: nat, logical: nat) returns (fs: seq<Frame>, q: nat)
    requires p <= |log| && ScanFrom(log, limit, p, logical).Err?
    ensures p <= q <= |log| && EncodeAll(fs) == log[p..q] && Fits(fs, limit) && BadHeader(log, q, limit)
    decreases |log| - p
  {
    hide LengthAt, Header, BigEndian, EncodeAll, LogicalSize, Fits, Declared;
    NoFrames(limit);
    DeclaredLength(log, p);
    var length := LengthAt(log, p);
    fs, q := [], p;
    if 0 <= length <= limit {
      var next := p + HEADER + length;
      fs, q := RefusedBehind(log, limit, next, logical + length);
      FrameThenRest(log, limit, p, next, q, fs);
      fs := [Frame(log[p], log[p + HEADER..next])] + fs;
    }
  }

  /** A scan passes over whole frames. */
  lemma {:induction false} ScanPasses(log: Bytes, limit: int, fs: seq<Frame>, k: nat)
    requires Fits(fs, limit) && limit < INT64_LIMIT && EncodeAll(fs) <= log && k <= |fs|
    ensures Offset(fs, k) <= |log|
    ensures ScanFrom(log, limit, Offset(fs, k), LogicalSize(fs[..k])) ==
      ScanFrom(log, limit, |EncodeAll(fs)|, LogicalSize(fs))
    decreases |fs| - k
  {
    hide EncodeAll, LengthAt, LogicalSize;
    if k == |fs| {
      assert fs[..k] == fs;
    } else {
      OffsetsGrow(fs, k, |fs|);
      assert fs[..|fs|] == fs;
      OffsetNext(fs, k);
      FrameBytes(fs, k);
      FrameAt(fs, k, log);
      ScanPasses(log, limit, fs, k + 1);
    }
  }

  /** A scan of any bytes fails exactly when a bad header stands behind some whole frames. */
  lemma ScanRefuses(log: Bytes, limit: int)
    requires limit < INT64_LIMIT
    ensures ScanFrom(log, limit, 0, 0).Err? <==> exists fs :: BadBehind(log, limit, fs)
  {
    hide EncodeAll, LengthAt, LogicalSize, Fits, Declared, ScanFrom;
    if ScanFrom(log, limit, 0, 0).Err? {
      var fs, q := RefusedBehind(log, limit, 0, 0);
      assert log[0..q] == log[..q];
      assert BadBehind(log, limit, fs);
    }
    forall fs | BadBehind(log, limit, fs)
      ensures ScanFrom(log, limit, 0, 0).Err?
    {
      BeforeFirst(fs);
      ScanPasses(log, limit, fs, 0);
      StopsAtBad(log, limit, |EncodeAll(fs)|, LogicalSize(fs));
    }
  }

  lemma BeforeFirst(fs: seq<Frame>)
    ensures Offset(fs, 0) == 0 && LogicalSize(fs[..0]) == 0
  {
  }

  lemma StopsAtBad(log: Bytes, limit: int, p: nat, logical: nat)
    requires BadHeader(log, p, limit)
    ensures ScanFrom(log, limit, p, logical).Err?
  {
    hide Declared, LengthAt;
    DeclaredLength(log, p);
  }
}
