/** The size and digest a completion marker records: one pass over the log for each stream. */
module Completions {
  import opened Wrappers
  import opened ByteStrings
  import opened Collections
  import opened Frames

  datatype MetadataError = HeaderCutShort | BadLength | PayloadCutShort

  /** The payload of one stream from file position `p` on, behind what was hashed before. */
  function Collect(file: Bytes, limit: int, phase: Byte, p: nat, hashed: Bytes): Result<Bytes, MetadataError>
    decreases if p < |file| then |file| - p else 0
  {
    if p >= |file| then Ok(hashed)
    else if p + HEADER > |file| then Err(HeaderCutShort)
    else
      var length := LengthAt(file, p);
      var body := p + HEADER;
      if length < 0 || length > limit then Err(BadLength)
      else if file[p] != phase then Collect(file, limit, phase, body + length, hashed)
      else if body + length > |file| then Err(PayloadCutShort)
      else Collect(file, limit, phase, body + length, hashed + file[body..body + length])
  }

  function CollectBoth(file: Bytes, limit: int): Result<Bytes, MetadataError> {
    match Collect(file, limit, 1, 0, [])
    case Err(e) => Err(e)
    case Ok(stdout) => Collect(file, limit, 2, 0, stdout)
  }

  /** The inner loop of logicalArtifactMetadata. */
  method HashStream(file: Bytes, limit: int, phase: Byte, before: Bytes) returns (r: Result<Bytes, MetadataError>)
    ensures r == Collect(file, limit, phase, 0, before)
  {
    hide LengthAt;
    var offset: nat, hashed := 0, before;
    while offset < |file|
      invariant Collect(file, limit, phase, offset, hashed) == Collect(file, limit, phase, 0, before)
    {
      if offset + HEADER > |file| {
        return Err(HeaderCutShort);
      }
      var stream, length := file[offset], LengthAt(file, offset);
      if length < 0 || length > limit {
        return Err(BadLength);
      }
      offset := offset + HEADER;
      if stream == phase {
        if offset + length > |file| {
          return Err(PayloadCutShort);
        }
        hashed := hashed + file[offset..offset + length];
      }
      offset := offset + length;
    }
    r := Ok(hashed);
  }

  /** logicalArtifactMetadata: the logical size, and the bytes that go into the hash. */
  method LogicalMetadata(file: Bytes, limit: int) returns (r: Result<Bytes, MetadataError>, size: nat)
    ensures r == CollectBoth(file, limit)
    ensures r.Ok? ==> size == |r.value|
  {
    r, size := Ok([]), 0;
    for phase := 1 to 3
      invariant r.Ok? && size == |r.value|
      invariant phase == 1 ==> r.value == []
      invariant phase == 2 ==> r == Collect(file, limit, 1, 0, [])
      invariant phase == 3 ==> r == CollectBoth(file, limit)
    {
      r := HashStream(file, limit, phase, r.value);
      if r.Err? {
        return;
      }
      size := |r.value|;
    }
  }

  /** One frame of a whole log, read at its offset. */
  lemma CollectFrame(fs: seq<Frame>, limit: int, phase: Byte, k: nat, hashed: Bytes)
    requires Fits(fs, limit) && limit < INT64_LIMIT && k < |fs|
    ensures var add := if fs[k].stream == phase then fs[k].data else [];
      && Collect(EncodeAll(fs), limit, phase, Offset(fs, k), hashed) ==
        Collect(EncodeAll(fs), limit, phase, Offset(fs, k + 1), hashed + add)
      && Payload(fs[k..], phase) == add + Payload(fs[k + 1..], phase)
  {
    hide EncodeAll, LengthAt;
    FrameBytes(fs, k);
    FrameAt(fs, k, EncodeAll(fs));
    assert fs[k..][0] == fs[k] && fs[k..][1..] == fs[k + 1..];
    assert hashed + [] == hashed;
  }

  lemma CollectEnd(fs: seq<Frame>, limit: int, phase: Byte, hashed: Bytes)
    ensures Collect(EncodeAll(fs), limit, phase, Offset(fs, |fs|), hashed) == Ok(hashed + Payload(fs[|fs|..], phase))
  {
    hide EncodeAll, Payload;
    assert fs[..|fs|] == fs && fs[|fs|..] == [];
    NoPayload(phase);
    assert hashed + [] == hashed;
  }

  /** On a whole log the pass collects exactly the payload of the stream. */
  lemma {:induction false} CollectFrom(fs: seq<Frame>, limit: int, phase: Byte, k: nat, hashed: Bytes)
    requires Fits(fs, limit) && limit < INT64_LIMIT && k <= |fs|
    ensures Collect(EncodeAll(fs), limit, phase, Offset(fs, k), hashed) == Ok(hashed + Payload(fs[k..], phase))
    decreases |fs| - k
  {
    hide Collect, Payload, EncodeAll, Fits;
    if k == |fs| {
      CollectEnd(fs, limit, phase, hashed);
    } else {
      var add := if fs[k].stream == phase then fs[k].data else [];
      CollectFrame(fs, limit, phase, k, hashed);
      CollectFrom(fs, limit, phase, k + 1, hashed + add);
      Assoc(hashed, add, Payload(fs[k + 1..], phase));
    }
  }

  /** What the marker hashes is exactly what the pager shows. */
  lemma CollectsLogical(fs: seq<Frame>, limit: int)
    requires Fits(fs, limit) && limit < INT64_LIMIT
    ensures CollectBoth(EncodeAll(fs), limit) == Ok(Logical(fs))
  {
    assert fs[..0] == [] && fs[0..] == fs;
    CollectFrom(fs, limit, 1, 0, []);
    assert [] + Payload(fs, 1) == Payload(fs, 1);
    CollectFrom(fs, limit, 2, 0, Payload(fs, 1));
  }

  // ---- When there is no marker ----

  /** A pass goes over the whole frames at the front of any file. */
  lemma {:induction false} CollectPasses(file: Bytes, fs: seq<Frame>, limit: int, phase: Byte, k: nat, hashed: Bytes)
    returns (h: Bytes)
    requires Fits(fs, limit) && limit < INT64_LIMIT && EncodeAll(fs) <= file && k <= |fs|
    ensures Collect(file, limit, phase, Offset(fs, k), hashed) == Collect(file, limit, phase, |EncodeAll(fs)|, h)
    decreases |fs| - k
  {
    hide EncodeAll, LengthAt;
    if k == |fs| {
      assert fs[..k] == fs;
      h := hashed;
    } else {
      FrameBytes(fs, k);
      FrameAt(fs, k, file);
      h := CollectPasses(file, fs, limit, phase, k + 1, if fs[k].stream == phase then hashed + fs[k].data else hashed);
    }
  }

  /** What stands behind the whole frames of a file and is none itself. */
  predicate Broken(file: Bytes, p: nat, limit: int) {
    && p < |file|
    && (p + 9 > |file| || BadHeader(file, p, limit)
      || (1 <= file[p] <= 2 && p + 9 + Declared(file, p) > |file|))
  }

  /** A pass stops at what is broken; at a payload of the other stream it runs off the end of the file. */
  lemma StopsAtBroken(file: Bytes, limit: int, phase: Byte, p: nat, hashed: Bytes)
    requires Broken(file, p, limit) && limit < INT64_LIMIT
    ensures var r := Collect(file, limit, phase, p, hashed);
      if p + 9 > |file| || BadHeader(file, p, limit) || file[p] == phase then r.Err? else r == Ok(hashed)
  {
    hide Declared, LengthAt;
    if p + 9 <= |file| {
      DeclaredLength(file, p);
    }
  }

  /** No size and no digest come of a log with anything broken behind its whole frames. */
  lemma BrokenIsRefused(file: Bytes, fs: seq<Frame>, limit: int)
    requires Fits(fs, limit) && limit < INT64_LIMIT && EncodeAll(fs) <= file && Broken(file, |EncodeAll(fs)|, limit)
    ensures CollectBoth(file, limit).Err?
  {
    hide EncodeAll, Collect, Broken;
    BeforeFirst(fs);
    var stdout := CollectPasses(file, fs, limit, 1, 0, []);
    StopsAtBroken(file, limit, 1, |EncodeAll(fs)|, stdout);
    var both := CollectPasses(file, fs, limit, 2, 0, stdout);
    StopsAtBroken(file, limit, 2, |EncodeAll(fs)|, both);
    EitherStream(file, |EncodeAll(fs)|, limit);
  }

  lemma EitherStream(file: Bytes, p: nat, limit: int)
    requires Broken(file, p, limit)
    ensures p + 9 > |file| || BadHeader(file, p, limit) || file[p] == 1 || file[p] == 2
  {
  }
}
