/** How a stream of output bytes is cut into redacted records, whatever the chunks it arrives in. */
module OutputStreams {
  import opened ByteStrings
  import opened Collections

  const NEWLINE: Byte := 10
  const MAX_RECORD := 64 * 1024
  const OVERLAP := 4 * 1024

  /** Redaction of a record, and the tests for key blocks and secrets, as the caller's functions. */
  datatype Redactor = Redactor(
    redact: Bytes -> Bytes,
    beginsKey: Bytes -> bool,
    endsKey: Bytes -> bool,
    mayContainSecret: Bytes -> bool,
    keyMark: Bytes,
    oversizedMark: Bytes)

  /** The state of one capture: bytes waiting for their newline, the two flags, and the records emitted so far. */
  datatype Stage = Stage(pending: Bytes, privateKey: bool, oversized: bool, out: seq<Bytes>)

  const FRESH := Stage([], false, false, [])

  /** bytes.IndexByte for the newline; the length when there is none. */
  function NewlineAt(b: Bytes): (i: nat)
    ensures i <= |b| && (i < |b| ==> b[i] == NEWLINE) && forall j :: 0 <= j < i ==> b[j] != NEWLINE
  {
    if b == [] || b[0] == NEWLINE then 0 else 1 + NewlineAt(b[1..])
  }

  /** emitRedactedLine: inside a key block nothing is emitted until the line that ends it. */
  function EmitLine(r: Redactor, s: Stage, line: Bytes): Stage {
    if s.privateKey then s.(privateKey := !r.endsKey(line))
    else if r.beginsKey(line) then s.(privateKey := true, out := s.out + [r.keyMark])
    else s.(out := s.out + [r.redact(line)])
  }

  /** The part of Write that takes one line off the front. */
  function TakeLine(r: Redactor, s: Stage, newline: nat): (t: Stage)
    requires newline < |s.pending|
    ensures |t.pending| < |s.pending|
  {
    var line, rest := s.pending[..newline + 1], s.pending[newline + 1..];
    if s.oversized then s.(pending := rest, oversized := false, out := s.out + [[NEWLINE]])
    else EmitLine(r, s.(pending := rest), line)
  }

  /** The part of Write for bytes without a newline: wait, fail closed, or flush all but the overlap. */
  function Overflow(r: Redactor, s: Stage): Stage {
    if |s.pending| <= MAX_RECORD then s
    else if s.oversized || r.mayContainSecret(s.pending) then
      var out := if s.oversized then s.out else s.out + [r.oversizedMark];
      Stage(s.pending[|s.pending| - OVERLAP..], s.privateKey, true, out)
    else
      var flush := |s.pending| - OVERLAP;
      s.(pending := s.pending[flush..], out := s.out + [r.redact(s.pending[..flush])])
  }

  /** The loop of Write. */
  function Absorb(r: Redactor, s: Stage): Stage
    decreases |s.pending|
  {
    var newline := NewlineAt(s.pending);
    if newline == |s.pending| then Overflow(r, s) else Absorb(r, TakeLine(r, s, newline))
  }

  /** Records are only ever added. */
  lemma {:induction false} AbsorbAdds(r: Redactor, s: Stage)
    ensures s.out <= Absorb(r, s).out
    decreases |s.pending|
  {
    var newline := NewlineAt(s.pending);
    if newline < |s.pending| {
      AbsorbAdds(r, TakeLine(r, s, newline));
    }
  }

  lemma AbsorbTakes(r: Redactor, s: Stage)
    requires NewlineAt(s.pending) < |s.pending|
    ensures TakeLine(r, s, NewlineAt(s.pending)).out <= Absorb(r, s).out
    ensures Absorb(r, TakeLine(r, s, NewlineAt(s.pending))) == Absorb(r, s)
  {
    AbsorbAdds(r, TakeLine(r, s, NewlineAt(s.pending)));
  }

  function WriteOne(r: Redactor, s: Stage, data: Bytes): Stage {
    Absorb(r, s.(pending := s.pending + data))
  }

  /** Any number of Write calls, one chunk each. */
  function WriteAll(r: Redactor, chunks: seq<Bytes>): Stage {
    if chunks == [] then FRESH else WriteOne(r, WriteAll(r, chunks[..|chunks| - 1]), chunks[|chunks| - 1])
  }

  /** Close: what is left without a newline is the last line. */
  function CloseAll(r: Redactor, s: Stage): Stage {
    if s.pending != [] && !s.oversized then EmitLine(r, s, s.pending).(pending := []) else s.(pending := [])
  }

  lemma CloseAdds(r: Redactor, s: Stage)
    ensures s.out <= CloseAll(r, s).out
  {
  }

  lemma WriteAdds(r: Redactor, s: Stage, data: Bytes)
    ensures s.out <= WriteOne(r, s, data).out
  {
    AbsorbAdds(r, s.(pending := s.pending + data));
  }

  // ---- The reference: one line after the other ----

  /** The records of `text` when it is read line by line, whole lines at a time. */
  function LineFold(r: Redactor, s: Stage, text: Bytes): Stage
    decreases |text|
  {
    var newline := NewlineAt(text);
    if text == [] then s
    else if newline == |text| then EmitLine(r, s, text)
    else LineFold(r, EmitLine(r, s, text[..newline + 1]), text[newline + 1..])
  }

  /** No line is longer than a record may be. */
  predicate ShortLines(text: Bytes)
    decreases |text|
  {
    var newline := NewlineAt(text);
    newline <= MAX_RECORD && (newline < |text| ==> ShortLines(text[newline + 1..]))
  }

  lemma {:induction false} NewlineIn(a: Bytes, b: Bytes)
    ensures NewlineAt(a + b) == if NewlineAt(a) < |a| then NewlineAt(a) else |a| + NewlineAt(b)
  {
    if a == [] {
      assert a + b == b;
    } else if a[0] != NEWLINE {
      assert (a + b)[1..] == a[1..] + b;
      NewlineIn(a[1..], b);
    }
  }

  /** A state between two chunks of short lines: nothing waiting but an unfinished line. */
  predicate Waiting(s: Stage) { !s.oversized && NewlineAt(s.pending) == |s.pending| <= MAX_RECORD }

  /** What is emitted does not depend on what waits. */
  function Clear(s: Stage): Stage { s.(pending := []) }

  /**
   * The loop of Write on short lines: the lines it takes are those of the reference, and what it
   * leaves waiting is the front of what the reference reads next.
   */
  lemma {:induction false} AbsorbFolds(r: Redactor, s: Stage, rest: Bytes)
    requires !s.oversized && ShortLines(s.pending + rest)
    ensures var t := Absorb(r, s);
      && Waiting(t) && ShortLines(t.pending + rest)
      && LineFold(r, Clear(s), s.pending + rest) == LineFold(r, Clear(t), t.pending + rest)
    decreases |s.pending|
  {
    var n, all := NewlineAt(s.pending), s.pending + rest;
    NewlineIn(s.pending, rest);
    if n < |s.pending| {
      var t := TakeLine(r, s, n);
      FrontOfBoth(s.pending, rest, n + 1);
      assert Clear(t) == EmitLine(r, Clear(s), s.pending[..n + 1]);
      hide EmitLine, TakeLine, NewlineAt;
      AbsorbFolds(r, t, rest);
    }
  }

  lemma {:induction false} WritesFold(r: Redactor, chunks: seq<Bytes>, rest: Bytes)
    requires ShortLines(Flatten(chunks) + rest)
    ensures var s := WriteAll(r, chunks);
      Waiting(s) && LineFold(r, FRESH, Flatten(chunks) + rest) == LineFold(r, Clear(s), s.pending + rest)
      && ShortLines(s.pending + rest)
    decreases |chunks|
  {
    if chunks != [] {
      var front, last := chunks[..|chunks| - 1], chunks[|chunks| - 1];
      FlattenLast(front, last);
      assert chunks == front + [last];
      Assoc(Flatten(front), last, rest);
      WritesFold(r, front, last + rest);
      var s := WriteAll(r, front);
      Assoc(s.pending, last, rest);
      AbsorbFolds(r, s.(pending := s.pending + last), rest);
    }
  }

  lemma FlattenLast(front: seq<Bytes>, last: Bytes)
    ensures Flatten(front + [last]) == Flatten(front) + last
  {
    FlattenAppend(front, [last]);
    assert Flatten([last]) == last + Flatten([]);
  }

  /**
   * Chunking does not matter: any split of the input into Write calls, followed by Close, emits
   * exactly what a fold over its lines emits.
   */
  lemma ChunkingDoesNotMatter(r: Redactor, chunks: seq<Bytes>)
    requires ShortLines(Flatten(chunks))
    ensures CloseAll(r, WriteAll(r, chunks)).out == LineFold(r, FRESH, Flatten(chunks)).out
  {
    var s := WriteAll(r, chunks);
    assert Flatten(chunks) + [] == Flatten(chunks) && s.pending + [] == s.pending;
    WritesFold(r, chunks, []);
  }

  // ---- The windows kept in memory ----

  /** The first `n` bytes, or all of them. */
  function Prefix(b: Bytes, n: nat): (r: Bytes)
    ensures r <= b && |r| <= n && (r == b || |r| == n)
  {
    if |b| <= n then b else b[..n]
  }

  /** The last `n` bytes, or all of them. */
  function Suffix(b: Bytes, n: nat): (r: Bytes)
    ensures |r| <= |b| && |r| <= n && (|r| == |b| || |r| == n) && r == b[|b| - |r|..]
  {
    if |b| <= n then b else b[|b| - n..]
  }

  /** The head window after one more record. */
  function PushFront(head: Bytes, data: Bytes, n: nat): Bytes {
    if |head| < n then head + Prefix(data, n - |head|) else head
  }

  /** The tail window after one more record. */
  function PushBack(tail: Bytes, data: Bytes, n: nat): Bytes {
    if n == 0 then tail else Suffix(tail + data, n)
  }

  lemma PrefixGrows(b: Bytes, data: Bytes, n: nat)
    ensures Prefix(b + data, n) == PushFront(Prefix(b, n), data, n)
  {
  }

  lemma SuffixGrows(b: Bytes, data: Bytes, n: nat)
    ensures Suffix(b + data, n) == PushBack(Suffix(b, n), data, n)
  {
    hide Suffix;
    var kept := Suffix(b, n);
    assert (b + data)[|b| - |kept|..] == kept + data;
    SuffixIs(b + data, n, Suffix(kept + data, n));
  }

  /** There is one end of that length. */
  lemma SuffixIs(b: Bytes, n: nat, r: Bytes)
    requires |r| <= |b| && |r| <= n && (|r| == |b| || |r| == n) && r == b[|b| - |r|..]
    ensures n > 0 ==> Suffix(b, n) == r
    ensures n == 0 ==> Suffix(b, n) == []
  {
  }
}
