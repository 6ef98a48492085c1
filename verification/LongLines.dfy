/** The limit of the chunking theorem: with a longer line, some split into writes gives other records. */
module LongLines {
  import opened ByteStrings
  import opened Collections
  import opened OutputStreams

  /** A redactor that keeps every line as it is. */
  const PLAIN := Redactor(
    (b: Bytes) => b, (b: Bytes) => false, (b: Bytes) => false, (b: Bytes) => false, [], [])

  predicate Plain(s: Stage) { !s.privateKey && !s.oversized }

  function Lines(t: Bytes): nat
    decreases |t|
  {
    var newline := NewlineAt(t);
    if t == [] then 0 else if newline == |t| then 1 else 1 + Lines(t[newline + 1..])
  }

  /** What stands behind the last newline. */
  function Remainder(t: Bytes): Bytes
    decreases |t|
  {
    var newline := NewlineAt(t);
    if newline == |t| then t else Remainder(t[newline + 1..])
  }

  /** The fold emits one record for each line. */
  lemma {:induction false} FoldCounts(s: Stage, t: Bytes)
    requires Plain(s)
    ensures |LineFold(PLAIN, s, t).out| == |s.out| + Lines(t)
    decreases |t|
  {
    var newline := NewlineAt(t);
    if newline < |t| {
      FoldCounts(EmitLine(PLAIN, s, t[..newline + 1]), t[newline + 1..]);
    }
  }

  /** A line that has begun stays one line, however long its beginning is. */
  lemma LinesBehind(p: Bytes, rest: Bytes)
    requires p != [] && NewlineAt(p) == |p|
    ensures var n := NewlineAt(rest);
      Lines(p + rest) == if n < |rest| then 1 + Lines(rest[n + 1..]) else 1
  {
    hide NewlineAt, Lines;
    NewlineIn(p, rest);
    Behind(p, rest, NewlineAt(rest) + 1);
    FirstLine(p + rest, NewlineAt(p + rest));
  }

  lemma FirstLine(t: Bytes, n: nat)
    requires n == NewlineAt(t)
    ensures t == [] ==> Lines(t) == 0
    ensures t != [] && n == |t| ==> Lines(t) == 1
    ensures n < |t| ==> Lines(t) == 1 + Lines(t[n + 1..])
  {
    hide NewlineAt;
  }

  lemma Behind(p: Bytes, rest: Bytes, i: nat)
    ensures i <= |rest| ==> (p + rest)[|p| + i..] == rest[i..]
  {
  }

  lemma SuffixWithoutNewline(p: Bytes, i: nat)
    requires NewlineAt(p) == |p| && i <= |p|
    ensures NewlineAt(p[i..]) == |p[i..]|
  {
    var q := p[i..];
    forall j | 0 <= j < |q|
      ensures q[j] != NEWLINE
    {
      assert q[j] == p[i + j];
    }
    FirstNewline(q, |q|);
  }

  /** The loop of one write emits no fewer records than there are lines, and one more when it overflows. */
  lemma {:induction false} AbsorbCounts(s: Stage, rest: Bytes)
    requires Plain(s)
    ensures var t := Absorb(PLAIN, s);
      && Plain(t) && NewlineAt(t.pending) == |t.pending|
      && |t.out| + Lines(t.pending + rest) >=
         |s.out| + Lines(s.pending + rest) + if |Remainder(s.pending)| > MAX_RECORD then 1 else 0
    decreases |s.pending|
  {
    hide NewlineAt, Lines, Remainder, Overflow;
    var n := NewlineAt(s.pending);
    NewlineIn(s.pending, rest);
    FirstLine(s.pending + rest, NewlineAt(s.pending + rest));
    FirstRemainder(s.pending, n);
    if n < |s.pending| {
      FrontOfBoth(s.pending, rest, n + 1);
      AbsorbCounts(TakeLine(PLAIN, s, n), rest);
    } else {
      OverflowCounts(s, rest);
    }
  }

  /** What is left without a newline counts as one line, and its flush as one record. */
  lemma OverflowCounts(s: Stage, rest: Bytes)
    requires Plain(s) && NewlineAt(s.pending) == |s.pending|
    ensures var t := Overflow(PLAIN, s);
      && Plain(t) && NewlineAt(t.pending) == |t.pending|
      && |t.out| + Lines(t.pending + rest) ==
         |s.out| + Lines(s.pending + rest) + if |s.pending| > MAX_RECORD then 1 else 0
  {
    hide NewlineAt, Lines;
    if |s.pending| > MAX_RECORD {
      var kept := s.pending[|s.pending| - OVERLAP..];
      SuffixWithoutNewline(s.pending, |s.pending| - OVERLAP);
      LinesBehind(s.pending, rest);
      LinesBehind(kept, rest);
    }
  }

  lemma FirstRemainder(t: Bytes, n: nat)
    requires n == NewlineAt(t)
    ensures n == |t| ==> Remainder(t) == t
    ensures n < |t| ==> Remainder(t) == Remainder(t[n + 1..])
  {
    hide NewlineAt;
  }

  lemma FirstShort(t: Bytes, n: nat)
    requires n == NewlineAt(t) <= MAX_RECORD && !ShortLines(t)
    ensures n < |t| && !ShortLines(t[n + 1..])
  {
    hide NewlineAt;
  }

  /** A text with a long line has a beginning that ends deep inside it. */
  lemma {:induction false} LongBeginning(t: Bytes) returns (k: nat)
    requires !ShortLines(t)
    ensures k <= |t| && |Remainder(t[..k])| > MAX_RECORD
    decreases |t|
  {
    hide NewlineAt, Remainder, ShortLines;
    var n := NewlineAt(t);
    if n > MAX_RECORD {
      k := n;
      FirstNewline(t[..n], n);
      FirstRemainder(t[..n], n);
    } else {
      FirstShort(t, n);
      var rest := t[n + 1..];
      var m := LongBeginning(rest);
      k := n + 1 + m;
      var front := t[..k];
      assert front[n + 1..] == rest[..m];
      assert front[n] == NEWLINE && forall j :: 0 <= j < n ==> front[j] == t[j];
      FirstNewline(front, n);
      FirstRemainder(front, n);
    }
  }

  lemma FirstNewline(t: Bytes, n: nat)
    requires n <= |t| && (n < |t| ==> t[n] == NEWLINE) && forall j :: 0 <= j < n ==> t[j] != NEWLINE
    ensures NewlineAt(t) == n
  {
  }

  lemma TwoChunks(r: Redactor, a: Bytes, b: Bytes)
    ensures Flatten([a, b]) == a + b && WriteAll(r, [a, b]) == WriteOne(r, WriteOne(r, FRESH, a), b)
  {
    var none: Bytes, nothing: seq<Bytes> := [], [];
    assert [a, b][1..] == [b] && [b][1..] == nothing && Flatten([b]) == b + none && b + none == b;
    assert [a, b][..1] == [a] && [a][..0] == nothing && WriteAll(r, nothing) == FRESH;
    assert WriteAll(r, [a]) == WriteOne(r, FRESH, a);
  }

  /** Two writes that part a long line give more records than there are lines. */
  lemma SplitShows(a: Bytes, b: Bytes)
    requires |Remainder(a)| > MAX_RECORD
    ensures |CloseAll(PLAIN, WriteOne(PLAIN, WriteOne(PLAIN, FRESH, a), b)).out| > |LineFold(PLAIN, FRESH, a + b).out|
  {
    hide Absorb, Lines, Remainder, LineFold, NewlineAt;
    var none: Bytes := [];
    var first := WriteOne(PLAIN, FRESH, a);
    assert FRESH.pending + a == a && first.pending + b + none == first.pending + b;
    AbsorbCounts(FRESH.(pending := a), b);
    AbsorbCounts(first.(pending := first.pending + b), none);
    FoldCounts(FRESH, a + b);
    var last := WriteOne(PLAIN, first, b);
    assert last.pending + none == last.pending;
    LastLine(last.pending);
  }

  lemma LastLine(p: Bytes)
    requires NewlineAt(p) == |p|
    ensures Lines(p) == if p == [] then 0 else 1
  {
  }

  /**
   * Exactly the texts without a line of more than 65,536 bytes come out the same however they are
   * split into writes, whatever the redactor.
   */
  lemma ChunkingMattersOnlyForLongLines(text: Bytes)
    ensures (forall r: Redactor, chunks: seq<Bytes> :: Flatten(chunks) == text ==>
      CloseAll(r, WriteAll(r, chunks)).out == LineFold(r, FRESH, text).out) <==> ShortLines(text)
  {
    hide CloseAll, WriteAll, LineFold, Flatten, Remainder;
    if ShortLines(text) {
      forall r: Redactor, chunks: seq<Bytes> | Flatten(chunks) == text
        ensures CloseAll(r, WriteAll(r, chunks)).out == LineFold(r, FRESH, text).out
      {
        ChunkingDoesNotMatter(r, chunks);
      }
    } else {
      var k := LongBeginning(text);
      var a, b := text[..k], text[k..];
      assert a + b == text;
      TwoChunks(PLAIN, a, b);
      SplitShows(a, b);
      assert Flatten([a, b]) == text;
    }
  }
}
