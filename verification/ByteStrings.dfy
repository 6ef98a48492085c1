/** Byte sequences and the big-endian integers written into frame headers. */
module ByteStrings {
  type Byte = b: int | 0 <= b < 256
  type Bytes = seq<Byte>

  /** 2^63: the first length an int64 cannot hold. */
  const INT64_LIMIT := 0x8000_0000_0000_0000

  /** Concatenation of a list of byte sequences. */
  function Flatten(pieces: seq<Bytes>): Bytes {
    if pieces == [] then [] else pieces[0] + Flatten(pieces[1..])
  }

  lemma {:induction false} FlattenAppend(a: seq<Bytes>, b: seq<Bytes>)
    ensures Flatten(a + b) == Flatten(a) + Flatten(b)
  {
    if a == [] {
      assert a + b == b;
    } else {
      assert (a + b)[1..] == a[1..] + b;
      FlattenAppend(a[1..], b);
    }
  }

  function Pow256(k: nat): nat {
    if k == 0 then 1 else 256 * Pow256(k - 1)
  }

  /** The low `k` bytes of `n`, most significant byte first. */
  function BigEndian(n: nat, k: nat): (b: Bytes)
    ensures |b| == k
  {
    if k == 0 then [] else BigEndian(n / 256, k - 1) + [n % 256]
  }

  lemma {:induction false} Pow256IsPositive(k: nat)
    ensures Pow256(k) > 0
  {
    if k > 0 {
      Pow256IsPositive(k - 1);
    }
  }

  lemma DivideTwice(n: nat, p: nat)
    requires p > 0
    ensures n / 256 / p == n / (256 * p)
  {
    var q, r := n / 256, n % 256;
    var a, b := q / p, q % p;
    assert n == 256 * (a * p + b) + r == a * (256 * p) + (256 * b + r);
    assert 0 <= 256 * b + r < 256 * p;
    QuotientIs(n, 256 * p, a, 256 * b + r);
  }

  lemma QuotientIs(n: nat, d: nat, q: nat, r: nat)
    requires d > 0 && n == q * d + r && r < d
    ensures n / d == q
  {
    var k := n / d - q;
    assert k * d == (n / d) * d - q * d;
    assert k >= 1 ==> k * d >= d;
    assert k <= -1 ==> k * d + d <= 0;
  }

  /** The byte at place `i` is the digit of weight 256 to the number of bytes behind it. */
  lemma {:induction false} BigEndianAt(n: nat, k: nat, i: nat)
    requires i < k
    ensures Pow256(k - 1 - i) > 0 && BigEndian(n, k)[i] == n / Pow256(k - 1 - i) % 256
  {
    Pow256IsPositive(k - 1 - i);
    if i < k - 1 {
      BigEndianAt(n / 256, k - 1, i);
      DivideTwice(n, Pow256(k - 2 - i));
    }
  }

  function FromBigEndian(b: Bytes): nat {
    if b == [] then 0 else FromBigEndian(b[..|b| - 1]) * 256 + b[|b| - 1]
  }

  lemma {:induction false} BigEndianRoundTrip(n: nat, k: nat)
    requires n < Pow256(k)
    ensures FromBigEndian(BigEndian(n, k)) == n
  {
    if k > 0 {
      BigEndianRoundTrip(n / 256, k - 1);
      assert BigEndian(n, k)[..k - 1] == BigEndian(n / 256, k - 1);
    }
  }

  lemma {:induction false} FromBigEndianRoundTrip(b: Bytes)
    ensures BigEndian(FromBigEndian(b), |b|) == b
    ensures FromBigEndian(b) < Pow256(|b|)
  {
    if b != [] {
      var front := b[..|b| - 1];
      FromBigEndianRoundTrip(front);
      var n := FromBigEndian(b);
      assert n / 256 == FromBigEndian(front) && n % 256 == b[|b| - 1];
    }
  }

  /** Where the two parts of a record lie in the sequence around it. */
  lemma Parts(before: Bytes, head: Bytes, body: Bytes, after: Bytes)
    ensures var all := before + (head + body) + after;
      var p, q := |before|, |before| + |head|;
      all[p..q] == head && all[q..q + |body|] == body
  {
  }

  lemma SameStretch(s: Bytes, t: Bytes, from: nat, to: nat)
    requires from <= to <= |s| && to <= |t| && (s <= t || t <= s)
    ensures s[from..to] == t[from..to]
  {
    assert forall i :: from <= i < to ==> s[i] == t[i];
  }

  lemma CutBehind(s: Bytes, n: nat, i: nat)
    requires n <= i <= |s|
    ensures s[..i][n..] == s[n..][..i - n] && s[n..][i - n..] == s[i..] && s[..i][..n] == s[..n]
  {
  }

  lemma SliceOfSlice(s: Bytes, at: nat, n: nat, from: nat, to: nat)
    requires from <= to <= n && at + n <= |s|
    ensures s[at..at + n][from..to] == s[at + from..at + to]
  {
    var t := s[at..at + n];
    assert forall i :: 0 <= i < to - from ==> t[from..to][i] == t[from + i] == s[at + from..at + to][i];
  }

  /** A stretch of `a + b`, by where it starts and ends. */
  lemma SliceOfConcat(a: Bytes, b: Bytes, from: nat, to: nat)
    requires from <= to <= |a| + |b|
    ensures (a + b)[from..to] ==
      if to <= |a| then a[from..to] else if from < |a| then a[from..] + b[..to - |a|] else b[from - |a|..to - |a|]
  {
  }

  lemma SliceBehind(a: Bytes, b: Bytes, from: nat, to: nat)
    requires from <= to <= |b|
    ensures (a + b)[|a| + from..|a| + to] == b[from..to]
  {
  }

  lemma SliceAcross(a: Bytes, b: Bytes, from: nat, to: nat)
    requires from <= |a| && to <= |b|
    ensures (a + b)[from..|a| + to] == a[from..|a|] + b[0..to]
  {
  }

  lemma Pow256Of8()
    ensures Pow256(8) == 2 * INT64_LIMIT
  {
    assert Pow256(4) == 0x1_0000_0000;
    assert Pow256(8) == 256 * (256 * (256 * (256 * Pow256(4))));
  }
}
