/** Codecs and keys that meet the laws asked of them: the laws can be met, all of them at once. */
module PlainCodecs {
  import opened Wrappers
  import opened ByteStrings
  import ArtifactStores
  import Cursors

  type Completion = ArtifactStores.Completion

  function Low(c: char): Byte { c as int % 256 }

  function LowBytes(s: string): Bytes { seq(|s|, i requires 0 <= i < |s| => Low(s[i])) }

  /** Eight bytes of size, then the digest, one byte per digit. */
  function EncodeMarker(m: Completion): Bytes {
    BigEndian(if m.size < 0 then 0 else m.size, 8) + LowBytes(m.sha256)
  }

  function DecodeMarker(b: Bytes): Option<Completion> {
    if |b| < 8 then None
    else
      var digits := seq(|b| - 8, i requires 0 <= i < |b| - 8 => b[8 + i] as char);
      Some(ArtifactStores.Completion(FromBigEndian(b[..8]), digits))
  }

  const ZEROS: string := seq(64, i => '0')

  const CODEC := ArtifactStores.Codec((b: Bytes) => ZEROS, EncodeMarker, DecodeMarker)

  lemma MarkerRoundTrip(m: Completion)
    requires ArtifactStores.Recordable(m)
    ensures DecodeMarker(EncodeMarker(m)) == Some(m) && |EncodeMarker(m)| == 72
  {
    Pow256Of8();
    BigEndianRoundTrip(m.size, 8);
    var b := EncodeMarker(m);
    assert b[..8] == BigEndian(m.size, 8);
    hide BigEndian, FromBigEndian;
    var text := DecodeMarker(b).value.sha256;
    assert |text| == |m.sha256|;
    forall i | 0 <= i < 64
      ensures text[i] == m.sha256[i]
    {
      assert m.sha256[i] in m.sha256;
      assert b[8 + i] == m.sha256[i] as int;
    }
    assert text == m.sha256;
  }

  lemma MarkerSize(content: Bytes)
    ensures |CODEC.encode(ArtifactStores.Completion(|content|, CODEC.digest(content)))| == 72
  {
    hide BigEndian;
    assert |BigEndian(|content|, 8)| == 8;
  }

  lemma CodecIsLawful()
    ensures ArtifactStores.Lawful(CODEC)
  {
    forall m: Completion | ArtifactStores.Recordable(m)
      ensures DecodeMarker(EncodeMarker(m)) == Some(m) && |EncodeMarker(m)| <= ArtifactStores.MARKER_LIMIT
    {
      MarkerRoundTrip(m);
    }
  }

  /** Bytes as characters past the separator, and a MAC that is the message itself. */
  function Shift(b: Bytes): string { seq(|b|, i requires 0 <= i < |b| => (b[i] as int + 256) as char) }

  function Unshift(s: string): Option<Bytes> {
    if forall c :: c in s ==> 256 <= c as int < 512 then
      Some(LowBytes(s))
    else
      None
  }

  const CRYPTO := Cursors.Crypto(LowBytes, Shift, Unshift, (s: string) => s, (s: string) => Some(s))

  lemma ShiftRoundTrip(b: Bytes)
    ensures Unshift(Shift(b)) == Some(b) && ':' !in Shift(b)
  {
    var s := Shift(b);
    assert forall c :: c in s ==> 256 <= c as int < 512;
    assert Unshift(s).value == b;
  }

  lemma CryptoIsLawful()
    ensures Cursors.Lawful(CRYPTO)
  {
    forall b: Bytes
      ensures Unshift(Shift(b)) == Some(b) && ':' !in Shift(b)
    {
      ShiftRoundTrip(b);
    }
  }
}
