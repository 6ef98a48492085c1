/** UTF-8 validity as in section 4 of RFC 3629, and the cuts that keep it. */
module Utf8 {
  import opened ByteStrings

  predicate Tail(b: Byte) { 0x80 <= b <= 0xBF }

  /** utf8.RuneStart: the byte is not a continuation byte. */
  predicate RuneStart(b: Byte) { !Tail(b) }

  /** Length of the well-formed UTF-8 character that starts `s`, or 0. */
  function FirstRune(s: Bytes): (n: nat)
    ensures n <= |s| && n <= 4
  {
    if |s| >= 1 && s[0] <= 0x7F then 1
    else if |s| >= 2 && 0xC2 <= s[0] <= 0xDF && Tail(s[1]) then 2
    else if |s| >= 3 && Tail(s[2]) && ThreeByteLead(s[0], s[1]) then 3
    else if |s| >= 4 && Tail(s[2]) && Tail(s[3]) && FourByteLead(s[0], s[1]) then 4
    else 0
  }

  predicate ThreeByteLead(a: Byte, b: Byte) {
    (a == 0xE0 && 0xA0 <= b <= 0xBF) || (0xE1 <= a <= 0xEC && Tail(b)) ||
    (a == 0xED && 0x80 <= b <= 0x9F) || (0xEE <= a <= 0xEF && Tail(b))
  }

  predicate FourByteLead(a: Byte, b: Byte) {
    (a == 0xF0 && 0x90 <= b <= 0xBF) || (0xF1 <= a <= 0xF3 && Tail(b)) || (a == 0xF4 && 0x80 <= b <= 0x8F)
  }

  predicate Valid(s: Bytes) {
    s == [] || (FirstRune(s) > 0 && Valid(s[FirstRune(s)..]))
  }

  /** The first character looks only at its own bytes. */
  lemma FirstRuneLocal(s: Bytes, t: Bytes)
    requires FirstRune(s) > 0 && |t| >= FirstRune(s) && t[..FirstRune(s)] == s[..FirstRune(s)]
    ensures FirstRune(t) == FirstRune(s)
  {
    var n := FirstRune(s);
    assert forall i :: 0 <= i < n ==> t[i] == t[..n][i] == s[..n][i] == s[i];
  }

  lemma {:induction false} ValidConcat(a: Bytes, b: Bytes)
    requires Valid(a) && Valid(b)
    ensures Valid(a + b)
  {
    if a == [] {
      assert a + b == b;
    } else {
      var n := FirstRune(a);
      FirstRuneLocal(a, a + b);
      hide FirstRune;
      assert (a + b)[n..] == a[n..] + b;
      ValidConcat(a[n..], b);
    }
  }

  /** Valid text may be cut before any byte that starts a character, and nowhere else. */
  lemma {:induction false} ValidCut(s: Bytes, i: nat)
    requires Valid(s) && i < |s|
    ensures Valid(s[..i]) <==> RuneStart(s[i])
    ensures Valid(s[..i]) ==> Valid(s[i..])
  {
    var n := FirstRune(s);
    if i == 0 {
      assert s[0..] == s;
    } else if i < n {
      assert FirstRune(s[..i]) == 0;
    } else {
      CutBehind(s, n, i);
      FirstRuneLocal(s, s[..i]);
      hide FirstRune;
      if i == n {
        assert s[n..][..0] == [];
      }
      ValidCut(s[n..], i - n);
    }
  }

  /** The longest prefix of `s` that is valid UTF-8. */
  function LongestValid(s: Bytes): Bytes {
    if Valid(s) then s else LongestValid(s[..|s| - 1])
  }

  lemma {:induction false} LongestValidIsLongest(s: Bytes)
    ensures LongestValid(s) <= s && Valid(LongestValid(s))
    ensures forall i :: |LongestValid(s)| < i <= |s| ==> !Valid(s[..i])
  {
    if !Valid(s) {
      var t := s[..|s| - 1];
      LongestValidIsLongest(t);
      forall i | |LongestValid(s)| < i <= |s|
        ensures !Valid(s[..i])
      {
        assert if i == |s| then s[..i] == s else s[..i] == t[..i];
      }
    }
  }

  /** Nothing longer than a valid prefix is valid: it is the longest one. */
  lemma LongestValidIs(s: Bytes, n: nat)
    requires n <= |s| && Valid(s[..n])
    requires forall i :: n < i <= |s| ==> !Valid(s[..i])
    ensures LongestValid(s) == s[..n]
  {
    LongestValidIsLongest(s);
    var p := LongestValid(s);
    assert p == s[..|p|];
  }

  /** A cut through valid text keeps nothing exactly when it runs through the first character. */
  lemma CutKeepsNothing(s: Bytes, b: nat)
    requires Valid(s) && b < |s|
    ensures LongestValid(s[..b]) == [] <==> b < FirstRune(s)
  {
    var n, cut := FirstRune(s), s[..b];
    LongestValidIsLongest(cut);
    hide LongestValid;
    if b < n {
      var i := |LongestValid(cut)|;
      assert LongestValid(cut) == cut[..i] == s[..i];
      assert forall t :: 0 < t < n ==> Tail(s[t]);
      ValidCut(s, i);
    } else {
      assert cut[..n] == s[..n];
      FirstRuneLocal(s, s[..n]);
      assert s[..n][n..] == [] && Valid(s[..n]);
    }
  }

  // ---- Encoding ----

  predicate IsAscii(s: string) { forall c :: c in s ==> c as int < 0x80 }

  /** The bytes of one character. */
  function Encode(c: char): (b: Bytes)
    ensures 1 <= |b| <= 4
    ensures if c as int < 0x80 then b == [c as int] else |b| >= 2 && forall x :: x in b ==> x >= 0x80
  {
    var n := c as int;
    if n < 0x80 then [n]
    else if n < 0x800 then [0xC0 + n / 64, 0x80 + n % 64]
    else if n < 0x1_0000 then [0xE0 + n / 4096, 0x80 + n / 64 % 64, 0x80 + n % 64]
    else [0xF0 + n / 0x4_0000, 0x80 + n / 4096 % 64, 0x80 + n / 64 % 64, 0x80 + n % 64]
  }

  function EncodeText(s: string): Bytes {
    if s == "" then [] else Encode(s[0]) + EncodeText(s[1..])
  }

  lemma {:induction false} EncodedIsValid(s: string)
    ensures Valid(EncodeText(s))
  {
    if s != "" {
      EncodedIsValid(s[1..]);
      EncodedRune(s[0]);
      ValidConcat(Encode(s[0]), EncodeText(s[1..]));
    }
  }

  // ---- Decoding ----

  /** The character a well-formed sequence stands for. */
  function DecodeRune(s: Bytes): int
    requires FirstRune(s) > 0
  {
    var lead: int, n := s[0], FirstRune(s);
    if n == 1 then lead
    else
      var b: int := s[1];
      if n == 2 then (lead - 0xC0) * 64 + (b - 0x80)
      else
        var c: int := s[2];
        if n == 3 then (lead - 0xE0) * 4096 + (b - 0x80) * 64 + (c - 0x80)
        else
          var d: int := s[3];
          (lead - 0xF0) * 0x4_0000 + (b - 0x80) * 4096 + (c - 0x80) * 64 + (d - 0x80)
  }

  /** It is a character, neither a surrogate nor one that a shorter sequence stands for. */
  lemma DecodedRune(s: Bytes)
    requires FirstRune(s) > 0
    ensures var n := DecodeRune(s);
      && (0 <= n < 0xD800 || 0xE000 <= n < 0x11_0000)
      && (FirstRune(s) == 2 ==> n >= 0x80) && (FirstRune(s) == 3 ==> n >= 0x800)
      && (FirstRune(s) == 4 ==> n >= 0x1_0000)
  {
  }

  lemma TwoDigits(a: nat, b: nat)
    requires a < 32 && b < 64
    ensures (a * 64 + b) / 64 == a && (a * 64 + b) % 64 == b
  {
  }

  lemma ThreeDigits(a: nat, b: nat, c: nat)
    requires b < 64 && c < 64
    ensures var n := a * 4096 + b * 64 + c;
      n / 4096 == a && n / 64 % 64 == b && n % 64 == c
  {
    var n := a * 4096 + b * 64 + c;
    assert n / 64 == a * 64 + b && n % 64 == c;
  }

  lemma FourDigits(a: nat, b: nat, c: nat, d: nat)
    requires b < 64 && c < 64 && d < 64
    ensures var n := a * 0x4_0000 + b * 4096 + c * 64 + d;
      n / 0x4_0000 == a && n / 4096 % 64 == b && n / 64 % 64 == c && n % 64 == d
  {
    var n := a * 0x4_0000 + b * 4096 + c * 64 + d;
    assert n / 4096 == a * 64 + b;
    assert n / 64 == a * 4096 + b * 64 + c && n % 64 == d;
  }

  lemma EncodesTwo(s: Bytes)
    requires FirstRune(s) == 2
    ensures 0 <= DecodeRune(s) < 0xD800 || 0xE000 <= DecodeRune(s) < 0x11_0000
    ensures Encode(DecodeRune(s) as char) == s[..2]
  {
    DecodedRune(s);
    TwoDigits(s[0] - 0xC0, s[1] - 0x80);
  }

  lemma EncodesThree(s: Bytes)
    requires FirstRune(s) == 3
    ensures 0 <= DecodeRune(s) < 0xD800 || 0xE000 <= DecodeRune(s) < 0x11_0000
    ensures Encode(DecodeRune(s) as char) == s[..3]
  {
    DecodedRune(s);
    ThreeDigits(s[0] - 0xE0, s[1] - 0x80, s[2] - 0x80);
  }

  lemma EncodesFour(s: Bytes)
    requires FirstRune(s) == 4
    ensures 0 <= DecodeRune(s) < 0xD800 || 0xE000 <= DecodeRune(s) < 0x11_0000
    ensures Encode(DecodeRune(s) as char) == s[..4]
  {
    DecodedRune(s);
    FourDigits(s[0] - 0xF0, s[1] - 0x80, s[2] - 0x80, s[3] - 0x80);
  }

  lemma DecodedEncodes(s: Bytes)
    requires FirstRune(s) > 0
    ensures 0 <= DecodeRune(s) < 0xD800 || 0xE000 <= DecodeRune(s) < 0x11_0000
    ensures Encode(DecodeRune(s) as char) == s[..FirstRune(s)]
  {
    if FirstRune(s) == 2 {
      EncodesTwo(s);
    } else if FirstRune(s) == 3 {
      EncodesThree(s);
    } else if FirstRune(s) == 4 {
      EncodesFour(s);
    }
  }

  lemma {:induction false} ValidIsEncoded(s: Bytes) returns (text: string)
    requires Valid(s)
    ensures EncodeText(text) == s
  {
    if s == [] {
      text := "";
    } else {
      var n := FirstRune(s);
      DecodedEncodes(s);
      var rest := ValidIsEncoded(s[n..]);
      text := [DecodeRune(s) as char] + rest;
      assert text[1..] == rest && s == s[..n] + s[n..];
    }
  }

  /** Exactly the encodings of texts are valid. */
  lemma ValidMeansText(s: Bytes)
    ensures Valid(s) <==> exists text :: EncodeText(text) == s
  {
    if Valid(s) {
      var text := ValidIsEncoded(s);
    }
    forall text | EncodeText(text) == s
      ensures Valid(s)
    {
      EncodedIsValid(text);
    }
  }

  lemma EncodedRune(c: char)
    ensures Valid(Encode(c))
  {
    hide Valid, ThreeByteLead, FourByteLead;
    var n := c as int;
    if n < 0x80 {
      OneRune(Encode(c));
    } else if n < 0x800 {
      TwoBytes(0xC0 + n / 64, 0x80 + n % 64);
    } else if n < 0x1_0000 {
      ThreeByteLeads(c);
      ThreeBytes(0xE0 + n / 4096, 0x80 + n / 64 % 64, 0x80 + n % 64);
    } else {
      FourByteLeads(c);
      FourBytes(0xF0 + n / 0x4_0000, 0x80 + n / 4096 % 64, 0x80 + n / 64 % 64, 0x80 + n % 64);
    }
  }

  /** Surrogates are no characters, so the second byte behind 0xED stays below 0xA0. */
  lemma ThreeByteLeads(c: char)
    requires 0x800 <= c as int < 0x1_0000
    ensures ThreeByteLead(0xE0 + c as int / 4096, 0x80 + c as int / 64 % 64)
  {
  }

  lemma FourByteLeads(c: char)
    requires 0x1_0000 <= c as int
    ensures FourByteLead(0xF0 + c as int / 0x4_0000, 0x80 + c as int / 4096 % 64)
  {
  }

  lemma OneRune(b: Bytes)
    requires b != [] && FirstRune(b) == |b|
    ensures Valid(b)
  {
    assert b[|b|..] == [];
  }

  lemma TwoBytes(a: Byte, b: Byte)
    requires 0xC2 <= a <= 0xDF && Tail(b)
    ensures Valid([a, b])
  {
    hide Valid;
    OneRune([a, b]);
  }

  lemma ThreeBytes(a: Byte, b: Byte, c: Byte)
    requires ThreeByteLead(a, b) && Tail(c)
    ensures Valid([a, b, c])
  {
    hide Valid;
    OneRune([a, b, c]);
  }

  lemma FourBytes(a: Byte, b: Byte, c: Byte, d: Byte)
    requires FourByteLead(a, b) && Tail(c) && Tail(d)
    ensures Valid([a, b, c, d])
  {
    hide Valid;
    OneRune([a, b, c, d]);
  }
}
