/** Shortening a text to a byte budget: its beginning, a marker, and its end, cut between characters. */
module Previews {
  import opened ByteStrings
  import opened Utf8
  import Pager

  function Ascii(s: string): (b: Bytes)
    requires IsAscii(s)
    ensures |b| == |s| && forall i :: 0 <= i < |b| ==> b[i] <= 0x7F
  {
    assert forall i :: 0 <= i < |s| ==> s[i] in s;
    seq(|s|, i requires 0 <= i < |s| => s[i] as int)
  }

  /** U+2026 */
  const ELLIPSIS: Bytes := [0xE2, 0x80, 0xA6]

  const OMITTED := " [output omitted; read artifact] "

  const MARKER: Bytes := (OmittedIsAscii(); [0x0A] + ELLIPSIS + Ascii(OMITTED) + ELLIPSIS + [0x0A])

  predicate IsSuffix(p: Bytes, s: Bytes) { |p| <= |s| && s[|s| - |p|..] == p }

  /** `p` is the longest beginning of `s` within the limit that ends between characters. */
  ghost predicate LongestFront(p: Bytes, s: Bytes, limit: int) {
    p <= s && |p| <= limit && forall i :: |p| < i <= |s| && i <= limit ==> !Valid(s[..i])
  }

  /** `p` is the longest end of `s` within the limit that starts between characters. */
  ghost predicate LongestBack(p: Bytes, s: Bytes, limit: int) {
    IsSuffix(p, s) && |p| <= limit && forall i :: 0 <= i < |s| - |p| && |s| - i <= limit ==> !Valid(s[i..])
  }

  lemma TailStartsNothing(s: Bytes, i: nat)
    requires i < |s| && !RuneStart(s[i])
    ensures !Valid(s[i..])
  {
    assert s[i..][0] == s[i];
  }

  /** utf8Prefix: back from the limit to the start of a character. */
  method Utf8Prefix(text: Bytes, limit: int) returns (r: Bytes)
    ensures r <= text && (limit >= 0 ==> |r| <= limit) && (limit <= 0 ==> r == [])
    ensures limit >= |text| ==> r == text
    ensures Valid(text) ==> Valid(r) && (limit >= 0 ==> LongestFront(r, text, limit))
  {
    if limit <= 0 {
      return [];
    }
    if |text| <= limit {
      return text;
    }
    var end := limit;
    while end > 0 && !RuneStart(text[end])
      invariant 0 <= end <= limit < |text|
      invariant forall i :: end < i <= limit ==> !RuneStart(text[i])
    {
      end := end - 1;
    }
    r := text[..end];
    hide RuneStart, Valid;
    if Valid(text) {
      NothingBefore();
      if end > 0 {
        ValidCut(text, end);
      }
      forall i | end < i <= limit
        ensures !Valid(text[..i])
      {
        ValidCut(text, i);
      }
      assert end == 0 ==> text[..end] == [];
    }
  }

  lemma NothingBefore()
    ensures Valid([])
  {
  }

  /** utf8Suffix: forward from the limit to the start of a character. */
  method Utf8Suffix(text: Bytes, limit: int) returns (r: Bytes)
    ensures IsSuffix(r, text) && (limit >= 0 ==> |r| <= limit) && (limit <= 0 ==> r == [])
    ensures limit >= |text| ==> r == text
    ensures Valid(text) ==> Valid(r) && (limit >= 0 ==> LongestBack(r, text, limit))
  {
    if limit <= 0 {
      NothingBefore();
      return [];
    }
    if |text| <= limit {
      assert text[0..] == text;
      return text;
    }
    var start := |text| - limit;
    while start < |text| && !RuneStart(text[start])
      invariant |text| - limit <= start <= |text|
      invariant forall i :: |text| - limit <= i < start ==> !RuneStart(text[i])
    {
      start := start + 1;
    }
    r := text[start..];
    forall i | |text| - limit <= i < start
      ensures !Valid(text[i..])
    {
      TailStartsNothing(text, i);
    }
    NothingBefore();
    if Valid(text) && start < |text| {
      ValidCut(text, start);
    }
  }

  /** The text of the marker is plain. */
  lemma OmittedIsAscii()
    ensures IsAscii(OMITTED) && |OMITTED| == 33
  {
    assert forall i :: 0 <= i < |OMITTED| ==> OMITTED[i] as int < 0x80;
  }

  lemma AsciiStep(s: string)
    requires IsAscii(s) && s != ""
    ensures s[0] as int < 0x80 && IsAscii(s[1..]) && Ascii(s) == [s[0] as int] + Ascii(s[1..])
  {
    assert s[0] in s && forall c :: c in s[1..] ==> c in s;
  }

  lemma {:induction false} PlainEncoding(s: string)
    requires IsAscii(s)
    ensures EncodeText(s) == Ascii(s)
  {
    hide Ascii, IsAscii, Encode;
    if s != "" {
      AsciiStep(s);
      PlainEncoding(s[1..]);
    }
  }

  lemma {:induction false} EncodeBoth(a: string, b: string)
    ensures EncodeText(a + b) == EncodeText(a) + EncodeText(b)
  {
    if a == "" {
      assert a + b == b;
    } else {
      assert (a + b)[1..] == a[1..] + b;
      EncodeBoth(a[1..], b);
    }
  }

  lemma EncodeOne(c: char)
    ensures EncodeText([c]) == Encode(c)
  {
    assert [c][1..] == "";
  }

  /** The marker is the text of inlineOmissionMarker. */
  lemma MarkerReads()
    ensures MARKER == EncodeText("\n\U{2026}" + " [output omitted; read artifact] " + "\U{2026}\n")
  {
    hide Encode, EncodeText, Ascii, IsAscii;
    var front, back := "\n\U{2026}", "\U{2026}\n";
    OmittedIsAscii();
    PlainEncoding(OMITTED);
    MarkerParts();
    assert front == ['\n'] + ['\U{2026}'] && back == ['\U{2026}'] + ['\n'];
    EncodeBoth(['\n'], ['\U{2026}']);
    EncodeBoth(['\U{2026}'], ['\n']);
    EncodeOne('\n');
    EncodeOne('\U{2026}');
    EncodeBoth(front, OMITTED);
    EncodeBoth(front + OMITTED, back);
  }

  lemma MarkerParts()
    ensures Encode('\n') == [0x0A] && Encode('\U{2026}') == ELLIPSIS
  {
  }

  lemma MarkerIsText()
    ensures Valid(MARKER) && |MARKER| == 41
  {
    hide Valid, Ascii, IsAscii;
    OmittedIsAscii();
    PlainText([0x0A]);
    PlainText(Ascii(OMITTED));
    EllipsisIsText();
    ValidConcat([0x0A], ELLIPSIS);
    ValidConcat([0x0A] + ELLIPSIS, Ascii(OMITTED));
    ValidConcat([0x0A] + ELLIPSIS + Ascii(OMITTED), ELLIPSIS);
    ValidConcat([0x0A] + ELLIPSIS + Ascii(OMITTED) + ELLIPSIS, [0x0A]);
  }

  lemma EllipsisIsText()
    ensures Valid(ELLIPSIS)
  {
    assert FirstRune(ELLIPSIS) == 3 && ELLIPSIS[3..] == [];
  }

  lemma {:induction false} PlainText(s: Bytes)
    requires forall i :: 0 <= i < |s| ==> s[i] <= 0x7F
    ensures Valid(s)
  {
    if s != [] {
      PlainText(s[1..]);
    }
  }

  /**
   * A beginning and an end that do not overlap; the beginning takes what fits into half the room, the
   * end what fits into the rest.
   */
  ghost predicate Halves(text: Bytes, head: Bytes, tail: Bytes, room: int) {
    && head <= text && IsSuffix(tail, text) && |head| + |tail| < |text|
    && (Valid(text) ==> LongestFront(head, text, room / 2) && LongestBack(tail, text, room - |head|))
  }

  /** No character is longer than four bytes: valid text can be cut within three bytes of any place. */
  lemma {:induction false} CutNear(s: Bytes, i: nat) returns (before: nat, behind: nat)
    requires Valid(s) && i <= |s|
    ensures i - 3 <= before <= i <= behind <= |s| && behind <= i + 3
    ensures Valid(s[..before]) && Valid(s[behind..])
    decreases |s|
  {
    hide FirstRune;
    assert s[..0] == [] && s[0..] == s && s[|s|..] == [];
    before, behind := 0, 0;
    if i > 0 {
      var n := FirstRune(s);
      if i < n {
        behind := n;
      } else {
        before, behind := CutNear(s[n..], i - n);
        FrontIsText(s);
        ValidConcat(s[..n], s[n..][..before]);
        assert s[..n] + s[n..][..before] == s[..n + before] && s[n..][behind..] == s[n + behind..];
        before, behind := before + n, behind + n;
      }
    }
  }

  lemma FrontIsText(s: Bytes)
    requires Valid(s) && s != []
    ensures Valid(s[..FirstRune(s)])
  {
    FirstRuneLocal(s, s[..FirstRune(s)]);
    OneRune(s[..FirstRune(s)]);
  }

  /** The two ends of a shortened text use their shares of the room but for the part of one character each. */
  lemma SharesAreUsed(text: Bytes, head: Bytes, tail: Bytes, room: int)
    requires Valid(text) && 0 < room && Halves(text, head, tail, room) && |text| > room
    ensures room / 2 - 3 <= |head| <= room / 2 && room - 3 <= |head| + |tail| <= room
  {
    hide Valid;
    var before, _ := CutNear(text, room / 2);
    var _, behind := CutNear(text, |text| - (room - |head|));
    NoLongerFront(head, text, room / 2, before);
    NoLongerBack(tail, text, room - |head|, behind);
  }

  lemma NoLongerFront(p: Bytes, s: Bytes, limit: int, i: nat)
    requires LongestFront(p, s, limit) && i <= |s| && i <= limit && Valid(s[..i])
    ensures i <= |p|
  {
  }

  lemma NoLongerBack(p: Bytes, s: Bytes, limit: int, i: nat)
    requires LongestBack(p, s, limit) && i <= |s| && |s| - i <= limit && Valid(s[i..])
    ensures |s| - i <= |p|
  {
  }

  /** What headTailText may make of a text. */
  ghost predicate Shortened(text: Bytes, limit: int, r: Bytes) {
    && (limit <= 0 || |text| <= limit ==> r == text)
    && (0 < limit < |text| ==> |r| <= limit && (Valid(text) ==> Valid(r)))
    && (0 < limit < |text| && limit <= |MARKER| ==> r <= text && (Valid(text) ==> LongestFront(r, text, limit)))
    && (0 < limit < |text| && limit > |MARKER| ==>
      exists head, tail :: r == head + MARKER + tail && Halves(text, head, tail, limit - |MARKER|))
  }

  /**
   * headTailText: a text within the limit is returned as it is. A longer valid text becomes valid
   * text of at most `limit` bytes: a beginning, the marker and an end that do not overlap, or a
   * beginning alone when the marker leaves no room.
   */
  method HeadTailText(text: Bytes, limit: int) returns (r: Bytes)
    ensures Shortened(text, limit, r)
  {
    if limit <= 0 || |text| <= limit {
      return text;
    }
    if limit <= |MARKER| {
      r := Utf8Prefix(text, limit);
      return;
    }
    MarkerIsText();
    hide MARKER, Valid, LongestFront, LongestBack;
    var remaining := limit - |MARKER|;
    var head := Utf8Prefix(text, remaining / 2);
    var tail := Utf8Suffix(text, remaining - |head|);
    r := head + MARKER + tail;
    if Valid(text) {
      ValidConcat(head, MARKER);
      ValidConcat(head + MARKER, tail);
    }
  }

  /** How many bytes at the front continue a character that began before. */
  function Continued(data: Bytes): (n: nat)
    ensures n <= |data| && (n < |data| ==> RuneStart(data[n])) && forall i :: 0 <= i < n ==> !RuneStart(data[i])
  {
    if data == [] || RuneStart(data[0]) then 0 else 1 + Continued(data[1..])
  }

  /** utf8Window: past the rest of a character, then back to a character boundary. */
  method Utf8Window(data: Bytes, trimPrefix: bool) returns (r: Bytes)
    ensures r == LongestValid(if trimPrefix then data[Continued(data)..] else data)
  {
    hide RuneStart, Valid, LongestValid;
    var start := 0;
    if trimPrefix {
      assert data[0..] == data;
      while start < |data| && !RuneStart(data[start])
        invariant 0 <= start <= |data| && start + Continued(data[start..]) == Continued(data)
      {
        assert data[start..][1..] == data[start + 1..];
        start := start + 1;
      }
    }
    assert data[0..] == data;
    r := Pager.TrimToValid(data[start..]);
  }
}
