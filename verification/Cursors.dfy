/** The opaque tokens that carry a page cursor: four decimal fields, a MAC over them, base64url around it. */
module Cursors {
  import opened Wrappers
  import opened ByteStrings
  import opened Frames
  import opened Pager
  import opened PageContents

  /** HMAC-SHA256 under the store's key, hexadecimal text and base64url, as functions with the laws the codec needs. */
  datatype Crypto = Crypto(
    mac: string -> Bytes,
    hex: Bytes -> string,
    unhex: string -> Option<Bytes>,
    wrap: string -> string,
    unwrap: string -> Option<string>)

  ghost predicate Lawful(k: Crypto) {
    && (forall b: Bytes :: k.unhex(k.hex(b)) == Some(b) && ':' !in k.hex(b))
    && (forall s: string {:trigger k.wrap(s)} :: k.unwrap(k.wrap(s)) == Some(s) && (s != "" ==> k.wrap(s) != ""))
  }

  // ---- Decimal numbers ----

  function Decimal(n: nat): (s: string)
    ensures s != "" && forall c :: c in s ==> '0' <= c <= '9'
  {
    var digit := '0' + (n % 10) as char;
    if n < 10 then [digit] else Decimal(n / 10) + [digit]
  }

  function ParseDigits(s: string): Option<nat> {
    if s == "" then Some(0)
    else
      var last := s[|s| - 1];
      match ParseDigits(s[..|s| - 1])
      case None => None
      case Some(n) => if '0' <= last <= '9' then Some(10 * n + (last - '0') as nat) else None
  }

  /** strconv.ParseInt in base 10 with 64 bits. */
  function ParseInt(s: string): Option<int> {
    var signed := s != "" && (s[0] == '-' || s[0] == '+');
    var digits := if signed then s[1..] else s;
    if digits == "" then None
    else match ParseDigits(digits)
      case None => None
      case Some(n) =>
        if signed && s[0] == '-' then (if n <= INT64_LIMIT then var m: int := -1 * n; Some(m) else None)
        else if n < INT64_LIMIT then Some(n) else None
  }

  lemma {:induction false} DecimalRoundTrip(n: nat)
    ensures ParseDigits(Decimal(n)) == Some(n)
  {
    var digit := '0' + (n % 10) as char;
    if n < 10 {
      assert [digit][..0] == "";
    } else {
      DecimalRoundTrip(n / 10);
      assert Decimal(n)[..|Decimal(n)| - 1] == Decimal(n / 10);
    }
  }

  lemma ParseDecimal(n: nat)
    requires n < INT64_LIMIT
    ensures ParseInt(Decimal(n)) == Some(n)
  {
    DecimalRoundTrip(n);
    assert Decimal(n)[0] in Decimal(n);
  }

  // ---- strings.Split and strings.Join on ":" ----

  function Split(s: string): (parts: seq<string>)
    ensures |parts| >= 1
  {
    if s == "" then [""]
    else
      var rest := Split(s[1..]);
      if s[0] == ':' then [""] + rest else [[s[0]] + rest[0]] + rest[1..]
  }

  lemma {:induction false} SplitField(a: string, b: string)
    requires ':' !in a
    ensures Split(a + ":" + b) == [a] + Split(b) && Split(a) == [a]
  {
    if a == "" {
      assert a + ":" + b == ":" + b && (":" + b)[1..] == b;
    } else {
      SplitField(a[1..], b);
      assert (a + ":" + b)[1..] == a[1..] + ":" + b;
      assert [a[0]] + a[1..] == a;
      assert ([a[1..]] + Split(b))[1..] == Split(b);
    }
  }

  function Body(p: string, o: string, i: string, l: string): string {
    p + ":" + o + ":" + i + ":" + l
  }

  function Message(id: string, payload: string, body: string): string {
    id + "\0" + payload + "\0" + body
  }

  // ---- The codec ----

  function EncodeCursor(k: Crypto, id: string, payload: string, c: Cursor): string
    requires Decoded(c)
  {
    var body := Body(Decimal(c.phase), Decimal(c.offset), Decimal(c.intra), Decimal(c.logical));
    k.wrap(body + ":" + k.hex(k.mac(Message(id, payload, body))))
  }

  function DecodeCursor(k: Crypto, id: string, payload: string, token: string): Result<Cursor, PageError> {
    if token == "" then Ok(Cursor(1, 0, 0, 0))
    else match k.unwrap(token)
      case None => Err(InvalidCursor)
      case Some(raw) =>
        var parts := Split(raw);
        if |parts| != 5 then Err(InvalidCursor)
        else
          var body := Body(parts[0], parts[1], parts[2], parts[3]);
          if k.unhex(parts[4]) != Some(k.mac(Message(id, payload, body))) then Err(InvalidCursor)
          else match (ParseInt(parts[0]), ParseInt(parts[1]), ParseInt(parts[2]), ParseInt(parts[3]))
            case (Some(p), Some(o), Some(i), Some(l)) =>
              if p < 1 || p > 2 || o < 0 || i < 0 || l < 0 then Err(InvalidCursor) else Ok(Cursor(p, o, i, l))
            case _ => Err(InvalidCursor)
  }

  /** A token, written out. */
  lemma TokenReads(k: Crypto, id: string, payload: string)
    ensures EncodeCursor(k, id, payload, Cursor(2, 14, 5, 130)) ==
      k.wrap("2:14:5:130:" + k.hex(k.mac(id + "\0" + payload + "\0" + "2:14:5:130")))
  {
    assert Decimal(2) == "2" && Decimal(14) == "14" && Decimal(5) == "5";
    assert Decimal(13) == "13" && Decimal(130) == "130";
    assert "2" + ":" + "14" + ":" + "5" + ":" + "130" == "2:14:5:130";
    assert "2:14:5:130" + ":" == "2:14:5:130:";
  }

  lemma DecodedIsDecoded(k: Crypto, id: string, payload: string, token: string)
    ensures var r := DecodeCursor(k, id, payload, token);
      r.Ok? ==> Decoded(r.value)
  {
  }

  predicate Fits64(c: Cursor) {
    Decoded(c) && c.offset < INT64_LIMIT && c.intra < INT64_LIMIT && c.logical < INT64_LIMIT
  }

  lemma SplitToken(p: string, o: string, i: string, l: string, mac: string)
    requires ':' !in p && ':' !in o && ':' !in i && ':' !in l && ':' !in mac
    ensures Split(Body(p, o, i, l) + ":" + mac) == [p, o, i, l, mac]
  {
    hide Split, Body;
    Nested(p, o, i, l, mac);
    SplitField(p, o + ":" + (i + ":" + (l + ":" + mac)));
    SplitField(o, i + ":" + (l + ":" + mac));
    SplitField(i, l + ":" + mac);
    SplitField(l, mac);
    SplitField(mac, "");
  }

  lemma Nested(p: string, o: string, i: string, l: string, mac: string)
    ensures Body(p, o, i, l) + ":" + mac == p + ":" + (o + ":" + (i + ":" + (l + ":" + mac)))
    ensures [p] + ([o] + ([i] + ([l] + [mac]))) == [p, o, i, l, mac]
  {
  }

  /** What decoding an issued token comes down to: the MAC over the reader's own artifact and payload kind. */
  lemma DecodeIssued(k: Crypto, id: string, payload: string, id': string, payload': string, c: Cursor)
    requires Lawful(k) && Fits64(c)
    ensures var body := Body(Decimal(c.phase), Decimal(c.offset), Decimal(c.intra), Decimal(c.logical));
      DecodeCursor(k, id', payload', EncodeCursor(k, id, payload, c)) ==
        if k.mac(Message(id, payload, body)) == k.mac(Message(id', payload', body)) then Ok(c) else Err(InvalidCursor)
  {
    hide Body, Split, Decimal, ParseInt, Message;
    var p, o, i, l := Decimal(c.phase), Decimal(c.offset), Decimal(c.intra), Decimal(c.logical);
    var mac := k.mac(Message(id, payload, Body(p, o, i, l)));
    SplitToken(p, o, i, l, k.hex(mac));
    ParseDecimal(c.phase);
    ParseDecimal(c.offset);
    ParseDecimal(c.intra);
    ParseDecimal(c.logical);
    var raw := Body(p, o, i, l) + ":" + k.hex(mac);
    assert raw != "" by {
      assert |raw| >= 1;
    }
    assert k.unwrap(k.wrap(raw)) == Some(raw);
    assert k.unhex(k.hex(mac)) == Some(mac);
  }

  /** Every token decodes back to the cursor it was made from. */
  lemma CursorRoundTrip(k: Crypto, id: string, payload: string, c: Cursor)
    requires Lawful(k) && Fits64(c)
    ensures DecodeCursor(k, id, payload, EncodeCursor(k, id, payload, c)) == Ok(c)
  {
    DecodeIssued(k, id, payload, id, payload, c);
  }

  lemma {:induction false} MessageFields(a: string, b: string, a': string, b': string)
    requires '\0' !in a && '\0' !in a' && a + "\0" + b == a' + "\0" + b'
    ensures a == a' && b == b'
  {
    var s, s' := a + "\0" + b, a' + "\0" + b';
    assert s[|a|] == '\0' && s'[|a'|] == '\0';
    assert forall i :: 0 <= i < |a| ==> s[i] == a[i] && a[i] in a;
    assert forall i :: 0 <= i < |a'| ==> s'[i] == a'[i] && a'[i] in a';
    assert |a| == |a'|;
    assert a == s[..|a|] && b == s[|a| + 1..];
    assert a' == s'[..|a'|] && b' == s'[|a'| + 1..];
  }

  /** The four fields of a token, under its MAC. */
  function FieldsOf(c: Cursor): string
    requires Decoded(c)
  {
    Body(Decimal(c.phase), Decimal(c.offset), Decimal(c.intra), Decimal(c.logical))
  }

  /**
   * A token is good for one artifact and one payload kind only, unless the MACs of the two
   * messages collide.
   */
  lemma CursorBelongsToOneArtifact(
    k: Crypto, id: string, payload: string, id': string, payload': string, c: Cursor)
    requires Lawful(k) && Fits64(c)
    requires '\0' !in id && '\0' !in payload && '\0' !in id' && '\0' !in payload'
    ensures DecodeCursor(k, id', payload', EncodeCursor(k, id, payload, c)).Ok? <==>
      || (id == id' && payload == payload')
      || k.mac(Message(id, payload, FieldsOf(c))) == k.mac(Message(id', payload', FieldsOf(c)))
    ensures id != id' || payload != payload' ==>
      Message(id, payload, FieldsOf(c)) != Message(id', payload', FieldsOf(c))
  {
    hide DecodeCursor, EncodeCursor, Message, Body, Decimal, Lawful;
    DecodeIssued(k, id, payload, id', payload', c);
    if Message(id, payload, FieldsOf(c)) == Message(id', payload', FieldsOf(c)) {
      MessageNames(id, payload, id', payload', FieldsOf(c));
    }
  }

  lemma MessageNames(id: string, payload: string, id': string, payload': string, body: string)
    requires '\0' !in id && '\0' !in payload && '\0' !in id' && '\0' !in payload'
    requires Message(id, payload, body) == Message(id', payload', body)
    ensures id == id' && payload == payload'
  {
    hide Message;
    MessageNests(id, payload, body);
    MessageNests(id', payload', body);
    MessageFields(id, payload + "\0" + body, id', payload' + "\0" + body);
    MessageFields(payload, body, payload', body);
  }

  lemma MessageNests(id: string, payload: string, body: string)
    ensures Message(id, payload, body) == id + "\0" + (payload + "\0" + body)
  {
  }

  /** A cursor of a log that fits an int64 file fits the token. */
  lemma GoodCursorFits(fs: seq<Frame>, c: Cursor)
    requires CursorOk(fs, c) && |EncodeAll(fs)| < INT64_LIMIT
    ensures Fits64(c)
  {
    var pos := if c.phase == 1 then c.logical else c.logical - |Payload(fs, 1)|;
    var k: nat :| k <= |fs| && Offset(fs, k) == c.offset && SpotAt(fs, c.phase, k, c.intra, pos);
    OffsetsGrow(fs, 0, k);
    PayloadSplitAt(fs, k, c.phase);
    PayloadsFit(fs);
    if k < |fs| {
      OffsetNext(fs, k);
    }
  }

  lemma {:induction false} PayloadsFit(fs: seq<Frame>)
    ensures |Payload(fs, 1)| + |Payload(fs, 2)| <= LogicalSize(fs) <= |EncodeAll(fs)|
  {
    if fs != [] {
      PayloadsFit(fs[1..]);
    }
  }
}
