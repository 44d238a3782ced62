// The WiFi API's request and response values and their postcard encoding: varint lengths and variant tags,
// bounded byte vectors and strings.
module WifiFrames {
  import opened Wrappers

  type Bytes = seq<UInt8>

  const WIFI_MESSAGE_MAX_LEN := 2048
  const NOISE_TAG_LEN := 16
  const WIFI_FRAME_PAYLOAD_MAX_LEN := WIFI_MESSAGE_MAX_LEN + NOISE_TAG_LEN
  const POSTCARD_FRAME_OVERHEAD_LEN := 8
  const FRAME_MAX_LEN := WIFI_FRAME_PAYLOAD_MAX_LEN + POSTCARD_FRAME_OVERHEAD_LEN
  const TOKEN_STRING_MAX_LEN := 64

  datatype WifiError = BadRequest | Unauthorized | UnsupportedVersion | RuntimeFailed

  datatype Request =
    | PairingNoise(version: UInt8, payload: Bytes)
    | Hello(version: UInt8, keyId: Bytes)
    | Noise(payload: Bytes)

  datatype Response =
    | PairingNoise(payload: Bytes)
    | Noise(payload: Bytes)
    | Error(error: WifiError)

  /** A decoded value and the input left after it. */
  datatype Taken<T> = Taken(value: T, rest: Bytes)

  // ---------- Varints ----------

  /** Seven bits at a time, least significant first, the high bit set on all but the last byte. */
  function Varint(v: nat): (s: Bytes)
    ensures |s| > 0
  {
    if v < 128 then [v as UInt8] else [(v % 128 + 128) as UInt8] + Varint(v / 128)
  }

  /** Reads at most `left` bytes; the last of them may not exceed `last`. */
  function TakeVarint(s: Bytes, left: nat, last: nat): (t: Option<Taken<nat>>)
    ensures t.Some? ==> |t.value.rest| < |s|
    decreases left
  {
    if left == 0 || s == [] then None
    else
      var b := s[0] as nat;
      if b < 128 then (if left == 1 && b > last then None else Some(Taken(b, s[1..])))
      else
        match TakeVarint(s[1..], left - 1, last)
        case None => None
        case Some(t) => Some(Taken(b - 128 + 128 * t.value, t.rest))
  }

  /** How many values a varint of `left` bytes can hold. */
  function Capacity(left: nat, last: nat): (n: nat)
    ensures left > 0 ==> n > 0
  {
    if left == 0 then 0 else if left == 1 then last + 1 else 128 * Capacity(left - 1, last)
  }

  /** Variant tags are 32-bit: five bytes, the last at most 15. */
  function TakeTag(s: Bytes): Option<Taken<nat>> {
    TakeVarint(s, 5, 15)
  }

  /** Lengths are 64-bit: ten bytes, the last at most 1. */
  function TakeLength(s: Bytes): Option<Taken<nat>> {
    TakeVarint(s, 10, 1)
  }

  lemma Widths()
    ensures Capacity(5, 15) == 0x1_0000_0000 && Capacity(10, 1) == 0x1_0000_0000_0000_0000
  {
    assert Capacity(4, 15) == 0x200_0000;
    assert Capacity(8, 1) == 2 * 0x2_0000_0000_0000;
  }

  lemma {:induction false} VarintRoundTrip(v: nat, left: nat, last: nat, rest: Bytes)
    requires last < 128 && v < Capacity(left, last)
    ensures TakeVarint(Varint(v) + rest, left, last) == Some(Taken(v, rest))
  {
    var s := Varint(v) + rest;
    if v < 128 {
      assert s[1..] == rest;
    } else {
      assert s[1..] == Varint(v / 128) + rest;
      VarintRoundTrip(v / 128, left - 1, last, rest);
    }
  }

  /** No reading overflows its integer type, and none is shorter than the canonical encoding. */
  lemma {:induction false} VarintReadings(s: Bytes, left: nat, last: nat)
    requires last < 128
    ensures var t := TakeVarint(s, left, last);
            t.Some? ==> t.value.value < Capacity(left, last) && |Varint(t.value.value)| + |t.value.rest| <= |s|
  {
    if left > 0 && s != [] {
      VarintReadings(s[1..], left - 1, last);
    }
  }

  /** The number that 7-bit groups stand for, least significant first. */
  function Groups(p: Bytes): nat {
    if p == [] then 0 else p[0] as nat % 128 + 128 * Groups(p[1..])
  }

  /** A varint is its first bytes with the high bit set and one without it, no more than `left` in all; when it
      uses all of them the last is at most `last`. */
  predicate IsVarint(p: Bytes, left: nat, last: nat) {
    && 0 < |p| <= left
    && (forall i :: 0 <= i < |p| - 1 ==> p[i] >= 0x80)
    && p[|p| - 1] < 0x80
    && (|p| == left ==> p[|p| - 1] as nat <= last)
  }

  lemma VarintCons(b: UInt8, p: Bytes, left: nat, last: nat)
    requires left > 0
    ensures p != [] ==> (IsVarint([b] + p, left, last) <==> b >= 0x80 && IsVarint(p, left - 1, last))
    ensures IsVarint([b], left, last) <==> b < 0x80 && (left == 1 ==> b as nat <= last)
    ensures Groups([b] + p) == b as nat % 128 + 128 * Groups(p)
  {
    var all := [b] + p;
    assert all[1..] == p;
    if p != [] && b >= 0x80 && IsVarint(p, left - 1, last) {
      forall i | 0 <= i < |all| - 1 ensures all[i] >= 0x80 {
        assert i > 0 ==> all[i] == p[i - 1];
      }
    }
    if p != [] && IsVarint(all, left, last) {
      assert forall i :: 0 <= i < |p| ==> p[i] == all[i + 1];
    }
  }

  lemma NoVarint(p: Bytes, left: nat, last: nat)
    ensures left == 0 || p == [] ==> !IsVarint(p, left, last)
  {
  }

  lemma NoGroups()
    ensures Groups([]) == 0
  {
  }

  lemma {:induction false} ReadsVarint(s: Bytes, left: nat, last: nat) returns (p: Bytes)
    requires TakeVarint(s, left, last).Some?
    ensures var t := TakeVarint(s, left, last).value;
            s == p + t.rest && IsVarint(p, left, last) && Groups(p) == t.value
    decreases left
  {
    hide IsVarint, Groups;
    NoGroups();
    VarintCons(s[0], [], left, last);
    p := [s[0]];
    assert [s[0]] + [] == p && s == p + s[1..];
    if s[0] >= 128 {
      var rest := ReadsVarint(s[1..], left - 1, last);
      NoVarint(rest, left - 1, last);
      VarintCons(s[0], rest, left, last);
      p := [s[0]] + rest;
    }
  }

  lemma {:induction false} VarintIsRead(p: Bytes, left: nat, last: nat, rest: Bytes)
    requires IsVarint(p, left, last)
    ensures TakeVarint(p + rest, left, last) == Some(Taken(Groups(p), rest))
    decreases left
  {
    hide IsVarint, Groups;
    NoGroups();
    NoVarint(p, left, last);
    var tail := p[1..];
    assert p == [p[0]] + tail && (p + rest)[1..] == tail + rest;
    VarintCons(p[0], tail, left, last);
    if tail == [] {
      assert p == [p[0]] && tail + rest == rest;
    } else {
      VarintIsRead(tail, left - 1, last, rest);
    }
  }

  /** What is read as a number: exactly a varint of that value, and what follows it is left. */
  lemma VarintIff(s: Bytes, left: nat, last: nat, v: nat, rest: Bytes)
    ensures TakeVarint(s, left, last) == Some(Taken(v, rest)) <==>
            exists p :: s == p + rest && IsVarint(p, left, last) && Groups(p) == v
  {
    hide IsVarint, Groups, TakeVarint;
    if TakeVarint(s, left, last) == Some(Taken(v, rest)) { var p := ReadsVarint(s, left, last); }
    forall p | s == p + rest && IsVarint(p, left, last) && Groups(p) == v
      ensures TakeVarint(s, left, last) == Some(Taken(v, rest))
    {
      VarintIsRead(p, left, last, rest);
    }
  }

  /** Tags are numbers of 32 bits and lengths of 64: whatever is read is one, and every one of them can be read. */
  lemma TagsAndLengths(s: Bytes, v: nat, rest: Bytes)
    ensures TakeTag(s).Some? ==> TakeTag(s).value.value < 0x1_0000_0000
    ensures TakeLength(s).Some? ==> TakeLength(s).value.value < 0x1_0000_0000_0000_0000
    ensures v < 0x1_0000_0000 ==> TakeTag(Varint(v) + rest) == Some(Taken(v, rest))
    ensures v < 0x1_0000_0000_0000_0000 ==> TakeLength(Varint(v) + rest) == Some(Taken(v, rest))
  {
    hide TakeVarint, Varint, Capacity;
    Widths();
    VarintReadings(s, 5, 15);
    VarintReadings(s, 10, 1);
    if v < 0x1_0000_0000 { VarintRoundTrip(v, 5, 15, rest); }
    if v < 0x1_0000_0000_0000_0000 { VarintRoundTrip(v, 10, 1, rest); }
  }

  // ---------- UTF-8 ----------

  predicate IsContinuation(b: UInt8) {
    0x80 <= b < 0xC0
  }

  /** The length that the first byte of a code point announces. */
  function UnitLength(b: UInt8): (n: nat)
    ensures 1 <= n <= 4
  {
    if b < 0x80 then 1 else if b < 0xE0 then 2 else if b < 0xF0 then 3 else 4
  }

  /** The text starts with a code point as in table 3-7 of the Unicode standard. */
  predicate StartsUtf8(s: Bytes) {
    s != [] && |s| >= UnitLength(s[0]) &&
    if s[0] < 0x80 then true
    else if s[0] < 0xE0 then 0xC2 <= s[0] && IsContinuation(s[1])
    else if s[0] < 0xF0 then
      IsContinuation(s[1]) && IsContinuation(s[2]) && (s[0] == 0xE0 ==> 0xA0 <= s[1]) && (s[0] == 0xED ==> s[1] < 0xA0)
    else
      IsContinuation(s[1]) && IsContinuation(s[2]) && IsContinuation(s[3]) &&
      s[0] < 0xF5 && (s[0] == 0xF0 ==> 0x90 <= s[1]) && (s[0] == 0xF4 ==> s[1] < 0x90)
  }

  /** Well-formed UTF-8. */
  predicate IsUtf8(s: Bytes) {
    s != [] ==> StartsUtf8(s) && IsUtf8(s[UnitLength(s[0])..])
  }

  /** The code points other than surrogates. */
  predicate IsScalar(c: nat) {
    c < 0xD800 || 0xE000 <= c < 0x11_0000
  }

  /** The bytes of one code point. */
  function Utf8(c: nat): (s: Bytes)
    requires IsScalar(c)
    ensures s != []
  {
    if c < 0x80 then [c as UInt8]
    else if c < 0x800 then [(0xC0 + c / 0x40) as UInt8, (0x80 + c % 0x40) as UInt8]
    else if c < 0x1_0000 then
      [(0xE0 + c / 0x1000) as UInt8, (0x80 + c / 0x40 % 0x40) as UInt8, (0x80 + c % 0x40) as UInt8]
    else
      [(0xF0 + c / 0x4_0000) as UInt8, (0x80 + c / 0x1000 % 0x40) as UInt8, (0x80 + c / 0x40 % 0x40) as UInt8,
       (0x80 + c % 0x40) as UInt8]
  }

  function Utf8Text(text: seq<nat>): Bytes
    requires forall c :: c in text ==> IsScalar(c)
  {
    if text == [] then [] else Utf8(text[0]) + Utf8Text(text[1..])
  }

  /** The first code point of a text, from the bits its bytes carry. */
  function FirstScalar(s: Bytes): nat
    requires StartsUtf8(s)
  {
    if s[0] < 0x80 then s[0] as nat
    else if s[0] < 0xE0 then (s[0] as nat - 0xC0) * 0x40 + (s[1] as nat - 0x80)
    else if s[0] < 0xF0 then (s[0] as nat - 0xE0) * 0x1000 + (s[1] as nat - 0x80) * 0x40 + (s[2] as nat - 0x80)
    else
      (s[0] as nat - 0xF0) * 0x4_0000 + (s[1] as nat - 0x80) * 0x1000 + (s[2] as nat - 0x80) * 0x40 +
      (s[3] as nat - 0x80)
  }

  lemma OneByte(a: nat)
    requires a < 0x80
    ensures IsScalar(a) && Utf8(a) == [a as UInt8]
  {
  }

  lemma TwoBytes(a: nat, b: nat)
    requires 2 <= a < 0x20 && b < 0x40
    ensures var n := a * 0x40 + b;
            IsScalar(n) && Utf8(n) == [(0xC0 + a) as UInt8, (0x80 + b) as UInt8]
  {
    var n := a * 0x40 + b;
    assert n / 0x40 == a && n % 0x40 == b;
  }

  lemma ThreeBytes(a: nat, b: nat, c: nat)
    requires a < 0x10 && b < 0x40 && c < 0x40
    requires (a == 0 ==> b >= 0x20) && (a == 0xD ==> b < 0x20)
    ensures var n := a * 0x1000 + b * 0x40 + c;
            IsScalar(n) && Utf8(n) == [(0xE0 + a) as UInt8, (0x80 + b) as UInt8, (0x80 + c) as UInt8]
  {
    var n := a * 0x1000 + b * 0x40 + c;
    assert n / 0x40 == a * 0x40 + b && n % 0x40 == c;
    assert n / 0x1000 == a && (a * 0x40 + b) % 0x40 == b;
  }

  lemma FourBytes(a: nat, b: nat, c: nat, d: nat)
    requires a < 5 && b < 0x40 && c < 0x40 && d < 0x40
    requires (a == 0 ==> b >= 0x10) && (a == 4 ==> b < 0x10)
    ensures var n := a * 0x4_0000 + b * 0x1000 + c * 0x40 + d;
            && IsScalar(n)
            && Utf8(n) == [(0xF0 + a) as UInt8, (0x80 + b) as UInt8, (0x80 + c) as UInt8, (0x80 + d) as UInt8]
  {
    var n := a * 0x4_0000 + b * 0x1000 + c * 0x40 + d;
    assert n / 0x40 == a * 0x1000 + b * 0x40 + c && n % 0x40 == d;
    assert n / 0x1000 == a * 0x40 + b && (a * 0x1000 + b * 0x40 + c) % 0x40 == c;
    assert n / 0x4_0000 == a && (a * 0x40 + b) % 0x40 == b;
  }

  lemma FirstScalarIs(s: Bytes)
    requires StartsUtf8(s)
    ensures UnitLength(s[0]) <= |s|
    ensures IsScalar(FirstScalar(s)) && Utf8(FirstScalar(s)) == s[..UnitLength(s[0])]
  {
    hide IsScalar, Utf8;
    if s[0] < 0x80 {
      OneByte(s[0] as nat);
    } else if s[0] < 0xE0 {
      TwoBytes(s[0] as nat - 0xC0, s[1] as nat - 0x80);
    } else if s[0] < 0xF0 {
      ThreeBytes(s[0] as nat - 0xE0, s[1] as nat - 0x80, s[2] as nat - 0x80);
    } else {
      FourBytes(s[0] as nat - 0xF0, s[1] as nat - 0x80, s[2] as nat - 0x80, s[3] as nat - 0x80);
    }
  }

  lemma ScalarStarts(c: nat, rest: Bytes)
    requires IsScalar(c)
    ensures StartsUtf8(Utf8(c) + rest) && UnitLength(Utf8(c)[0]) == |Utf8(c)|
  {
    hide Utf8;
    if c < 0x80 {
      OneByte(c);
    } else if c < 0x800 {
      TwoBytes(c / 0x40, c % 0x40);
    } else if c < 0x1_0000 {
      var a, m := c / 0x1000, c % 0x1000;
      assert c == a * 0x1000 + (m / 0x40) * 0x40 + m % 0x40;
      ThreeBytes(a, m / 0x40, m % 0x40);
    } else {
      var a, m := c / 0x4_0000, c % 0x4_0000;
      var b, l := m / 0x1000, m % 0x1000;
      assert c == a * 0x4_0000 + b * 0x1000 + (l / 0x40) * 0x40 + l % 0x40;
      FourBytes(a, b, l / 0x40, l % 0x40);
    }
  }

  lemma {:induction false} TextOf(s: Bytes) returns (text: seq<nat>)
    requires IsUtf8(s)
    ensures (forall c :: c in text ==> IsScalar(c)) && s == Utf8Text(text)
    decreases |s|
  {
    hide StartsUtf8, IsScalar, Utf8;
    if s == [] {
      text := [];
    } else {
      FirstScalarIs(s);
      var rest := TextOf(s[UnitLength(s[0])..]);
      text := [FirstScalar(s)] + rest;
      assert text[1..] == rest;
    }
  }

  lemma {:induction false} TextIsUtf8(text: seq<nat>)
    requires forall c :: c in text ==> IsScalar(c)
    ensures IsUtf8(Utf8Text(text))
  {
    hide StartsUtf8, IsScalar, Utf8;
    if text != [] {
      assert text[0] in text;
      var unit, rest := Utf8(text[0]), Utf8Text(text[1..]);
      TextIsUtf8(text[1..]);
      ScalarStarts(text[0], rest);
      assert (unit + rest)[|unit|..] == rest;
    }
  }

  /** The texts accepted are exactly the encodings of sequences of code points. */
  lemma {:induction false} IsUtf8Iff(s: Bytes)
    ensures IsUtf8(s) <==> exists text: seq<nat> :: (forall c :: c in text ==> IsScalar(c)) && s == Utf8Text(text)
  {
    if IsUtf8(s) { var text := TextOf(s); }
    forall text: seq<nat> | (forall c :: c in text ==> IsScalar(c)) && s == Utf8Text(text) ensures IsUtf8(s) {
      TextIsUtf8(text);
    }
  }

  // ---------- Bounded vectors and strings ----------

  function Prefixed(bytes: Bytes): Bytes {
    Varint(|bytes|) + bytes
  }

  function TakeBytes(s: Bytes): (t: Option<Taken<Bytes>>)
    ensures t.Some? ==> |t.value.rest| < |s|
  {
    match TakeLength(s)
    case None => None
    case Some(t) => if t.value <= |t.rest| then Some(Taken(t.rest[..t.value], t.rest[t.value..])) else None
  }

  predicate IsPayload(bytes: Bytes) {
    |bytes| <= WIFI_FRAME_PAYLOAD_MAX_LEN
  }

  predicate IsKeyId(bytes: Bytes) {
    |bytes| <= TOKEN_STRING_MAX_LEN && IsUtf8(bytes)
  }

  function TakePayload(s: Bytes): Option<Taken<Bytes>> {
    match TakeBytes(s)
    case Some(t) => if IsPayload(t.value) then Some(t) else None
    case None => None
  }

  function TakeKeyId(s: Bytes): Option<Taken<Bytes>> {
    match TakeBytes(s)
    case Some(t) => if IsKeyId(t.value) then Some(t) else None
    case None => None
  }

  lemma BytesRoundTrip(bytes: Bytes, rest: Bytes)
    requires |bytes| <= WIFI_FRAME_PAYLOAD_MAX_LEN
    ensures TakeBytes(Prefixed(bytes) + rest) == Some(Taken(bytes, rest))
  {
    hide TakeVarint, Varint, Capacity;
    Widths();
    VarintRoundTrip(|bytes|, 10, 1, bytes + rest);
    assert Prefixed(bytes) + rest == Varint(|bytes|) + (bytes + rest);
    assert (bytes + rest)[..|bytes|] == bytes && (bytes + rest)[|bytes|..] == rest;
  }

  lemma BytesReadings(s: Bytes)
    ensures var t := TakeBytes(s); t.Some? ==> |Prefixed(t.value.value)| + |t.value.rest| <= |s|
  {
    hide TakeVarint, Varint, Capacity;
    VarintReadings(s, 10, 1);
  }

  lemma PrefixedLength(bytes: Bytes)
    requires |bytes| <= WIFI_FRAME_PAYLOAD_MAX_LEN
    ensures |Prefixed(bytes)| == |bytes| + if |bytes| < 128 then 1 else 2
  {
    if |bytes| >= 128 {
      assert |bytes| / 128 < 128;
      assert |Varint(|bytes| / 128)| == 1;
    }
  }

  /** The length in one byte, or in two with the low seven bits first. */
  lemma PrefixedIs(bytes: Bytes)
    requires |bytes| <= 2064
    ensures |bytes| < 128 ==> Prefixed(bytes) == [|bytes| as UInt8] + bytes
    ensures |bytes| >= 128 ==> Prefixed(bytes) == [(|bytes| % 128 + 128) as UInt8, (|bytes| / 128) as UInt8] + bytes
  {
    if |bytes| >= 128 {
      assert |bytes| / 128 < 128;
      assert Varint(|bytes| / 128) == [(|bytes| / 128) as UInt8];
    }
  }

  // ---------- Requests ----------

  predicate ValidRequest(r: Request) {
    match r
    case PairingNoise(_, payload) => IsPayload(payload)
    case Hello(_, keyId) => IsKeyId(keyId)
    case Noise(payload) => IsPayload(payload)
  }

  function EncodeRequest(r: Request): Bytes {
    match r
    case PairingNoise(version, payload) => Varint(0) + ([version] + Prefixed(payload))
    case Hello(version, keyId) => Varint(1) + ([version] + Prefixed(keyId))
    case Noise(payload) => Varint(2) + Prefixed(payload)
  }

  function TakeVersioned(s: Bytes, tag: nat): Option<Taken<Request>>
    requires tag < 2
  {
    if s == [] then None
    else if tag == 0 then
      match TakePayload(s[1..])
      case Some(t) => Some(Taken(Request.PairingNoise(s[0], t.value), t.rest))
      case None => None
    else
      match TakeKeyId(s[1..])
      case Some(t) => Some(Taken(Request.Hello(s[0], t.value), t.rest))
      case None => None
  }

  function TakeRequest(s: Bytes): Option<Taken<Request>> {
    match TakeTag(s)
    case None => None
    case Some(tag) =>
      if tag.value < 2 then TakeVersioned(tag.rest, tag.value)
      else if tag.value == 2 then
        match TakePayload(tag.rest)
        case Some(t) => Some(Taken(Request.Noise(t.value), t.rest))
        case None => None
      else None
  }

  /** What `postcard::from_bytes` answers: bytes after the value are ignored. */
  function DecodeRequest(s: Bytes): Option<Request> {
    match TakeRequest(s) case Some(t) => Some(t.value) case None => None
  }

  lemma TagRoundTrip(tag: nat, rest: Bytes)
    requires tag < 128
    ensures TakeTag(Varint(tag) + rest) == Some(Taken(tag, rest)) && |Varint(tag)| == 1
  {
    Widths();
    VarintRoundTrip(tag, 5, 15, rest);
  }

  /** Every request is read back from its encoding, whatever follows it. */
  lemma RequestRoundTrip(r: Request, rest: Bytes)
    requires ValidRequest(r)
    ensures TakeRequest(EncodeRequest(r) + rest) == Some(Taken(r, rest))
  {
    hide TakeTag, TakeBytes, Varint, Prefixed, IsUtf8;
    match r {
      case Noise(payload) =>
        TagRoundTrip(2, Prefixed(payload) + rest);
        BytesRoundTrip(payload, rest);
        assert EncodeRequest(r) + rest == Varint(2) + (Prefixed(payload) + rest);
      case PairingNoise(version, payload) =>
        var body := [version] + Prefixed(payload) + rest;
        TagRoundTrip(0, body);
        BytesRoundTrip(payload, rest);
        assert body[1..] == Prefixed(payload) + rest;
        assert EncodeRequest(r) + rest == Varint(0) + body;
      case Hello(version, keyId) =>
        var body := [version] + Prefixed(keyId) + rest;
        TagRoundTrip(1, body);
        BytesRoundTrip(keyId, rest);
        assert body[1..] == Prefixed(keyId) + rest;
        assert EncodeRequest(r) + rest == Varint(1) + body;
    }
  }

  lemma SmallVarint(v: nat)
    requires v < 128
    ensures Varint(v) == [v as UInt8]
  {
  }

  /** A request's bytes: its variant, the version where it has one, and its vector or string after the length. */
  lemma RequestBytes(r: Request)
    ensures r.PairingNoise? ==> EncodeRequest(r) == [0, r.version] + Prefixed(r.payload)
    ensures r.Hello? ==> EncodeRequest(r) == [1, r.version] + Prefixed(r.keyId)
    ensures r.Noise? ==> EncodeRequest(r) == [2] + Prefixed(r.payload)
    ensures ValidRequest(r) <==> if r.Hello? then |r.keyId| <= 64 && IsUtf8(r.keyId) else |r.payload| <= 2064
  {
    hide Prefixed, IsUtf8;
    SmallVarint(0);
    SmallVarint(1);
    SmallVarint(2);
  }

  /** Whatever decodes is a request within its bounds, and no encoding of it is shorter than the canonical one. */
  lemma RequestReadings(s: Bytes)
    ensures var t := TakeRequest(s);
            t.Some? ==> ValidRequest(t.value.value) && |EncodeRequest(t.value.value)| + |t.value.rest| <= |s|
  {
    hide TakeVarint, TakeBytes, Varint, Prefixed, IsUtf8, Capacity;
    VarintReadings(s, 5, 15);
    var tag := TakeTag(s);
    if tag.Some? && tag.value.value <= 2 {
      var body := tag.value.rest;
      BytesReadings(body);
      if body != [] { BytesReadings(body[1..]); }
    }
  }

  /** The exact length of an encoded request, so its largest size and the bound the reader allows. */
  lemma RequestFits(r: Request)
    requires ValidRequest(r)
    ensures 2 <= |EncodeRequest(r)| <= 2068 < FRAME_MAX_LEN == 2072
    ensures |EncodeRequest(r)| == 2068 <==> r.PairingNoise? && |r.payload| == 2064
  {
    hide Varint, Prefixed, IsUtf8;
    TagRoundTrip(0, []);
    TagRoundTrip(1, []);
    TagRoundTrip(2, []);
    match r
    case PairingNoise(_, payload) => PrefixedLength(payload);
    case Hello(_, keyId) => PrefixedLength(keyId);
    case Noise(payload) => PrefixedLength(payload);
  }

  /** Concatenated requests can be cut apart in one way only. */
  lemma RequestsSelfDelimiting(a: Request, x: Bytes, b: Request, y: Bytes)
    requires ValidRequest(a) && ValidRequest(b) && EncodeRequest(a) + x == EncodeRequest(b) + y
    ensures a == b && x == y
  {
    hide EncodeRequest, TakeRequest, ValidRequest;
    RequestRoundTrip(a, x);
    RequestRoundTrip(b, y);
  }

  // ---------- Responses ----------

  predicate ValidResponse(r: Response) {
    match r
    case PairingNoise(payload) => IsPayload(payload)
    case Noise(payload) => IsPayload(payload)
    case Error(_) => true
  }

  function ErrorTag(error: WifiError): (tag: nat) {
    match error
    case BadRequest => 0
    case Unauthorized => 1
    case UnsupportedVersion => 2
    case RuntimeFailed => 3
  }

  function EncodeResponse(r: Response): Bytes {
    match r
    case PairingNoise(payload) => Varint(0) + Prefixed(payload)
    case Noise(payload) => Varint(1) + Prefixed(payload)
    case Error(error) => Varint(2) + Varint(ErrorTag(error))
  }

  function TakeError(s: Bytes): Option<Taken<WifiError>> {
    match TakeTag(s)
    case None => None
    case Some(t) =>
      if t.value == 0 then Some(Taken(BadRequest, t.rest))
      else if t.value == 1 then Some(Taken(Unauthorized, t.rest))
      else if t.value == 2 then Some(Taken(UnsupportedVersion, t.rest))
      else if t.value == 3 then Some(Taken(RuntimeFailed, t.rest))
      else None
  }

  function TakeResponse(s: Bytes): Option<Taken<Response>> {
    match TakeTag(s)
    case None => None
    case Some(tag) =>
      if tag.value < 2 then
        match TakePayload(tag.rest)
        case None => None
        case Some(t) =>
          var r := if tag.value == 0 then Response.PairingNoise(t.value) else Response.Noise(t.value);
          Some(Taken(r, t.rest))
      else if tag.value == 2 then
        match TakeError(tag.rest)
        case None => None
        case Some(t) => Some(Taken(Response.Error(t.value), t.rest))
      else None
  }

  function DecodeResponse(s: Bytes): Option<Response> {
    match TakeResponse(s) case Some(t) => Some(t.value) case None => None
  }

  /** Every response is read back from its encoding, whatever follows it. */
  lemma ResponseRoundTrip(r: Response, rest: Bytes)
    requires ValidResponse(r)
    ensures TakeResponse(EncodeResponse(r) + rest) == Some(Taken(r, rest))
  {
    hide TakeTag, TakeBytes, Varint, Prefixed;
    match r {
      case PairingNoise(payload) =>
        TagRoundTrip(0, Prefixed(payload) + rest);
        BytesRoundTrip(payload, rest);
        assert EncodeResponse(r) + rest == Varint(0) + (Prefixed(payload) + rest);
      case Noise(payload) =>
        TagRoundTrip(1, Prefixed(payload) + rest);
        BytesRoundTrip(payload, rest);
        assert EncodeResponse(r) + rest == Varint(1) + (Prefixed(payload) + rest);
      case Error(error) =>
        TagRoundTrip(2, Varint(ErrorTag(error)) + rest);
        TagRoundTrip(ErrorTag(error), rest);
        assert EncodeResponse(r) + rest == Varint(2) + (Varint(ErrorTag(error)) + rest);
    }
  }

  /** A response's bytes: its variant, and its vector after the length or the number of its error. */
  lemma ResponseBytes(r: Response)
    ensures r.PairingNoise? ==> EncodeResponse(r) == [0] + Prefixed(r.payload)
    ensures r.Noise? ==> EncodeResponse(r) == [1] + Prefixed(r.payload)
    ensures EncodeResponse(Response.Error(BadRequest)) == [2, 0]
    ensures EncodeResponse(Response.Error(Unauthorized)) == [2, 1]
    ensures EncodeResponse(Response.Error(UnsupportedVersion)) == [2, 2]
    ensures EncodeResponse(Response.Error(RuntimeFailed)) == [2, 3]
    ensures ValidResponse(r) <==> r.Error? || |r.payload| <= 2064
  {
    hide Prefixed;
    SmallVarint(0);
    SmallVarint(1);
    SmallVarint(2);
    SmallVarint(3);
  }

  /** Whatever decodes is a response within its bounds, and no encoding of it is shorter than the canonical one. */
  lemma ResponseReadings(s: Bytes)
    ensures var t := TakeResponse(s);
            t.Some? ==> ValidResponse(t.value.value) && |EncodeResponse(t.value.value)| + |t.value.rest| <= |s|
  {
    hide TakeVarint, TakeBytes, Varint, Prefixed, Capacity;
    VarintReadings(s, 5, 15);
    var tag := TakeTag(s);
    if tag.Some? && tag.value.value <= 2 {
      BytesReadings(tag.value.rest);
      VarintReadings(tag.value.rest, 5, 15);
    }
  }

  lemma ResponseFits(r: Response)
    requires ValidResponse(r)
    ensures 2 <= |EncodeResponse(r)| <= 2067 < FRAME_MAX_LEN == 2072
    ensures |EncodeResponse(r)| == 2067 <==> !r.Error? && |r.payload| == 2064
  {
    hide Varint, Prefixed;
    TagRoundTrip(0, []);
    TagRoundTrip(1, []);
    TagRoundTrip(2, []);
    match r
    case PairingNoise(payload) => PrefixedLength(payload);
    case Noise(payload) => PrefixedLength(payload);
    case Error(error) => TagRoundTrip(ErrorTag(error), []);
  }
}
