// Length-prefixed frames on a byte stream: writing one, reading one, and reading a stream to its end.
module WifiWire {
  import opened Wrappers
  import opened WifiFrames

  datatype Failure =
    | Debug
    | InsufficientData
    | Serialization
    | Busy
    | UnexpectedResponse
    | Permission
    | Unsupported
    | Argument
    | Unknown

  /** The length as a big-endian 16-bit integer, then the payload. */
  function Framed(payload: Bytes): Bytes
    requires |payload| < 0x10000
  {
    [(|payload| / 256) as UInt8, (|payload| % 256) as UInt8] + payload
  }

  /** The outcome of reading one frame, and the input left. */
  datatype Next<T> = Next(result: Result<T, Failure>, rest: Bytes)

  /** A read past the end of the stream consumes what there was. */
  function NextFrame<T>(decode: Bytes -> Option<T>, s: Bytes): (n: Next<T>)
    ensures |n.rest| <= |s|
    ensures n.result.Ok? ==> |n.rest| < |s|
  {
    if |s| < 2 then Next(Err(Debug), [])
    else
      var len := s[0] as nat * 256 + s[1] as nat;
      if len == 0 || len > FRAME_MAX_LEN then Next(Err(InsufficientData), s[2..])
      else if |s| - 2 < len then Next(Err(Debug), [])
      else
        match decode(s[2..len + 2])
        case Some(x) => Next(Ok(x), s[len + 2..])
        case None => Next(Err(Serialization), s[len + 2..])
  }

  class ByteStream {
    var pending: Bytes

    constructor (bytes: Bytes)
      ensures pending == bytes
    {
      pending := bytes;
    }

    method ReadExact(n: nat) returns (bytes: Option<Bytes>)
      modifies this
      ensures n <= |old(pending)| ==> bytes == Some(old(pending)[..n]) && pending == old(pending)[n..]
      ensures n > |old(pending)| ==> bytes == None && pending == []
    {
      if n <= |pending| {
        bytes := Some(pending[..n]);
        pending := pending[n..];
      } else {
        bytes := None;
        pending := [];
      }
    }

    /** The stream takes `accepted` bytes before it fails, or all of them. */
    method WriteAll(bytes: Bytes, accepted: nat) returns (ok: bool)
      modifies this
      ensures ok <==> |bytes| <= accepted
      ensures pending == old(pending) + if ok then bytes else bytes[..accepted]
    {
      ok := |bytes| <= accepted;
      pending := pending + if ok then bytes else bytes[..accepted];
    }
  }

  method ReadFrame<T>(reader: ByteStream, decode: Bytes -> Option<T>) returns (frame: Result<T, Failure>)
    modifies reader
    ensures NextFrame(decode, old(reader.pending)) == Next(frame, reader.pending)
  {
    var header := reader.ReadExact(2);
    if header.None? {
      return Err(Debug);
    }
    var len := header.value[0] as nat * 256 + header.value[1] as nat;
    if len == 0 || len > FRAME_MAX_LEN {
      return Err(InsufficientData);
    }
    var payload := reader.ReadExact(len);
    if payload.None? {
      return Err(Debug);
    }
    assert payload.value == old(reader.pending)[2..len + 2];
    match decode(payload.value)
    case Some(x) => frame := Ok(x);
    case None => frame := Err(Serialization);
  }

  /** The outcome of a write that the stream may cut short, and of the flush after it. */
  method WriteFrame<T>(writer: ByteStream, frame: T, encode: T -> Bytes, accepted: nat, flushes: bool)
    returns (result: Result<(), Failure>)
    modifies writer
    ensures |encode(frame)| >= 0x10000 ==> result == Err(Serialization) && writer.pending == old(writer.pending)
    ensures |encode(frame)| < 0x10000 ==>
              var framed := Framed(encode(frame));
              && result == (if |framed| <= accepted && flushes then Ok(()) else Err(Debug))
              && writer.pending == old(writer.pending) + if |framed| <= accepted then framed else framed[..accepted]
  {
    var payload := encode(frame);
    if |payload| >= 0x10000 {
      return Err(Serialization);
    }
    var buffer: Bytes := [(|payload| / 256) as UInt8, (|payload| % 256) as UInt8];
    buffer := buffer + payload;
    var ok := writer.WriteAll(buffer, accepted);
    result := if ok && flushes then Ok(()) else Err(Debug);
  }

  /** The two bytes of length are in big-endian order. */
  lemma FramedIs(payload: Bytes)
    requires |payload| < 0x10000
    ensures var s := Framed(payload);
            |s| == |payload| + 2 && s[0] as nat * 256 + s[1] as nat == |payload| && s[2..] == payload
  {
  }

  lemma FramedRead<T>(decode: Bytes -> Option<T>, payload: Bytes, rest: Bytes)
    requires 0 < |payload| <= FRAME_MAX_LEN && decode(payload).Some?
    ensures NextFrame(decode, Framed(payload) + rest) == Next(Ok(decode(payload).value), rest)
  {
    var s := Framed(payload) + rest;
    assert s[2..|payload| + 2] == payload && s[|payload| + 2..] == rest;
  }

  /** A frame is read exactly when the stream starts with a framed payload of admissible length that decodes. */
  lemma NextFrameIff<T>(decode: Bytes -> Option<T>, s: Bytes, x: T, rest: Bytes)
    ensures NextFrame(decode, s) == Next(Ok(x), rest) <==>
            exists payload :: 0 < |payload| <= 2072 && s == Framed(payload) + rest &&
                              decode(payload) == Some(x)
  {
    if NextFrame(decode, s) == Next(Ok(x), rest) {
      var len := s[0] as nat * 256 + s[1] as nat;
      var payload := s[2..len + 2];
      assert s == Framed(payload) + rest;
    }
    forall payload | 0 < |payload| <= FRAME_MAX_LEN && s == Framed(payload) + rest && decode(payload) == Some(x)
      ensures NextFrame(decode, s) == Next(Ok(x), rest)
    {
      FramedRead(decode, payload, rest);
    }
  }

  lemma PrefixOfFrame(s: Bytes, len: nat)
    requires 2 <= |s| < len + 2 <= 2074 && len == s[0] as nat * 256 + s[1] as nat
    ensures exists payload :: |payload| == len && s < Framed(payload)
  {
    var missing: Bytes := seq(len - (|s| - 2), _ => 0);
    var payload := s[2..] + missing;
    assert Framed(payload) == s + missing;
  }

  /** The stream ends too early exactly when it stops within the length or within a frame of admissible length. */
  lemma EndsEarlyIff<T>(decode: Bytes -> Option<T>, s: Bytes)
    ensures NextFrame(decode, s).result == Err(Debug) <==>
            |s| < 2 || exists payload :: 0 < |payload| <= 2072 && s < Framed(payload)
    ensures NextFrame(decode, s).result == Err(Debug) ==> NextFrame(decode, s).rest == []
  {
    hide Framed;
    if |s| >= 2 {
      var len := s[0] as nat * 256 + s[1] as nat;
      if 0 < len <= 2072 && |s| < len + 2 { PrefixOfFrame(s, len); }
      forall payload | 0 < |payload| <= 2072 && s < Framed(payload) ensures |s| < len + 2 && 0 < len <= 2072 {
        FramedIs(payload);
      }
    }
  }

  /** The length is refused exactly when it is zero or more than 2072; only the length is consumed. */
  lemma BadLengthIff<T>(decode: Bytes -> Option<T>, s: Bytes)
    ensures NextFrame(decode, s).result == Err(InsufficientData) <==>
            |s| >= 2 && (s[..2] == [0, 0] || s[0] as nat * 256 + s[1] as nat > 2072)
    ensures NextFrame(decode, s).result == Err(InsufficientData) ==> s == s[..2] + NextFrame(decode, s).rest
  {
    if |s| >= 2 { assert s[..2] == [s[0], s[1]]; }
  }

  /** A frame whose payload does not decode is consumed and reported. */
  lemma UndecodableIff<T>(decode: Bytes -> Option<T>, s: Bytes, rest: Bytes)
    ensures NextFrame(decode, s) == Next(Err(Serialization), rest) <==>
            exists payload :: 0 < |payload| <= 2072 && s == Framed(payload) + rest && decode(payload) == None
  {
    if NextFrame(decode, s) == Next(Err(Serialization), rest) {
      var len := s[0] as nat * 256 + s[1] as nat;
      assert s == Framed(s[2..len + 2]) + rest;
    }
    forall payload | 0 < |payload| <= 2072 && s == Framed(payload) + rest && decode(payload) == None
      ensures NextFrame(decode, s) == Next(Err(Serialization), rest)
    {
      FramedIs(payload);
      assert s[2..|payload| + 2] == payload && s[|payload| + 2..] == rest;
    }
  }

  // ---------- Whole streams ----------

  /** The frames read before the first failure, and that failure. */
  datatype Frames<T> = Frames(frames: seq<T>, stop: Failure)

  function ReadAll<T>(decode: Bytes -> Option<T>, s: Bytes): Frames<T>
    decreases |s|
  {
    match NextFrame(decode, s)
    case Next(Err(e), _) => Frames([], e)
    case Next(Ok(x), rest) => var tail := ReadAll(decode, rest); Frames([x] + tail.frames, tail.stop)
  }

  function FramedAll(payloads: seq<Bytes>): Bytes
    requires forall p :: p in payloads ==> |p| < 0x10000
  {
    if payloads == [] then [] else Framed(payloads[0]) + FramedAll(payloads[1..])
  }

  /** The payload of frame `i` is of admissible length and decodes to it. */
  predicate ReadsAs<T(==)>(decode: Bytes -> Option<T>, payloads: seq<Bytes>, frames: seq<T>, i: nat) {
    i < |payloads| && i < |frames| && 0 < |payloads[i]| <= 2072 && decode(payloads[i]) == Some(frames[i])
  }

  lemma ReadsAsCons<T>(
      decode: Bytes -> Option<T>, payload: Bytes, later: seq<Bytes>, x: T, tail: seq<T>, i: nat)
    requires 0 < |payload| <= 2072 && decode(payload) == Some(x)
    ensures i == 0 || ReadsAs(decode, later, tail, i - 1) ==> ReadsAs(decode, [payload] + later, [x] + tail, i)
  {
  }

  lemma ReadAllStep<T>(decode: Bytes -> Option<T>, s: Bytes)
    ensures match NextFrame(decode, s)
            case Next(Err(e), _) => ReadAll(decode, s) == Frames([], e)
            case Next(Ok(x), rest) =>
              var tail := ReadAll(decode, rest);
              ReadAll(decode, s).frames == [x] + tail.frames && ReadAll(decode, s).stop == tail.stop
  {
    hide NextFrame;
  }

  lemma FramedAllNone(rest: Bytes)
    ensures rest == FramedAll([]) + rest
  {
  }

  lemma FramedAllCons(payload: Bytes, later: seq<Bytes>, rest: Bytes)
    requires |payload| < 0x10000 && forall p :: p in later ==> |p| < 0x10000
    ensures Framed(payload) + (FramedAll(later) + rest) == FramedAll([payload] + later) + rest
  {
    hide Framed;
    assert ([payload] + later)[1..] == later;
  }

  /** Reading any stream goes as far as it consists of frames that decode, and stops with the error that the rest
      of the stream gives. */
  lemma {:induction false} ReadAllIs<T>(decode: Bytes -> Option<T>, s: Bytes)
    returns (payloads: seq<Bytes>, rest: Bytes)
    ensures var all := ReadAll(decode, s);
            && |payloads| == |all.frames|
            && (forall i: nat :: i < |payloads| ==> ReadsAs(decode, payloads, all.frames, i))
            && (forall p :: p in payloads ==> |p| < 0x10000)
            && s == FramedAll(payloads) + rest
            && NextFrame(decode, rest).result == Err(all.stop)
    decreases |s|
  {
    hide NextFrame, Framed, ReadsAs, FramedAll, ReadAll;
    var next := NextFrame(decode, s);
    ReadAllStep(decode, s);
    match next.result
    case Err(_) =>
      payloads, rest := [], s;
      FramedAllNone(s);
    case Ok(x) =>
      NextFrameIff(decode, s, x, next.rest);
      var payload :| 0 < |payload| <= 2072 && s == Framed(payload) + next.rest && decode(payload) == Some(x);
      var later;
      later, rest := ReadAllIs(decode, next.rest);
      payloads := [payload] + later;
      FramedAllCons(payload, later, rest);
      var tail := ReadAll(decode, next.rest).frames;
      forall i: nat | i < |payloads| ensures ReadsAs(decode, payloads, [x] + tail, i) {
        ReadsAsCons(decode, payload, later, x, tail, i);
      }
  }

  /** A pair of functions between values and payloads that a frame can carry. */
  ghost predicate IsCodec<T(!new)>(encode: T -> Bytes, decode: Bytes -> Option<T>, valid: T -> bool) {
    forall x :: valid(x) ==> 0 < |encode(x)| <= FRAME_MAX_LEN && decode(encode(x)) == Some(x)
  }

  lemma RequestsAreCodec()
    ensures IsCodec(EncodeRequest, DecodeRequest, ValidRequest)
  {
    forall r | ValidRequest(r)
      ensures 0 < |EncodeRequest(r)| <= FRAME_MAX_LEN && DecodeRequest(EncodeRequest(r)) == Some(r)
    {
      RequestFits(r);
      RequestRoundTrip(r, []);
      assert EncodeRequest(r) + [] == EncodeRequest(r);
    }
  }

  lemma ResponsesAreCodec()
    ensures IsCodec(EncodeResponse, DecodeResponse, ValidResponse)
  {
    forall r | ValidResponse(r)
      ensures 0 < |EncodeResponse(r)| <= FRAME_MAX_LEN && DecodeResponse(EncodeResponse(r)) == Some(r)
    {
      ResponseFits(r);
      ResponseRoundTrip(r, []);
      assert EncodeResponse(r) + [] == EncodeResponse(r);
    }
  }

  /** What writing the values one after the other puts on the stream. */
  ghost function Wire<T(!new)>(encode: T -> Bytes, decode: Bytes -> Option<T>, valid: T -> bool, xs: seq<T>): Bytes
    requires IsCodec(encode, decode, valid) && forall x :: x in xs ==> valid(x)
  {
    if xs == [] then [] else Framed(encode(xs[0])) + Wire(encode, decode, valid, xs[1..])
  }

  /** Frames that were written are read back in order, whatever follows them on the stream. */
  lemma {:induction false} WireRoundTrip<T(!new)>(
      encode: T -> Bytes, decode: Bytes -> Option<T>, valid: T -> bool, xs: seq<T>, tail: Bytes)
    requires IsCodec(encode, decode, valid) && forall x :: x in xs ==> valid(x)
    ensures var all := ReadAll(decode, Wire(encode, decode, valid, xs) + tail);
            all.frames == xs + ReadAll(decode, tail).frames && all.stop == ReadAll(decode, tail).stop
  {
    hide NextFrame, Framed;
    var wire := Wire(encode, decode, valid, xs);
    if xs == [] {
      assert wire + tail == tail && xs + ReadAll(decode, tail).frames == ReadAll(decode, tail).frames;
    } else {
      var later := Wire(encode, decode, valid, xs[1..]) + tail;
      assert valid(xs[0]) && wire + tail == Framed(encode(xs[0])) + later;
      FramedRead(decode, encode(xs[0]), later);
      WireRoundTrip(encode, decode, valid, xs[1..], tail);
      assert [xs[0]] + (xs[1..] + ReadAll(decode, tail).frames) == xs + ReadAll(decode, tail).frames;
    }
  }

  lemma EndOfStream<T>(decode: Bytes -> Option<T>)
    ensures ReadAll(decode, []) == Frames([], Debug)
  {
  }

  /** How many of the values are complete in the first `k` bytes of the stream. */
  ghost function WholeFrames<T(!new)>(
      encode: T -> Bytes, decode: Bytes -> Option<T>, valid: T -> bool, xs: seq<T>, k: nat): (m: nat)
    requires IsCodec(encode, decode, valid) && forall x :: x in xs ==> valid(x)
    ensures m <= |xs| && (k >= |Wire(encode, decode, valid, xs)| ==> m == |xs|)
  {
    if xs == [] then 0
    else
      assert valid(xs[0]);
      var n := |Framed(encode(xs[0]))|;
      if k < n then 0 else 1 + WholeFrames(encode, decode, valid, xs[1..], k - n)
  }

  lemma TruncatedFrame<T>(decode: Bytes -> Option<T>, payload: Bytes, k: nat)
    requires 0 < |payload| <= FRAME_MAX_LEN && k < |Framed(payload)|
    ensures NextFrame(decode, Framed(payload)[..k]) == Next(Err(Debug), [])
  {
  }

  lemma CutFirst<T(!new)>(
      encode: T -> Bytes, decode: Bytes -> Option<T>, valid: T -> bool, xs: seq<T>, k: nat)
    requires IsCodec(encode, decode, valid) && xs != [] && forall x :: x in xs ==> valid(x)
    requires valid(xs[0]) && k <= |Wire(encode, decode, valid, xs)|
    ensures var n := |Framed(encode(xs[0]))|;
            var s := Wire(encode, decode, valid, xs)[..k];
            if k < n then NextFrame(decode, s) == Next(Err(Debug), [])
            else NextFrame(decode, s) == Next(Ok(xs[0]), Wire(encode, decode, valid, xs[1..])[..k - n])
  {
    hide NextFrame, Framed;
    var wire, later := Wire(encode, decode, valid, xs), Wire(encode, decode, valid, xs[1..]);
    var first := Framed(encode(xs[0]));
    if k < |first| {
      assert wire[..k] == first[..k];
      TruncatedFrame(decode, encode(xs[0]), k);
    } else {
      assert wire[..k] == first + later[..k - |first|];
      FramedRead(decode, encode(xs[0]), later[..k - |first|]);
    }
  }

  /** However a stream of written frames is cut off, exactly the frames that are complete are read, and then
      the end of the stream is reported. */
  lemma {:induction false} CutStream<T(!new)>(
      encode: T -> Bytes, decode: Bytes -> Option<T>, valid: T -> bool, xs: seq<T>, k: nat)
    requires IsCodec(encode, decode, valid) && forall x :: x in xs ==> valid(x)
    requires k <= |Wire(encode, decode, valid, xs)|
    ensures ReadAll(decode, Wire(encode, decode, valid, xs)[..k]) ==
            Frames(xs[..WholeFrames(encode, decode, valid, xs, k)], Debug)
  {
    hide NextFrame, Framed;
    if xs == [] {
      assert Wire(encode, decode, valid, xs)[..k] == [];
      EndOfStream(decode);
    } else {
      assert valid(xs[0]);
      CutFirst(encode, decode, valid, xs, k);
      var n := |Framed(encode(xs[0]))|;
      if k >= n {
        CutStream(encode, decode, valid, xs[1..], k - n);
        var m := WholeFrames(encode, decode, valid, xs[1..], k - n);
        assert xs[..m + 1] == [xs[0]] + xs[1..][..m];
      }
    }
  }

  function FromWifiError(error: WifiError): Failure {
    match error
    case Unauthorized => Permission
    case UnsupportedVersion => Unsupported
    case BadRequest => Argument
    case RuntimeFailed => Unknown
  }

  /** How the device's four errors are reported. */
  lemma WifiErrorsAre()
    ensures FromWifiError(Unauthorized) == Permission
    ensures FromWifiError(UnsupportedVersion) == Unsupported
    ensures FromWifiError(BadRequest) == Argument
    ensures FromWifiError(RuntimeFailed) == Unknown
  {
  }
}
