// The receiving end of the authenticated connection: the loop that reads, opens and delivers messages.
module WifiSession {
  import opened Wrappers
  import opened WifiFrames
  import opened WifiWire
  import opened WifiChannel

  /** How the read task ends: its queue was closed, or it failed. */
  datatype TaskEnd = Closed | Failed(error: Failure)

  datatype TaskRun<M> = TaskRun(delivered: seq<M>, end: TaskEnd)

  /** The message a frame carries under the counter, or why reading stops. */
  function MessageOf<M>(open: Open, decode: Bytes -> Option<M>, counter: nat, frame: Response): Result<M, Failure> {
    match frame
    case PairingNoise(_) => Err(UnexpectedResponse)
    case Error(error) => Err(FromWifiError(error))
    case Noise(payload) =>
      match open(counter, payload)
      case None => Err(Permission)
      case Some(plain) =>
        if |plain| > WIFI_MESSAGE_MAX_LEN then Err(Permission)
        else match decode(plain) case Some(m) => Ok(m) case None => Err(Serialization)
  }

  /** A frame carries `m` under the counter. */
  predicate Carries<M(==)>(open: Open, decode: Bytes -> Option<M>, counter: nat, frame: Response, m: M) {
    && frame.Noise? && open(counter, frame.payload).Some?
    && |open(counter, frame.payload).value| <= 2048 && decode(open(counter, frame.payload).value) == Some(m)
  }

  predicate CarriesSome<M>(open: Open, decode: Bytes -> Option<M>, counter: nat, frame: Response) {
    && frame.Noise? && open(counter, frame.payload).Some?
    && |open(counter, frame.payload).value| <= 2048 && decode(open(counter, frame.payload).value).Some?
  }

  /** Message `i` of those delivered is the one that frame `i` carries. */
  predicate DeliveredAt<M(==)>(
      open: Open, decode: Bytes -> Option<M>, counter: nat, frames: seq<Response>, delivered: seq<M>, i: nat)
  {
    i < |frames| && i < |delivered| && Carries(open, decode, counter + i, frames[i], delivered[i])
  }

  lemma DeliveredCons<M>(
      open: Open, decode: Bytes -> Option<M>, counter: nat, frames: seq<Response>, delivered: seq<M>, i: nat)
    requires frames != [] && delivered != []
    ensures Carries(open, decode, counter, frames[0], delivered[0]) ==>
              DeliveredAt(open, decode, counter, frames, delivered, 0)
    ensures i > 0 && DeliveredAt(open, decode, counter + 1, frames[1..], delivered[1..], i - 1) ==>
              DeliveredAt(open, decode, counter, frames, delivered, i)
  {
    assert counter + 0 == counter && (i > 0 ==> counter + 1 + (i - 1) == counter + i);
  }

  /** A frame ends the reading with `e`: it answers a pairing, it is one of the device's four errors, it does not
      open or is too long for the buffer, or what it holds is no message. */
  predicate EndsReading<M(==)>(open: Open, decode: Bytes -> Option<M>, counter: nat, frame: Response, e: Failure) {
    || (frame.PairingNoise? && e == UnexpectedResponse)
    || (frame == Response.Error(Unauthorized) && e == Permission)
    || (frame == Response.Error(UnsupportedVersion) && e == Unsupported)
    || (frame == Response.Error(BadRequest) && e == Argument)
    || (frame == Response.Error(RuntimeFailed) && e == Unknown)
    || (frame.Noise? && open(counter, frame.payload) == None && e == Permission)
    || (frame.Noise? && open(counter, frame.payload).Some? &&
        if |open(counter, frame.payload).value| > 2048 then e == Permission
        else decode(open(counter, frame.payload).value) == None && e == Serialization)
  }

  lemma MessageIff<M>(open: Open, decode: Bytes -> Option<M>, counter: nat, frame: Response)
    ensures forall m :: MessageOf(open, decode, counter, frame) == Ok(m) <==> Carries(open, decode, counter, frame, m)
    ensures MessageOf(open, decode, counter, frame).Ok? <==> CarriesSome(open, decode, counter, frame)
    ensures forall e :: MessageOf(open, decode, counter, frame) == Err(e) <==>
                        EndsReading(open, decode, counter, frame, e)
  {
  }

  /** The whole run on the frames a stream holds; the queue's receiver goes away after `room` messages. */
  function Receive<M>(
      open: Open, decode: Bytes -> Option<M>, counter: nat, room: nat, all: Frames<Response>): TaskRun<M>
    decreases |all.frames|
  {
    if all.frames == [] then TaskRun([], Failed(all.stop))
    else
      match MessageOf(open, decode, counter, all.frames[0])
      case Err(e) => TaskRun([], Failed(e))
      case Ok(m) =>
        if room == 0 then TaskRun([], Closed)
        else
          var later := Receive(open, decode, counter + 1, room - 1, Frames(all.frames[1..], all.stop));
          TaskRun([m] + later.delivered, later.end)
  }

  lemma ReceiveStep<M>(
      open: Open, decode: Bytes -> Option<M>, counter: nat, room: nat, all: Frames<Response>)
    ensures var run := Receive(open, decode, counter, room, all);
            if all.frames == [] then run == TaskRun([], Failed(all.stop))
            else
              match MessageOf(open, decode, counter, all.frames[0])
              case Err(e) => run == TaskRun([], Failed(e))
              case Ok(m) =>
                if room == 0 then run == TaskRun([], Closed)
                else
                  var later := Receive(open, decode, counter + 1, room - 1, Frames(all.frames[1..], all.stop));
                  run == TaskRun([m] + later.delivered, later.end)
  {
    hide MessageOf;
  }

  /** What a run delivers and how it ends: every frame before the last one looked at carries the message delivered
      for it; the task is closed by a message that nobody receives any more, and fails at a frame that carries
      none, or at the end of what the stream holds. */
  lemma {:induction false} RunEnds<M>(
      open: Open, decode: Bytes -> Option<M>, counter: nat, room: nat, all: Frames<Response>)
    ensures var run := Receive(open, decode, counter, room, all);
            var n := |run.delivered|;
            && n <= |all.frames| && n <= room
            && (forall i: nat :: i < n ==> DeliveredAt(open, decode, counter, all.frames, run.delivered, i))
            && match run.end
               case Closed =>
                 n == room && n < |all.frames| && CarriesSome(open, decode, counter + n, all.frames[n])
               case Failed(e) =>
                 if n == |all.frames| then e == all.stop else EndsReading(open, decode, counter + n, all.frames[n], e)
    decreases |all.frames|
  {
    hide MessageOf, Receive, Carries, CarriesSome, EndsReading, DeliveredAt;
    ReceiveStep(open, decode, counter, room, all);
    if all.frames != [] {
      MessageIff(open, decode, counter, all.frames[0]);
      if MessageOf(open, decode, counter, all.frames[0]).Ok? && room > 0 {
        var later := Frames(all.frames[1..], all.stop);
        RunEnds(open, decode, counter + 1, room - 1, later);
        var delivered := Receive(open, decode, counter, room, all).delivered;
        var rest := Receive(open, decode, counter + 1, room - 1, later).delivered;
        assert Carries(open, decode, counter, all.frames[0], delivered[0]);
        assert delivered[1..] == rest && counter + 1 + |rest| == counter + |delivered|;
        forall i: nat | i < |delivered| ensures DeliveredAt(open, decode, counter, all.frames, delivered, i) {
          DeliveredCons(open, decode, counter, all.frames, delivered, i);
        }
      }
    }
  }

  /** The run on what is left of the stream. */
  function Remaining<M>(
      open: Open, decode: Bytes -> Option<M>, counter: nat, room: nat, s: Bytes): TaskRun<M>
  {
    Receive(open, decode, counter, room, ReadAll(DecodeResponse, s))
  }

  lemma RemainingStep<M>(
      open: Open, decode: Bytes -> Option<M>, counter: nat, room: nat, s: Bytes, delivered: seq<M>)
    ensures var run, next := Remaining(open, decode, counter, room, s), NextFrame(DecodeResponse, s);
            if next.result.Err? then run == TaskRun([], Failed(next.result.error))
            else
              var message := MessageOf(open, decode, counter, next.result.value);
              if message.Err? then run == TaskRun([], Failed(message.error))
              else if room == 0 then run == TaskRun([], Closed)
              else
                var later := Remaining(open, decode, counter + 1, room - 1, next.rest);
                run.end == later.end && delivered + run.delivered == delivered + [message.value] + later.delivered
  {
    hide NextFrame, MessageOf, DecodeResponse;
    var all, next := ReadAll(DecodeResponse, s), NextFrame(DecodeResponse, s);
    if next.result.Ok? {
      var tail := ReadAll(DecodeResponse, next.rest);
      assert all.frames == [next.result.value] + tail.frames && all.frames[1..] == tail.frames && all.stop == tail.stop;
      assert Frames(all.frames[1..], all.stop) == tail;
      var message := MessageOf(open, decode, counter, next.result.value);
      if message.Ok? && room > 0 {
        var later := Remaining(open, decode, counter + 1, room - 1, next.rest);
        assert delivered + ([message.value] + later.delivered) == delivered + [message.value] + later.delivered;
      }
    }
  }

  /** Reads, opens and delivers one frame at a time; it never looks ahead, yet its run is the one that reading
      the whole stream first would give. */
  method ReadTask<M>(reader: ByteStream, open: Open, decode: Bytes -> Option<M>, room: nat)
      returns (delivered: seq<M>, end: TaskEnd)
    modifies reader
    ensures TaskRun(delivered, end) == Remaining(open, decode, 0, room, old(reader.pending))
  {
    hide Remaining, NextFrame, MessageOf, DecodeResponse;
    delivered := [];
    ghost var whole := Remaining(open, decode, 0, room, reader.pending);
    var counter := 0;
    assert delivered + whole.delivered == whole.delivered;
    while true
      invariant counter == |delivered| <= room
      invariant delivered + Remaining(open, decode, counter, room - |delivered|, reader.pending).delivered ==
                whole.delivered
      invariant Remaining(open, decode, counter, room - |delivered|, reader.pending).end == whole.end
      decreases |reader.pending|
    {
      RemainingStep(open, decode, counter, room - |delivered|, reader.pending, delivered);
      assert delivered + [] == delivered;
      var frame := ReadFrame(reader, DecodeResponse);
      if frame.Err? {
        end := Failed(frame.error);
        return;
      }
      var message := MessageOf(open, decode, counter, frame.value);
      counter := counter + 1;
      if message.Err? {
        end := Failed(message.error);
        return;
      }
      if |delivered| == room {
        end := Closed;
        return;
      }
      delivered := delivered + [message.value];
    }
  }

  /** The decrypt buffer is always large enough: whatever opens from a decoded response fits it. */
  lemma DecryptBufferSuffices(seal: Seal, open: Open, n: nat, s: Bytes)
    requires IsChannel(seal, open)
    ensures var r := DecodeResponse(s);
            r.Some? && r.value.Noise? && open(n, r.value.payload).Some? ==>
              |open(n, r.value.payload).value| <= WIFI_MESSAGE_MAX_LEN
  {
    ResponseReadings(s);
    var r := DecodeResponse(s);
    if r.Some? && r.value.Noise? && open(n, r.value.payload).Some? {
      var c := r.value.payload;
      assert |c| <= WIFI_FRAME_PAYLOAD_MAX_LEN && seal(n, open(n, c).value) == c;
    }
  }

  /** The ciphertext opens under no counter, or under one with what the device sealed under it. */
  ghost predicate IsGenuine(open: Open, sealed: seq<Bytes>, payload: Bytes) {
    forall n: nat :: open(n, payload) == None || (n < |sealed| && open(n, payload) == Some(sealed[n]))
  }

  /** Without forgery a frame opens under no counter or is one that the device sealed, and nothing more is asked. */
  lemma GenuineIff(seal: Seal, open: Open, sealed: seq<Bytes>, payload: Bytes)
    requires IsChannel(seal, open) && |sealed| <= COUNTER_LIMIT
    requires forall n: nat :: n >= COUNTER_LIMIT ==> open(n, payload) == None
    ensures IsGenuine(open, sealed, payload) <==>
            (forall n: nat :: open(n, payload) == None) ||
            exists n: nat :: n < |sealed| && payload == seal(n, sealed[n])
  {
    if n: nat :| IsGenuine(open, sealed, payload) && open(n, payload).Some? {
      assert payload == seal(n, sealed[n]);
    }
    forall n: nat, m: nat | n < |sealed| && payload == seal(n, sealed[n]) && open(m, payload).Some?
      ensures m < |sealed| && open(m, payload) == Some(sealed[m])
    {
      assert seal(m, open(m, payload).value) == payload;
      assert m == n && open(n, seal(n, sealed[n])) == Some(sealed[n]);
    }
  }

  /** `sealed` records what the device sealed, in order, and no frame of the stream opens to anything else. */
  ghost predicate Unforged(open: Open, sealed: seq<Bytes>, frames: seq<Response>) {
    forall r :: r in frames && r.Noise? ==> IsGenuine(open, sealed, r.payload)
  }

  /** The frame and the message are what the device sealed under the counter. */
  predicate Matches<M(==)>(
      seal: Seal, decode: Bytes -> Option<M>, sealed: seq<Bytes>, counter: nat, frame: Response, message: M)
  {
    && counter < |sealed| && frame == Response.Noise(seal(counter, sealed[counter]))
    && decode(sealed[counter]) == Some(message)
  }

  lemma FirstWasSealed<M>(
      seal: Seal, open: Open, decode: Bytes -> Option<M>,
      sealed: seq<Bytes>, counter: nat, frames: seq<Response>)
    requires IsChannel(seal, open) && Unforged(open, sealed, frames)
    requires frames != [] && MessageOf(open, decode, counter, frames[0]).Ok?
    ensures Matches(seal, decode, sealed, counter, frames[0], MessageOf(open, decode, counter, frames[0]).value)
  {
    assert frames[0] in frames && IsGenuine(open, sealed, frames[0].payload);
    assert open(counter, frames[0].payload) == Some(sealed[counter]);
  }

  /** For every stream on which the channel holds, the messages delivered are, from the counter on, the
      messages the device sealed: none is invented, repeated, left out or moved. */
  lemma {:induction false} OnlySealedIsDelivered<M>(
      seal: Seal, open: Open, decode: Bytes -> Option<M>,
      sealed: seq<Bytes>, counter: nat, room: nat, all: Frames<Response>)
    requires IsChannel(seal, open) && Unforged(open, sealed, all.frames)
    ensures var delivered := Receive(open, decode, counter, room, all).delivered;
            |delivered| <= |all.frames| && |delivered| <= room &&
            forall i :: 0 <= i < |delivered| ==> Matches(seal, decode, sealed, counter + i, all.frames[i], delivered[i])
    decreases |all.frames|
  {
    hide IsChannel, MessageOf, IsGenuine, Matches;
    if all.frames != [] && MessageOf(open, decode, counter, all.frames[0]).Ok? && room > 0 {
      var later := Frames(all.frames[1..], all.stop);
      OnlySealedIsDelivered(seal, open, decode, sealed, counter + 1, room - 1, later);
      FirstWasSealed(seal, open, decode, sealed, counter, all.frames);
      var delivered := Receive(open, decode, counter, room, all).delivered;
      var rest := Receive(open, decode, counter + 1, room - 1, later).delivered;
      assert counter + 0 == counter;
      forall i | 0 < i < |delivered| ensures Matches(seal, decode, sealed, counter + i, all.frames[i], delivered[i]) {
        assert delivered[i] == rest[i - 1] && all.frames[i] == later.frames[i - 1];
        assert Matches(seal, decode, sealed, counter + 1 + (i - 1), later.frames[i - 1], rest[i - 1]);
        assert counter + 1 + (i - 1) == counter + i;
      }
    }
  }

  /** The responses with which a device sends messages, sealed under consecutive counters. */
  function Answers<M>(seal: Seal, encode: M -> Bytes, counter: nat, messages: seq<M>): seq<Response>
    decreases messages
  {
    if messages == [] then []
    else [Response.Noise(seal(counter, encode(messages[0])))] + Answers(seal, encode, counter + 1, messages[1..])
  }

  lemma AnswerIsOpened<M>(
      seal: Seal, open: Open, encode: M -> Bytes, decode: Bytes -> Option<M>,
      counter: nat, message: M)
    requires IsChannel(seal, open)
    requires |encode(message)| <= WIFI_MESSAGE_MAX_LEN && decode(encode(message)) == Some(message)
    ensures ValidResponse(Response.Noise(seal(counter, encode(message))))
    ensures MessageOf(open, decode, counter, Response.Noise(seal(counter, encode(message)))) == Ok(message)
  {
  }

  lemma ReceiveFirst<M>(
      open: Open, decode: Bytes -> Option<M>, counter: nat, room: nat,
      frame: Response, frames: seq<Response>, stop: Failure)
    requires MessageOf(open, decode, counter, frame).Ok? && room > 0
    ensures var later := Receive(open, decode, counter + 1, room - 1, Frames(frames, stop));
            Receive(open, decode, counter, room, Frames([frame] + frames, stop)) ==
            TaskRun([MessageOf(open, decode, counter, frame).value] + later.delivered, later.end)
  {
    assert ([frame] + frames)[1..] == frames;
  }

  lemma {:induction false} AnswersDelivered<M>(
      seal: Seal, open: Open, encode: M -> Bytes, decode: Bytes -> Option<M>,
      counter: nat, room: nat, messages: seq<M>, tail: Frames<Response>)
    requires IsChannel(seal, open) && |messages| <= room
    requires forall m :: m in messages ==> |encode(m)| <= WIFI_MESSAGE_MAX_LEN && decode(encode(m)) == Some(m)
    ensures forall r :: r in Answers(seal, encode, counter, messages) ==> ValidResponse(r)
    ensures var later := Receive(open, decode, counter + |messages|, room - |messages|, tail);
            var frames := Answers(seal, encode, counter, messages) + tail.frames;
            Receive(open, decode, counter, room, Frames(frames, tail.stop)) ==
            TaskRun(messages + later.delivered, later.end)
    decreases messages
  {
    hide IsChannel, Receive, MessageOf, ValidResponse;
    var later := Receive(open, decode, counter + |messages|, room - |messages|, tail);
    if messages == [] {
      assert [] + tail.frames == tail.frames && [] + later.delivered == later.delivered;
    } else {
      assert messages[0] in messages;
      AnswerIsOpened(seal, open, encode, decode, counter, messages[0]);
      AnswersDelivered(seal, open, encode, decode, counter + 1, room - 1, messages[1..], tail);
      var first := Response.Noise(seal(counter, encode(messages[0])));
      var rest := Answers(seal, encode, counter + 1, messages[1..]);
      ReceiveFirst(open, decode, counter, room, first, rest + tail.frames, tail.stop);
      assert [first] + rest + tail.frames == [first] + (rest + tail.frames);
      assert [messages[0]] + (messages[1..] + later.delivered) == messages + later.delivered;
    }
  }

  /** Everything a device sends is delivered in order, and the read loop then continues with what follows. */
  lemma SentByDeviceIsDelivered<M>(
      seal: Seal, open: Open, encode: M -> Bytes, decode: Bytes -> Option<M>,
      room: nat, messages: seq<M>, tail: Bytes)
    requires IsChannel(seal, open) && |messages| <= room
    requires forall m :: m in messages ==> |encode(m)| <= WIFI_MESSAGE_MAX_LEN && decode(encode(m)) == Some(m)
    ensures IsCodec(EncodeResponse, DecodeResponse, ValidResponse)
    ensures forall r :: r in Answers(seal, encode, 0, messages) ==> ValidResponse(r)
    ensures var wire := Wire(EncodeResponse, DecodeResponse, ValidResponse, Answers(seal, encode, 0, messages));
            var later := Receive(open, decode, |messages|, room - |messages|, ReadAll(DecodeResponse, tail));
            Receive(open, decode, 0, room, ReadAll(DecodeResponse, wire + tail)) ==
            TaskRun(messages + later.delivered, later.end)
  {
    hide EncodeResponse, DecodeResponse, ValidResponse, IsChannel, Receive, ReadAll;
    ResponsesAreCodec();
    var rest := ReadAll(DecodeResponse, tail);
    AnswersDelivered(seal, open, encode, decode, 0, room, messages, rest);
    WireRoundTrip(EncodeResponse, DecodeResponse, ValidResponse, Answers(seal, encode, 0, messages), tail);
  }
}
