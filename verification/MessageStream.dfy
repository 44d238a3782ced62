// The codec and the receiver in the form the program has them: loops that push into a buffer,
// and an object whose two fields each received byte updates.
module MessageStreams {
  import opened Wrappers
  import opened Framing
  import opened StreamParser

  /** `buffer_push!`: appending beyond a fixed capacity panics, which `None` stands for. */
  function Pushed(cap: Capacity, buffer: Option<Bytes>, b: UInt8): Option<Bytes> {
    match buffer
    case None => None
    case Some(bytes) => if HasRoom(cap, |bytes|) then Some(bytes + [b]) else None
  }

  function WithinCapacity(cap: Capacity, bytes: Bytes): Option<Bytes> {
    if Fits(cap, |bytes|) then Some(bytes) else None
  }

  method EscapedBytes(cap: Capacity, payload: Bytes) returns (escaped: Option<Bytes>)
    ensures escaped == WithinCapacity(cap, Escape(payload))
  {
    escaped := Some([]);
    for i := 0 to |payload|
      invariant escaped == WithinCapacity(cap, Escape(payload[..i]))
    {
      var b := payload[i];
      EscapeSnoc(payload[..i], b);
      assert payload[..i + 1] == payload[..i] + [b];
      assert IsSpecial(b) ==> Escape(payload[..i]) + Unit(b) == Escape(payload[..i]) + [CONTROL_CHAR_DLE] + [b];
      if b == CONTROL_CHAR_STX || b == CONTROL_CHAR_ETX || b == CONTROL_CHAR_DLE {
        escaped := Pushed(cap, escaped, CONTROL_CHAR_DLE);
      }
      escaped := Pushed(cap, escaped, b);
    }
    assert payload[..|payload|] == payload;
  }

  method UnescapeBytes(cap: Capacity, escaped: Bytes) returns (unescaped: Option<Bytes>)
    ensures unescaped == WithinCapacity(cap, Unescape(escaped))
  {
    unescaped := Some([]);
    var isEscaped := false;
    for i := 0 to |escaped|
      invariant unescaped == WithinCapacity(cap, Unescape(escaped[..i]))
      invariant isEscaped == Dangling(escaped[..i])
    {
      var b := escaped[i];
      TokeniseSnoc(escaped[..i], b);
      assert escaped[..i + 1] == escaped[..i] + [b];
      ghost var before, after := Tokenise(escaped[..i]), Tokenise(escaped[..i + 1]);
      assert after == before || Literals(after) == Literals(before) + [b];
      if isEscaped {
        unescaped := Pushed(cap, unescaped, b);
        isEscaped := false;
      } else if b == CONTROL_CHAR_DLE {
        isEscaped := true;
      } else {
        unescaped := Pushed(cap, unescaped, b);
      }
    }
    assert escaped[..|escaped|] == escaped;
  }

  /** Encoding succeeds exactly when the whole frame fits, and then writes that frame. */
  method FrameBytes(cap: Capacity, payload: Bytes) returns (frame: Option<Bytes>)
    ensures frame == WithinCapacity(cap, Frame(payload))
    ensures var count := multiset(payload);
            frame.Some? <==> cap.None? || 2 + |payload| + count[0x02] + count[0x03] + count[0x10] <= cap.value
  {
    EscapeLength(payload);
    assert [] + [CONTROL_CHAR_STX] == [CONTROL_CHAR_STX];
    frame := Pushed(cap, Some([]), CONTROL_CHAR_STX);
    var escaped := EscapedBytes(cap, payload);
    if escaped.None? || frame.None? { return None; }
    frame := WithinCapacity(cap, frame.value + escaped.value);
    frame := Pushed(cap, frame, CONTROL_CHAR_ETX);
  }

  method UnframeBytes(cap: Capacity, frame: Bytes) returns (payload: Result<Bytes, FrameError>)
    requires Fits(cap, |frame|)
    ensures payload == Unframe(frame)
  {
    if |frame| < FRAME_SIZE_MIN {
      return Err(InsufficientData);
    }
    if frame[0] != CONTROL_CHAR_STX || frame[|frame| - 1] != CONTROL_CHAR_ETX {
      return Err(InsufficientData);
    }
    var unescaped := UnescapeBytes(cap, frame[1..|frame| - 1]);
    TokenCount(frame[1..|frame| - 1]);
    payload := Ok(unescaped.value);
  }

  class MessageStream {
    const capacity: Capacity
    var buffer: Bytes
    var isEscaped: bool

    ghost function State(): Parser
      reads this
    {
      Parser(buffer, isEscaped)
    }

    ghost predicate Reachable()
      reads this
    {
      Valid(capacity, State())
    }

    constructor (capacity: Capacity)
      requires capacity.Some? ==> capacity.value >= 1
      ensures Reachable() && State() == Initial && this.capacity == capacity
    {
      this.capacity := capacity;
      buffer := [];
      isEscaped := false;
    }

    method PushByte(b: UInt8) returns (payload: Option<Bytes>)
      requires Reachable()
      modifies this
      ensures Reachable()
      ensures (State(), payload) == Step(capacity, old(State()), b)
    {
      StepKeepsValid(capacity, State(), b);
      if buffer == [] {
        if b == CONTROL_CHAR_STX && !isEscaped {
          buffer := buffer + [b];
          assert buffer == [b];
        }
        isEscaped := b == CONTROL_CHAR_DLE && !isEscaped;
        return None;
      }
      if !HasRoom(capacity, |buffer|) {
        buffer := [];
        isEscaped := false;
        return None;
      }
      buffer := buffer + [b];
      if b == CONTROL_CHAR_ETX && !isEscaped {
        var result := UnframeBytes(capacity, buffer);
        payload := match result case Ok(p) => Some(p) case Err(_) => None;
        buffer := [];
        isEscaped := false;
        return;
      }
      isEscaped := b == CONTROL_CHAR_DLE && !isEscaped;
      payload := None;
    }

    method PushBytes(bytes: Bytes) returns (payloads: seq<Bytes>)
      requires Reachable()
      modifies this
      ensures Reachable()
      ensures State() == After(capacity, old(State()), bytes)
      ensures payloads == Outputs(capacity, old(State()), bytes)
    {
      payloads := [];
      for i := 0 to |bytes|
        invariant Reachable()
        invariant State() == After(capacity, old(State()), bytes[..i])
        invariant payloads == Outputs(capacity, old(State()), bytes[..i])
      {
        RunConcat(capacity, old(State()), bytes[..i], [bytes[i]]);
        RunByte(capacity, State(), bytes[i]);
        assert bytes[..i + 1] == bytes[..i] + [bytes[i]];
        var payload := PushByte(bytes[i]);
        payloads := payloads + Emitted(payload);
      }
      assert bytes[..|bytes|] == bytes;
    }
  }

  /** What the frame-loss sweep checks, for every receiver capacity, payload list and cutting into reads. */
  method ReceiveAll(cap: Capacity, chunks: seq<Bytes>, ghost ps: seq<Bytes>) returns (received: seq<Bytes>)
    requires cap.Some? ==> cap.value >= 1
    requires Flatten(chunks) == Frames(ps)
    requires forall p :: p in ps ==> FrameFits(cap, p)
    ensures received == ps
  {
    hide Outputs, After, ChunkOutputs;
    var stream := new MessageStream(cap);
    received := [];
    for i := 0 to |chunks|
      invariant stream.Reachable() && stream.capacity == cap
      invariant received + ChunkOutputs(cap, stream.State(), chunks[i..]) == ChunkOutputs(cap, Initial, chunks)
    {
      ChunkCons(cap, stream.State(), chunks[i], chunks[i + 1..]);
      assert chunks[i..] == [chunks[i]] + chunks[i + 1..];
      var payloads := stream.PushBytes(chunks[i]);
      received := received + payloads;
    }
    ChunkNone(cap, stream.State());
    RoundTrip(cap, ps, chunks);
  }
}
