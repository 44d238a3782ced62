// The sending end of the authenticated connection with any number of concurrent senders. Each seals its
// message under the cipher's lock and writes the frame under the writer's lock, and nothing keeps the two
// together: another sender may overtake, a sender may be cancelled in between, and a write may fail.
module WifiSenders {
  import opened Wrappers
  import opened WifiFrames
  import opened WifiWire
  import opened WifiChannel

  /** A message with the counter it was sealed under. */
  datatype Sealed = Sealed(counter: nat, payload: Bytes)

  /** `held` are sealed and not yet written, `written` are complete frames on the wire in writing order, and
      `rest` is what is on the wire from the first frame that was torn. */
  datatype State = State(counter: nat, held: set<Sealed>, written: seq<Sealed>, rest: Bytes)

  const Initial: State := State(0, {}, [], [])

  datatype Step =
    | SealMessage(payload: Bytes)
    | Write(frame: Sealed)
    | Abandon(frame: Sealed)
    | Tear(frame: Sealed, accepted: nat)

  function ClientNoiseFrame(payload: Bytes): Result<Request, Failure> {
    if |payload| > WIFI_FRAME_PAYLOAD_MAX_LEN then Err(Serialization) else Ok(Request.Noise(payload))
  }

  function RequestOf(seal: Seal, f: Sealed): Request {
    Request.Noise(seal(f.counter, f.payload))
  }

  function FrameOf(seal: Seal, f: Sealed): Bytes {
    var payload := EncodeRequest(RequestOf(seal, f));
    if |payload| < 0x10000 then Framed(payload) else []
  }

  function WireOf(seal: Seal, fs: seq<Sealed>): Bytes {
    if fs == [] then [] else FrameOf(seal, fs[0]) + WireOf(seal, fs[1..])
  }

  function OnWire(seal: Seal, s: State): Bytes {
    WireOf(seal, s.written) + s.rest
  }

  // ---------- Steps ----------

  predicate Enabled(seal: Seal, s: State, t: Step) {
    match t
    case SealMessage(payload) => |payload| <= WIFI_MESSAGE_MAX_LEN && s.counter < COUNTER_LIMIT
    case Write(f) => f in s.held
    // Cancelled between the two locks, or the write failed before the first byte.
    case Abandon(f) => f in s.held
    case Tear(f, accepted) => f in s.held && 0 < accepted < |FrameOf(seal, f)|
  }

  function Apply(seal: Seal, s: State, t: Step): State
    requires Enabled(seal, s, t)
  {
    match t
    case SealMessage(payload) => s.(counter := s.counter + 1, held := s.held + {Sealed(s.counter, payload)})
    case Write(f) =>
      if s.rest == [] then s.(held := s.held - {f}, written := s.written + [f])
      else s.(held := s.held - {f}, rest := s.rest + FrameOf(seal, f))
    case Abandon(f) => s.(held := s.held - {f})
    case Tear(f, accepted) => s.(held := s.held - {f}, rest := s.rest + FrameOf(seal, f)[..accepted])
  }

  predicate CanRun(seal: Seal, s: State, steps: seq<Step>)
    decreases |steps|
  {
    steps != [] ==> Enabled(seal, s, steps[0]) && CanRun(seal, Apply(seal, s, steps[0]), steps[1..])
  }

  function Run(seal: Seal, s: State, steps: seq<Step>): State
    requires CanRun(seal, s, steps)
    decreases |steps|
  {
    if steps == [] then s else Run(seal, Apply(seal, s, steps[0]), steps[1..])
  }

  lemma RunNone(seal: Seal, s: State)
    ensures CanRun(seal, s, []) && Run(seal, s, []) == s
  {
  }

  lemma RunCons(seal: Seal, s: State, t: Step, rest: seq<Step>)
    requires Enabled(seal, s, t) && CanRun(seal, Apply(seal, s, t), rest)
    ensures CanRun(seal, s, [t] + rest) && Run(seal, s, [t] + rest) == Run(seal, Apply(seal, s, t), rest)
  {
    assert ([t] + rest)[1..] == rest;
  }

  lemma {:induction false} WireSnoc(seal: Seal, fs: seq<Sealed>, f: Sealed)
    ensures WireOf(seal, fs + [f]) == WireOf(seal, fs) + FrameOf(seal, f)
  {
    hide FrameOf;
    if fs == [] {
      assert [f][1..] == [] && fs + [f] == [f];
    } else {
      assert (fs + [f])[1..] == fs[1..] + [f];
      WireSnoc(seal, fs[1..], f);
    }
  }

  /** What a step does, seen from outside: a message sealed is held under the next counter; a frame that is written,
      abandoned or torn is not held any more; and the wire gets the frame, nothing or its beginning. */
  lemma StepShows(seal: Seal, s: State, t: Step)
    requires Enabled(seal, s, t)
    ensures var s' := Apply(seal, s, t);
            && s'.counter == s.counter + (if t.SealMessage? then 1 else 0)
            && (forall f :: f in s'.held <==>
                  if t.SealMessage? then f in s.held || f == Sealed(s.counter, t.payload)
                  else f in s.held && f != t.frame)
            && OnWire(seal, s') ==
               OnWire(seal, s) +
               (if t.Write? then FrameOf(seal, t.frame)
                else if t.Tear? then FrameOf(seal, t.frame)[..t.accepted] else [])
  {
    hide FrameOf, WireOf;
    var wire := WireOf(seal, s.written);
    match t
    case Write(f) =>
      WireSnoc(seal, s.written, f);
      assert s.rest == [] ==> (wire + FrameOf(seal, f)) + s.rest == (wire + s.rest) + FrameOf(seal, f);
      assert wire + (s.rest + FrameOf(seal, f)) == (wire + s.rest) + FrameOf(seal, f);
    case Tear(f, n) => assert wire + (s.rest + FrameOf(seal, f)[..n]) == (wire + s.rest) + FrameOf(seal, f)[..n];
    case SealMessage(_) => assert OnWire(seal, s) + [] == OnWire(seal, s);
    case Abandon(_) => assert OnWire(seal, s) + [] == OnWire(seal, s);
  }

  // ---------- What every run keeps ----------

  predicate Counted(s: State, f: Sealed) {
    f.counter < s.counter && |f.payload| <= WIFI_MESSAGE_MAX_LEN
  }

  /** Every frame has a counter of its own, below the next one. */
  ghost predicate Inv(s: State) {
    && s.counter <= COUNTER_LIMIT
    && (forall f :: f in s.held || f in s.written ==> Counted(s, f))
    && (forall i, j :: 0 <= i < j < |s.written| ==> s.written[i].counter != s.written[j].counter)
    && (forall f, g :: f in s.held && g in s.written ==> f.counter != g.counter)
    && (forall f, g :: f in s.held && g in s.held && f.counter == g.counter ==> f == g)
  }

  lemma StepKeeps(seal: Seal, s: State, t: Step)
    requires Inv(s) && Enabled(seal, s, t)
    ensures Inv(Apply(seal, s, t))
  {
    hide FrameOf;
    var s' := Apply(seal, s, t);
    if t.Write? && s.rest == [] {
      forall i, j | 0 <= i < j < |s'.written| ensures s'.written[i].counter != s'.written[j].counter {
        assert s'.written[i] in s.written;
      }
    }
  }

  lemma {:induction false} RunKeeps(seal: Seal, s: State, steps: seq<Step>)
    requires Inv(s) && CanRun(seal, s, steps)
    ensures Inv(Run(seal, s, steps))
    decreases |steps|
  {
    hide Inv, Apply, Enabled;
    if steps != [] {
      StepKeeps(seal, s, steps[0]);
      RunKeeps(seal, Apply(seal, s, steps[0]), steps[1..]);
    }
  }

  // ---------- What the device opens ----------

  /** The device opens frames with consecutive counters until one does not open. */
  function OpenFrom(open: Open, counter: nat, frames: seq<Request>): seq<Bytes>
    decreases frames
  {
    if frames == [] || !frames[0].Noise? || open(counter, frames[0].payload).None? then []
    else [open(counter, frames[0].payload).value] + OpenFrom(open, counter + 1, frames[1..])
  }

  function Opened(seal: Seal, open: Open, s: State): seq<Bytes> {
    OpenFrom(open, 0, ReadAll(DecodeRequest, OnWire(seal, s)).frames)
  }

  /** The length of the longest prefix that was written in sealing order without a gap. */
  function InOrder(fs: seq<Sealed>, counter: nat): (k: nat)
    ensures k <= |fs|
    ensures forall i :: 0 <= i < k ==> fs[i].counter == counter + i
    ensures k < |fs| ==> fs[k].counter != counter + k
    decreases fs
  {
    if fs == [] || fs[0].counter != counter then 0 else 1 + InOrder(fs[1..], counter + 1)
  }

  function Payloads(fs: seq<Sealed>): (r: seq<Bytes>)
    ensures |r| == |fs| && forall i :: 0 <= i < |fs| ==> r[i] == fs[i].payload
  {
    if fs == [] then [] else [fs[0].payload] + Payloads(fs[1..])
  }

  function Requests(seal: Seal, fs: seq<Sealed>): seq<Request> {
    if fs == [] then [] else [RequestOf(seal, fs[0])] + Requests(seal, fs[1..])
  }

  predicate Sendable(fs: seq<Sealed>) {
    forall f :: f in fs ==> |f.payload| <= WIFI_MESSAGE_MAX_LEN && f.counter < COUNTER_LIMIT
  }

  /** Sending never meets a size limit: a message the sender accepts fits the payload vector, the 16-bit
      length and the reader's limit, and one it refuses would not have fitted the vector. */
  lemma AcceptedExactlyWhenItFits(seal: Seal, counter: nat, payload: Bytes)
    requires |seal(counter, payload)| == |payload| + NOISE_TAG_LEN
    ensures |payload| <= 2048 <==> ClientNoiseFrame(seal(counter, payload)) == Ok(Request.Noise(seal(counter, payload)))
    ensures |payload| > 2048 <==> ClientNoiseFrame(seal(counter, payload)) == Err(Serialization)
    ensures |payload| <= 2048 ==>
              var r := Request.Noise(seal(counter, payload));
              ValidRequest(r) && 0 < |EncodeRequest(r)| <= FRAME_MAX_LEN < 0x10000
  {
    if |payload| <= WIFI_MESSAGE_MAX_LEN {
      RequestFits(Request.Noise(seal(counter, payload)));
    }
  }

  lemma FrameRead(seal: Seal, f: Sealed, tail: Bytes)
    requires |seal(f.counter, f.payload)| == |f.payload| + NOISE_TAG_LEN && |f.payload| <= WIFI_MESSAGE_MAX_LEN
    ensures NextFrame(DecodeRequest, FrameOf(seal, f) + tail) == Next(Ok(RequestOf(seal, f)), tail)
  {
    hide EncodeRequest, DecodeRequest, NextFrame, Framed, ValidRequest;
    AcceptedExactlyWhenItFits(seal, f.counter, f.payload);
    RequestsAreCodec();
    FramedRead(DecodeRequest, EncodeRequest(RequestOf(seal, f)), tail);
  }

  /** The frames written are read back in order, whatever follows. */
  lemma {:induction false} WireRead(seal: Seal, fs: seq<Sealed>, tail: Bytes)
    requires forall n, p :: |seal(n, p)| == |p| + NOISE_TAG_LEN
    requires Sendable(fs)
    ensures ReadAll(DecodeRequest, WireOf(seal, fs) + tail).frames ==
            Requests(seal, fs) + ReadAll(DecodeRequest, tail).frames
    decreases fs
  {
    hide NextFrame, DecodeRequest, FrameOf, RequestOf;
    var later := ReadAll(DecodeRequest, tail).frames;
    if fs == [] {
      assert WireOf(seal, fs) + tail == tail && Requests(seal, fs) + later == later;
    } else {
      var first, wire := FrameOf(seal, fs[0]), WireOf(seal, fs[1..]);
      assert fs[0] in fs && WireOf(seal, fs) + tail == first + (wire + tail);
      FrameRead(seal, fs[0], wire + tail);
      WireRead(seal, fs[1..], tail);
      assert [RequestOf(seal, fs[0])] + (Requests(seal, fs[1..]) + later) == Requests(seal, fs) + later;
    }
  }

  lemma OpensIff(seal: Seal, open: Open, f: Sealed, counter: nat)
    requires IsChannel(seal, open) && f.counter < COUNTER_LIMIT && counter < COUNTER_LIMIT
    ensures open(counter, RequestOf(seal, f).payload) == if f.counter == counter then Some(f.payload) else None
  {
    var c := seal(f.counter, f.payload);
    assert open(f.counter, c) == Some(f.payload);
    if open(counter, c).Some? {
      assert seal(counter, open(counter, c).value) == c;
    }
  }

  lemma OpenCons(open: Open, counter: nat, payload: Bytes, rest: seq<Request>)
    ensures OpenFrom(open, counter, [Request.Noise(payload)] + rest) ==
            match open(counter, payload)
            case None => []
            case Some(p) => [p] + OpenFrom(open, counter + 1, rest)
  {
    assert ([Request.Noise(payload)] + rest)[1..] == rest;
  }

  /** The payloads of the frames written in sealing order without a gap. */
  function Consecutive(fs: seq<Sealed>, counter: nat): seq<Bytes>
    decreases fs
  {
    if fs == [] || fs[0].counter != counter then []
    else [fs[0].payload] + Consecutive(fs[1..], counter + 1)
  }

  lemma {:induction false} ConsecutiveIs(fs: seq<Sealed>, counter: nat)
    ensures Consecutive(fs, counter) == Payloads(fs[..InOrder(fs, counter)])
    decreases fs
  {
    if fs != [] && fs[0].counter == counter {
      ConsecutiveIs(fs[1..], counter + 1);
      var k := InOrder(fs[1..], counter + 1);
      assert fs[..1 + k][1..] == fs[1..][..k];
    }
  }

  lemma OpenNothingWritten(seal: Seal, open: Open, counter: nat, more: seq<Request>)
    ensures Requests(seal, []) + more == more && Consecutive([], counter) == [] && InOrder([], counter) == 0
  {
  }

  lemma OpenNext(seal: Seal, open: Open, counter: nat, fs: seq<Sealed>, more: seq<Request>)
    requires IsChannel(seal, open) && fs != []
    requires fs[0].counter < COUNTER_LIMIT && counter < COUNTER_LIMIT
    ensures fs[0].counter != counter ==>
              OpenFrom(open, counter, Requests(seal, fs) + more) == [] &&
              Consecutive(fs, counter) == [] && InOrder(fs, counter) == 0
    ensures fs[0].counter == counter ==>
              OpenFrom(open, counter, Requests(seal, fs) + more) ==
              [fs[0].payload] + OpenFrom(open, counter + 1, Requests(seal, fs[1..]) + more) &&
              Consecutive(fs, counter) == [fs[0].payload] + Consecutive(fs[1..], counter + 1) &&
              InOrder(fs, counter) == 1 + InOrder(fs[1..], counter + 1)
  {
    hide IsChannel, OpenFrom;
    var f := fs[0];
    var payload, later := seal(f.counter, f.payload), Requests(seal, fs[1..]) + more;
    assert Requests(seal, fs) + more == [Request.Noise(payload)] + later;
    OpenCons(open, counter, payload, later);
    OpensIff(seal, open, f, counter);
  }

  /** Opening goes as far as the counters are consecutive, and beyond the frames written only when all are. */
  lemma {:induction false} OpenWritten(seal: Seal, open: Open, counter: nat, fs: seq<Sealed>, more: seq<Request>)
    requires IsChannel(seal, open) && Sendable(fs) && counter + |fs| <= COUNTER_LIMIT
    ensures OpenFrom(open, counter, Requests(seal, fs) + more) ==
            Consecutive(fs, counter) +
            if InOrder(fs, counter) == |fs| then OpenFrom(open, counter + |fs|, more) else []
    decreases fs
  {
    hide IsChannel, OpenFrom, InOrder, Requests, Consecutive;
    if fs == [] {
      OpenNothingWritten(seal, open, counter, more);
    } else {
      assert fs[0] in fs;
      OpenNext(seal, open, counter, fs, more);
      if fs[0].counter == counter { OpenWritten(seal, open, counter + 1, fs[1..], more); }
    }
  }

  lemma {:induction false} CounterSet(fs: seq<Sealed>)
    requires forall i, j :: 0 <= i < j < |fs| ==> fs[i].counter != fs[j].counter
    ensures |set i | 0 <= i < |fs| :: fs[i].counter| == |fs|
    decreases |fs|
  {
    if fs != [] {
      var n := |fs| - 1;
      CounterSet(fs[..n]);
      assert (set i | 0 <= i < |fs| :: fs[i].counter) == (set i | 0 <= i < n :: fs[..n][i].counter) + {fs[n].counter};
    }
  }

  lemma {:induction false} SmallSet(ns: set<nat>, bound: nat)
    requires forall n :: n in ns ==> n < bound
    ensures |ns| <= bound
  {
    if bound == 0 {
      assert ns == {};
    } else {
      SmallSet(ns - {bound - 1}, bound - 1);
      assert ns <= (ns - {bound - 1}) + {bound - 1};
      if bound - 1 in ns { assert ns == (ns - {bound - 1}) + {bound - 1}; } else { assert ns - {bound - 1} == ns; }
    }
  }

  /** Distinct counters below a bound: there are no more frames than the bound. */
  lemma {:induction false} FewerThanCounters(fs: seq<Sealed>, bound: nat)
    requires forall i :: 0 <= i < |fs| ==> fs[i].counter < bound
    requires forall i, j :: 0 <= i < j < |fs| ==> fs[i].counter != fs[j].counter
    ensures |fs| <= bound
  {
    var counters := set i | 0 <= i < |fs| :: fs[i].counter;
    CounterSet(fs);
    SmallSet(counters, bound);
  }

  lemma WrittenIsSendable(s: State)
    requires Inv(s)
    ensures Sendable(s.written) && |s.written| <= s.counter <= COUNTER_LIMIT
  {
    forall i | 0 <= i < |s.written| ensures s.written[i].counter < s.counter { assert s.written[i] in s.written; }
    FewerThanCounters(s.written, s.counter);
  }

  /** The frames that are read from the bytes that follow a torn frame's beginning, misaligned or not. */
  function Misread(s: State): seq<Request> {
    ReadAll(DecodeRequest, s.rest).frames
  }

  lemma InitialInv()
    ensures Inv(Initial)
  {
  }

  lemma SealLength(seal: Seal, open: Open)
    requires IsChannel(seal, open)
    ensures forall n, p :: |seal(n, p)| == |p| + NOISE_TAG_LEN
  {
  }

  /** In every interleaving of senders the device opens, in order, the longest prefix of the complete frames
      written in sealing order without a gap. Only when that is all of them does it go on to what it reads from
      the bytes after a torn frame's beginning, if any. */
  lemma DeviceOpens(seal: Seal, open: Open, steps: seq<Step>)
    requires IsChannel(seal, open) && CanRun(seal, Initial, steps)
    ensures var s := Run(seal, Initial, steps);
            var k := InOrder(s.written, 0);
            Opened(seal, open, s) ==
            Payloads(s.written[..k]) + if k == |s.written| then OpenFrom(open, k, Misread(s)) else []
  {
    hide CanRun, Run, Inv, ReadAll, DecodeRequest, WireOf, Requests, OpenFrom, Payloads, InOrder, Sendable;
    InitialInv();
    RunKeeps(seal, Initial, steps);
    var s := Run(seal, Initial, steps);
    WrittenIsSendable(s);
    SealLength(seal, open);
    WireRead(seal, s.written, s.rest);
    OpenWritten(seal, open, 0, s.written, Misread(s));
    ConsecutiveIs(s.written, 0);
  }

  /** The ciphertext of this counter does not turn up in the misread bytes; when no frame was torn there are none. */
  ghost predicate NotMisread(open: Open, s: State, counter: nat) {
    forall r :: r in Misread(s) && r.Noise? ==> open(counter, r.payload) == None
  }

  lemma UntornIsNotMisread(open: Open, s: State, counter: nat)
    requires s.rest == []
    ensures NotMisread(open, s, counter)
  {
    hide DecodeRequest;
    EndOfStream(DecodeRequest);
  }

  /** Opening that starts at or below a counter never gets past it when nothing opens under it. */
  lemma {:induction false} OpenStopsAt(open: Open, counter: nat, frames: seq<Request>, c: nat)
    requires counter <= c && forall r :: r in frames && r.Noise? ==> open(c, r.payload) == None
    ensures counter + |OpenFrom(open, counter, frames)| <= c
    decreases frames
  {
    if frames != [] {
      assert frames[0] in frames;
      if counter < c { OpenStopsAt(open, counter + 1, frames[1..], c); }
    }
  }

  /** Nothing but complete frames is opened when the first counter missing among them is not misread. */
  lemma OnlyWrittenOpen(seal: Seal, open: Open, steps: seq<Step>)
    requires IsChannel(seal, open) && CanRun(seal, Initial, steps)
    requires var s := Run(seal, Initial, steps); NotMisread(open, s, |s.written|)
    ensures var s := Run(seal, Initial, steps); Opened(seal, open, s) == Payloads(s.written[..InOrder(s.written, 0)])
  {
    hide CanRun, Run, OpenFrom, Payloads, InOrder, Opened, Misread;
    DeviceOpens(seal, open, steps);
    var s := Run(seal, Initial, steps);
    OpenStopsAt(open, |s.written|, Misread(s), |s.written|);
    var prefix := Payloads(s.written[..InOrder(s.written, 0)]);
    assert prefix + [] == prefix;
  }

  // ---------- When everything written is opened ----------

  predicate OnWireAlready(s: State, c: nat) {
    exists f :: f in s.written && f.counter == c
  }

  /** A frame is written before one that was sealed earlier, or in place of one that never will be. */
  predicate Overtakes(s: State, t: Step) {
    t.Write? && s.rest == [] && exists c: nat :: c < t.frame.counter && !OnWireAlready(s, c)
  }

  predicate NoneOvertakes(seal: Seal, s: State, steps: seq<Step>)
    requires CanRun(seal, s, steps)
    decreases |steps|
  {
    steps != [] ==> !Overtakes(s, steps[0]) && NoneOvertakes(seal, Apply(seal, s, steps[0]), steps[1..])
  }

  predicate AllInOrder(s: State) {
    forall i :: 0 <= i < |s.written| ==> s.written[i].counter == i
  }

  lemma StepOrder(seal: Seal, s: State, t: Step)
    requires Inv(s) && AllInOrder(s) && Enabled(seal, s, t)
    ensures AllInOrder(Apply(seal, s, t)) <==> !Overtakes(s, t)
  {
    hide FrameOf;
    var n := |s.written|;
    if t.Write? && s.rest == [] {
      assert forall c: nat :: OnWireAlready(s, c) <==> c < n by {
        forall c: nat | c < n ensures OnWireAlready(s, c) { assert s.written[c] in s.written; }
      }
      var next := Apply(seal, s, t);
      assert next.written[n] == t.frame;
      assert !OnWireAlready(s, t.frame.counter);
      assert AllInOrder(next) <==> t.frame.counter == n;
      assert t.frame.counter > n ==> !OnWireAlready(s, n);
    }
  }

  lemma {:induction false} OutOfOrderStays(seal: Seal, s: State, steps: seq<Step>)
    requires CanRun(seal, s, steps) && !AllInOrder(s)
    ensures !AllInOrder(Run(seal, s, steps))
    decreases |steps|
  {
    if steps != [] {
      var i :| 0 <= i < |s.written| && s.written[i].counter != i;
      assert Apply(seal, s, steps[0]).written[i] == s.written[i];
      OutOfOrderStays(seal, Apply(seal, s, steps[0]), steps[1..]);
    }
  }

  lemma {:induction false} RunOrder(seal: Seal, s: State, steps: seq<Step>)
    requires Inv(s) && AllInOrder(s) && CanRun(seal, s, steps)
    ensures AllInOrder(Run(seal, s, steps)) <==> NoneOvertakes(seal, s, steps)
    decreases |steps|
  {
    hide Inv, AllInOrder, Overtakes, Apply, Enabled;
    if steps != [] {
      var next := Apply(seal, s, steps[0]);
      StepKeeps(seal, s, steps[0]);
      StepOrder(seal, s, steps[0]);
      if AllInOrder(next) { RunOrder(seal, next, steps[1..]); } else { OutOfOrderStays(seal, next, steps[1..]); }
    }
  }

  /** Exactly the complete frames are opened, all of them, if and only if no write overtakes an earlier seal;
      after a torn frame, as long as the next counter is not misread. */
  lemma AllOpenIff(seal: Seal, open: Open, steps: seq<Step>)
    requires IsChannel(seal, open) && CanRun(seal, Initial, steps)
    requires var s := Run(seal, Initial, steps); NotMisread(open, s, |s.written|)
    ensures var s := Run(seal, Initial, steps);
            && (Opened(seal, open, s) == Payloads(s.written) <==> NoneOvertakes(seal, Initial, steps))
            && (|Opened(seal, open, s)| == |s.written| <==> NoneOvertakes(seal, Initial, steps))
  {
    hide CanRun, Run, NoneOvertakes, Opened, Inv, Misread, NotMisread;
    InitialInv();
    OnlyWrittenOpen(seal, open, steps);
    RunOrder(seal, Initial, steps);
    var s := Run(seal, Initial, steps);
    assert s.written[..|s.written|] == s.written;
  }

  // ---------- How it goes wrong ----------

  /** Two senders, the second overtaking the first: both frames are written and neither is opened. */
  function Overtaking(p: Bytes, q: Bytes): seq<Step> {
    [SealMessage(p)] + ([SealMessage(q)] + ([Write(Sealed(1, q))] + ([Write(Sealed(0, p))] + [])))
  }

  lemma OvertakingRun(seal: Seal, open: Open, p: Bytes, q: Bytes)
    requires IsChannel(seal, open) && |p| <= WIFI_MESSAGE_MAX_LEN && |q| <= WIFI_MESSAGE_MAX_LEN
    ensures CanRun(seal, Initial, Overtaking(p, q))
    ensures var s := Run(seal, Initial, Overtaking(p, q));
            s.written == [Sealed(1, q), Sealed(0, p)] && Opened(seal, open, s) == []
  {
    hide CanRun, Run, Opened;
    var a, b := Sealed(0, p), Sealed(1, q);
    var s1, s2 := State(1, {a}, [], []), State(2, {a, b}, [], []);
    var s3, s4 := State(2, {a}, [b], []), State(2, {}, [b, a], []);
    assert Apply(seal, Initial, SealMessage(p)) == s1 && Apply(seal, s1, SealMessage(q)) == s2;
    assert Apply(seal, s2, Write(b)) == s3 && Apply(seal, s3, Write(a)) == s4;
    RunNone(seal, s4);
    RunCons(seal, s3, Write(a), []);
    RunCons(seal, s2, Write(b), [Write(a)] + []);
    RunCons(seal, s1, SealMessage(q), [Write(b)] + ([Write(a)] + []));
    RunCons(seal, Initial, SealMessage(p), [SealMessage(q)] + ([Write(b)] + ([Write(a)] + [])));
    UntornIsNotMisread(open, s4, 2);
    OnlyWrittenOpen(seal, open, Overtaking(p, q));
  }

  /** The counter has been used and its frame will never be written. */
  ghost predicate IsLost(s: State, c: nat) {
    c < s.counter && forall f :: f in s.held || f in s.written ==> f.counter != c
  }

  /** Cancelling between the locks, and a write that fails anywhere, lose the counter. */
  lemma FailureLoses(seal: Seal, s: State, t: Step)
    requires Inv(s) && Enabled(seal, s, t) && (t.Abandon? || t.Tear?)
    ensures IsLost(Apply(seal, s, t), t.frame.counter)
  {
    hide FrameOf;
  }

  lemma {:induction false} LostStaysLost(seal: Seal, s: State, steps: seq<Step>, c: nat)
    requires CanRun(seal, s, steps) && IsLost(s, c)
    ensures IsLost(Run(seal, s, steps), c)
    decreases |steps|
  {
    hide FrameOf;
    if steps != [] {
      LostStaysLost(seal, Apply(seal, s, steps[0]), steps[1..], c);
    }
  }

  lemma {:induction false} RunConcat(seal: Seal, s: State, first: seq<Step>, second: seq<Step>)
    requires CanRun(seal, s, first) && CanRun(seal, Run(seal, s, first), second)
    ensures CanRun(seal, s, first + second) && Run(seal, s, first + second) == Run(seal, Run(seal, s, first), second)
    decreases |first|
  {
    hide Apply, Enabled;
    if first == [] {
      assert first + second == second;
    } else {
      var rest := first[1..];
      RunConcat(seal, Apply(seal, s, first[0]), rest, second);
      assert first + second == [first[0]] + (rest + second);
      RunCons(seal, s, first[0], rest + second);
    }
  }

  /** After a send that was cancelled, or whose write failed, at any point, nothing from its counter on is ever
      opened, whatever the senders do, as long as the lost counter is not misread: no more messages are opened
      than were sealed before it, and those opened from complete frames are the ones sealed first. */
  lemma LostCounterEndsDelivery(seal: Seal, open: Open, before: seq<Step>, after: seq<Step>, c: nat)
    requires IsChannel(seal, open) && CanRun(seal, Initial, before)
    requires IsLost(Run(seal, Initial, before), c) && CanRun(seal, Run(seal, Initial, before), after)
    requires NotMisread(open, Run(seal, Run(seal, Initial, before), after), c)
    ensures var s := Run(seal, Run(seal, Initial, before), after);
            var opens := Opened(seal, open, s);
            && |opens| <= c
            && forall i :: 0 <= i < |opens| && i < |s.written| ==>
                             s.written[i].counter == i && opens[i] == s.written[i].payload
    ensures var s := Run(seal, Run(seal, Initial, before), after);
            s.rest == [] ==> Opened(seal, open, s) <= Payloads(s.written)
  {
    hide CanRun, Run, Opened, Inv, Misread, OpenFrom;
    var mid := Run(seal, Initial, before);
    LostStaysLost(seal, mid, after, c);
    RunConcat(seal, Initial, before, after);
    DeviceOpens(seal, open, before + after);
    var s := Run(seal, mid, after);
    var k := InOrder(s.written, 0);
    assert c < |s.written| ==> s.written[c] in s.written;
    assert k <= c;
    OpenStopsAt(open, k, Misread(s), c);
    if s.rest == [] {
      UntornIsNotMisread(open, s, |s.written|);
      OnlyWrittenOpen(seal, open, before + after);
    }
  }

  // ---------- One sender at a time ----------

  /** Each message is sealed and written before the next is sealed. */
  function OneAtATime(counter: nat, payloads: seq<Bytes>): seq<Step>
    decreases payloads
  {
    if payloads == [] then []
    else
      [SealMessage(payloads[0])] +
      ([Write(Sealed(counter, payloads[0]))] + OneAtATime(counter + 1, payloads[1..]))
  }

  function Numbered(counter: nat, payloads: seq<Bytes>): (fs: seq<Sealed>)
    ensures |fs| == |payloads|
    ensures forall i :: 0 <= i < |fs| ==> fs[i] == Sealed(counter + i, payloads[i])
    decreases payloads
  {
    if payloads == [] then [] else [Sealed(counter, payloads[0])] + Numbered(counter + 1, payloads[1..])
  }

  lemma NumberedFirst(counter: nat, payloads: seq<Bytes>)
    ensures Numbered(counter, payloads) ==
            if payloads == [] then [] else [Sealed(counter, payloads[0])] + Numbered(counter + 1, payloads[1..])
  {
  }

  lemma OneSend(seal: Seal, s: State, p: Bytes, rest: seq<Step>)
    requires s.held == {} && s.rest == [] && s.counter < COUNTER_LIMIT && |p| <= WIFI_MESSAGE_MAX_LEN
    requires var next := State(s.counter + 1, {}, s.written + [Sealed(s.counter, p)], []); CanRun(seal, next, rest)
    ensures var next := State(s.counter + 1, {}, s.written + [Sealed(s.counter, p)], []);
            var steps := [SealMessage(p)] + ([Write(Sealed(s.counter, p))] + rest);
            CanRun(seal, s, steps) && Run(seal, s, steps) == Run(seal, next, rest)
  {
    hide CanRun, Run, FrameOf;
    var f := Sealed(s.counter, p);
    var mid := State(s.counter + 1, {f}, s.written, []);
    assert Apply(seal, s, SealMessage(p)) == mid;
    assert Apply(seal, mid, Write(f)) == State(s.counter + 1, {}, s.written + [f], []);
    RunCons(seal, mid, Write(f), rest);
    RunCons(seal, s, SealMessage(p), [Write(f)] + rest);
  }

  lemma {:induction false} OneAtATimeRuns(seal: Seal, s: State, payloads: seq<Bytes>)
    requires s.held == {} && s.rest == [] && s.counter + |payloads| <= COUNTER_LIMIT
    requires forall p :: p in payloads ==> |p| <= WIFI_MESSAGE_MAX_LEN
    ensures CanRun(seal, s, OneAtATime(s.counter, payloads))
    ensures Run(seal, s, OneAtATime(s.counter, payloads)) ==
            State(s.counter + |payloads|, {}, s.written + Numbered(s.counter, payloads), [])
    decreases payloads
  {
    hide CanRun, Run, Apply, Enabled, Numbered;
    NumberedFirst(s.counter, payloads);
    if payloads == [] {
      RunNone(seal, s);
      assert s.written + [] == s.written;
    } else {
      var p := payloads[0];
      assert p in payloads;
      var next := State(s.counter + 1, {}, s.written + [Sealed(s.counter, p)], []);
      OneAtATimeRuns(seal, next, payloads[1..]);
      OneSend(seal, s, p, OneAtATime(s.counter + 1, payloads[1..]));
      assert next.written + Numbered(s.counter + 1, payloads[1..]) == s.written + Numbered(s.counter, payloads);
    }
  }

  lemma NumberedInOrder(payloads: seq<Bytes>)
    ensures InOrder(Numbered(0, payloads), 0) == |payloads| && Payloads(Numbered(0, payloads)) == payloads
  {
    var k := InOrder(Numbered(0, payloads), 0);
    assert Sealed(0 + k, []).counter == k;
  }

  /** Messages sent one at a time are all opened, in order, and every byte on the wire belongs to one of them. */
  lemma SentMessagesArrive(seal: Seal, open: Open, payloads: seq<Bytes>)
    requires IsChannel(seal, open) && |payloads| <= 0x1_0000_0000_0000_0000
    requires forall p :: p in payloads ==> |p| <= 2048
    ensures CanRun(seal, Initial, OneAtATime(0, payloads))
    ensures var s := Run(seal, Initial, OneAtATime(0, payloads));
            Opened(seal, open, s) == payloads && |s.written| == |payloads| && s.rest == [] && s.held == {}
  {
    hide CanRun, Run, Opened, OneAtATime, Numbered, InOrder, Payloads, Misread, NotMisread;
    OneAtATimeRuns(seal, Initial, payloads);
    var s := Run(seal, Initial, OneAtATime(0, payloads));
    var fs := Numbered(0, payloads);
    assert s.written == [] + fs == fs;
    UntornIsNotMisread(open, s, |payloads|);
    OnlyWrittenOpen(seal, open, OneAtATime(0, payloads));
    NumberedInOrder(payloads);
    assert fs[..|payloads|] == fs;
  }

  // ---------- The connection object ----------

  /** What one uninterrupted call does: seal, then write all, nothing or part of the frame. */
  function SendSteps(seal: Seal, counter: nat, payload: Bytes, accepted: nat): seq<Step> {
    var f := Sealed(counter, payload);
    var ending :=
      if |FrameOf(seal, f)| <= accepted then Write(f) else if accepted == 0 then Abandon(f) else Tear(f, accepted);
    [SealMessage(payload)] + ([ending] + [])
  }

  class WifiConnection {
    const seal: Seal
    const writer: ByteStream
    var connected: bool
    var counter: nat

    ghost predicate Represents(s: State)
      reads this, writer
    {
      counter == s.counter && writer.pending == OnWire(seal, s)
    }

    constructor (seal: Seal, writer: ByteStream)
      requires writer.pending == []
      ensures this.seal == seal && this.writer == writer && connected && Represents(Initial)
    {
      this.seal := seal;
      this.writer := writer;
      connected := true;
      counter := 0;
    }

    method Disconnect()
      modifies this`connected
      ensures !connected
    {
      connected := false;
    }

    /** `payload` is the encoded message, or `None` when it could not be encoded; the stream takes `accepted`
        bytes and then fails, or takes all and is flushed or not. A message refused leaves no trace; a write
        that fails has used up the counter. */
    method SendMessage(payload: Option<Bytes>, accepted: nat, flushes: bool, ghost s: State)
      returns (result: Result<(), Failure>)
      requires Represents(s) && counter < COUNTER_LIMIT
      requires forall n, p :: |seal(n, p)| == |p| + NOISE_TAG_LEN
      modifies this`counter, writer
      ensures !connected ==> result == Err(Busy)
      ensures connected && (payload.None? || |payload.value| > 2048) ==> result == Err(Serialization)
      ensures !connected || payload.None? || |payload.value| > 2048 ==>
                Represents(s) && counter == old(counter) && writer.pending == old(writer.pending)
      ensures connected && payload.Some? && |payload.value| <= 2048 ==>
                var request := Request.Noise(seal(old(counter), payload.value));
                && |EncodeRequest(request)| < 0x10000 && counter == old(counter) + 1
                && var framed := Framed(EncodeRequest(request));
                && writer.pending == old(writer.pending) + (if |framed| <= accepted then framed else framed[..accepted])
                && result == if |framed| <= accepted && flushes then Ok(()) else Err(Debug)
      ensures connected && payload.Some? && |payload.value| <= 2048 ==>
                var steps := SendSteps(seal, s.counter, payload.value, accepted);
                && CanRun(seal, s, steps) && Represents(Run(seal, s, steps))
                && result == if steps[1].Write? && flushes then Ok(()) else Err(Debug)
    {
      if !connected {
        return Err(Busy);
      }
      if payload.None? || |payload.value| > WIFI_MESSAGE_MAX_LEN {
        return Err(Serialization);
      }
      SendOnWire(seal, s, payload.value, accepted);
      AcceptedExactlyWhenItFits(seal, counter, payload.value);
      var encrypted := seal(counter, payload.value);
      counter := counter + 1;
      var frame := ClientNoiseFrame(encrypted);
      result := Err(Serialization);
      if frame.Ok? {
        result := WriteFrame(writer, frame.value, EncodeRequest, accepted, flushes);
      }
    }
  }

  lemma SendOnWire(seal: Seal, s: State, payload: Bytes, accepted: nat)
    requires |payload| <= WIFI_MESSAGE_MAX_LEN && s.counter < COUNTER_LIMIT
    requires |seal(s.counter, payload)| == |payload| + NOISE_TAG_LEN
    ensures var steps := SendSteps(seal, s.counter, payload, accepted);
            var framed := FrameOf(seal, Sealed(s.counter, payload));
            && |EncodeRequest(Request.Noise(seal(s.counter, payload)))| <= FRAME_MAX_LEN
            && framed == Framed(EncodeRequest(Request.Noise(seal(s.counter, payload))))
            && |framed| > 0
            && CanRun(seal, s, steps) && Run(seal, s, steps).counter == s.counter + 1
            && OnWire(seal, Run(seal, s, steps)) ==
               OnWire(seal, s) + if |framed| <= accepted then framed else framed[..accepted]
  {
    hide WireOf, EncodeRequest;
    AcceptedExactlyWhenItFits(seal, s.counter, payload);
    var f := Sealed(s.counter, payload);
    var framed := FrameOf(seal, f);
    var steps := SendSteps(seal, s.counter, payload, accepted);
    var mid := Apply(seal, s, SealMessage(payload));
    var last := Apply(seal, mid, steps[1]);
    RunNone(seal, last);
    RunCons(seal, mid, steps[1], []);
    RunCons(seal, s, SealMessage(payload), [steps[1]] + []);
    WireSnoc(seal, s.written, f);
    var wire := WireOf(seal, s.written);
    assert wire + (s.rest + framed) == wire + s.rest + framed;
    assert accepted < |framed| ==> wire + (s.rest + framed[..accepted]) == wire + s.rest + framed[..accepted];
    assert framed[..0] == [] && wire + s.rest + [] == wire + s.rest;
    assert s.rest == [] ==> wire + s.rest == wire && (wire + framed) + s.rest == wire + framed;
  }
}
