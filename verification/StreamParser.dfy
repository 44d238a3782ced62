// The byte-at-a-time receiver as a transition function, and what it does over whole streams.
// `None` as capacity is the growable buffer of `std` builds, `Some(512)` the one of `no_std` builds.
module StreamParser {
  import opened Wrappers
  import opened Framing

  type Capacity = Option<nat>

  const NO_STD_CAPACITY: nat := 512

  datatype Parser = Parser(buffer: Bytes, isEscaped: bool)

  const Initial: Parser := Parser([], false)

  predicate HasRoom(cap: Capacity, length: nat) {
    cap.Some? ==> length < cap.value
  }

  predicate Fits(cap: Capacity, length: nat) {
    cap.Some? ==> length <= cap.value
  }

  /** One received byte: the next parser state and the payload completed by it, if any. */
  function Step(cap: Capacity, st: Parser, b: UInt8): (Parser, Option<Bytes>) {
    if st.buffer == [] then
      (Parser(if b == CONTROL_CHAR_STX && !st.isEscaped then [b] else [], b == CONTROL_CHAR_DLE && !st.isEscaped), None)
    else if !HasRoom(cap, |st.buffer|) then
      (Initial, None)
    else if b == CONTROL_CHAR_ETX && !st.isEscaped then
      (Initial, match Unframe(st.buffer + [b]) case Ok(p) => Some(p) case Err(_) => None)
    else
      (Parser(st.buffer + [b], b == CONTROL_CHAR_DLE && !st.isEscaped), None)
  }

  function Emitted(out: Option<Bytes>): seq<Bytes> {
    match out case Some(p) => [p] case None => []
  }

  /** The state a whole run ends in. */
  function After(cap: Capacity, st: Parser, s: Bytes): Parser
    decreases |s|
  {
    if s == [] then st else After(cap, Step(cap, st, s[0]).0, s[1..])
  }

  /** Every payload completed during a run, in order. */
  function Outputs(cap: Capacity, st: Parser, s: Bytes): seq<Bytes>
    decreases |s|
  {
    if s == [] then []
    else Emitted(Step(cap, st, s[0]).1) + Outputs(cap, Step(cap, st, s[0]).0, s[1..])
  }

  /** What every reachable state satisfies: a frame being collected starts with STX, has not met its
      closing ETX, and the flag says whether the collected bytes stop inside an escape pair. */
  ghost predicate Valid(cap: Capacity, st: Parser) {
    (cap.Some? ==> cap.value >= 1) &&
    Fits(cap, |st.buffer|) &&
    (st.buffer != [] ==>
       st.buffer[0] == CONTROL_CHAR_STX &&
       st.isEscaped == Dangling(st.buffer[1..]) &&
       Plain(CONTROL_CHAR_ETX) !in Tokenise(st.buffer[1..]))
  }

  // ---------- One step ----------

  /** Closing a collected frame always yields a payload: the unframing result is never an error,
      and the payload is the batch decoding of what was collected. */
  lemma NoFrameDiscarded(cap: Capacity, st: Parser)
    requires Valid(cap, st) && st.buffer != [] && !st.isEscaped
    ensures Step(cap, st, CONTROL_CHAR_ETX) ==
            (Initial, if HasRoom(cap, |st.buffer|) then Some(Unescape(st.buffer[1..])) else None)
  {
    var frame := st.buffer + [CONTROL_CHAR_ETX];
    assert frame[1..|frame| - 1] == st.buffer[1..];
  }

  lemma StepKeepsValid(cap: Capacity, st: Parser, b: UInt8)
    requires Valid(cap, st)
    ensures Valid(cap, Step(cap, st, b).0)
  {
    var next := Step(cap, st, b).0;
    if st.buffer != [] && next.buffer != [] {
      assert next.buffer[1..] == st.buffer[1..] + [b];
      TokeniseSnoc(st.buffer[1..], b);
    }
  }

  lemma {:induction false} RunKeepsValid(cap: Capacity, st: Parser, s: Bytes)
    requires Valid(cap, st)
    ensures Valid(cap, After(cap, st, s))
    decreases |s|
  {
    if s != [] {
      StepKeepsValid(cap, st, s[0]);
      RunKeepsValid(cap, Step(cap, st, s[0]).0, s[1..]);
    }
  }

  /** The bytes that are escaped are those that a receiver takes as control when they come unescaped, outside a
      frame or in one: any other byte leaves a receiver without a frame as it is, and is collected by one with. */
  lemma EscapedIffControl(b: UInt8)
    ensures IsSpecial(b) <==>
            || Step(None, Initial, b) != (Initial, None)
            || Step(None, Parser([CONTROL_CHAR_STX], false), b) != (Parser([CONTROL_CHAR_STX, b], false), None)
    ensures IsSpecial(b) <==> b == 0x02 || b == 0x03 || b == 0x10
  {
    assert [CONTROL_CHAR_STX] + [b] == [CONTROL_CHAR_STX, b];
  }

  // ---------- Runs ----------

  lemma RunNothing(cap: Capacity, st: Parser)
    ensures After(cap, st, []) == st && Outputs(cap, st, []) == []
  {
  }

  lemma RunCons(cap: Capacity, st: Parser, b: UInt8, s: Bytes)
    ensures After(cap, st, [b] + s) == After(cap, Step(cap, st, b).0, s)
    ensures Outputs(cap, st, [b] + s) == Emitted(Step(cap, st, b).1) + Outputs(cap, Step(cap, st, b).0, s)
  {
    assert ([b] + s)[1..] == s;
  }

  lemma {:induction false} RunConcat(cap: Capacity, st: Parser, a: Bytes, b: Bytes)
    ensures After(cap, st, a + b) == After(cap, After(cap, st, a), b)
    ensures Outputs(cap, st, a + b) == Outputs(cap, st, a) + Outputs(cap, After(cap, st, a), b)
    decreases |a|
  {
    hide After, Outputs;
    if a == [] {
      RunNothing(cap, st);
      assert a + b == b;
    } else {
      var next := Step(cap, st, a[0]).0;
      RunConcat(cap, next, a[1..], b);
      RunCons(cap, st, a[0], a[1..]);
      RunCons(cap, st, a[0], a[1..] + b);
      assert [a[0]] + (a[1..] + b) == a + b;
      assert [a[0]] + a[1..] == a;
    }
  }

  lemma RunByte(cap: Capacity, st: Parser, b: UInt8)
    ensures After(cap, st, [b]) == Step(cap, st, b).0
    ensures Outputs(cap, st, [b]) == Emitted(Step(cap, st, b).1)
  {
    assert [b][1..] == [];
  }

  lemma RunUnit(cap: Capacity, st: Parser, b: UInt8)
    ensures !IsSpecial(b) ==>
              After(cap, st, Unit(b)) == Step(cap, st, b).0 && Outputs(cap, st, Unit(b)) == Emitted(Step(cap, st, b).1)
    ensures IsSpecial(b) ==>
              var (mid, out) := Step(cap, st, CONTROL_CHAR_DLE);
              After(cap, st, Unit(b)) == Step(cap, mid, b).0 &&
              Outputs(cap, st, Unit(b)) == Emitted(out) + Emitted(Step(cap, mid, b).1)
  {
    hide After, Outputs;
    RunByte(cap, st, b);
    if IsSpecial(b) {
      RunByte(cap, st, CONTROL_CHAR_DLE);
      RunByte(cap, Step(cap, st, CONTROL_CHAR_DLE).0, b);
      RunConcat(cap, st, [CONTROL_CHAR_DLE], [b]);
      assert Unit(b) == [CONTROL_CHAR_DLE] + [b];
    }
  }

  lemma RunEscapeNil(cap: Capacity, st: Parser)
    ensures Escape([]) == [] && After(cap, st, Escape([])) == st && Outputs(cap, st, Escape([])) == []
  {
  }

  /** An escaped payload is received unit by unit. */
  lemma RunEscapeCons(cap: Capacity, st: Parser, p: Bytes)
    requires p != []
    ensures |Escape(p)| == |Unit(p[0])| + |Escape(p[1..])|
    ensures After(cap, st, Escape(p)) == After(cap, After(cap, st, Unit(p[0])), Escape(p[1..]))
    ensures Outputs(cap, st, Escape(p)) ==
            Outputs(cap, st, Unit(p[0])) + Outputs(cap, After(cap, st, Unit(p[0])), Escape(p[1..]))
  {
    RunConcat(cap, st, Unit(p[0]), Escape(p[1..]));
  }

  /** A frame is one opening step, the escaped payload, and one closing step. */
  lemma RunFrame(cap: Capacity, st: Parser, p: Bytes)
    ensures var (began, none) := Step(cap, st, CONTROL_CHAR_STX);
            var (last, out) := Step(cap, After(cap, began, Escape(p)), CONTROL_CHAR_ETX);
            && After(cap, st, Frame(p)) == last
            && Outputs(cap, st, Frame(p)) == Emitted(none) + (Outputs(cap, began, Escape(p)) + Emitted(out))
  {
    var body := Escape(p) + [CONTROL_CHAR_ETX];
    assert Frame(p) == [CONTROL_CHAR_STX] + body;
    assert Frame(p)[1..] == body;
    var began := Step(cap, st, CONTROL_CHAR_STX).0;
    RunConcat(cap, began, Escape(p), [CONTROL_CHAR_ETX]);
    RunByte(cap, After(cap, began, Escape(p)), CONTROL_CHAR_ETX);
  }

  // ---------- The unbounded parser refines the grammar ----------

  /** What a reachable state still has to read, as an equivalent grammar problem. */
  ghost function Continue(st: Parser, s: Bytes): seq<Bytes> {
    if st.buffer != [] then Collect(Tokenise(st.buffer[1..] + s))
    else Grammar(Tokenise((if st.isEscaped then [CONTROL_CHAR_DLE] else []) + s))
  }

  lemma GrammarSkips(t: Token, ts: seq<Token>)
    requires t != Plain(CONTROL_CHAR_STX)
    ensures Grammar([t] + ts) == Grammar(ts)
  {
    assert ([t] + ts)[1..] == ts;
    var i := Find(ts, CONTROL_CHAR_STX);
    assert Find([t] + ts, CONTROL_CHAR_STX) == 1 + i;
    if i < |ts| { assert ([t] + ts)[i + 2..] == ts[i + 1..]; }
  }

  lemma StepSearching(st: Parser, s: Bytes)
    requires st.buffer == [] && s != []
    ensures Step(None, st, s[0]).1 == None
    ensures Continue(Step(None, st, s[0]).0, s[1..]) == Continue(st, s)
  {
    hide Tokenise, Grammar, Collect;
    var b, rest := s[0], s[1..];
    var ts := Tokenise(rest);
    assert s == [b] + rest && [] + s == s && [] + rest == rest;
    assert [CONTROL_CHAR_DLE] + s == [CONTROL_CHAR_DLE, b] + rest;
    TokeniseCons(b, rest);
    if st.isEscaped {
      GrammarSkips(Escaped(b), ts);
    } else if b == CONTROL_CHAR_STX {
      GrammarStarts(ts);
      assert [b][1..] + rest == rest;
    } else if b != CONTROL_CHAR_DLE {
      GrammarSkips(Plain(b), ts);
    }
  }

  lemma StepCollecting(st: Parser, s: Bytes)
    requires Valid(None, st) && st.buffer != [] && s != []
    ensures var (next, out) := Step(None, st, s[0]);
            Continue(st, s) == Emitted(out) + Continue(next, s[1..])
  {
    hide Tokenise, Grammar, Collect, Dangling;
    TokeniseShort();
    var x, b, rest := st.buffer[1..], s[0], s[1..];
    assert s == [b] + rest;
    TokeniseCons(b, rest);
    if b == CONTROL_CHAR_ETX && !st.isEscaped {
      NoFrameDiscarded(None, st);
      var ts, tail := Tokenise(x), Tokenise(rest);
      TokeniseConcat(x, s);
      CollectToEnd(ts, tail);
      assert [] + rest == rest;
    } else {
      assert (st.buffer + [b])[1..] + rest == x + s;
    }
  }

  lemma {:induction false} RunContinues(st: Parser, s: Bytes)
    requires Valid(None, st)
    ensures Outputs(None, st, s) == Continue(st, s)
    decreases |s|
  {
    if s == [] {
      if st.buffer != [] {
        assert st.buffer[1..] + s == st.buffer[1..];
        var ts := Tokenise(st.buffer[1..]);
        assert Find(ts, CONTROL_CHAR_ETX) == |ts|;
      } else {
        assert Tokenise([CONTROL_CHAR_DLE] + s) == [];
      }
    } else {
      StepKeepsValid(None, st, s[0]);
      if st.buffer == [] { StepSearching(st, s); } else { StepCollecting(st, s); }
      RunContinues(Step(None, st, s[0]).0, s[1..]);
    }
  }

  /** Online parsing equals the grammar, for every byte stream. */
  lemma StreamRefinesGrammar(s: Bytes)
    ensures Outputs(None, Initial, s) == Grammar(Tokenise(s))
  {
    RunContinues(Initial, s);
    assert [] + s == s;
  }

  // ---------- Every parser refines a grammar of frames that fit ----------

  /** Index of the first byte `b` that is not escaped. */
  function FirstControl(s: Bytes, b: UInt8): (i: Option<nat>)
    ensures i.Some? ==> i.value < |s| && s[i.value] == b
    decreases |s|
  {
    if s == [] then None
    else if s[0] == CONTROL_CHAR_DLE && |s| == 1 then None
    else if s[0] == b && b != CONTROL_CHAR_DLE then Some(0)
    else
      var n := if s[0] == CONTROL_CHAR_DLE then 2 else 1;
      match FirstControl(s[n..], b)
      case Some(i) => Some(n + i)
      case None => None
  }

  /** The payloads of the frames in a stream that fit: skip to a control STX, then collect. */
  function FittingFrames(cap: Capacity, s: Bytes): seq<Bytes>
    requires cap.Some? ==> cap.value >= 1
    decreases |s|, 1
  {
    match FirstControl(s, CONTROL_CHAR_STX)
    case None => []
    case Some(i) => FittingCollect(cap, s[i + 1..])
  }

  /** Collect to the next control ETX when it comes before the buffer is full. When it does not, the buffer is
      given up with the byte that overflows it, and skipping starts again after that byte, outside any escape. */
  function FittingCollect(cap: Capacity, s: Bytes): seq<Bytes>
    requires cap.Some? ==> cap.value >= 1
    decreases |s|, 2
  {
    match FirstControl(s, CONTROL_CHAR_ETX)
    case Some(i) =>
      if Fits(cap, i + 2) then [Unescape(s[..i])] + FittingFrames(cap, s[i + 1..])
      else FittingFrames(cap, s[cap.value..])
    case None =>
      if cap.Some? && |s| >= cap.value then FittingFrames(cap, s[cap.value..]) else []
  }

  lemma FirstControlCons(b: UInt8, s: Bytes, c: UInt8)
    requires c != CONTROL_CHAR_DLE
    ensures b != CONTROL_CHAR_DLE && b != c ==>
              FirstControl([b] + s, c) == match FirstControl(s, c) case Some(i) => Some(1 + i) case None => None
    ensures FirstControl([CONTROL_CHAR_DLE, b] + s, c) ==
            match FirstControl(s, c) case Some(i) => Some(2 + i) case None => None
    ensures FirstControl([c] + s, c) == Some(0)
  {
    assert ([b] + s)[1..] == s;
    assert ([CONTROL_CHAR_DLE, b] + s)[2..] == s;
  }

  lemma LoneEscape(c: UInt8)
    ensures FirstControl([], c) == None && FirstControl([CONTROL_CHAR_DLE], c) == None
  {
  }

  /** Text without a control `c` only moves the next one, and hides none unless it ends inside an escape. */
  lemma {:induction false} FirstControlAfter(x: Bytes, s: Bytes, c: UInt8)
    requires c != CONTROL_CHAR_DLE && Plain(c) !in Tokenise(x)
    ensures !Dangling(x) ==>
              FirstControl(x + s, c) == match FirstControl(s, c) case Some(i) => Some(|x| + i) case None => None
    ensures FirstControl(x + s, c).Some? ==> FirstControl(x + s, c).value >= |x|
    decreases |x|
  {
    hide FirstControl, Tokenise, Dangling;
    TokeniseShort();
    if x == [] {
      assert x + s == s;
    } else if x[0] != CONTROL_CHAR_DLE {
      var tail := x[1..];
      assert x == [x[0]] + tail && x + s == [x[0]] + (tail + s);
      TokeniseCons(x[0], tail);
      FirstControlCons(x[0], tail + s, c);
      FirstControlAfter(tail, s, c);
    } else if |x| == 1 {
      assert x == [CONTROL_CHAR_DLE];
      if s == [] {
        LoneEscape(c);
        assert x + s == x;
      } else {
        assert x + s == [CONTROL_CHAR_DLE, s[0]] + s[1..];
        FirstControlCons(s[0], s[1..], c);
      }
    } else {
      var tail := x[2..];
      assert x == [CONTROL_CHAR_DLE, x[1]] + tail && x + s == [CONTROL_CHAR_DLE, x[1]] + (tail + s);
      TokeniseCons(x[1], tail);
      FirstControlCons(x[1], tail + s, c);
      FirstControlAfter(tail, s, c);
    }
  }

  /** What a reachable state still has to read, as an equivalent problem of that grammar. */
  ghost function Remaining(cap: Capacity, st: Parser, s: Bytes): seq<Bytes>
    requires cap.Some? ==> cap.value >= 1
  {
    if st.buffer != [] then FittingCollect(cap, st.buffer[1..] + s)
    else FittingFrames(cap, (if st.isEscaped then [CONTROL_CHAR_DLE] else []) + s)
  }

  lemma FramesAt(cap: Capacity, s: Bytes)
    requires cap.Some? ==> cap.value >= 1
    ensures FittingFrames(cap, s) ==
            match FirstControl(s, CONTROL_CHAR_STX) case Some(i) => FittingCollect(cap, s[i + 1..]) case None => []
  {
    hide FittingCollect, FirstControl;
  }

  lemma CollectAt(cap: Capacity, s: Bytes, i: nat)
    requires cap.Some? ==> cap.value >= 1
    requires FirstControl(s, CONTROL_CHAR_ETX) == Some(i) && Fits(cap, i + 2)
    ensures FittingCollect(cap, s) == [Unescape(s[..i])] + FittingFrames(cap, s[i + 1..])
  {
    hide FittingFrames, FirstControl, Unescape;
  }

  /** Bytes in front of the next control STX make no difference. */
  lemma FramesSkip(cap: Capacity, skipped: Bytes, s: Bytes)
    requires cap.Some? ==> cap.value >= 1
    requires FirstControl(skipped + s, CONTROL_CHAR_STX) ==
             match FirstControl(s, CONTROL_CHAR_STX) case Some(i) => Some(|skipped| + i) case None => None
    ensures FittingFrames(cap, skipped + s) == FittingFrames(cap, s)
  {
    hide FittingFrames, FittingCollect, FirstControl;
    FramesAt(cap, s);
    FramesAt(cap, skipped + s);
    match FirstControl(s, CONTROL_CHAR_STX)
    case None =>
    case Some(i) => assert (skipped + s)[|skipped| + i + 1..] == s[i + 1..];
  }

  lemma FramesStart(cap: Capacity, s: Bytes)
    requires cap.Some? ==> cap.value >= 1
    ensures FittingFrames(cap, [CONTROL_CHAR_STX] + s) == FittingCollect(cap, s)
  {
    hide FittingFrames, FittingCollect, FirstControl;
    FramesAt(cap, [CONTROL_CHAR_STX] + s);
    FirstControlCons(CONTROL_CHAR_STX, s, CONTROL_CHAR_STX);
    assert ([CONTROL_CHAR_STX] + s)[1..] == s;
  }

  /** Skipping byte by byte: what is left to read after `b`, outside a frame and outside an escape or inside one. */
  lemma FramesNext(cap: Capacity, b: UInt8, rest: Bytes)
    requires cap.Some? ==> cap.value >= 1
    ensures FittingFrames(cap, [CONTROL_CHAR_DLE, b] + rest) == FittingFrames(cap, rest)
    ensures b != CONTROL_CHAR_STX && b != CONTROL_CHAR_DLE ==>
              FittingFrames(cap, [b] + rest) == FittingFrames(cap, rest)
    ensures FittingFrames(cap, [CONTROL_CHAR_STX] + rest) == FittingCollect(cap, rest)
  {
    hide FittingFrames, FittingCollect, FirstControl;
    FirstControlCons(b, rest, CONTROL_CHAR_STX);
    FramesSkip(cap, [CONTROL_CHAR_DLE, b], rest);
    FramesStart(cap, rest);
    if b != CONTROL_CHAR_STX && b != CONTROL_CHAR_DLE { FramesSkip(cap, [b], rest); }
  }

  lemma SearchStep(cap: Capacity, st: Parser, s: Bytes)
    requires Valid(cap, st) && st.buffer == [] && s != []
    ensures Step(cap, st, s[0]).1 == None
    ensures Remaining(cap, Step(cap, st, s[0]).0, s[1..]) == Remaining(cap, st, s)
  {
    hide FittingFrames, FittingCollect;
    var b, rest := s[0], s[1..];
    assert s == [b] + rest && [] + s == s && [] + rest == rest;
    assert [CONTROL_CHAR_DLE] + s == [CONTROL_CHAR_DLE, b] + rest;
    assert [b][1..] + rest == rest;
    FramesNext(cap, b, rest);
  }

  lemma CollectCloses(cap: Capacity, x: Bytes, rest: Bytes)
    requires Plain(CONTROL_CHAR_ETX) !in Tokenise(x) && !Dangling(x) && Fits(cap, |x| + 2)
    requires cap.Some? ==> cap.value >= 1
    ensures FittingCollect(cap, x + ([CONTROL_CHAR_ETX] + rest)) == [Unescape(x)] + FittingFrames(cap, rest)
  {
    hide FittingFrames, FittingCollect, FirstControl, Tokenise, Unescape, Dangling;
    var s := x + ([CONTROL_CHAR_ETX] + rest);
    FirstControlAfter(x, [CONTROL_CHAR_ETX] + rest, CONTROL_CHAR_ETX);
    FirstControlCons(CONTROL_CHAR_ETX, rest, CONTROL_CHAR_ETX);
    CollectAt(cap, s, |x|);
    assert s[..|x|] == x && s[|x| + 1..] == rest;
  }

  lemma CollectOverflows(cap: Capacity, x: Bytes, s: Bytes)
    requires Plain(CONTROL_CHAR_ETX) !in Tokenise(x) && cap == Some(|x| + 1) && s != []
    ensures FittingCollect(cap, x + s) == FittingFrames(cap, s[1..])
  {
    hide FittingFrames, Tokenise;
    FirstControlAfter(x, s, CONTROL_CHAR_ETX);
    assert (x + s)[|x| + 1..] == s[1..];
  }

  lemma CollectStep(cap: Capacity, st: Parser, s: Bytes)
    requires Valid(cap, st) && st.buffer != [] && s != []
    ensures var (next, out) := Step(cap, st, s[0]);
            Remaining(cap, st, s) == Emitted(out) + Remaining(cap, next, s[1..])
  {
    hide FittingFrames, FittingCollect, Tokenise, Unescape, Dangling;
    var x, b, rest := st.buffer[1..], s[0], s[1..];
    assert s == [b] + rest && [] + rest == rest;
    if !HasRoom(cap, |st.buffer|) {
      CollectOverflows(cap, x, s);
      assert [] + FittingFrames(cap, rest) == FittingFrames(cap, rest);
    } else if b == CONTROL_CHAR_ETX && !st.isEscaped {
      NoFrameDiscarded(cap, st);
      CollectCloses(cap, x, rest);
    } else {
      assert (st.buffer + [b])[1..] + rest == x + s;
      assert [] + Remaining(cap, Step(cap, st, b).0, rest) == Remaining(cap, Step(cap, st, b).0, rest);
    }
  }

  lemma NothingRemains(cap: Capacity, st: Parser)
    requires Valid(cap, st)
    ensures Remaining(cap, st, []) == []
  {
    hide Tokenise, Dangling;
    LoneEscape(CONTROL_CHAR_STX);
    LoneEscape(CONTROL_CHAR_ETX);
    assert [CONTROL_CHAR_DLE] + [] == [CONTROL_CHAR_DLE];
    if st.buffer != [] {
      FirstControlAfter(st.buffer[1..], [], CONTROL_CHAR_ETX);
      assert st.buffer[1..] + [] == st.buffer[1..];
    }
  }

  /** From every reachable state of every build, the outputs are what the grammar still reads. */
  lemma {:induction false} RunRemaining(cap: Capacity, st: Parser, s: Bytes)
    requires Valid(cap, st)
    ensures Outputs(cap, st, s) == Remaining(cap, st, s)
    decreases |s|
  {
    hide Remaining, Step, Valid;
    if s == [] {
      RunNothing(cap, st);
      NothingRemains(cap, st);
    } else {
      StepKeepsValid(cap, st, s[0]);
      if st.buffer == [] { SearchStep(cap, st, s); } else { CollectStep(cap, st, s); }
      RunRemaining(cap, Step(cap, st, s[0]).0, s[1..]);
    }
  }

  /** For every byte stream and every capacity, the outputs are the frames that fit, as the grammar reads them. */
  lemma EveryBuildRefinesGrammar(cap: Capacity, s: Bytes)
    requires cap.Some? ==> cap.value >= 1
    ensures Outputs(cap, Initial, s) == FittingFrames(cap, s)
  {
    hide FittingFrames, FittingCollect, Outputs;
    RunRemaining(cap, Initial, s);
    assert [] + s == s;
  }

  /** Without a capacity the two grammars agree. */
  lemma UnboundedGrammarsAgree(s: Bytes)
    ensures FittingFrames(None, s) == Grammar(Tokenise(s))
  {
    hide FittingFrames, Grammar, Tokenise, Outputs;
    EveryBuildRefinesGrammar(None, s);
    StreamRefinesGrammar(s);
  }

  // ---------- Round trips under any chunking ----------

  predicate FrameFits(cap: Capacity, p: Bytes) {
    Fits(cap, |Frame(p)|)
  }

  /** A receiver that has collected `held` and is between two units. */
  function Collecting(held: Bytes): Parser {
    Parser(held, false)
  }

  lemma RunUnitCollects(cap: Capacity, held: Bytes, b: UInt8)
    requires held != [] && Fits(cap, |held| + |Unit(b)|)
    ensures After(cap, Collecting(held), Unit(b)) == Collecting(held + Unit(b))
    ensures Outputs(cap, Collecting(held), Unit(b)) == []
  {
    hide After, Outputs;
    var st := Collecting(held);
    RunUnit(cap, st, b);
    if IsSpecial(b) {
      var mid := Parser(held + [CONTROL_CHAR_DLE], true);
      assert Step(cap, st, CONTROL_CHAR_DLE) == (mid, None);
      assert mid.buffer + [b] == held + Unit(b);
    }
  }

  lemma {:induction false} RunEscape(cap: Capacity, held: Bytes, p: Bytes)
    requires held != [] && Fits(cap, |held| + |Escape(p)|)
    ensures After(cap, Collecting(held), Escape(p)) == Collecting(held + Escape(p))
    ensures Outputs(cap, Collecting(held), Escape(p)) == []
    decreases |p|
  {
    hide After, Outputs, Collecting;
    if p == [] {
      RunEscapeNil(cap, Collecting(held));
      assert held + Escape(p) == held;
    } else {
      RunEscapeCons(cap, Collecting(held), p);
      RunUnitCollects(cap, held, p[0]);
      RunEscape(cap, held + Unit(p[0]), p[1..]);
      assert held + Unit(p[0]) + Escape(p[1..]) == held + Escape(p);
    }
  }

  lemma RunOneFrame(cap: Capacity, p: Bytes)
    requires FrameFits(cap, p)
    ensures After(cap, Initial, Frame(p)) == Initial
    ensures Outputs(cap, Initial, Frame(p)) == [p]
  {
    var held := [CONTROL_CHAR_STX];
    RunEscape(cap, held, p);
    assert Step(cap, Initial, CONTROL_CHAR_STX).0 == Collecting(held);
    assert Step(cap, Collecting(held + Escape(p)), CONTROL_CHAR_ETX) == (Initial, Some(p)) by {
      UnframeFrame(p);
      assert held + Escape(p) + [CONTROL_CHAR_ETX] == Frame(p);
    }
    RunFrame(cap, Initial, p);
  }

  lemma {:induction false} RunFrames(cap: Capacity, ps: seq<Bytes>)
    requires forall p :: p in ps ==> FrameFits(cap, p)
    ensures After(cap, Initial, Frames(ps)) == Initial
    ensures Outputs(cap, Initial, Frames(ps)) == ps
  {
    hide After, Outputs, Frame;
    if ps == [] {
      RunNothing(cap, Initial);
    } else {
      RunOneFrame(cap, ps[0]);
      RunFrames(cap, ps[1..]);
      RunConcat(cap, Initial, Frame(ps[0]), Frames(ps[1..]));
    }
  }

  function Flatten(chunks: seq<Bytes>): Bytes {
    if chunks == [] then [] else chunks[0] + Flatten(chunks[1..])
  }

  /** Reads arriving in pieces: each piece is parsed from the state the previous one left. */
  function ChunkOutputs(cap: Capacity, st: Parser, chunks: seq<Bytes>): seq<Bytes>
    decreases |chunks|
  {
    if chunks == [] then []
    else Outputs(cap, st, chunks[0]) + ChunkOutputs(cap, After(cap, st, chunks[0]), chunks[1..])
  }

  lemma ChunkNone(cap: Capacity, st: Parser)
    ensures ChunkOutputs(cap, st, []) == []
  {
  }

  lemma ChunkCons(cap: Capacity, st: Parser, chunk: Bytes, rest: seq<Bytes>)
    ensures ChunkOutputs(cap, st, [chunk] + rest) ==
            Outputs(cap, st, chunk) + ChunkOutputs(cap, After(cap, st, chunk), rest)
  {
    assert ([chunk] + rest)[1..] == rest;
  }

  lemma {:induction false} ChunkingIsInvisible(cap: Capacity, st: Parser, chunks: seq<Bytes>)
    ensures ChunkOutputs(cap, st, chunks) == Outputs(cap, st, Flatten(chunks))
    decreases |chunks|
  {
    if chunks != [] {
      ChunkingIsInvisible(cap, After(cap, st, chunks[0]), chunks[1..]);
      RunConcat(cap, st, chunks[0], Flatten(chunks[1..]));
    }
  }

  /** Every list of payloads survives framing, concatenation and any cutting into reads. */
  lemma RoundTrip(cap: Capacity, ps: seq<Bytes>, chunks: seq<Bytes>)
    requires Flatten(chunks) == Frames(ps)
    requires forall p :: p in ps ==> FrameFits(cap, p)
    ensures ChunkOutputs(cap, Initial, chunks) == ps
  {
    ChunkingIsInvisible(cap, Initial, chunks);
    RunFrames(cap, ps);
  }

  // ---------- Self-synchronisation ----------

  /** Between two units of a frame the flag can only be set while no frame is being collected. */
  predicate InStep(st: Parser) {
    st.isEscaped ==> st.buffer == []
  }

  lemma UnitKeepsInStep(cap: Capacity, st: Parser, b: UInt8)
    requires InStep(st)
    ensures InStep(After(cap, st, Unit(b)))
  {
    RunUnit(cap, st, b);
  }

  lemma {:induction false} EscapeKeepsInStep(cap: Capacity, st: Parser, p: Bytes)
    requires InStep(st)
    ensures InStep(After(cap, st, Escape(p)))
    decreases |p|
  {
    if p != [] {
      UnitKeepsInStep(cap, st, p[0]);
      EscapeKeepsInStep(cap, After(cap, st, Unit(p[0])), p[1..]);
      RunEscapeCons(cap, st, p);
    }
  }

  /** From every reachable state of either build, one frame of any length brings the parser home. */
  lemma SelfSynchronises(cap: Capacity, st: Parser, p: Bytes)
    requires Valid(cap, st)
    ensures After(cap, st, Frame(p)) == Initial
  {
    RunFrame(cap, st, p);
    EscapeKeepsInStep(cap, Step(cap, st, CONTROL_CHAR_STX).0, p);
  }

  /** Whatever was received before, every fitting frame after the first one decodes exactly. */
  lemma ResynchronisesAfterOneFrame(cap: Capacity, noise: Bytes, p: Bytes, ps: seq<Bytes>)
    requires cap.Some? ==> cap.value >= 1
    requires forall q :: q in ps ==> FrameFits(cap, q)
    ensures After(cap, Initial, noise + Frame(p) + Frames(ps)) == Initial
    ensures Outputs(cap, Initial, noise + Frame(p) + Frames(ps)) == Outputs(cap, Initial, noise + Frame(p)) + ps
  {
    RunKeepsValid(cap, Initial, noise);
    RunConcat(cap, Initial, noise, Frame(p));
    SelfSynchronises(cap, After(cap, Initial, noise), p);
    RunConcat(cap, Initial, noise + Frame(p), Frames(ps));
    RunFrames(cap, ps);
  }

  // ---------- Exactly which frames a bounded receiver decodes ----------

  function TotalLength(ps: seq<Bytes>): nat {
    if ps == [] then 0 else |ps[0]| + TotalLength(ps[1..])
  }

  lemma {:induction false} TotalLengthConcat(ps: seq<Bytes>, qs: seq<Bytes>)
    ensures TotalLength(ps + qs) == TotalLength(ps) + TotalLength(qs)
  {
    if ps == [] {
      assert ps + qs == qs;
    } else {
      TotalLengthConcat(ps[1..], qs);
      assert (ps + qs)[1..] == ps[1..] + qs;
    }
  }

  /** Payload bytes collected so far for the frame in progress. */
  function Pending(st: Parser): nat {
    if st.buffer == [] then 0 else |Tokenise(st.buffer[1..])|
  }

  lemma StepPending(cap: Capacity, st: Parser, b: UInt8)
    requires Valid(cap, st)
    ensures var (next, out) := Step(cap, st, b);
            && TotalLength(Emitted(out)) + Pending(next) <=
               Pending(st) + (if st.isEscaped || b != CONTROL_CHAR_DLE then 1 else 0)
            && (out.Some? ==> TotalLength(Emitted(out)) + Pending(next) <= Pending(st))
            && (st.buffer == [] ==> out == None && Pending(next) == 0)
  {
    var (next, out) := Step(cap, st, b);
    if st.buffer != [] && HasRoom(cap, |st.buffer|) {
      if b == CONTROL_CHAR_ETX && !st.isEscaped {
        NoFrameDiscarded(cap, st);
        assert Emitted(out)[1..] == [];
      } else {
        TokeniseSnoc(st.buffer[1..], b);
        assert next.buffer[1..] == st.buffer[1..] + [b];
      }
    }
  }

  /** A unit of the sender's adds at most one payload byte on the receiving side. */
  lemma UnitPending(cap: Capacity, st: Parser, b: UInt8)
    requires Valid(cap, st) && InStep(st)
    ensures Valid(cap, After(cap, st, Unit(b))) && InStep(After(cap, st, Unit(b)))
    ensures TotalLength(Outputs(cap, st, Unit(b))) + Pending(After(cap, st, Unit(b))) <= Pending(st) + 1
  {
    UnitKeepsInStep(cap, st, b);
    RunKeepsValid(cap, st, Unit(b));
    RunUnit(cap, st, b);
    StepPending(cap, st, Unit(b)[0]);
    if IsSpecial(b) {
      var (mid, out) := Step(cap, st, CONTROL_CHAR_DLE);
      StepKeepsValid(cap, st, CONTROL_CHAR_DLE);
      StepPending(cap, mid, b);
      TotalLengthConcat(Emitted(out), Emitted(Step(cap, mid, b).1));
    }
  }

  lemma {:induction false} EscapePending(cap: Capacity, st: Parser, p: Bytes)
    requires Valid(cap, st) && InStep(st)
    ensures Valid(cap, After(cap, st, Escape(p))) && InStep(After(cap, st, Escape(p)))
    ensures TotalLength(Outputs(cap, st, Escape(p))) + Pending(After(cap, st, Escape(p))) <= Pending(st) + |p|
    decreases |p|
  {
    if p != [] {
      UnitPending(cap, st, p[0]);
      var mid := After(cap, st, Unit(p[0]));
      EscapePending(cap, mid, p[1..]);
      RunEscapeCons(cap, st, p);
      TotalLengthConcat(Outputs(cap, st, Unit(p[0])), Outputs(cap, mid, Escape(p[1..])));
    }
  }

  /** Collecting stopped for lack of room, or bytes of the payload were lost on the way. */
  predicate Short(cap: Capacity, st: Parser, outs: seq<Bytes>, length: nat) {
    (outs == [] && !HasRoom(cap, |st.buffer|)) || TotalLength(outs) + Pending(st) < length
  }

  /** One more unit collected is one more payload byte. */
  lemma PendingUnit(held: Bytes, b: UInt8)
    requires held != [] && !Dangling(held[1..])
    ensures Pending(Collecting(held + Unit(b))) == Pending(Collecting(held)) + 1
  {
    TokeniseConcat(held[1..], Unit(b));
    TokeniseUnit(b, []);
    assert Unit(b) + [] == Unit(b) && (held + Unit(b))[1..] == held[1..] + Unit(b);
  }

  lemma OverflowForgets(cap: Capacity, held: Bytes, b: UInt8)
    requires cap.Some? && held != [] && Valid(cap, Collecting(held)) && !Fits(cap, |held| + |Unit(b)|)
    ensures var next := After(cap, Collecting(held), Unit(b));
            Pending(next) == 0 && Valid(cap, next) && InStep(next)
    ensures Outputs(cap, Collecting(held), Unit(b)) == []
  {
    var st := Collecting(held);
    RunUnit(cap, st, b);
    RunKeepsValid(cap, st, Unit(b));
    UnitKeepsInStep(cap, st, b);
    if IsSpecial(b) && !HasRoom(cap, |st.buffer|) { StepPending(cap, Initial, b); }
  }

  /** When the frame being collected will not fit together with the units of `p` and its closing byte,
      something is lost on the way, wherever the overflow falls. */
  lemma {:induction false} RunTooLong(cap: Capacity, held: Bytes, p: Bytes)
    requires cap.Some? && held != [] && Valid(cap, Collecting(held)) && !Fits(cap, |held| + |Escape(p)| + 1)
    ensures var st := After(cap, Collecting(held), Escape(p));
            && Valid(cap, st) && InStep(st)
            && Short(cap, st, Outputs(cap, Collecting(held), Escape(p)), Pending(Collecting(held)) + |p|)
    decreases |p|
  {
    hide After, Outputs, Escape, Tokenise, Pending;
    if p == [] {
      RunEscapeNil(cap, Collecting(held));
    } else {
      RunEscapeCons(cap, Collecting(held), p);
      var mid := After(cap, Collecting(held), Unit(p[0]));
      RunKeepsValid(cap, Collecting(held), Unit(p[0]));
      if Fits(cap, |held| + |Unit(p[0])|) {
        RunUnitCollects(cap, held, p[0]);
        PendingUnit(held, p[0]);
        RunTooLong(cap, held + Unit(p[0]), p[1..]);
      } else {
        OverflowForgets(cap, held, p[0]);
        EscapePending(cap, mid, p[1..]);
      }
      assert [] + Outputs(cap, mid, Escape(p[1..])) == Outputs(cap, mid, Escape(p[1..]));
    }
  }

  /** What the receiver gives for the units of `p` and a closing byte. */
  function Closing(cap: Capacity, st: Parser, p: Bytes): seq<Bytes> {
    Outputs(cap, st, Escape(p)) + Emitted(Step(cap, After(cap, st, Escape(p)), CONTROL_CHAR_ETX).1)
  }

  /** A frame that does not fit is never recovered. */
  lemma TooLongLoses(cap: Capacity, held: Bytes, p: Bytes, whole: Bytes)
    requires cap.Some? && held != [] && Valid(cap, Collecting(held)) && !Fits(cap, |held| + |Escape(p)| + 1)
    requires |whole| == Pending(Collecting(held)) + |p|
    ensures Closing(cap, Collecting(held), p) != [whole]
  {
    hide After, Outputs, Escape, Pending;
    RunTooLong(cap, held, p);
    var full, outs := After(cap, Collecting(held), Escape(p)), Outputs(cap, Collecting(held), Escape(p));
    var out := Step(cap, full, CONTROL_CHAR_ETX).1;
    StepPending(cap, full, CONTROL_CHAR_ETX);
    TotalLengthConcat(outs, Emitted(out));
    assert TotalLength([whole]) == |whole| by { assert [whole][1..] == []; }
  }

  lemma FrameIsClosing(cap: Capacity, st: Parser, p: Bytes)
    requires Step(cap, st, CONTROL_CHAR_STX).1 == None
    ensures Outputs(cap, st, Frame(p)) == Closing(cap, Step(cap, st, CONTROL_CHAR_STX).0, p)
  {
    RunFrame(cap, st, p);
    var began := Step(cap, st, CONTROL_CHAR_STX).0;
    assert [] + Closing(cap, began, p) == Closing(cap, began, p);
  }

  /** A receiver of any capacity recovers a frame exactly when the whole frame fits its buffer. */
  lemma DecodesExactlyWhatFits(cap: Capacity, p: Bytes)
    requires cap.Some? ==> cap.value >= 1
    ensures Outputs(cap, Initial, Frame(p)) == [p] <==> cap.None? || |Frame(p)| <= cap.value
  {
    hide After, Outputs, Frame, Escape, Closing;
    if FrameFits(cap, p) {
      RunOneFrame(cap, p);
    } else {
      var held := [CONTROL_CHAR_STX];
      StepKeepsValid(cap, Initial, CONTROL_CHAR_STX);
      assert Step(cap, Initial, CONTROL_CHAR_STX) == (Collecting(held), None);
      FrameIsClosing(cap, Initial, p);
      EscapeLength(p);
      TooLongLoses(cap, held, p, p);
    }
  }

  /** The buffer of `no_std` builds receives exactly the payloads whose length and special bytes leave room for
      the two delimiters. */
  lemma NoStdDecodes(p: Bytes)
    ensures Outputs(Some(NO_STD_CAPACITY), Initial, Frame(p)) == [p] <==>
            2 + |p| + multiset(p)[0x02] + multiset(p)[0x03] + multiset(p)[0x10] <= 512
  {
    DecodesExactlyWhatFits(Some(NO_STD_CAPACITY), p);
    EscapeLength(p);
  }

  // ---------- A frame in the middle of another ----------

  /** The payload of the two frames taken for one. */
  function Swallowed(st: Parser, p: Bytes): Bytes
    requires st.buffer != []
  {
    Unescape(st.buffer[1..]) + [CONTROL_CHAR_STX] + p
  }

  lemma SwallowedText(st: Parser, p: Bytes)
    requires st.buffer != []
    ensures Unescape(st.buffer[1..] + [CONTROL_CHAR_STX] + Escape(p)) == Swallowed(st, p)
    ensures |Swallowed(st, p)| == |Tokenise(st.buffer[1..] + [CONTROL_CHAR_STX])| + |p|
  {
    hide Tokenise, Escape;
    var x := st.buffer[1..];
    var before := Tokenise(x + [CONTROL_CHAR_STX]);
    TokeniseSnoc(x, CONTROL_CHAR_STX);
    TokeniseConcat(x + [CONTROL_CHAR_STX], Escape(p));
    TokeniseEscape(p, []);
    TokeniseShort();
    assert Escape(p) + [] == Escape(p) && EscapedTokens(p) + [] == EscapedTokens(p);
    assert Literals(before + EscapedTokens(p)) == Literals(before) + Literals(EscapedTokens(p));
    assert Literals(before) == Unescape(x) + [CONTROL_CHAR_STX];
    EscapedTokensMeaning(p);
  }

  /** The opening byte of the second frame is collected as data, when there is room for it. */
  lemma OpensAsData(cap: Capacity, st: Parser)
    requires Valid(cap, st) && st.buffer != []
    ensures Step(cap, st, CONTROL_CHAR_STX) ==
            (if HasRoom(cap, |st.buffer|) then Collecting(st.buffer + [CONTROL_CHAR_STX]) else Initial, None)
    ensures HasRoom(cap, |st.buffer|) ==> Valid(cap, Collecting(st.buffer + [CONTROL_CHAR_STX]))
  {
    StepKeepsValid(cap, st, CONTROL_CHAR_STX);
  }

  lemma ClosesWhole(cap: Capacity, held: Bytes, p: Bytes)
    requires held != [] && Valid(cap, Collecting(held)) && Fits(cap, |held| + |Escape(p)| + 1)
    ensures Closing(cap, Collecting(held), p) == [Unescape(held[1..] + Escape(p))]
  {
    hide After, Outputs, Unescape, Escape, Tokenise, Valid;
    RunEscape(cap, held, p);
    RunKeepsValid(cap, Collecting(held), Escape(p));
    var full := Collecting(held + Escape(p));
    NoFrameDiscarded(cap, full);
    assert full.buffer[1..] == held[1..] + Escape(p);
    assert [] + [Unescape(held[1..] + Escape(p))] == [Unescape(held[1..] + Escape(p))];
  }

  lemma AfterOverflow(cap: Capacity, p: Bytes)
    requires cap.Some? ==> cap.value >= 1
    ensures TotalLength(Closing(cap, Initial, p)) <= |p|
  {
    hide After, Outputs;
    EscapePending(cap, Initial, p);
    var st := After(cap, Initial, Escape(p));
    var out := Step(cap, st, CONTROL_CHAR_ETX).1;
    StepPending(cap, st, CONTROL_CHAR_ETX);
    TotalLengthConcat(Outputs(cap, Initial, Escape(p)), Emitted(out));
  }

  /** A frame that arrives while another is still being collected is swallowed as data, STX and all, exactly
      when both together fit the buffer. */
  lemma MidFrameOutput(cap: Capacity, st: Parser, p: Bytes)
    requires Valid(cap, st) && st.buffer != []
    ensures Outputs(cap, st, Frame(p)) == [Swallowed(st, p)] <==> Fits(cap, |st.buffer| + |Frame(p)|)
  {
    hide After, Outputs, Swallowed, Tokenise, Unescape, Closing;
    RunFrame(cap, st, p);
    OpensAsData(cap, st);
    SwallowedText(st, p);
    var held := st.buffer + [CONTROL_CHAR_STX];
    assert held[1..] == st.buffer[1..] + [CONTROL_CHAR_STX];
    var whole := Swallowed(st, p);
    FrameIsClosing(cap, st, p);
    if Fits(cap, |st.buffer| + |Frame(p)|) {
      ClosesWhole(cap, held, p);
    } else if HasRoom(cap, |st.buffer|) {
      TooLongLoses(cap, held, p, whole);
    } else {
      AfterOverflow(cap, p);
      assert TotalLength([whole]) == |whole| by { assert [whole][1..] == []; }
      TokeniseSnoc(st.buffer[1..], CONTROL_CHAR_STX);
    }
  }

  // ---------- A frame that overflows ----------

  /** After a start byte, everything up to an unescaped end byte is collected, and nothing comes out. */
  lemma {:induction false} CollectsAll(cap: Capacity, x: Bytes)
    requires Plain(0x03) !in Tokenise(x) && (cap.None? || 1 + |x| <= cap.value)
    ensures After(cap, Initial, [0x02] + x) == Parser([0x02] + x, Dangling(x))
    ensures Outputs(cap, Initial, [0x02] + x) == []
  {
    hide After, Outputs, Tokenise, Dangling;
    TokeniseShort();
    if x == [] {
      RunByte(cap, Initial, 0x02);
      assert [0x02] + x == [0x02];
    } else {
      var front, b := x[..|x| - 1], x[|x| - 1];
      assert x == front + [b] && [0x02] + x == ([0x02] + front) + [b];
      TokeniseSnoc(front, b);
      CollectsAll(cap, front);
      RunConcat(cap, Initial, [0x02] + front, [b]);
      RunByte(cap, Parser([0x02] + front, Dangling(front)), b);
    }
  }

  /** The byte that overflows the buffer takes the whole frame and itself away: what follows is received as if
      nothing had come before. */
  lemma OverflowRestarts(size: nat, x: Bytes, b: UInt8, s: Bytes)
    requires size >= 1 && 1 + |x| == size && Plain(0x03) !in Tokenise(x)
    ensures After(Some(size), Initial, [0x02] + x + [b]) == Initial
    ensures Outputs(Some(size), Initial, [0x02] + x + [b] + s) == Outputs(Some(size), Initial, s)
  {
    hide After, Outputs, Tokenise, Dangling;
    var cap, full := Some(size), [0x02] + x;
    CollectsAll(cap, x);
    RunByte(cap, Parser(full, Dangling(x)), b);
    RunConcat(cap, Initial, full, [b]);
    RunConcat(cap, Initial, full + [b], s);
    assert [] + Outputs(cap, Initial, s) == Outputs(cap, Initial, s);
  }
}
