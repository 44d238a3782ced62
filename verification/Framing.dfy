// STX/ETX/DLE framing of USB payloads: what an encoder writes, what a token is,
// and the grammar that says which payloads a byte stream contains.
module Framing {
  import opened Wrappers

  type Bytes = seq<UInt8>

  const CONTROL_CHAR_STX: UInt8 := 0x02
  const CONTROL_CHAR_ETX: UInt8 := 0x03
  const CONTROL_CHAR_DLE: UInt8 := 0x10
  const FRAME_SIZE_MIN := 2

  datatype FrameError = InsufficientData

  /** Bytes that the encoder prefixes with DLE. */
  predicate IsSpecial(b: UInt8) {
    b == CONTROL_CHAR_STX || b == CONTROL_CHAR_ETX || b == CONTROL_CHAR_DLE
  }

  function Specials(payload: Bytes): nat {
    if payload == [] then 0 else (if IsSpecial(payload[0]) then 1 else 0) + Specials(payload[1..])
  }

  /** The one or two bytes that stand for `b` inside a frame. */
  function Unit(b: UInt8): Bytes {
    if IsSpecial(b) then [CONTROL_CHAR_DLE, b] else [b]
  }

  function Escape(payload: Bytes): Bytes {
    if payload == [] then [] else Unit(payload[0]) + Escape(payload[1..])
  }

  function Frame(payload: Bytes): Bytes {
    [CONTROL_CHAR_STX] + Escape(payload) + [CONTROL_CHAR_ETX]
  }

  function Frames(payloads: seq<Bytes>): Bytes {
    if payloads == [] then [] else Frame(payloads[0]) + Frames(payloads[1..])
  }

  /** What the receiver sees: a byte taken literally after DLE, or a byte on its own. */
  datatype Token = Plain(b: UInt8) | Escaped(b: UInt8)

  /** Whole tokens of a stream; a trailing DLE with nothing after it is no token. */
  function Tokenise(s: Bytes): seq<Token> {
    if s == [] then []
    else if s[0] != CONTROL_CHAR_DLE then [Plain(s[0])] + Tokenise(s[1..])
    else if |s| == 1 then []
    else [Escaped(s[1])] + Tokenise(s[2..])
  }

  /** The stream ends in the middle of an escape pair. */
  predicate Dangling(s: Bytes) {
    s != [] &&
    if s[0] != CONTROL_CHAR_DLE then Dangling(s[1..])
    else |s| == 1 || Dangling(s[2..])
  }

  function Literals(ts: seq<Token>): Bytes {
    seq(|ts|, i requires 0 <= i < |ts| => ts[i].b)
  }

  function Unescape(s: Bytes): Bytes {
    Literals(Tokenise(s))
  }

  function Unframe(frame: Bytes): Result<Bytes, FrameError> {
    if |frame| < FRAME_SIZE_MIN then Err(InsufficientData)
    else if frame[0] != CONTROL_CHAR_STX || frame[|frame| - 1] != CONTROL_CHAR_ETX then Err(InsufficientData)
    else Ok(Unescape(frame[1..|frame| - 1]))
  }

  /** Position of the first control byte `b`, or the length when there is none. */
  function Find(ts: seq<Token>, b: UInt8): (i: nat)
    ensures i <= |ts|
    ensures i < |ts| ==> ts[i] == Plain(b)
    ensures Plain(b) !in ts[..i]
  {
    if ts == [] then 0
    else if ts[0] == Plain(b) then 0
    else
      var i := Find(ts[1..], b);
      assert ts[..1 + i] == [ts[0]] + ts[1..][..i];
      1 + i
  }

  /** The payloads in a token stream: skip to a control STX, collect to the next control ETX, repeat. */
  function Grammar(ts: seq<Token>): seq<Bytes> {
    var start := Find(ts, CONTROL_CHAR_STX);
    if start == |ts| then [] else Collect(ts[start + 1..])
  }

  function Collect(ts: seq<Token>): seq<Bytes> {
    var end := Find(ts, CONTROL_CHAR_ETX);
    if end == |ts| then [] else [Literals(ts[..end])] + Grammar(ts[end + 1..])
  }

  // ---------- Escaping ----------

  lemma {:induction false} SpecialsCounted(p: Bytes)
    ensures Specials(p) == multiset(p)[0x02] + multiset(p)[0x03] + multiset(p)[0x10]
  {
    if p != [] {
      SpecialsCounted(p[1..]);
      assert p == [p[0]] + p[1..];
    }
  }

  /** What escaping costs, by counting the three control bytes in the payload. */
  lemma {:induction false} EscapeLength(p: Bytes)
    ensures |Escape(p)| == |p| + Specials(p)
    ensures |Frame(p)| == 2 + |p| + Specials(p)
    ensures |Frame(p)| == 2 + |p| + multiset(p)[0x02] + multiset(p)[0x03] + multiset(p)[0x10]
  {
    SpecialsCounted(p);
    if p != [] { EscapeLength(p[1..]); }
  }

  lemma {:induction false} EscapePlain(p: Bytes)
    requires 0x02 !in p && 0x03 !in p && 0x10 !in p
    ensures Escape(p) == p
  {
    if p != [] { EscapePlain(p[1..]); }
  }

  /** A frame is its payload between 0x02 and 0x03 exactly when the payload holds none of the three. */
  lemma PlainFrameIff(p: Bytes)
    ensures Frame(p) == [0x02] + p + [0x03] <==> 0x02 !in p && 0x03 !in p && 0x10 !in p
  {
    EscapeLength(p);
    if 0x02 !in p && 0x03 !in p && 0x10 !in p { EscapePlain(p); }
  }

  lemma EscapeCons(b: UInt8, p: Bytes)
    ensures Escape([]) == []
    ensures Escape([b] + p) == Unit(b) + Escape(p)
  {
    assert ([b] + p)[1..] == p;
  }

  lemma {:induction false} EscapeConcat(p: Bytes, q: Bytes)
    ensures Escape(p + q) == Escape(p) + Escape(q)
  {
    hide Escape;
    if p == [] {
      EscapeCons(0, []);
      assert p + q == q;
    } else {
      var b, tail := p[0], p[1..];
      assert p == [b] + tail && p + q == [b] + (tail + q);
      EscapeCons(b, tail);
      EscapeCons(b, tail + q);
      EscapeConcat(tail, q);
    }
  }

  lemma EscapeSnoc(p: Bytes, b: UInt8)
    ensures Escape(p + [b]) == Escape(p) + Unit(b)
  {
    EscapeConcat(p, [b]);
    EscapeCons(b, []);
    assert [b] + [] == [b];
  }

  /** The token that `Unit(b)` reads back as. */
  function UnitToken(b: UInt8): Token {
    if IsSpecial(b) then Escaped(b) else Plain(b)
  }

  function EscapedTokens(p: Bytes): seq<Token> {
    seq(|p|, i requires 0 <= i < |p| => UnitToken(p[i]))
  }

  lemma EscapedTokensMeaning(p: Bytes)
    ensures Literals(EscapedTokens(p)) == p
    ensures Plain(CONTROL_CHAR_STX) !in EscapedTokens(p) && Plain(CONTROL_CHAR_ETX) !in EscapedTokens(p)
  {
  }

  lemma TokeniseUnit(b: UInt8, tail: Bytes)
    ensures Tokenise(Unit(b) + tail) == [UnitToken(b)] + Tokenise(tail)
  {
    var s := Unit(b) + tail;
    assert s[|Unit(b)|..] == tail;
  }

  /** Escaped text reads back as one token per payload byte, none of them a delimiter. */
  lemma {:induction false} TokeniseEscape(p: Bytes, rest: Bytes)
    ensures Tokenise(Escape(p) + rest) == EscapedTokens(p) + Tokenise(rest)
    ensures Plain(CONTROL_CHAR_STX) !in EscapedTokens(p) && Plain(CONTROL_CHAR_ETX) !in EscapedTokens(p)
  {
    hide Tokenise;
    if p == [] {
      assert Escape(p) + rest == rest;
    } else {
      var head, front, tail := [UnitToken(p[0])], Escape(p[1..]), EscapedTokens(p[1..]);
      assert EscapedTokens(p) == head + tail;
      assert Escape(p) + rest == Unit(p[0]) + (front + rest);
      TokeniseEscape(p[1..], rest);
      TokeniseUnit(p[0], front + rest);
    }
  }

  lemma UnescapeEscape(p: Bytes)
    ensures Unescape(Escape(p)) == p
  {
    TokeniseEscape(p, []);
    EscapedTokensMeaning(p);
    assert Escape(p) + [] == Escape(p);
    assert EscapedTokens(p) + Tokenise([]) == EscapedTokens(p);
  }

  /** Batch round trip. */
  lemma UnframeFrame(p: Bytes)
    ensures Unframe(Frame(p)) == Ok(p)
  {
    UnescapeEscape(p);
    var f := Frame(p);
    assert f[1..|f| - 1] == Escape(p);
  }

  /** The texts refused as frames, which are those without both delimiters at their ends. */
  lemma UnframeErrs(frame: Bytes)
    ensures Unframe(frame).Err? <==> !exists s: Bytes :: frame == [0x02] + s + [0x03]
  {
    if Unframe(frame).Ok? {
      assert frame == [0x02] + frame[1..|frame| - 1] + [0x03];
    }
  }

  // ---------- Tokens of a concatenation ----------

  lemma TokeniseCons(b: UInt8, s: Bytes)
    ensures b != CONTROL_CHAR_DLE ==> Tokenise([b] + s) == [Plain(b)] + Tokenise(s) && Dangling([b] + s) == Dangling(s)
    ensures Tokenise([CONTROL_CHAR_DLE, b] + s) == [Escaped(b)] + Tokenise(s)
    ensures Dangling([CONTROL_CHAR_DLE, b] + s) == Dangling(s)
  {
    assert ([b] + s)[1..] == s;
    assert ([CONTROL_CHAR_DLE, b] + s)[2..] == s;
  }

  lemma TokeniseShort()
    ensures Tokenise([]) == [] && !Dangling([])
    ensures Tokenise([CONTROL_CHAR_DLE]) == [] && Dangling([CONTROL_CHAR_DLE])
  {
  }

  lemma {:induction false} TokeniseConcat(a: Bytes, b: Bytes)
    requires !Dangling(a)
    ensures Tokenise(a + b) == Tokenise(a) + Tokenise(b)
    ensures Dangling(a + b) == Dangling(b)
    decreases |a|
  {
    hide Tokenise, Dangling;
    TokeniseShort();
    if a == [] {
      assert a + b == b;
    } else if a[0] != CONTROL_CHAR_DLE {
      var tail := a[1..];
      TokeniseCons(a[0], tail);
      TokeniseCons(a[0], tail + b);
      assert a == [a[0]] + tail && a + b == [a[0]] + (tail + b);
      TokeniseConcat(tail, b);
    } else {
      assert a != [CONTROL_CHAR_DLE];
      var tail := a[2..];
      TokeniseCons(a[1], tail);
      TokeniseCons(a[1], tail + b);
      assert a == [CONTROL_CHAR_DLE, a[1]] + tail && a + b == [CONTROL_CHAR_DLE, a[1]] + (tail + b);
      TokeniseConcat(tail, b);
    }
  }

  lemma {:induction false} DanglingSplit(a: Bytes)
    requires Dangling(a)
    ensures a != [] && a[|a| - 1] == CONTROL_CHAR_DLE
    ensures !Dangling(a[..|a| - 1])
    ensures Tokenise(a[..|a| - 1]) == Tokenise(a)
    decreases |a|
  {
    var n := |a| - 1;
    if a[0] != CONTROL_CHAR_DLE {
      DanglingSplit(a[1..]);
      assert a[..n][1..] == a[1..][..n - 1];
    } else if |a| > 1 {
      DanglingSplit(a[2..]);
      assert a[..n][2..] == a[2..][..n - 2];
    }
  }

  /** One more byte either completes a pair, opens one, or is a token of its own. */
  lemma TokeniseSnoc(a: Bytes, b: UInt8)
    ensures Tokenise(a + [b]) ==
            Tokenise(a) + (if Dangling(a) then [Escaped(b)] else if b == CONTROL_CHAR_DLE then [] else [Plain(b)])
    ensures Dangling(a + [b]) == (!Dangling(a) && b == CONTROL_CHAR_DLE)
  {
    if Dangling(a) {
      DanglingSplit(a);
      var front := a[..|a| - 1];
      TokeniseConcat(front, [CONTROL_CHAR_DLE, b]);
      assert a + [b] == front + [CONTROL_CHAR_DLE, b];
      assert [CONTROL_CHAR_DLE, b][2..] == [];
    } else {
      TokeniseConcat(a, [b]);
      assert [b][1..] == [];
    }
  }

  /** Unescaping, byte by byte: what follows a control 0x10 is kept whatever it is, and a 0x10 cut off is dropped. */
  lemma UnescapeSnoc(a: Bytes, b: UInt8)
    ensures Unescape([]) == []
    ensures Unescape(a + [b]) == Unescape(a) + (if Dangling(a) || b != 0x10 then [b] else [])
  {
    hide Tokenise, Dangling;
    TokeniseShort();
    TokeniseSnoc(a, b);
    var before, after := Tokenise(a), Tokenise(a + [b]);
    assert after == before || Literals(after) == Literals(before) + [b];
  }

  lemma {:induction false} TokenCount(s: Bytes)
    ensures |Tokenise(s)| <= |s|
    decreases |s|
  {
    if s == [] {
    } else if s[0] != CONTROL_CHAR_DLE {
      TokenCount(s[1..]);
    } else if |s| > 1 {
      TokenCount(s[2..]);
    }
  }

  lemma {:induction false} FindIs(ts: seq<Token>, b: UInt8, rest: seq<Token>)
    requires Plain(b) !in ts
    ensures Find(ts + rest, b) == |ts| + Find(rest, b)
  {
    if ts == [] {
      assert ts + rest == rest;
    } else {
      FindIs(ts[1..], b, rest);
      assert (ts + rest)[1..] == ts[1..] + rest;
    }
  }

  lemma CollectToEnd(inner: seq<Token>, tail: seq<Token>)
    requires Plain(CONTROL_CHAR_ETX) !in inner
    ensures Collect(inner + ([Plain(CONTROL_CHAR_ETX)] + tail)) == [Literals(inner)] + Grammar(tail)
  {
    FindIs(inner, CONTROL_CHAR_ETX, [Plain(CONTROL_CHAR_ETX)] + tail);
    var ts := inner + ([Plain(CONTROL_CHAR_ETX)] + tail);
    assert ts[..|inner|] == inner && ts[|inner| + 1..] == tail;
  }

  lemma GrammarStarts(inner: seq<Token>)
    ensures Grammar([Plain(CONTROL_CHAR_STX)] + inner) == Collect(inner)
  {
    assert ([Plain(CONTROL_CHAR_STX)] + inner)[1..] == inner;
  }

  /** A frame contributes exactly its payload to the grammar of whatever follows. */
  lemma GrammarFrame(p: Bytes, rest: Bytes)
    ensures Grammar(Tokenise(Frame(p) + rest)) == [p] + Grammar(Tokenise(rest))
  {
    hide Tokenise, Grammar, Collect, Dangling, Escape;
    var inner := Escape(p) + ([CONTROL_CHAR_ETX] + rest);
    assert Frame(p) + rest == [CONTROL_CHAR_STX] + inner;
    TokeniseCons(CONTROL_CHAR_STX, inner);
    TokeniseCons(CONTROL_CHAR_ETX, rest);
    GrammarStarts(Tokenise(inner));
    TokeniseEscape(p, [CONTROL_CHAR_ETX] + rest);
    EscapedTokensMeaning(p);
    CollectToEnd(EscapedTokens(p), Tokenise(rest));
  }

  /** The grammar reads a concatenation of frames as exactly the payloads framed. */
  lemma {:induction false} GrammarFrames(ps: seq<Bytes>)
    ensures Grammar(Tokenise(Frames(ps))) == ps
  {
    if ps != [] {
      GrammarFrame(ps[0], Frames(ps[1..]));
      GrammarFrames(ps[1..]);
    }
  }

  lemma FramesInjective(ps: seq<Bytes>, qs: seq<Bytes>)
    requires Frames(ps) == Frames(qs)
    ensures ps == qs
  {
    GrammarFrames(ps);
    GrammarFrames(qs);
  }
}
