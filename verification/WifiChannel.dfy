// The Noise channel as a pair of functions indexed by the message counter.
module WifiChannel {
  import opened Wrappers
  import opened WifiFrames

  type Seal = (nat, Bytes) -> Bytes

  type Open = (nat, Bytes) -> Option<Bytes>

  const COUNTER_LIMIT: nat := 0x1_0000_0000_0000_0000

  /** An ideal authenticated channel: sealing adds the tag, only what was sealed under a counter opens under
      it, and different 64-bit counters give different ciphertexts. */
  ghost predicate IsChannel(seal: Seal, open: Open) {
    && (forall n, p :: |seal(n, p)| == |p| + NOISE_TAG_LEN && open(n, seal(n, p)) == Some(p))
    && (forall n, c :: open(n, c).Some? ==> seal(n, open(n, c).value) == c)
    && (forall n: nat, p, m: nat, q :: n < COUNTER_LIMIT && m < COUNTER_LIMIT && seal(n, p) == seal(m, q) ==> n == m)
  }

  // There are such channels: the counter itself, written out, can serve as the tag.

  function Digits(n: nat, width: nat): (s: Bytes)
    ensures |s| == width
  {
    if width == 0 then [] else [(n % 256) as UInt8] + Digits(n / 256, width - 1)
  }

  function PlainSeal(n: nat, p: Bytes): Bytes {
    p + Digits(n, NOISE_TAG_LEN)
  }

  function PlainOpen(n: nat, c: Bytes): Option<Bytes> {
    if |c| >= NOISE_TAG_LEN && c[|c| - NOISE_TAG_LEN..] == Digits(n, NOISE_TAG_LEN)
    then Some(c[..|c| - NOISE_TAG_LEN]) else None
  }

  function Power256(width: nat): (n: nat)
    ensures n > 0
  {
    if width == 0 then 1 else 256 * Power256(width - 1)
  }

  lemma {:induction false} DigitsDecide(n: nat, m: nat, width: nat, limit: nat)
    requires Digits(n, width) == Digits(m, width) && n < limit && m < limit && limit <= Power256(width)
    ensures n == m
  {
    if width > 0 {
      var a, b := Digits(n, width), Digits(m, width);
      assert a[1..] == Digits(n / 256, width - 1) && b[1..] == Digits(m / 256, width - 1);
      assert a[0] == b[0];
      DigitsDecide(n / 256, m / 256, width - 1, Power256(width - 1));
    }
  }

  lemma ChannelsExist()
    ensures IsChannel(PlainSeal, PlainOpen)
  {
    forall n: nat, p, m: nat, q | n < COUNTER_LIMIT && m < COUNTER_LIMIT && PlainSeal(n, p) == PlainSeal(m, q)
      ensures n == m
    {
      assert PlainSeal(n, p)[|p|..] == Digits(n, NOISE_TAG_LEN) && PlainSeal(m, q)[|q|..] == Digits(m, NOISE_TAG_LEN);
      assert Power256(4) == 0x1_0000_0000 && Power256(8) == COUNTER_LIMIT;
      assert Power256(12) >= Power256(8) && Power256(16) >= Power256(12);
      DigitsDecide(n, m, NOISE_TAG_LEN, COUNTER_LIMIT);
    }
    forall n, p ensures PlainOpen(n, PlainSeal(n, p)) == Some(p) {
      var c := PlainSeal(n, p);
      assert c[|c| - NOISE_TAG_LEN..] == Digits(n, NOISE_TAG_LEN) && c[..|c| - NOISE_TAG_LEN] == p;
    }
    forall n, c | PlainOpen(n, c).Some? ensures PlainSeal(n, PlainOpen(n, c).value) == c {
      assert c == c[..|c| - NOISE_TAG_LEN] + c[|c| - NOISE_TAG_LEN..];
    }
  }
}
