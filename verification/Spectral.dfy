// Downloading an emitter's spectral samples in batches from a device that may answer anything.
module Spectral {
  import opened Wrappers

  const SPECTRAL_SAMPLE_BATCH_SIZE: nat := 32
  const DEFAULT_SAMPLE_COUNT: nat := 401
  const U32_LIMIT: nat := 0x1_0000_0000

  datatype Failure = UnexpectedResponse | InsufficientData | Remote

  /** A batch, an answer of another kind, or a failed command. */
  datatype Reply<S> = Batch(samples: seq<S>) | Other | Failed

  /** `Overflow` is the addition `offset + 32` leaving the 32-bit range. */
  datatype Outcome<S> = Done(samples: seq<S>) | Stopped(error: Failure) | Overflow

  datatype CountReply = Count(value: nat) | OtherCount | CountFailed

  /** A device: its answer to the count command and to the command for each range. No range is asked twice. */
  datatype Device<!S> = Device(count: CountReply, batch: (nat, nat) -> Reply<S>)

  datatype Range = Range(start: nat, end: nat)

  function Min(a: nat, b: nat): nat {
    if a < b then a else b
  }

  /** The k-th range of a download of `count` samples. */
  function RangeAt(count: nat, k: nat): Range {
    Range(k * SPECTRAL_SAMPLE_BATCH_SIZE, Min(count, (k + 1) * SPECTRAL_SAMPLE_BATCH_SIZE))
  }

  function Ask<S>(d: Device<S>, r: Range): Reply<S> {
    d.batch(r.start, r.end)
  }

  /** The samples of the first `k` answers. */
  function Collected<S>(d: Device<S>, count: nat, k: nat): seq<S> {
    if k == 0 then []
    else
      Collected(d, count, k - 1) + match Ask(d, RangeAt(count, k - 1)) case Batch(samples) => samples case _ => []
  }

  /** The first `k` answers are batches, and together hold no more than the buffer. */
  ghost predicate Fits<S>(d: Device<S>, count: nat, k: nat) {
    (forall j :: 0 <= j < k ==> Ask(d, RangeAt(count, j)).Batch?) && |Collected(d, count, k)| <= DEFAULT_SAMPLE_COUNT
  }

  function BatchCount(count: nat): nat {
    (count + SPECTRAL_SAMPLE_BATCH_SIZE - 1) / SPECTRAL_SAMPLE_BATCH_SIZE
  }

  lemma {:induction false} CollectedGrows<S>(d: Device<S>, count: nat, k: nat, n: nat)
    requires k <= n
    ensures |Collected(d, count, k)| <= |Collected(d, count, n)|
    decreases n
  {
    if k < n { CollectedGrows(d, count, k, n - 1); }
  }

  lemma NoBatches<S>(d: Device<S>, count: nat)
    ensures Fits(d, count, 0) && Collected(d, count, 0) == []
  {
  }

  lemma NextBatch<S>(d: Device<S>, count: nat, k: nat)
    requires Fits(d, count, k) && Ask(d, RangeAt(count, k)).Batch?
    ensures |Collected(d, count, k)| <= DEFAULT_SAMPLE_COUNT
    ensures Collected(d, count, k + 1) == Collected(d, count, k) + Ask(d, RangeAt(count, k)).samples
    ensures Fits(d, count, k + 1) <==> |Collected(d, count, k + 1)| <= DEFAULT_SAMPLE_COUNT
  {
  }

  /** What the k-th answer does to a download whose earlier answers fitted. */
  ghost predicate StopsAt<S>(d: Device<S>, count: nat, k: nat, error: Failure) {
    && k < BatchCount(count) && Fits(d, count, k)
    && match Ask(d, RangeAt(count, k))
       case Other => error == UnexpectedResponse
       case Failed => error == Remote
       case Batch(_) => error == InsufficientData && |Collected(d, count, k + 1)| > DEFAULT_SAMPLE_COUNT
  }

  /** The four ways a download can end, and the number of ranges asked for by then. */
  ghost predicate Ends<S>(d: Device<S>, outcome: Outcome<S>, asked: nat) {
    if d.count.OtherCount? then outcome == Stopped(UnexpectedResponse) && asked == 0
    else if d.count.CountFailed? then outcome == Stopped(Remote) && asked == 0
    else
      var count := d.count.value;
      match outcome
      case Done(samples) =>
        && count <= U32_LIMIT - 32 && asked == BatchCount(count)
        && Fits(d, count, asked) && samples == Collected(d, count, asked)
      case Stopped(error) =>
        0 < asked < U32_LIMIT / 32 && StopsAt(d, count, asked - 1, error)
      case Overflow =>
        count > U32_LIMIT - 32 && asked == U32_LIMIT / 32 - 1 && Fits(d, count, asked)
  }

  /** Pushes a batch sample by sample until the buffer is full. */
  method PushAll<S>(samples: seq<S>, batch: seq<S>) returns (fits: bool, extended: seq<S>)
    requires |samples| <= DEFAULT_SAMPLE_COUNT
    ensures fits <==> |samples| + |batch| <= DEFAULT_SAMPLE_COUNT
    ensures extended <= samples + batch && |extended| <= DEFAULT_SAMPLE_COUNT
    ensures if fits then extended == samples + batch else |extended| == DEFAULT_SAMPLE_COUNT
  {
    extended := samples;
    for i := 0 to |batch|
      invariant extended == samples + batch[..i] && |extended| <= DEFAULT_SAMPLE_COUNT
    {
      if |extended| == DEFAULT_SAMPLE_COUNT {
        return false, extended;
      }
      extended := extended + [batch[i]];
    }
    assert batch[..|batch|] == batch;
    fits := true;
  }

  /** Downloads batch after batch into a buffer of fixed capacity. The ranges asked for are those of the count,
      in order. */
  method SpectralData<S>(d: Device<S>) returns (outcome: Outcome<S>, asked: seq<Range>)
    requires d.count.Count? ==> d.count.value < U32_LIMIT
    ensures Ends(d, outcome, |asked|)
    ensures forall k :: 0 <= k < |asked| ==> asked[k] == RangeAt(d.count.value, k)
  {
    hide Fits, Collected;
    asked := [];
    if d.count.CountFailed? {
      return Stopped(Remote), asked;
    }
    if d.count.OtherCount? {
      return Stopped(UnexpectedResponse), asked;
    }
    var count := d.count.value;
    var samples: seq<S> := [];
    var offset: nat := 0;
    NoBatches(d, count);
    while offset < count
      invariant offset == Min(count, |asked| * SPECTRAL_SAMPLE_BATCH_SIZE)
      invariant offset <= U32_LIMIT - 32 || offset == count
      invariant offset < count ==> |asked| < BatchCount(count)
      invariant |asked| <= BatchCount(count)
      invariant forall k :: 0 <= k < |asked| ==> asked[k] == RangeAt(count, k)
      invariant Fits(d, count, |asked|) && samples == Collected(d, count, |asked|)
      invariant offset == count ==> count <= U32_LIMIT - 32
      decreases count - offset
    {
      if offset + SPECTRAL_SAMPLE_BATCH_SIZE >= U32_LIMIT {
        return Overflow, asked;
      }
      var end := Min(count, offset + SPECTRAL_SAMPLE_BATCH_SIZE);
      ghost var k := |asked|;
      assert RangeAt(count, k) == Range(offset, end);
      asked := asked + [Range(offset, end)];
      var reply := d.batch(offset, end);
      assert reply == Ask(d, RangeAt(count, k));
      match reply {
        case Other => return Stopped(UnexpectedResponse), asked;
        case Failed => return Stopped(Remote), asked;
        case Batch(batch) =>
          NextBatch(d, count, k);
          var fits;
          fits, samples := PushAll(samples, batch);
          if !fits {
            return Stopped(InsufficientData), asked;
          }
      }
      offset := end;
    }
    outcome := Done(samples);
  }

  // ---------- A faithful device ----------

  /** It has `data`, says so, and answers a range with the samples in it. */
  ghost predicate IsFaithful<S>(d: Device<S>, data: seq<S>) {
    d.count == Count(|data|) && |data| < U32_LIMIT &&
    forall a, b :: 0 <= a <= b <= |data| ==> d.batch(a, b) == Batch(data[a..b])
  }

  lemma {:induction false} FaithfulCollects<S>(d: Device<S>, data: seq<S>, k: nat)
    requires IsFaithful(d, data) && k <= BatchCount(|data|)
    ensures Collected(d, |data|, k) == data[..Min(|data|, k * SPECTRAL_SAMPLE_BATCH_SIZE)]
    ensures forall j :: 0 <= j < k ==> Ask(d, RangeAt(|data|, j)).Batch?
  {
    if k > 0 {
      FaithfulCollects(d, data, k - 1);
      var r := RangeAt(|data|, k - 1);
      assert 0 <= r.start <= r.end <= |data|;
      assert data[..r.end] == data[..r.start] + data[r.start..r.end];
    }
  }

  /** From a faithful device the download returns the samples in order when they fit the buffer, and reports
      `InsufficientData` exactly when they do not; it never overflows. */
  lemma FaithfulOutcome<S>(d: Device<S>, data: seq<S>, outcome: Outcome<S>, asked: nat)
    requires IsFaithful(d, data) && Ends(d, outcome, asked)
    ensures outcome == if |data| <= 401 then Done(data) else Stopped(InsufficientData)
  {
    var n := |data|;
    match outcome
    case Done(_) =>
      FaithfulCollects(d, data, BatchCount(n));
      assert data[..n] == data;
    case Stopped(_) =>
      FaithfulCollects(d, data, asked);
    case Overflow =>
      FaithfulCollects(d, data, 13);
      CollectedGrows(d, n, 13, asked);
  }

  // ---------- Any device ----------

  lemma StopExcludesFit<S>(d: Device<S>, count: nat, k: nat, error: Failure, n: nat)
    requires StopsAt(d, count, k, error) && k < n
    ensures !Fits(d, count, n)
  {
    CollectedGrows(d, count, k + 1, n);
  }

  lemma StopDecides<S>(d: Device<S>, error: Failure, m: nat, b: Outcome<S>, n: nat)
    requires Ends(d, Stopped(error), m) && Ends(d, b, n) && d.count.Count?
    ensures b == Stopped(error) && m == n
  {
    var count := d.count.value;
    if m - 1 < n && Fits(d, count, n) {
      StopExcludesFit(d, count, m - 1, error, n);
    }
    if b.Stopped? && m < n {
      StopExcludesFit(d, count, m - 1, error, n - 1);
    }
    if b.Stopped? && n < m {
      StopExcludesFit(d, count, n - 1, b.error, m - 1);
    }
  }

  /** The device's answers determine how the download ends. */
  lemma EndsOneWay<S>(d: Device<S>, a: Outcome<S>, m: nat, b: Outcome<S>, n: nat)
    requires Ends(d, a, m) && Ends(d, b, n)
    ensures a == b && m == n
  {
    hide StopsAt, Fits, Collected;
    if d.count.Count? {
      var count := d.count.value;
      if a.Stopped? { StopDecides(d, a.error, m, b, n); }
      if b.Stopped? { StopDecides(d, b.error, n, a, m); }
    }
  }

  /** Exactly which devices drive the offset out of the 32-bit range: those that claim almost 2^32 samples and
      answer every request below the limit with batches that hardly fill the buffer. */
  lemma OverflowIff<S>(d: Device<S>, outcome: Outcome<S>, asked: nat)
    requires Ends(d, outcome, asked)
    ensures outcome == Overflow <==>
            d.count.Count? && d.count.value > 0xFFFF_FFE0 && Fits(d, d.count.value, 0x7FF_FFFF)
  {
    if d.count.Count? && d.count.value > U32_LIMIT - 32 && Fits(d, d.count.value, U32_LIMIT / 32 - 1) {
      EndsOneWay(d, outcome, asked, Overflow, U32_LIMIT / 32 - 1);
    }
  }

  /** A device that claims as many samples as the count can hold and answers with empty batches. */
  lemma {:induction false} EmptyBatchesFit<S>(d: Device<S>, count: nat, k: nat)
    requires forall a, b :: d.batch(a, b) == Batch([])
    ensures Fits(d, count, k) && Collected(d, count, k) == []
  {
    if k > 0 { EmptyBatchesFit(d, count, k - 1); }
  }

  lemma EmptyBatchesOverflow<S>(outcome: Outcome<S>, asked: nat)
    requires Ends(Device(Count(0xFFFF_FFFF), (a: nat, b: nat) => Batch([])), outcome, asked)
    ensures outcome == Overflow && asked == U32_LIMIT / 32 - 1
  {
    var d: Device<S> := Device(Count(0xFFFF_FFFF), (a: nat, b: nat) => Batch([]));
    EmptyBatchesFit(d, 0xFFFF_FFFF, U32_LIMIT / 32 - 1);
    EndsOneWay(d, outcome, asked, Overflow, U32_LIMIT / 32 - 1);
  }

  /** A download succeeds exactly when every answer is a batch, together they fit, and the offset stays in range. */
  lemma SucceedsIff<S>(d: Device<S>, outcome: Outcome<S>, asked: nat)
    requires Ends(d, outcome, asked)
    ensures outcome.Done? <==>
            d.count.Count? && d.count.value <= 0xFFFF_FFE0 && Fits(d, d.count.value, BatchCount(d.count.value))
  {
    if d.count.Count? && d.count.value <= U32_LIMIT - 32 && Fits(d, d.count.value, BatchCount(d.count.value)) {
      var n := BatchCount(d.count.value);
      EndsOneWay(d, outcome, asked, Done(Collected(d, d.count.value, n)), n);
    }
  }

  /** Ranges are non-empty, at most a batch wide, start where the one before ended, and cover the count. */
  lemma RangesTile(count: nat, k: nat)
    requires k < BatchCount(count)
    ensures var r := RangeAt(count, k);
            && r.start < r.end <= r.start + 32 && r.end <= count
            && r.start == 32 * k && (r.end < count ==> r.end == r.start + 32)
            && (k + 1 < BatchCount(count) ==> RangeAt(count, k + 1).start == r.end)
            && (k + 1 == BatchCount(count) ==> r.end == count)
  {
  }

  lemma BatchesCollect<S>(d: Device<S>, count: nat, k: nat)
    requires Fits(d, count, k) && k < BatchCount(count)
    ensures |Collected(d, count, k)| <= 401
    ensures Ask(d, RangeAt(count, k)) == d.batch(32 * k, if count < 32 * k + 32 then count else 32 * k + 32)
    ensures Ask(d, RangeAt(count, k)).Batch? ==>
              Collected(d, count, k + 1) == Collected(d, count, k) + Ask(d, RangeAt(count, k)).samples
  {
  }

  /** Why a download was stopped: by the answer to the count, or by the answer to the last range asked for, which is
      no batch, or is one that does not fit behind the samples collected before it. */
  lemma StoppedBecause<S>(d: Device<S>, error: Failure, asked: nat)
    requires Ends(d, Stopped(error), asked)
    ensures asked == 0 <==> !d.count.Count?
    ensures asked == 0 ==> error == if d.count.CountFailed? then Remote else UnexpectedResponse
    ensures asked > 0 ==>
              var k, count := asked - 1, d.count.value;
              var before := Collected(d, count, k);
              && 32 * k < count && |before| <= 401
              && match d.batch(32 * k, if count < 32 * k + 32 then count else 32 * k + 32)
                 case Other => error == UnexpectedResponse
                 case Failed => error == Remote
                 case Batch(samples) => error == InsufficientData && |before| + |samples| > 401
  {
    hide Collected, Fits;
    if asked > 0 { BatchesCollect(d, d.count.value, asked - 1); }
  }
}
