/**
  Candle replication: a consumer rebuilds a producer's candles from messages
  (`DataProvider._add_external_df`, `append_candles_to_dataframe`) and asks again when candles are missing
  (`ExternalMessageConsumer._consume_analyzed_df_message`).
 */
module ProducerFrames {
  import opened Integers
  import opened Results

  /** `data` stands for every column but the date. */
  datatype Candle = Candle(date: int, data: int)
  type Frame = seq<Candle>

  datatype PairKey = PairKey(pair: string, timeframe: string, candleType: string)
  datatype Entry = Entry(frame: Frame, lastAnalyzed: int)
  datatype Outcome = Stored(frame: Frame) | Rejected(missing: int)

  const FULL_DATAFRAME_THRESHOLD: nat := 100
  const KEPT_CANDLES: nat := 1500
  const FULL_REQUEST: nat := 1500

  function Last(f: Frame): Candle
    requires f != []
  {
    f[|f| - 1]
  }

  function Before(f: Frame, date: int): Frame {
    if f == [] then []
    else (if f[0].date < date then [f[0]] else []) + Before(f[1..], date)
  }

  function Tail(f: Frame, n: nat): Frame {
    if |f| > n then f[|f| - n..] else f
  }

  function AppendCandles(left: Frame, right: Frame): Frame
    requires left != [] && right != []
  {
    Tail(if Last(left).date != Last(right).date then left + right else left, KEPT_CANDLES)
  }

  /** What one message does to the frame held for its key; `timeframe` is the length of a candle. */
  function Merge(existing: Option<Frame>, incoming: Frame, timeframe: int): Outcome
    requires timeframe > 0 && (existing.Some? ==> existing.value != [])
  {
    if incoming == [] then Rejected(0)
    else if |incoming| >= FULL_DATAFRAME_THRESHOLD then Stored(incoming)
    else if existing.None? then Rejected(1000)
    else
      var difference := (incoming[0].date - Last(existing.value).date) as real / timeframe as real;
      var kept := Before(existing.value, incoming[0].date);
      if difference > 1.0 then Rejected(difference.Floor)
      else if kept == [] then Stored(incoming)
      else Stored(AppendCandles(kept, incoming))
  }

  // ---------- The consumer's store ----------

  class DataProvider {
    var producerFrames: map<string, map<PairKey, Entry>>

    ghost predicate Valid()
      reads this
    {
      forall p, k :: p in producerFrames && k in producerFrames[p] ==> producerFrames[p][k].frame != []
    }

    function Stored(producer: string, key: PairKey): Option<Frame>
      reads this
    {
      if producer in producerFrames && key in producerFrames[producer]
      then Some(producerFrames[producer][key].frame) else None
    }

    function AnalyzedAt(producer: string, key: PairKey): Option<int>
      reads this
    {
      if producer in producerFrames && key in producerFrames[producer]
      then Some(producerFrames[producer][key].lastAnalyzed) else None
    }

    constructor ()
      ensures Valid() && producerFrames == map[]
    {
      producerFrames := map[];
    }

    method ReplaceExternalDf(key: PairKey, frame: Frame, lastAnalyzed: Option<int>, now: int, producer: string)
      requires Valid() && frame != []
      modifies this
      ensures Valid()
      ensures Stored(producer, key) == Some(frame)
      ensures AnalyzedAt(producer, key) == Some(lastAnalyzed.GetOr(now))
      ensures forall p, k :: p != producer || k != key ==>
        Stored(p, k) == old(Stored(p, k)) && AnalyzedAt(p, k) == old(AnalyzedAt(p, k))
    {
      if producer !in producerFrames {
        producerFrames := producerFrames[producer := map[]];
      }
      var entry := Entry(frame, lastAnalyzed.GetOr(now));
      producerFrames := producerFrames[producer := producerFrames[producer][key := entry]];
    }

    method AddExternalDf(key: PairKey, incoming: Frame, timeframe: int, lastAnalyzed: Option<int>, now: int,
                         producer: string)
      returns (appended: bool, missing: int)
      requires Valid() && timeframe > 0
      modifies this
      ensures Valid()
      ensures match Merge(old(Stored(producer, key)), incoming, timeframe)
              case Stored(f) =>
                && appended && missing == 0 && Stored(producer, key) == Some(f)
                && AnalyzedAt(producer, key) == Some(lastAnalyzed.GetOr(now))
              case Rejected(n) => !appended && missing == n && producerFrames == old(producerFrames)
      ensures forall p, k :: p != producer || k != key ==>
        Stored(p, k) == old(Stored(p, k)) && AnalyzedAt(p, k) == old(AnalyzedAt(p, k))
    {
      if incoming == [] {
        return false, 0;
      }
      if |incoming| >= FULL_DATAFRAME_THRESHOLD {
        ReplaceExternalDf(key, incoming, lastAnalyzed, now, producer);
        return true, 0;
      }
      if producer !in producerFrames || key !in producerFrames[producer] {
        return false, 1000;
      }
      var existing := producerFrames[producer][key].frame;
      var kept := Before(existing, incoming[0].date);
      var difference := (incoming[0].date - Last(existing).date) as real / timeframe as real;
      if difference > 1.0 {
        return false, difference.Floor;
      }
      var appendedFrame := incoming;
      if kept != [] {
        appendedFrame := AppendCandles(kept, incoming);
      }
      ReplaceExternalDf(key, appendedFrame, lastAnalyzed, now, producer);
      appended, missing := true, 0;
    }

    method GetProducerDf(key: PairKey, producer: string) returns (frame: Frame, lastAnalyzed: int)
      ensures frame == Stored(producer, key).GetOr([]) && lastAnalyzed == AnalyzedAt(producer, key).GetOr(0)
    {
      if producer !in producerFrames || key !in producerFrames[producer] {
        return [], 0;
      }
      frame, lastAnalyzed := producerFrames[producer][key].frame, producerFrames[producer][key].lastAnalyzed;
    }
  }

  // ---------- Messages cut from a producer's history ----------

  /** A history has one candle per timeframe. */
  predicate Gapless(h: Frame, timeframe: int) {
    forall i :: 0 < i < |h| ==> h[i].date == h[i - 1].date + timeframe
  }

  lemma {:induction false} GaplessDates(h: Frame, timeframe: int, i: nat, j: nat)
    requires Gapless(h, timeframe) && i <= j < |h|
    ensures h[j].date - h[i].date == (j - i) * timeframe
  {
    if i < j {
      GaplessDates(h, timeframe, i, j - 1);
      assert (j - i) * timeframe == (j - 1 - i) * timeframe + timeframe;
    }
  }

  lemma GaplessOrder(h: Frame, timeframe: int, i: nat, j: nat)
    requires Gapless(h, timeframe) && timeframe > 0 && i < |h| && j < |h|
    ensures h[i].date < h[j].date <==> i < j
  {
    GaplessDates(h, timeframe, Min(i, j), Max(i, j));
    ProductIsPositive(Max(i, j) - Min(i, j), timeframe);
  }

  lemma ProductIsPositive(n: int, timeframe: int)
    requires n >= 0 && timeframe > 0
    ensures n > 0 ==> n * timeframe > 0
  {
  }

  predicate IsSlice(f: Frame, h: Frame, from: nat, to: nat) {
    from < to <= |h| && f == h[from..to]
  }

  lemma {:induction false} BeforeOnSlice(h: Frame, timeframe: int, a: nat, b: nat, c: nat)
    requires Gapless(h, timeframe) && timeframe > 0 && a <= b <= |h| && c < |h|
    ensures Before(h[a..b], h[c].date) == if c <= a then [] else h[a..Min(b, c)]
    decreases b - a
  {
    if a < b {
      assert h[a..b][0] == h[a] && h[a..b][1..] == h[a + 1..b];
      GaplessOrder(h, timeframe, a, c);
      BeforeOnSlice(h, timeframe, a + 1, b, c);
    } else {
      assert h[a..b] == [];
    }
  }

  lemma DifferenceInCandles(h: Frame, timeframe: int, b: nat, c: nat)
    requires Gapless(h, timeframe) && timeframe > 0 && 0 < b <= |h| && c < |h|
    ensures (h[c].date - h[b - 1].date) as real / timeframe as real == (c - (b - 1)) as real
  {
    if b - 1 <= c {
      GaplessDates(h, timeframe, b - 1, c);
    } else {
      GaplessDates(h, timeframe, c, b - 1);
      assert (c - (b - 1)) * timeframe == -((b - 1 - c) * timeframe);
    }
    DivideBack(c - (b - 1), timeframe);
  }

  lemma DivideBack(n: int, timeframe: int)
    requires timeframe > 0
    ensures (n * timeframe) as real / timeframe as real == n as real
  {
    assert (n * timeframe) as real == n as real * timeframe as real;
  }

  /** Exactly what a message `h[c..d]` does to a replica `h[a..b]`. */
  lemma MergeOfSlices(h: Frame, timeframe: int, a: nat, b: nat, c: nat, d: nat)
    requires Gapless(h, timeframe) && timeframe > 0 && a < b <= |h| && c < d <= |h|
    ensures Merge(Some(h[a..b]), h[c..d], timeframe) ==
      if d - c >= FULL_DATAFRAME_THRESHOLD then Stored(h[c..d])
      else if c > b then Rejected(c - b + 1)
      else if c <= a then Stored(h[c..d])
      else Stored(h[Max(a, d - KEPT_CANDLES)..d])
  {
    assert Last(h[a..b]) == h[b - 1] && h[c..d][0] == h[c];
    DifferenceInCandles(h, timeframe, b, c);
    BeforeOnSlice(h, timeframe, a, b, c);
    if a < c <= b {
      AppendOfSlices(h, timeframe, a, c, d);
    }
  }

  lemma AppendOfSlices(h: Frame, timeframe: int, a: nat, c: nat, d: nat)
    requires Gapless(h, timeframe) && timeframe > 0 && a < c < d <= |h|
    ensures AppendCandles(h[a..c], h[c..d]) == h[Max(a, d - KEPT_CANDLES)..d]
  {
    assert Last(h[a..c]) == h[c - 1] && Last(h[c..d]) == h[d - 1];
    GaplessOrder(h, timeframe, c - 1, d - 1);
    assert h[a..c] + h[c..d] == h[a..d];
    assert Tail(h[a..d], KEPT_CANDLES) == h[Max(a, d - KEPT_CANDLES)..d];
  }

  lemma AcceptedSlices(h: Frame, timeframe: int, a: nat, b: nat, c: nat, d: nat)
    requires Gapless(h, timeframe) && timeframe > 0 && a < b <= |h| && c < d <= |h|
    ensures var answer := Merge(Some(h[a..b]), h[c..d], timeframe);
      && (answer.Stored? <==> d - c >= FULL_DATAFRAME_THRESHOLD || c <= b)
      && (answer.Stored? ==> PieceEndingAt(answer.frame, h, d))
      && (answer.Rejected? ==> answer.missing == c - b + 1)
  {
    MergeOfSlices(h, timeframe, a, b, c, d);
  }

  /** An empty message is rejected without a gap, and leaves whatever is there. */
  lemma EmptyMessageIsRejected(state: Option<Frame>, timeframe: int)
    requires timeframe > 0 && (state.Some? ==> state.value != [])
    ensures Merge(state, [], timeframe) == Rejected(0) && Receive(state, [], timeframe) == state
  {
  }

  function Receive(state: Option<Frame>, message: Frame, timeframe: int): Option<Frame>
    requires timeframe > 0 && (state.Some? ==> state.value != [])
    ensures Receive(state, message, timeframe).Some? ==> Receive(state, message, timeframe).value != []
  {
    match Merge(state, message, timeframe)
    case Stored(f) => Some(f)
    case Rejected(_) => state
  }

  function Run(state: Option<Frame>, messages: seq<Frame>, timeframe: int): (r: Option<Frame>)
    requires timeframe > 0 && (state.Some? ==> state.value != [])
    ensures r.Some? ==> r.value != []
    decreases messages
  {
    if messages == [] then state
    else Run(Receive(state, messages[0], timeframe), messages[1..], timeframe)
  }

  function LongestFull(messages: seq<Frame>): nat {
    if messages == [] then 0
    else Max(if |messages[0]| >= FULL_DATAFRAME_THRESHOLD then |messages[0]| else 0, LongestFull(messages[1..]))
  }

  predicate PieceEndingAt(f: Frame, h: Frame, to: nat) {
    0 < |f| <= to <= |h| && f == h[to - |f|..to]
  }

  ghost predicate CutFrom(f: Frame, h: Frame) {
    exists from: nat, to: nat :: IsSlice(f, h, from, to)
  }

  /**
    After any run of full, partial, stale, repeated or rejected messages cut from an append-only
    history the replica is itself a non-empty, gapless piece of that history, at most 1500 candles
    or the longest full message long.
   */
  lemma {:induction false} ReplicaIsAPieceOfHistory(h: Frame, timeframe: int, state: Option<Frame>,
                                                    messages: seq<Frame>, bound: nat)
    requires Gapless(h, timeframe) && timeframe > 0
    requires forall i :: 0 <= i < |messages| ==> messages[i] == [] || CutFrom(messages[i], h)
    requires bound >= KEPT_CANDLES && bound >= LongestFull(messages)
    requires state.Some? ==> CutFrom(state.value, h) && |state.value| <= bound
    ensures var end := Run(state, messages, timeframe);
      end.Some? ==> CutFrom(end.value, h) && Gapless(end.value, timeframe) && 0 < |end.value| <= bound
    decreases messages
  {
    if messages == [] {
      if state.Some? {
        SliceIsGapless(state.value, h, timeframe);
      }
    } else {
      ReceiveKeepsPiece(h, timeframe, state, messages[0], bound);
      ReplicaIsAPieceOfHistory(h, timeframe, Receive(state, messages[0], timeframe), messages[1..], bound);
    }
  }

  lemma SliceIsGapless(f: Frame, h: Frame, timeframe: int)
    requires Gapless(h, timeframe) && CutFrom(f, h)
    ensures Gapless(f, timeframe)
  {
    var from: nat, to: nat :| IsSlice(f, h, from, to);
    forall i | 0 < i < |f|
      ensures f[i].date == f[i - 1].date + timeframe
    {
      assert f[i] == h[from + i] && f[i - 1] == h[from + i - 1];
    }
  }

  lemma ReceiveKeepsPiece(h: Frame, timeframe: int, state: Option<Frame>, message: Frame, bound: nat)
    requires Gapless(h, timeframe) && timeframe > 0 && (message == [] || CutFrom(message, h))
    requires bound >= KEPT_CANDLES && (|message| >= FULL_DATAFRAME_THRESHOLD ==> bound >= |message|)
    requires state.Some? ==> CutFrom(state.value, h) && |state.value| <= bound
    ensures var next := Receive(state, message, timeframe);
      next.Some? ==> CutFrom(next.value, h) && |next.value| <= bound
  {
    if message != [] && state.Some? {
      var a: nat, b: nat :| IsSlice(state.value, h, a, b);
      var c: nat, d: nat :| IsSlice(message, h, c, d);
      MergeOfSlices(h, timeframe, a, b, c, d);
      var from := Max(a, d - KEPT_CANDLES);
      if d - c < FULL_DATAFRAME_THRESHOLD && a < c <= b {
        assert IsSlice(h[from..d], h, from, d);
      }
    }
  }

  /**
    An accepted message decides where the replica ends, so a late or repeated message can move the
    replica back: it loses its newest candles exactly when the message is accepted and ends earlier.
   */
  lemma ReplicaMovesBackExactlyWhen(h: Frame, timeframe: int, a: nat, b: nat, c: nat, d: nat)
    requires Gapless(h, timeframe) && timeframe > 0 && a < b <= |h| && c < d <= |h|
    ensures var end := Receive(Some(h[a..b]), h[c..d], timeframe).value;
      && (Last(end).date < h[b - 1].date <==> d < b)
      && (Merge(Some(h[a..b]), h[c..d], timeframe).Stored? ==> Last(end) == h[d - 1])
  {
    MergeOfSlices(h, timeframe, a, b, c, d);
    GaplessOrder(h, timeframe, d - 1, b - 1);
    assert Last(h[a..b]) == h[b - 1] && Last(h[c..d]) == h[d - 1];
    if a < c <= b {
      var from := Max(a, d - KEPT_CANDLES);
      assert Last(h[from..d]) == h[d - 1];
    }
  }

  // ---------- Recovery ----------

  /** How many candles the consumer asks for after a rejection. */
  function RequestLimit(missing: int): int {
    if missing + 1 < FULL_DATAFRAME_THRESHOLD then missing + 1 else FULL_REQUEST
  }

  /** The producer's answer when its own frame is `h[p..m]`: its last `limit` candles. */
  function Reply(h: Frame, p: nat, m: nat, limit: int): Frame
    requires p <= m <= |h| && limit > 0
  {
    h[ReplyStart(p, m, limit)..m]
  }

  function ReplyStart(p: nat, m: nat, limit: int): (c: nat)
    requires p <= m && limit > 0
    ensures c <= m && (p < m ==> c < m)
  {
    Max(p, m - Min(limit, FULL_REQUEST))
  }

  /**
    After the rejection of candle `k` by the replica `h[a..b]`: an answer without delay starts with the
    newest candle of the replica, so that the two overlap by one, or, from a hundred candles on, has
    everything a full request gets.
   */
  lemma RequestOverlapsByOne(b: nat, k: nat, p: nat)
    requires b < k && p < b
    ensures var limit := RequestLimit(k - b + 1);
      if k - b + 2 < FULL_DATAFRAME_THRESHOLD then ReplyStart(p, k + 1, limit) == b - 1
      else limit == 1500 && ReplyStart(p, k + 1, limit) == Max(p, k + 1 - 1500)
  {
  }

  predicate Recovers(b: nat, k: nat, p: nat, m: nat) {
    if p <= b then m <= k + 2 || k - b + 2 >= FULL_DATAFRAME_THRESHOLD
    else k - b + 2 >= FULL_DATAFRAME_THRESHOLD && m - p >= FULL_DATAFRAME_THRESHOLD
  }

  /**
    One round of recovery. Candle `k` does not continue the replica `h[a..b]`; the consumer asks for what
    it misses, and the producer, whose frame by then is `h[p..m]`, answers. While the producer's frame
    reaches back to the first missing candle, the answer is accepted exactly when at most one more
    candle closed meanwhile or the gap is so large that a full frame was requested; otherwise exactly
    when a full frame was requested and the producer has a hundred candles. Then the replica is
    gapless up to the producer's newest candle.
   */
  lemma GapRecovery(h: Frame, timeframe: int, a: nat, b: nat, k: nat, p: nat, m: nat)
    requires Gapless(h, timeframe) && timeframe > 0 && a < b < k < m <= |h| && p < m
    ensures Merge(Some(h[a..b]), h[k..k + 1], timeframe) == Rejected(k - b + 1)
    ensures var limit := RequestLimit(k - b + 1);
      var answer := Merge(Some(h[a..b]), Reply(h, p, m, limit), timeframe);
      && (answer.Stored? <==> Recovers(b, k, p, m))
      && (answer.Stored? ==> PieceEndingAt(answer.frame, h, m))
  {
    AcceptedSlices(h, timeframe, a, b, k, k + 1);
    AcceptedSlices(h, timeframe, a, b, ReplyStart(p, m, RequestLimit(k - b + 1)), m);
    RecoveryWindow(b, k, p, m);
  }

  lemma RecoveryWindow(b: nat, k: nat, p: nat, m: nat)
    requires b < k < m && p < m
    ensures var c := ReplyStart(p, m, RequestLimit(k - b + 1));
      (m - c >= FULL_DATAFRAME_THRESHOLD || c <= b) <==> Recovers(b, k, p, m)
  {
  }

  /** The producer's last `n` candles ending at the rejected one always continue the replica. */
  lemma MissingCandlesAreEnough(h: Frame, timeframe: int, a: nat, b: nat, k: nat)
    requires Gapless(h, timeframe) && timeframe > 0 && a < b < k < |h|
    ensures Merge(Some(h[a..b]), h[k..k + 1], timeframe).Rejected?
    ensures var n := Merge(Some(h[a..b]), h[k..k + 1], timeframe).missing;
      && 0 < n <= k + 1
      && var answer := Merge(Some(h[a..b]), h[k + 1 - n..k + 1], timeframe);
         && answer.Stored?
         && PieceEndingAt(answer.frame, h, k + 1)
  {
    AcceptedSlices(h, timeframe, a, b, k, k + 1);
    AnswerContinues(h, timeframe, a, b, k, Merge(Some(h[a..b]), h[k..k + 1], timeframe).missing);
  }

  lemma AnswerContinues(h: Frame, timeframe: int, a: nat, b: nat, k: nat, n: int)
    requires Gapless(h, timeframe) && timeframe > 0 && a < b < k < |h| && n == k + 1 - b
    ensures var answer := Merge(Some(h[a..b]), h[k + 1 - n..k + 1], timeframe);
      answer.Stored? && PieceEndingAt(answer.frame, h, k + 1)
  {
    AcceptedSlices(h, timeframe, a, b, k + 1 - n, k + 1);
  }

  /** Without a frame the consumer asks for everything, and is served only once there are 100 candles. */
  lemma FirstFrameNeedsAHundredCandles(h: Frame, timeframe: int, p: nat, m: nat)
    requires timeframe > 0 && p < m <= |h|
    ensures Merge(None, [h[m - 1]], timeframe) == Rejected(1000)
    ensures Merge(None, Reply(h, p, m, RequestLimit(1000)), timeframe).Stored?
      <==> m - p >= FULL_DATAFRAME_THRESHOLD
  {
  }
}
