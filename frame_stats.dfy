/**
 * The frame-time batcher of the viewer's redraw (vello/src/main.rs:104-120):
 * each redraw pushes its duration onto `stats`; when the buffer reaches
 * FRAME_STATS_CAPACITY it is drained as a whole and the mean of exactly
 * those durations is reported in the window title.
 */
module FrameStats {
  import opened Wrappers

  /** FRAME_STATS_CAPACITY. */
  const Capacity: nat := 30

  /** The left-to-right sum that `.sum::<f64>()` computes. */
  function Sum(s: seq<real>): real {
    if s == [] then 0.0 else Sum(s[..|s| - 1]) + s[|s| - 1]
  }

  /** The average of one full batch: its sum divided by the capacity. */
  function Mean(batch: seq<real>): real {
    Sum(batch) / Capacity as real
  }

  /**
   * One redraw's bookkeeping: push the duration; if the buffer is now full,
   * drain it and report its mean.
   */
  function Record(stats: seq<real>, duration: real): (r: (seq<real>, Option<real>))
    ensures |stats| < Capacity ==> |r.0| < Capacity
    ensures r.1.Some? <==> |stats| + 1 == Capacity
    ensures r.1.Some? ==> r.0 == [] && r.1.value == Mean(stats + [duration])
    ensures r.1.None? ==> r.0 == stats + [duration]
  {
    var pushed := stats + [duration];
    if |pushed| == Capacity then ([], Some(Mean(pushed))) else (pushed, None)
  }

  /** The buffer and the averages reported after a run of redraws, in order. */
  function RecordAll(stats: seq<real>, durations: seq<real>): (seq<real>, seq<real>)
    decreases |durations|
  {
    if durations == [] then (stats, [])
    else
      var (buffer, average) := Record(stats, durations[0]);
      var (rest, averages) := RecordAll(buffer, durations[1..]);
      (rest, (if average.Some? then [average.value] else []) + averages)
  }

  /** The averages of the successive full batches of `all`, in order. */
  function Means(all: seq<real>): seq<real>
    decreases |all|
  {
    if |all| < Capacity then [] else [Mean(all[..Capacity])] + Means(all[Capacity..])
  }

  /** What is left of `all` after its full batches are drained. */
  function Leftover(all: seq<real>): seq<real>
    decreases |all|
  {
    if |all| < Capacity then all else Leftover(all[Capacity..])
  }

  /**
   * Over any run of redraws, the averages reported are the means of the
   * successive full batches of everything recorded, and the buffer holds what
   * is left over: no duration is counted twice or skipped.
   */
  lemma {:induction false} RecordAllBatches(stats: seq<real>, durations: seq<real>)
    requires |stats| < Capacity
    ensures RecordAll(stats, durations) == (Leftover(stats + durations), Means(stats + durations))
    decreases |durations|
  {
    var all := stats + durations;
    if durations == [] {
      assert all == stats;
    } else {
      var pushed := stats + [durations[0]];
      var tail := durations[1..];
      assert all == pushed + tail;
      var (buffer, average) := Record(stats, durations[0]);
      RecordAllBatches(buffer, tail);
      if |pushed| == Capacity {
        assert all[..Capacity] == pushed;
        assert all[Capacity..] == tail;
        assert [] + tail == tail;
      } else {
        assert buffer == pushed && average == None;
        var (rest, averages) := RecordAll(buffer, tail);
        assert [] + averages == averages;
      }
    }
  }

  /** The k-th batch of `Capacity` consecutive durations. */
  function Batch(all: seq<real>, k: nat): seq<real>
    requires (k + 1) * Capacity <= |all|
  {
    all[k * Capacity..(k + 1) * Capacity]
  }

  /**
   * One average per `Capacity` durations, the k-th over exactly the k-th
   * block of them, and the leftover is the incomplete last block.
   */
  lemma {:induction false} MeansAreBatches(all: seq<real>)
    ensures |Means(all)| == |all| / Capacity
    ensures forall k :: 0 <= k < |Means(all)| ==> Means(all)[k] == Mean(Batch(all, k))
    ensures Leftover(all) == all[|all| / Capacity * Capacity..]
    decreases |all|
  {
    if |all| >= Capacity {
      var rest := all[Capacity..];
      MeansAreBatches(rest);
      assert |all| / Capacity == |rest| / Capacity + 1;
      assert Means(all) == [Mean(all[..Capacity])] + Means(rest);
      forall k | 0 <= k < |Means(all)|
        ensures Means(all)[k] == Mean(Batch(all, k))
      {
        if k == 0 {
          assert Batch(all, 0) == all[..Capacity];
        } else {
          var lo := (k - 1) * Capacity;
          assert lo + Capacity == k * Capacity && k * Capacity + Capacity == (k + 1) * Capacity;
          assert Batch(rest, k - 1) == rest[lo..lo + Capacity];
          assert Batch(all, k) == all[lo + Capacity..lo + 2 * Capacity];
          assert rest[lo..lo + Capacity] == all[lo + Capacity..lo + 2 * Capacity];
          assert Batch(all, k) == Batch(rest, k - 1);
          assert Means(all)[k] == Means(rest)[k - 1];
        }
      }
      assert all[|all| / Capacity * Capacity..] == rest[|rest| / Capacity * Capacity..];
    }
  }

  lemma {:induction false} SumOfConstant(n: nat, d: real)
    ensures Sum(seq(n, _ => d)) == n as real * d
  {
    if n > 0 {
      assert seq(n, _ => d)[..n - 1] == seq(n - 1, _ => d);
      SumOfConstant(n - 1, d);
    }
  }

  /** A batch of equal durations averages to that duration. */
  lemma MeanOfConstant(d: real)
    ensures Mean(seq(Capacity, _ => d)) == d
  {
    SumOfConstant(Capacity, d);
  }

  /**
   * The diagnostic part of the window title: the average in milliseconds
   * and, when the mosaic factor exceeds one, the number of copies.
   */
  datatype Title = Title(averageMs: real, copies: Option<nat>)

  function TitleFor(average: real, factor: nat): (t: Title)
    ensures t.averageMs == average * 1000.0
    ensures t.copies.Some? <==> factor > 1
    ensures t.copies.Some? ==> t.copies.value == factor * factor
  {
    Title(average * 1000.0, if factor > 1 then Some(factor * factor) else None)
  }
}
