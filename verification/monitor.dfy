/** The wait for a copy started with `CopyHere` to land: once a second, for at most
    120 seconds, the mover checks whether the file exists and, if it does, samples its
    size twice; two equal, positive samples mean the copy is complete. Every ten
    seconds of waiting it logs a "Still copying" notice. */
module Monitor {

  /** The longest wait, in one-second ticks. */
  const MaxWait := 120

  /** How often, in ticks, a notice is logged. */
  const NoticeEvery := 10

  /** What one check of the destination file finds. Sleeping is not modelled: tick `w`
      is the check made when `wait_time == w`. */
  datatype Observation =
    | Absent                              // `exists()` is false
    | Present(size1: nat, size2: nat)     // the two `stat().st_size` samples
    | StatFailed(message: string)         // `stat()` raised (the file vanished, ...)

  /** How the wait ends. */
  datatype Watch =
    | Stable(tick: nat, size: nat)        // the copy is complete
    | TimedOut                            // the loop's `else`: 120 ticks without success
    | StatError(tick: nat, message: string)

  /** The end of the wait and the ticks at which a notice was logged, in order. */
  datatype WatchLog = WatchLog(result: Watch, notices: seq<nat>)

  /** The check at tick `w` of a trace; a trace that ends early means the file never
      appears after it. */
  function ObservationAt(trace: seq<Observation>, w: nat): Observation {
    if w < |trace| then trace[w] else Absent
  }

  /** Two equal, positive samples: `size1 == size2 and size1 > 0`. */
  predicate IsStable(o: Observation) {
    o.Present? && o.size1 == o.size2 && o.size1 > 0
  }

  /** A check that ends the wait: success, or a `stat` that raised. */
  predicate EndsWait(o: Observation) {
    IsStable(o) || o.StatFailed?
  }

  /** The ticks waited before the wait ended. */
  function Elapsed(w: Watch): nat {
    match w
    case Stable(t, _) => t
    case StatError(t, _) => t
    case TimedOut => MaxWait
  }

  /** The `while wait_time < max_wait` loop from tick `w`, with the tick of the last
      notice in `lastLog`. */
  function WatchFrom(trace: seq<Observation>, w: nat, lastLog: nat): (r: WatchLog)
    requires w <= MaxWait
    ensures w <= Elapsed(r.result) <= MaxWait
    ensures r.result.Stable? ==> IsStable(ObservationAt(trace, r.result.tick)) && r.result.size == ObservationAt(trace, r.result.tick).size2
    ensures r.result.StatError? ==> ObservationAt(trace, r.result.tick) == StatFailed(r.result.message)
    ensures r.result.TimedOut? <==> forall u :: w <= u < MaxWait ==> !EndsWait(ObservationAt(trace, u))
    ensures !r.result.TimedOut? ==> Elapsed(r.result) < MaxWait
    ensures forall u :: w <= u < Elapsed(r.result) ==> !EndsWait(ObservationAt(trace, u))
    decreases MaxWait - w
  {
    if w >= MaxWait then WatchLog(TimedOut, [])
    else
      var o := ObservationAt(trace, w);
      if IsStable(o) then WatchLog(Stable(w, o.size2), [])
      else if o.StatFailed? then WatchLog(StatError(w, o.message), [])
      else
        var next := w + 1;
        if next - lastLog >= NoticeEvery then
          var rest := WatchFrom(trace, next, next);
          WatchLog(rest.result, [next] + rest.notices)
        else
          WatchFrom(trace, next, lastLog)
  }

  /** The whole wait, from `wait_time = 0` and `last_log_time = 0`. */
  function Watching(trace: seq<Observation>): (r: WatchLog) {
    WatchFrom(trace, 0, 0)
  }

  /** Reference definition of the notices: every tick after `lo`, up to and including
      `hi`, that is a multiple of ten, in increasing order. */
  function NoticeTicks(lo: nat, hi: nat): (r: seq<nat>)
    ensures forall x :: x in r <==> lo < x <= hi && x % NoticeEvery == 0
    ensures forall i, j :: 0 <= i < j < |r| ==> r[i] < r[j]
    decreases hi - lo
  {
    if lo >= hi then []
    else
      var rest := NoticeTicks(lo + 1, hi);
      var head: seq<nat> := if (lo + 1) % NoticeEvery == 0 then [lo + 1] else [];
      assert forall i :: 0 <= i < |rest| ==> lo + 1 < rest[i] by {
        forall i | 0 <= i < |rest| ensures lo + 1 < rest[i] {
          assert rest[i] in rest;
        }
      }
      head + rest
  }

  /** The wait ends at the first tick that ends it: on success, when `stat` raises, or
      after 120 ticks, whichever comes first. */
  lemma WatchingEndsAtFirstEvent(trace: seq<Observation>, t: nat)
    requires t < MaxWait && EndsWait(ObservationAt(trace, t))
    requires forall u :: 0 <= u < t ==> !EndsWait(ObservationAt(trace, u))
    ensures Elapsed(Watching(trace).result) == t
    ensures IsStable(ObservationAt(trace, t)) ==> Watching(trace).result == Stable(t, ObservationAt(trace, t).size2)
  {
  }

  /** A notice is logged at exactly the positive multiples of ten up to the tick at which
      the wait ended: tracking `last_log_time` amounts to checking `wait_time % 10`. */
  lemma {:induction false} NoticesAreMultiplesOfTen(trace: seq<Observation>, w: nat)
    requires w <= MaxWait
    ensures var r := WatchFrom(trace, w, w / NoticeEvery * NoticeEvery);
      r.notices == NoticeTicks(w, Elapsed(r.result))
    decreases MaxWait - w
  {
    var lastLog := w / NoticeEvery * NoticeEvery;
    var r := WatchFrom(trace, w, lastLog);
    if w < MaxWait {
      var o := ObservationAt(trace, w);
      if !IsStable(o) && !o.StatFailed? {
        var next := w + 1;
        NoticesAreMultiplesOfTen(trace, next);
        var nextLog := next / NoticeEvery * NoticeEvery;
        if next - lastLog >= NoticeEvery {
          assert nextLog == next;
        } else {
          assert nextLog == lastLog;
        }
        assert NoticeTicks(w, Elapsed(r.result))
          == (if next % NoticeEvery == 0 then [next] else []) + NoticeTicks(next, Elapsed(r.result));
      }
    }
  }

  /** The notices of the whole wait: ticks 10, 20, ... up to the end of the wait, so a
      copy that times out logs twelve of them, the last at 120. */
  lemma WatchingNotices(trace: seq<Observation>)
    ensures Watching(trace).notices == NoticeTicks(0, Elapsed(Watching(trace).result))
    ensures Watching(trace).result.TimedOut? ==> |Watching(trace).notices| == MaxWait / NoticeEvery
  {
    NoticesAreMultiplesOfTen(trace, 0);
    if Watching(trace).result.TimedOut? {
      NoticeCount(0, MaxWait);
    }
  }

  /** Between `lo` and `hi`, both multiples of ten, lie `(hi - lo) / 10` notices. */
  lemma {:induction false} NoticeCount(lo: nat, hi: nat)
    requires lo <= hi && lo % NoticeEvery == 0 && hi % NoticeEvery == 0
    ensures |NoticeTicks(lo, hi)| == (hi - lo) / NoticeEvery
    decreases hi - lo
  {
    if lo < hi {
      NoticeCount(lo + NoticeEvery, hi);
      NoticeTicksSplit(lo, lo + NoticeEvery, hi);
      NoticeTicksOneStretch(lo);
    }
  }

  lemma {:induction false} NoticeTicksSplit(lo: nat, mid: nat, hi: nat)
    requires lo <= mid <= hi
    ensures NoticeTicks(lo, hi) == NoticeTicks(lo, mid) + NoticeTicks(mid, hi)
    decreases mid - lo
  {
    if lo < mid {
      NoticeTicksSplit(lo + 1, mid, hi);
    }
  }

  /** Ten ticks after a multiple of ten hold exactly one notice. */
  lemma NoticeTicksOneStretch(lo: nat)
    requires lo % NoticeEvery == 0
    ensures NoticeTicks(lo, lo + NoticeEvery) == [lo + NoticeEvery]
  {
    var last := lo + NoticeEvery - 1;
    NoticeTicksSplit(lo, last, lo + NoticeEvery);
    forall x | lo < x <= last ensures x % NoticeEvery != 0 {
      assert lo == lo / NoticeEvery * NoticeEvery;
    }
    QuietStretch(lo, last);
    assert NoticeTicks(last + 1, lo + NoticeEvery) == [];
  }

  /** No notice falls in a stretch without a multiple of ten. */
  lemma {:induction false} QuietStretch(lo: nat, hi: nat)
    requires forall x :: lo < x <= hi ==> x % NoticeEvery != 0
    ensures NoticeTicks(lo, hi) == []
    decreases hi - lo
  {
    if lo < hi {
      QuietStretch(lo + 1, hi);
    }
  }

  /** Only the first 120 checks matter: a trace's later entries are never looked at. */
  lemma {:induction false} WatchIgnoresLateChecks(a: seq<Observation>, b: seq<Observation>, w: nat, lastLog: nat)
    requires w <= MaxWait
    requires forall u :: w <= u < MaxWait ==> ObservationAt(a, u) == ObservationAt(b, u)
    ensures WatchFrom(a, w, lastLog) == WatchFrom(b, w, lastLog)
    decreases MaxWait - w
  {
    if w < MaxWait {
      var next := w + 1;
      WatchIgnoresLateChecks(a, b, next, next);
      WatchIgnoresLateChecks(a, b, next, lastLog);
    }
  }
}
