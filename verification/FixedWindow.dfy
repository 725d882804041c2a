/**
 The fixed-window limiter shared by all endpoint classes (app/core/rate_limit.py):
 one counter and one reset time per key, whatever the class of the request.
 */
module FixedWindow {
  import opened Common

  datatype EndpointClass = Auth | Read | Write | Webhook | Unlisted

  const WINDOW := 60

  function LimitOf(c: EndpointClass): nat {
    match c
    case Auth => 5
    case Read => 100
    case Write => 30
    case Webhook => 1_000
    case Unlisted => 50
  }

  const LARGEST_LIMIT := 1_000

  datatype Bucket = Bucket(count: int, resetTime: real)

  /** `now` is the time read by the check; `created` is read just after it, for a key seen first. */
  datatype Call = Call(c: EndpointClass, now: real, created: real)

  function Opened(bucket: Option<Bucket>, call: Call, window: int): Bucket {
    var b := if bucket.Some? then bucket.value else Bucket(0, call.created);
    if call.now - b.resetTime >= window as real then Bucket(0, call.now) else b
  }

  function After(bucket: Option<Bucket>, call: Call, limit: int, window: int): Bucket {
    var b := Opened(bucket, call, window);
    if b.count >= limit then b else b.(count := b.count + 1)
  }

  predicate Admits(bucket: Option<Bucket>, call: Call, limit: int, window: int) {
    Opened(bucket, call, window).count < limit
  }

  // int() truncates toward zero
  function Truncate(x: real): int {
    if x >= 0.0 then x.Floor else -((-x).Floor)
  }

  function RetryAfter(window: int, resetTime: real, later: real): int {
    Max(0, Truncate(window as real - (later - resetTime)))
  }

  /** The rule for one check, from the bucket found, if any, to the bucket left. */
  predicate Checked(was: Option<Bucket>, limit: int, window: int, now: real, created: real, allowed: bool, b: Bucket) {
    var resetTime := if was.Some? then was.value.resetTime else created;
    var count := if was.Some? then was.value.count else 0;
    if now - resetTime >= window as real then
      allowed == (0 < limit) && b.resetTime == now && b.count == (if allowed then 1 else 0)
    else
      allowed == (count < limit) && b.resetTime == resetTime && b.count == (if allowed then count + 1 else count)
  }

  /** The configured limits, per class and minute. */
  predicate Configured(c: EndpointClass, limit: int) {
    match c
    case Auth => limit == 5
    case Read => limit == 100
    case Write => limit == 30
    case Webhook => limit == 1_000
    case Unlisted => limit == 50
  }

  class MultiKeyLimiter {
    var buckets: map<string, Bucket>

    constructor ()
      ensures buckets == map[]
    {
      buckets := map[];
    }

    function Find(key: string): Option<Bucket>
      reads this
    {
      if key in buckets then Some(buckets[key]) else None
    }

    method CheckUserRateLimit(key: string, limit: int, window: int, now: real, created: real) returns (allowed: bool)
      modifies this
      ensures allowed == Admits(old(Find(key)), Call(Unlisted, now, created), limit, window)
      ensures buckets == old(buckets)[key := After(old(Find(key)), Call(Unlisted, now, created), limit, window)]
      ensures Checked(old(Find(key)), limit, window, now, created, allowed, buckets[key])
    {
      var data := if key in buckets then buckets[key] else Bucket(0, created);
      if now - data.resetTime >= window as real {
        data := data.(count := 0, resetTime := now);
      }
      allowed := data.count < limit;
      if allowed {
        data := data.(count := data.count + 1);
      }
      buckets := buckets[key := data];
    }

    /** The endpoint check: the class picks the limit, the key alone picks the bucket. */
    method CheckEndpoint(key: string, call: Call, later: real) returns (refused: Option<int>)
      modifies this
      ensures refused.None? <==> Admits(old(Find(key)), call, LimitOf(call.c), WINDOW)
      ensures buckets == old(buckets)[key := After(old(Find(key)), call, LimitOf(call.c), WINDOW)]
      ensures refused.Some? ==> refused.value == RetryAfter(WINDOW, buckets[key].resetTime, later)
      ensures exists limit ::
        && Configured(call.c, limit)
        && Checked(old(Find(key)), limit, 60, call.now, call.created, refused.None?, buckets[key])
    {
      var allowed := CheckUserRateLimit(key, LimitOf(call.c), WINDOW, call.now, call.created);
      assert Configured(call.c, LimitOf(call.c));
      refused := if allowed then None else Some(RetryAfter(WINDOW, buckets[key].resetTime, later));
    }

    /** A run of requests under one key follows the trace of module-level function Run. */
    method ServeKey(key: string, calls: seq<Call>, later: seq<real>) returns (refusals: seq<Option<int>>)
      requires key !in buckets && |later| == |calls|
      modifies this
      ensures Find(key) == Run(calls).bucket
      ensures |refusals| == |calls|
      ensures forall i {:trigger refusals[i]} :: 0 <= i < |calls| ==>
        (refusals[i].None? <==> Admits(Run(calls[..i]).bucket, calls[i], LimitOf(calls[i].c), WINDOW))
    {
      refusals := [];
      for i := 0 to |calls|
        invariant Find(key) == Run(calls[..i]).bucket
        invariant |refusals| == i
        invariant forall j {:trigger refusals[j]} :: 0 <= j < i ==>
          (refusals[j].None? <==> Admits(Run(calls[..j]).bucket, calls[j], LimitOf(calls[j].c), WINDOW))
      {
        assert calls[..i + 1][..i] == calls[..i];
        var refused := CheckEndpoint(key, calls[i], later[i]);
        refusals := refusals + [refused];
      }
      assert calls[..|calls|] == calls;
    }
  }

  // ------------------------------------------------------------------- runs of a key

  datatype Admission = Admission(c: EndpointClass, time: real, epoch: nat)

  /** The bucket of one key, the number of resets so far, and every admission. */
  datatype Trace = Trace(bucket: Option<Bucket>, epoch: nat, log: seq<Admission>)

  function Advance(t: Trace, call: Call): Trace {
    var limit := LimitOf(call.c);
    var expired := t.bucket.Some? && call.now - t.bucket.value.resetTime >= WINDOW as real;
    var epoch := if expired then t.epoch + 1 else t.epoch;
    Trace(Some(After(t.bucket, call, limit, WINDOW)), epoch,
          t.log + if Admits(t.bucket, call, limit, WINDOW) then [Admission(call.c, call.now, epoch)] else [])
  }

  function Run(calls: seq<Call>): Trace {
    if calls == [] then Trace(None, 0, []) else Advance(Run(calls[..|calls| - 1]), calls[|calls| - 1])
  }

  /** A clock that does not go back; the creation time is read after the call's own time. */
  ghost predicate Clocked(calls: seq<Call>) {
    && (forall i :: 0 <= i < |calls| ==> calls[i].now <= calls[i].created)
    && (forall i, j :: 0 <= i < j < |calls| ==> calls[i].now <= calls[j].now)
  }

  function InEpoch(log: seq<Admission>, epoch: nat): nat {
    if log == [] then 0
    else InEpoch(log[..|log| - 1], epoch) + if log[|log| - 1].epoch == epoch then 1 else 0
  }

  function InEpochOf(log: seq<Admission>, c: EndpointClass, epoch: nat): nat {
    if log == [] then 0
    else
      var last := log[|log| - 1];
      InEpochOf(log[..|log| - 1], c, epoch) + if last.c == c && last.epoch == epoch then 1 else 0
  }

  /** Admissions of class `c` in the half-open interval [from, from + WINDOW). */
  function InInterval(log: seq<Admission>, c: EndpointClass, from: real): nat {
    if log == [] then 0
    else
      var last := log[|log| - 1];
      InInterval(log[..|log| - 1], c, from) + if last.c == c && from <= last.time < from + WINDOW as real then 1 else 0
  }

  // -------------------------------------------------------------------- the counters

  ghost predicate CountersOk(t: Trace) {
    && (forall e :: e > t.epoch ==> InEpoch(t.log, e) == 0)
    && InEpoch(t.log, t.epoch) == (if t.bucket.Some? then t.bucket.value.count else 0)
    && (forall e :: InEpoch(t.log, e) <= LARGEST_LIMIT)
    && (forall c, e :: InEpochOf(t.log, c, e) <= Min(LimitOf(c), InEpoch(t.log, e)))
  }

  lemma AppendAdmission(log: seq<Admission>, a: Admission, c: EndpointClass, e: nat)
    ensures InEpoch(log + [a], e) == InEpoch(log, e) + if a.epoch == e then 1 else 0
    ensures InEpochOf(log + [a], c, e) == InEpochOf(log, c, e) + if a.c == c && a.epoch == e then 1 else 0
  {
  }

  lemma AdvanceKeepsCounters(t: Trace, call: Call)
    requires CountersOk(t) && (t.bucket.None? ==> call.now <= call.created)
    ensures CountersOk(Advance(t, call))
  {
    var t' := Advance(t, call);
    if Admits(t.bucket, call, LimitOf(call.c), WINDOW) {
      var a := Admission(call.c, call.now, t'.epoch);
      forall e: nat ensures InEpoch(t'.log, e) == InEpoch(t.log, e) + if a.epoch == e then 1 else 0 {
        AppendAdmission(t.log, a, call.c, e);
      }
      forall c, e: nat ensures InEpochOf(t'.log, c, e) <= Min(LimitOf(c), InEpoch(t'.log, e)) {
        AppendAdmission(t.log, a, c, e);
        assert InEpochOf(t.log, c, e) <= Min(LimitOf(c), InEpoch(t.log, e));
      }
    } else {
      assert t'.log == t.log;
    }
  }

  // ------------------------------------------------------------------------- the times

  /** Resets are a window apart, so admissions two epochs apart are too. */
  ghost predicate TimesOk(t: Trace, latest: real) {
    && (t.bucket.None? ==> t.log == [] && t.epoch == 0)
    && (forall a :: a in t.log ==>
          && a.epoch <= t.epoch && a.time <= latest
          && (a.epoch < t.epoch ==> a.time <= t.bucket.value.resetTime)
          && (a.epoch + 1 < t.epoch ==> a.time + WINDOW as real <= t.bucket.value.resetTime))
    && (t.bucket.Some? && t.epoch > 0 ==> t.bucket.value.resetTime <= latest)
    && Spaced(t.log)
  }

  ghost predicate Spaced(log: seq<Admission>) {
    forall a, b :: a in log && b in log && a.epoch + 1 < b.epoch ==> a.time + WINDOW as real <= b.time
  }

  lemma AdvanceKeepsTimes(t: Trace, call: Call, latest: real)
    requires TimesOk(t, latest) && latest <= call.now && call.now <= call.created
    ensures TimesOk(Advance(t, call), call.now)
  {
  }

  lemma {:induction false} RunIsOk(calls: seq<Call>)
    requires Clocked(calls)
    ensures CountersOk(Run(calls))
    ensures TimesOk(Run(calls), if calls == [] then 0.0 else calls[|calls| - 1].now)
    ensures calls == [] <==> Run(calls).bucket.None?
  {
    if calls != [] {
      var n := |calls| - 1;
      RunIsOk(calls[..n]);
      AdvanceKeepsCounters(Run(calls[..n]), calls[n]);
      if n == 0 {
        assert Run(calls[..n]) == Trace(None, 0, []);
        AdvanceKeepsTimes(Run(calls[..n]), calls[n], calls[n].now);
      } else {
        AdvanceKeepsTimes(Run(calls[..n]), calls[n], calls[n - 1].now);
      }
    }
  }

  // -------------------------------------------------------------------- main results

  /**
   In every run that mixes classes under one key: each class gets at most its own limit
   of admissions per epoch, and all classes together at most the largest limit.
   */
  lemma LimitsHoldPerEpoch(calls: seq<Call>, c: EndpointClass, epoch: nat)
    requires Clocked(calls)
    ensures InEpochOf(Run(calls).log, c, epoch) <= LimitOf(c) && Configured(c, LimitOf(c))
    ensures InEpoch(Run(calls).log, epoch) <= 1_000
  {
    RunIsOk(calls);
  }

  /** The first request of a key is admitted, and its window runs from the second clock reading. */
  lemma FirstCallOpensTheWindow(call: Call)
    requires call.now <= call.created
    ensures Run([call]) == Trace(Some(Bucket(1, call.created)), 0, [Admission(call.c, call.now, 0)])
  {
    assert [call][..0] == [];
  }

  /** A request is refused exactly when its epoch is still open and already holds its class's limit of admissions. */
  lemma RefusedIffEpochIsFull(calls: seq<Call>, call: Call)
    requires Clocked(calls) && call.now <= call.created
    ensures
      var t := Run(calls);
      !Admits(t.bucket, call, LimitOf(call.c), WINDOW)
      <==> && t.bucket.Some? && call.now - t.bucket.value.resetTime < WINDOW as real
           && InEpoch(t.log, t.epoch) >= LimitOf(call.c)
  {
    RunIsOk(calls);
  }

  ghost predicate Inside(a: Admission, c: EndpointClass, from: real) {
    a.c == c && from <= a.time < from + WINDOW as real
  }

  lemma {:induction false} EarliestEpoch(log: seq<Admission>, c: EndpointClass, from: real)
    returns (a: Option<Admission>)
    ensures a.None? ==> forall b :: b in log ==> !Inside(b, c, from)
    ensures a.Some? ==> a.value in log && Inside(a.value, c, from)
    ensures a.Some? ==> forall b :: b in log && Inside(b, c, from) ==> a.value.epoch <= b.epoch
  {
    if log == [] {
      a := None;
    } else {
      var last := log[|log| - 1];
      a := EarliestEpoch(log[..|log| - 1], c, from);
      assert log == log[..|log| - 1] + [last];
      if Inside(last, c, from) && (a.None? || last.epoch < a.value.epoch) {
        a := Some(last);
      }
    }
  }

  lemma {:induction false} TwoEpochsSuffice(log: seq<Admission>, c: EndpointClass, from: real, e: nat)
    requires forall b :: b in log && Inside(b, c, from) ==> e <= b.epoch <= e + 1
    ensures InInterval(log, c, from) <= InEpochOf(log, c, e) + InEpochOf(log, c, e + 1)
  {
    if log != [] {
      assert log == log[..|log| - 1] + [log[|log| - 1]];
      TwoEpochsSuffice(log[..|log| - 1], c, from, e);
      assert log[|log| - 1] in log;
    }
  }

  lemma {:induction false} NothingInside(log: seq<Admission>, c: EndpointClass, from: real)
    requires forall b :: b in log ==> !Inside(b, c, from)
    ensures InInterval(log, c, from) == 0
  {
    if log != [] {
      assert log == log[..|log| - 1] + [log[|log| - 1]];
      assert log[|log| - 1] in log;
      NothingInside(log[..|log| - 1], c, from);
    }
  }

  /** Any half-open interval of one window length sees at most twice the class limit. */
  lemma TwiceTheLimitPerInterval(calls: seq<Call>, c: EndpointClass, from: real)
    requires Clocked(calls)
    ensures InInterval(Run(calls).log, c, from) <= 2 * LimitOf(c)
  {
    var log := Run(calls).log;
    RunIsOk(calls);
    var first := EarliestEpoch(log, c, from);
    if first.None? {
      NothingInside(log, c, from);
    } else {
      var a := first.value;
      var e := a.epoch;
      forall b | b in log && Inside(b, c, from) ensures e <= b.epoch <= e + 1 {
        assert e + 1 < b.epoch ==> a.time + WINDOW as real <= b.time;
      }
      TwoEpochsSuffice(log, c, from, e);
      LimitsHoldPerEpoch(calls, c, e);
      LimitsHoldPerEpoch(calls, c, e + 1);
    }
  }

  /**
   Retry-After is the remaining wait rounded down: it never overstates it and understates
   it by less than a second, so the window has reopened for sure one second later.
   */
  lemma RetryAfterIsTheWait(window: nat, resetTime: real, later: real)
    ensures
      var wait := window as real - (later - resetTime);
      var answer := RetryAfter(window, resetTime, later);
      && answer >= 0
      && (wait >= 0.0 ==> answer as real <= wait < answer as real + 1.0)
      && (wait < 0.0 ==> answer == 0)
      && (later + answer as real + 1.0) - resetTime >= window as real
      && (later + answer as real - resetTime >= window as real <==> wait <= answer as real)
  {
  }
}
