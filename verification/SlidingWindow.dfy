/**
 The sliding-window limiter (`RateLimiter` in app/core/auth.py): per identifier a list
 of admission times, pruned on every call. The specification keeps the full log.
 */
module SlidingWindow {
  import opened Common

  datatype Call = Call(id: string, now: int)

  // ------------------------------------------------------------------ naive limiter

  /** Admission times of one identifier, oldest first. */
  function TimesOf(log: seq<Call>, id: string): seq<int> {
    if log == [] then []
    else
      var n := |log| - 1;
      TimesOf(log[..n], id) + if log[n].id == id then [log[n].now] else []
  }

  function After(times: seq<int>, cutoff: int): seq<int> {
    if times == [] then []
    else
      var n := |times| - 1;
      After(times[..n], cutoff) + if times[n] > cutoff then [times[n]] else []
  }

  /** The rule: fewer than the maximum admitted in (now - window, now], counted on the full log. */
  predicate Admits(maxRequests: int, window: int, log: seq<Call>, call: Call) {
    |After(TimesOf(log, call.id), call.now - window)| < maxRequests
  }

  function Extended(maxRequests: int, window: int, log: seq<Call>, call: Call): seq<Call> {
    if Admits(maxRequests, window, log, call) then log + [call] else log
  }

  /** The log of admitted calls after a run of the naive limiter. */
  function NaiveLog(maxRequests: int, window: int, calls: seq<Call>): seq<Call> {
    if calls == [] then []
    else Extended(maxRequests, window, NaiveLog(maxRequests, window, calls[..|calls| - 1]), calls[|calls| - 1])
  }

  // ------------------------------------------------------------------- the limiter

  lemma {:induction false} PruningTwice(times: seq<int>, early: int, late: int)
    requires early <= late
    ensures After(After(times, early), late) == After(times, late)
  {
    if times != [] {
      var n := |times| - 1;
      PruningTwice(times[..n], early, late);
      if times[n] > early {
        assert (After(times[..n], early) + [times[n]])[..|After(times[..n], early)|] == After(times[..n], early);
      } else {
        assert After(times, early) == After(times[..n], early);
      }
    }
  }

  lemma AppendCall(log: seq<Call>, call: Call, id: string)
    ensures TimesOf(log + [call], id) == TimesOf(log, id) + if call.id == id then [call.now] else []
  {
  }

  /** Two lists of times that no cutoff from `bound` on can tell apart. */
  ghost predicate SameAfter(times: seq<int>, full: seq<int>, bound: int) {
    forall cutoff :: cutoff >= bound ==> After(times, cutoff) == After(full, cutoff)
  }

  lemma PruningIsInvisible(times: seq<int>, full: seq<int>, bound: int, cutoff: int)
    requires SameAfter(times, full, bound) && bound <= cutoff
    ensures SameAfter(After(times, cutoff), full, cutoff)
    ensures After(times, cutoff) == After(full, cutoff)
  {
    forall c | c >= cutoff ensures After(After(times, cutoff), c) == After(full, c) {
      PruningTwice(times, cutoff, c);
    }
  }

  lemma AppendingIsInvisible(times: seq<int>, full: seq<int>, bound: int, now: int)
    requires SameAfter(times, full, bound)
    ensures SameAfter(times + [now], full + [now], bound)
  {
  }

  function Kept(requests: map<string, seq<int>>, id: string): seq<int> {
    if id in requests then requests[id] else []
  }

  /** Every identifier's kept list agrees with its full history on all cutoffs still to come. */
  ghost predicate Agrees(requests: map<string, seq<int>>, log: seq<Call>, bound: int) {
    forall id {:trigger Kept(requests, id)} :: SameAfter(Kept(requests, id), TimesOf(log, id), bound)
  }

  lemma CallKeepsAgreement(requests: map<string, seq<int>>, log: seq<Call>, bound: int,
                           call: Call, cutoff: int, admitted: bool)
    requires Agrees(requests, log, bound) && bound <= cutoff
    ensures
      var list := After(Kept(requests, call.id), cutoff);
      && list == After(TimesOf(log, call.id), cutoff)
      && (admitted ==> Agrees(requests[call.id := list + [call.now]], log + [call], cutoff))
      && (!admitted ==> Agrees(requests[call.id := list], log, cutoff))
  {
    var list := After(Kept(requests, call.id), cutoff);
    PruningIsInvisible(Kept(requests, call.id), TimesOf(log, call.id), bound, cutoff);
    AppendingIsInvisible(list, TimesOf(log, call.id), cutoff, call.now);
    forall id
      ensures SameAfter(Kept(requests[call.id := list + [call.now]], id), TimesOf(log + [call], id), cutoff)
      ensures SameAfter(Kept(requests[call.id := list], id), TimesOf(log, id), cutoff)
    {
      AppendCall(log, call, id);
      if id != call.id {
        assert SameAfter(Kept(requests, id), TimesOf(log, id), bound);
        assert TimesOf(log, id) + [] == TimesOf(log, id);
      }
    }
  }

  /** Admissions of one identifier in the half-open window (until - window, until]. */
  function InWindow(times: seq<int>, window: int, until: int): nat {
    if times == [] then 0
    else
      var n := |times| - 1;
      InWindow(times[..n], window, until) + if until - window < times[n] <= until then 1 else 0
  }

  ghost predicate NoneAfter(log: seq<Call>, now: int) {
    forall i :: 0 <= i < |log| ==> log[i].now <= now
  }

  lemma {:induction false} TimesNotAfter(log: seq<Call>, id: string, now: int)
    requires NoneAfter(log, now)
    ensures forall i :: 0 <= i < |TimesOf(log, id)| ==> TimesOf(log, id)[i] <= now
  {
    if log != [] {
      TimesNotAfter(log[..|log| - 1], id, now);
    }
  }

  lemma {:induction false} KeptAreInWindow(times: seq<int>, window: int, now: int)
    requires forall i :: 0 <= i < |times| ==> times[i] <= now
    ensures |After(times, now - window)| == InWindow(times, window, now)
  {
    if times != [] {
      KeptAreInWindow(times[..|times| - 1], window, now);
    }
  }

  /**
   The limit itself: a call is admitted exactly when its identifier has fewer than the
   maximum of admissions in the window that ends at the call.
   */
  lemma AdmittedIffRoomInWindow(maxRequests: int, window: int, log: seq<Call>, call: Call)
    requires NoneAfter(log, call.now)
    ensures Admits(maxRequests, window, log, call)
       <==> InWindow(TimesOf(log, call.id), window, call.now) < maxRequests
  {
    TimesNotAfter(log, call.id, call.now);
    KeptAreInWindow(TimesOf(log, call.id), window, call.now);
  }

  /** Calls granted to `id` among the first ones decided, at times in (from, until]. */
  function Granted(calls: seq<Call>, decisions: seq<bool>, id: string, from: int, until: int): nat
    requires |decisions| <= |calls|
  {
    if decisions == [] then 0
    else
      var n := |decisions| - 1;
      Granted(calls, decisions[..n], id, from, until)
      + if decisions[n] && calls[n].id == id && from < calls[n].now <= until then 1 else 0
  }

  /** The log and the decisions tell the same number of admissions, for every window. */
  ghost predicate Tally(log: seq<Call>, calls: seq<Call>, decisions: seq<bool>, window: int, id: string, until: int)
    requires |decisions| <= |calls|
  {
    InWindow(TimesOf(log, id), window, until) == Granted(calls, decisions, id, until - window, until)
  }

  ghost predicate Tallies(log: seq<Call>, calls: seq<Call>, decisions: seq<bool>, window: int)
    requires |decisions| <= |calls|
  {
    forall id, until :: Tally(log, calls, decisions, window, id, until)
  }

  lemma OneMoreTally(log: seq<Call>, calls: seq<Call>, decisions: seq<bool>, window: int, admitted: bool, id: string,
                     until: int)
    requires |decisions| < |calls| && Tally(log, calls, decisions, window, id, until)
    ensures
      var log' := if admitted then log + [calls[|decisions|]] else log;
      Tally(log', calls, decisions + [admitted], window, id, until)
  {
    var call, times := calls[|decisions|], TimesOf(log, id);
    AppendCall(log, call, id);
    assert (times + [call.now])[..|times|] == times && times + [] == times;
    assert (decisions + [admitted])[..|decisions|] == decisions;
  }

  lemma TalliesGrow(log: seq<Call>, calls: seq<Call>, decisions: seq<bool>, window: int, admitted: bool)
    requires |decisions| < |calls| && Tallies(log, calls, decisions, window)
    ensures
      var log' := if admitted then log + [calls[|decisions|]] else log;
      Tallies(log', calls, decisions + [admitted], window)
  {
    var log' := if admitted then log + [calls[|decisions|]] else log;
    forall id, until | true ensures Tally(log', calls, decisions + [admitted], window, id, until) {
      OneMoreTally(log, calls, decisions, window, admitted, id, until);
    }
  }

  /** Decision `i` is the limit's, given the decisions before it. */
  ghost predicate DecidedAt(maxRequests: int, window: int, calls: seq<Call>, decisions: seq<bool>, i: nat)
    requires i < |decisions| <= |calls|
  {
    decisions[i] <==>
      Granted(calls, decisions[..i], calls[i].id, calls[i].now - window, calls[i].now) < maxRequests
  }

  ghost predicate Decided(maxRequests: int, window: int, calls: seq<Call>, decisions: seq<bool>) {
    && |decisions| <= |calls|
    && forall i :: 0 <= i < |decisions| ==> DecidedAt(maxRequests, window, calls, decisions, i)
  }

  lemma EarlierDecision(maxRequests: int, window: int, calls: seq<Call>, decisions: seq<bool>, admitted: bool, i: nat)
    requires i < |decisions| < |calls| && DecidedAt(maxRequests, window, calls, decisions, i)
    ensures DecidedAt(maxRequests, window, calls, decisions + [admitted], i)
  {
    assert (decisions + [admitted])[..i] == decisions[..i];
  }

  lemma OneMoreDecided(maxRequests: int, window: int, calls: seq<Call>, decisions: seq<bool>, admitted: bool)
    requires Decided(maxRequests, window, calls, decisions) && |decisions| < |calls|
    requires
      var call := calls[|decisions|];
      admitted <==> Granted(calls, decisions, call.id, call.now - window, call.now) < maxRequests
    ensures Decided(maxRequests, window, calls, decisions + [admitted])
  {
    var next := decisions + [admitted];
    assert next[..|decisions|] == decisions;
    forall i | 0 <= i < |next| ensures DecidedAt(maxRequests, window, calls, next, i) {
      if i < |decisions| {
        EarlierDecision(maxRequests, window, calls, decisions, admitted, i);
      }
    }
  }

  // What one call decides, keeps and logs.
  lemma CallOutcome(maxRequests: int, window: int, requests: map<string, seq<int>>, log: seq<Call>,
                    clock: int, call: Call, list: seq<int>)
    returns (room: bool, requests': map<string, seq<int>>, log': seq<Call>)
    requires Agrees(requests, log, clock - window) && NoneAfter(log, clock) && clock <= call.now
    requires list == After(Kept(requests, call.id), call.now - window)
    ensures room <==> InWindow(TimesOf(log, call.id), window, call.now) < maxRequests
    ensures room <==> |list| < maxRequests
    ensures log' == (if room then log + [call] else log)
    ensures log' == Extended(maxRequests, window, log, call) && NoneAfter(log', call.now)
    ensures requests' == requests[call.id := if room then list + [call.now] else list]
    ensures Agrees(requests', log', call.now - window)
  {
    AdmittedIffRoomInWindow(maxRequests, window, log, call);
    CallKeepsAgreement(requests, log, clock - window, call, call.now - window, |list| < maxRequests);
    room := |list| < maxRequests;
    requests' := requests[call.id := if room then list + [call.now] else list];
    log' := if room then log + [call] else log;
  }

  lemma UpdateTwice(m: map<string, seq<int>>, id: string, v: seq<int>, w: seq<int>)
    ensures m[id := v][id := w] == m[id := w]
  {
  }

  lemma TallyDecides(window: int, log: seq<Call>, calls: seq<Call>, decisions: seq<bool>)
    requires |decisions| < |calls| && Tallies(log, calls, decisions, window)
    ensures
      var call := calls[|decisions|];
      InWindow(TimesOf(log, call.id), window, call.now)
      == Granted(calls, decisions, call.id, call.now - window, call.now)
  {
    var call := calls[|decisions|];
    assert Tally(log, calls, decisions, window, call.id, call.now);
  }

  class RateLimiter {
    const maxRequests: int
    const window: int
    var requests: map<string, seq<int>>

    ghost var log: seq<Call>  // every admitted call
    ghost var clock: int      // the latest time read

    ghost predicate Valid()
      reads this
    {
      Agrees(requests, log, clock - window) && NoneAfter(log, clock)
    }

    constructor (maxRequests: int, window: int, ghost start: int)
      ensures Valid() && log == [] && clock == start
      ensures this.maxRequests == maxRequests && this.window == window
    {
      this.maxRequests, this.window := maxRequests, window;
      requests, log, clock := map[], [], start;
    }

    /** Under a clock that never goes back, pruning changes no decision. */
    method IsAllowed(id: string, now: int) returns (allowed: bool)
      requires Valid() && clock <= now
      modifies this
      ensures Valid() && clock == now
      ensures allowed <==> InWindow(TimesOf(old(log), id), window, now) < maxRequests
      ensures log == if allowed then old(log) + [Call(id, now)] else old(log)
      ensures log == Extended(maxRequests, window, old(log), Call(id, now))
      ensures forall other :: other != id ==>
        && (other in requests <==> other in old(requests))
        && (other in requests ==> requests[other] == old(requests)[other])
    {
      var cutoff := now - window;
      ghost var list := After(Kept(requests, id), cutoff);
      ghost var room, requests', log' := CallOutcome(maxRequests, window, requests, log, clock, Call(id, now), list);
      if id !in requests {
        requests := requests[id := []];
      }
      requests := requests[id := After(requests[id], cutoff)];
      assert requests == old(requests)[id := list];
      clock := now;
      if |requests[id]| >= maxRequests {
        assert !room && requests == requests';
        return false;
      }
      UpdateTwice(old(requests), id, list, list + [now]);
      requests := requests[id := requests[id] + [now]];
      log := log + [Call(id, now)];
      assert room && requests == requests';
      return true;
    }

    /**
     A run: a call is granted exactly when fewer than the maximum of its identifier's
     earlier calls were granted in the window before it; the log is the naive limiter's.
     */
    method ServeAll(calls: seq<Call>) returns (decisions: seq<bool>)
      requires Valid() && log == []
      requires forall i :: 0 <= i < |calls| ==> clock <= calls[i].now
      requires forall i, j :: 0 <= i < j < |calls| ==> calls[i].now <= calls[j].now
      modifies this
      ensures Valid() && log == NaiveLog(maxRequests, window, calls)
      ensures |decisions| == |calls| && Decided(maxRequests, window, calls, decisions)
    {
      decisions := [];
      for i := 0 to |calls|
        invariant Valid() && log == NaiveLog(maxRequests, window, calls[..i])
        invariant forall j :: i <= j < |calls| ==> clock <= calls[j].now
        invariant |decisions| == i && Decided(maxRequests, window, calls, decisions)
        invariant Tallies(log, calls, decisions, window)
      {
        ghost var logged := log;
        assert calls[..i + 1][..i] == calls[..i];
        TallyDecides(window, log, calls, decisions);
        var allowed := IsAllowed(calls[i].id, calls[i].now);
        TalliesGrow(logged, calls, decisions, window, allowed);
        OneMoreDecided(maxRequests, window, calls, decisions, allowed);
        decisions := decisions + [allowed];
      }
      assert calls[..|calls|] == calls;
    }
  }

  // ------------------------------------------------------------------- main results

  lemma {:induction false} WindowWithinCount(times: seq<int>, window: int, until: int, now: int)
    requires now <= until
    ensures InWindow(times, window, until) <= |After(times, now - window)|
  {
    if times != [] {
      WindowWithinCount(times[..|times| - 1], window, until, now);
    }
  }

  /** In every run and for every identifier, no window of the configured length holds more than the maximum. */
  lemma {:induction false} AtMostMaxPerWindow(maxRequests: int, window: int, calls: seq<Call>, id: string, until: int)
    ensures InWindow(TimesOf(NaiveLog(maxRequests, window, calls), id), window, until) <= Max0(maxRequests)
  {
    if calls != [] {
      var init, call := calls[..|calls| - 1], calls[|calls| - 1];
      AtMostMaxPerWindow(maxRequests, window, init, id, until);
      var log := NaiveLog(maxRequests, window, init);
      if Admits(maxRequests, window, log, call) && call.id == id {
        AppendCall(log, call, id);
        var times := TimesOf(log, id);
        assert (times + [call.now])[..|times|] == times;
        if call.now <= until {
          WindowWithinCount(times, window, until, call.now);
        }
      } else {
        AppendCall(log, call, id);
        assert TimesOf(log, id) + [] == TimesOf(log, id);
      }
    }
  }

  function OnlyOf(calls: seq<Call>, id: string): seq<Call> {
    if calls == [] then []
    else
      var n := |calls| - 1;
      OnlyOf(calls[..n], id) + if calls[n].id == id then [calls[n]] else []
  }

  /** What one identifier is granted does not depend on the calls of the others. */
  lemma {:induction false} IdentifiersAreIndependent(maxRequests: int, window: int, calls: seq<Call>, id: string)
    ensures TimesOf(NaiveLog(maxRequests, window, calls), id)
         == TimesOf(NaiveLog(maxRequests, window, OnlyOf(calls, id)), id)
  {
    if calls != [] {
      var init, call := calls[..|calls| - 1], calls[|calls| - 1];
      IdentifiersAreIndependent(maxRequests, window, init, id);
      var log, own := NaiveLog(maxRequests, window, init), NaiveLog(maxRequests, window, OnlyOf(init, id));
      AppendCall(log, call, id);
      if call.id == id {
        assert (OnlyOf(init, id) + [call])[..|OnlyOf(init, id)|] == OnlyOf(init, id);
        AppendCall(own, call, id);
      } else {
        assert OnlyOf(calls, id) == OnlyOf(init, id);
      }
    }
  }
}
