/** The sliding-window rate limiter. Times are integers in milliseconds. */
module RateLimiter {

  const WINDOW := 60_000

  /** The times of `h` that are not before `from`. */
  function Since(h: seq<int>, from: int): seq<int> {
    if h == [] then []
    else Since(h[..|h| - 1], from) + if h[|h| - 1] >= from then [h[|h| - 1]] else []
  }

  /** The times of `h` between `from` and `to`, both included. */
  function Between(h: seq<int>, from: int, to: int): seq<int> {
    if h == [] then []
    else Between(h[..|h| - 1], from, to) + if from <= h[|h| - 1] <= to then [h[|h| - 1]] else []
  }

  /** How many times are neither before `from` nor after `to`. */
  function HowMany(h: seq<int>, from: int, to: int): nat {
    if h == [] then 0 else (if h[0] < from || to < h[0] then 0 else 1) + HowMany(h[1..], from, to)
  }

  lemma {:induction false} BetweenCounts(h: seq<int>, from: int, to: int)
    ensures |Between(h, from, to)| == HowMany(h, from, to)
  {
    if h != [] {
      BetweenCounts(h[..|h| - 1], from, to);
      HowManyLast(h, from, to);
    }
  }

  lemma {:induction false} HowManyLast(h: seq<int>, from: int, to: int)
    requires h != []
    ensures HowMany(h, from, to) == HowMany(h[..|h| - 1], from, to) + if from <= h[|h| - 1] <= to then 1 else 0
  {
    if |h| > 1 {
      HowManyLast(h[1..], from, to);
      assert h[1..][..|h| - 2] == h[..|h| - 1][1..];
    }
  }

  /** At most `limit` of the times lie in any minute, both ends included. */
  ghost predicate AtMostPerMinute(h: seq<int>, limit: nat) {
    forall from, to :: to - from == 60_000 ==> HowMany(h, from, to) <= limit
  }

  lemma CappedExactly(h: seq<int>, limit: nat)
    ensures Capped(h, limit) <==> AtMostPerMinute(h, limit)
  {
    if Capped(h, limit) {
      forall from, to | to - from == 60_000 ensures HowMany(h, from, to) <= limit {
        BetweenCounts(h, from, to);
        assert InWindow(h, from) <= limit;
      }
    }
    if AtMostPerMinute(h, limit) {
      forall from ensures InWindow(h, from) <= limit {
        var to := from + 60_000;
        BetweenCounts(h, from, to);
        assert HowMany(h, from, to) <= limit;
      }
    }
  }

  predicate Nondecreasing(h: seq<int>) {
    forall i, j :: 0 <= i < j < |h| ==> h[i] <= h[j]
  }

  /** How many of the times lie in the closed window that starts at `from`. */
  function InWindow(h: seq<int>, from: int): nat {
    |Between(h, from, from + WINDOW)|
  }

  /** No closed window holds more than `limit` of the times. */
  ghost predicate Capped(h: seq<int>, limit: nat) {
    forall from :: InWindow(h, from) <= limit
  }

  /** Drops times before `from` from the front, as far as the first one that is not. */
  function Purge(dq: seq<int>, from: int): seq<int> {
    if dq != [] && dq[0] < from then Purge(dq[1..], from) else dq
  }

  lemma {:induction false} SinceSplit(a: seq<int>, b: seq<int>, from: int)
    ensures Since(a + b, from) == Since(a, from) + Since(b, from)
  {
    if b == [] {
      assert a + b == a;
    } else {
      SinceSplit(a, b[..|b| - 1], from);
      assert (a + b)[..|a + b| - 1] == a + b[..|b| - 1];
    }
  }

  lemma {:induction false} SinceAll(h: seq<int>, from: int)
    requires forall i :: 0 <= i < |h| ==> h[i] >= from
    ensures Since(h, from) == h
  {
    if h != [] {
      SinceAll(h[..|h| - 1], from);
    }
  }

  /** On a nondecreasing list, purging the front keeps exactly the times in the window. */
  lemma {:induction false} PurgeIsSince(dq: seq<int>, from: int)
    requires Nondecreasing(dq)
    ensures Purge(dq, from) == Since(dq, from)
    ensures Nondecreasing(Purge(dq, from))
    ensures forall i :: 0 <= i < |Purge(dq, from)| ==> Purge(dq, from)[i] in dq
  {
    if dq != [] && dq[0] < from {
      PurgeIsSince(dq[1..], from);
      assert dq == [dq[0]] + dq[1..];
      SinceSplit([dq[0]], dq[1..], from);
      assert Since([dq[0]], from) == Since([], from);
    } else {
      SinceAll(dq, from);
    }
  }

  /** Narrowing a window twice is narrowing it once to the later start. */
  lemma {:induction false} SinceTwice(h: seq<int>, earlier: int, later: int)
    requires earlier <= later
    ensures Since(Since(h, earlier), later) == Since(h, later)
  {
    if h != [] {
      var rest, last := h[..|h| - 1], h[|h| - 1];
      SinceTwice(rest, earlier, later);
      if last >= earlier {
        SinceSplit(Since(rest, earlier), [last], later);
        assert [last][..0] == [];
        assert Since([last], later) == if last >= later then [last] else [];
      } else {
        assert Since(h, earlier) == Since(rest, earlier) && Since(h, later) == Since(rest, later);
      }
    }
  }

  lemma {:induction false} BetweenWithinSince(h: seq<int>, from: int, to: int, start: int)
    requires start <= from
    ensures |Between(h, from, to)| <= |Since(h, start)|
  {
    if h != [] {
      BetweenWithinSince(h[..|h| - 1], from, to, start);
    }
  }

  /** Letting a call through when fewer than `limit` were let through in the window that
      ends with it keeps every window within the limit. */
  lemma AllowKeepsCap(h: seq<int>, now: int, limit: nat)
    requires Capped(h, limit) && |Since(h, now - WINDOW)| < limit
    ensures Capped(h + [now], limit)
  {
    forall from ensures InWindow(h + [now], from) <= limit {
      assert (h + [now])[..|h|] == h;
      assert InWindow(h, from) <= limit;
      if from <= now <= from + WINDOW {
        BetweenWithinSince(h, from, from + WINDOW, now - WINDOW);
      }
    }
  }

  /** A call is refused only when the window that ends with it is already full. */
  lemma {:induction false} FullWindow(h: seq<int>, now: int)
    requires forall i :: 0 <= i < |h| ==> h[i] <= now
    ensures Between(h, now - WINDOW, now) == Since(h, now - WINDOW)
  {
    if h != [] {
      FullWindow(h[..|h| - 1], now);
    }
  }

  /** In order, and none later than `last`. */
  predicate UpTo(h: seq<int>, last: int) {
    Nondecreasing(h) && forall i :: 0 <= i < |h| ==> h[i] <= last
  }

  lemma UpToSnoc(h: seq<int>, now: int)
    requires UpTo(h, now)
    ensures UpTo(h + [now], now)
  {
  }

  lemma SinceNow(h: seq<int>, now: int)
    ensures Since(h + [now], now - WINDOW) == Since(h, now - WINDOW) + [now]
  {
    assert (h + [now])[..|h|] == h;
  }

  // ----- runs -----

  /** The deque of a client after calls at these times. */
  function Deque(times: seq<int>, limit: nat): seq<int>
    decreases |times|, 0
  {
    if times == [] then []
    else
      var before, now := times[..|times| - 1], times[|times| - 1];
      Purge(Deque(before, limit), now - WINDOW) + if Admits(before, now, limit) then [now] else []
  }

  /** Whether a call is let through after calls at these times. */
  predicate Admits(times: seq<int>, now: int, limit: nat)
    decreases |times|, 1
  {
    |Purge(Deque(times, limit), now - WINDOW)| < limit
  }

  /** The times that were let through. */
  function Allowed(times: seq<int>, limit: nat): seq<int> {
    if times == [] then []
    else
      var before, now := times[..|times| - 1], times[|times| - 1];
      Allowed(before, limit) + if Admits(before, now, limit) then [now] else []
  }

  lemma RunSnoc(times: seq<int>, now: int, limit: nat)
    ensures Deque(times + [now], limit) == Purge(Deque(times, limit), now - WINDOW) + if Admits(times, now, limit) then [now] else []
    ensures Allowed(times + [now], limit) == Allowed(times, limit) + if Admits(times, now, limit) then [now] else []
  {
    assert (times + [now])[..|times|] == times;
  }

  /** The deque is the history cut to the window of the last call, and no window of the
      history holds more than the limit. */
  ghost predicate InStep(h: seq<int>, dq: seq<int>, last: int, limit: nat) {
    && UpTo(h, last)
    && UpTo(dq, last)
    && dq == Since(h, last - WINDOW)
    && Capped(h, limit)
  }

  /** One decision keeps the deque in step with the history. */
  lemma Decided(h: seq<int>, dq: seq<int>, now: int, limit: nat)
    requires dq == Since(h, now - WINDOW) && Capped(h, limit)
    requires UpTo(h, now) && UpTo(dq, now)
    ensures dq == Between(h, now - WINDOW, now)
    ensures InStep(h + if |dq| < limit then [now] else [], dq + if |dq| < limit then [now] else [], now, limit)
  {
    FullWindow(h, now);
    assert h + [] == h && dq + [] == dq;
    if |dq| < limit {
      AllowKeepsCap(h, now, limit);
      SinceNow(h, now);
      UpToSnoc(h, now);
      UpToSnoc(dq, now);
    }
  }

  /** The window moves on to a later call. */
  lemma WindowMoves(h: seq<int>, dq: seq<int>, last: int, now: int, limit: nat)
    requires InStep(h, dq, last, limit) && last <= now
    ensures Purge(dq, now - WINDOW) == Since(h, now - WINDOW)
    ensures UpTo(h, now) && UpTo(Purge(dq, now - WINDOW), now)
  {
    PurgeIsSince(dq, now - WINDOW);
    SinceTwice(h, last - WINDOW, now - WINDOW);
  }

  /** As long as times do not go back: a call is let through exactly when fewer than the
      limit were let through in the closed window that ends with it, and afterwards the
      deque is the history cut to the window and no closed window holds more than the limit. */
  lemma {:induction false} ForwardRun(times: seq<int>, now: int, limit: nat)
    requires Nondecreasing(times + [now])
    ensures Admits(times, now, limit) <==> |Between(Allowed(times, limit), now - WINDOW, now)| < limit
    ensures InStep(Allowed(times + [now], limit), Deque(times + [now], limit), now, limit)
    decreases |times|
  {
    var h, dq := Allowed(times, limit), Deque(times, limit);
    if times == [] {
      Decided([], [], now, limit);
    } else {
      var before, last := times[..|times| - 1], times[|times| - 1];
      assert times == before + [last];
      StillNondecreasing(times, now);
      ForwardRun(before, last, limit);
      WindowMoves(h, dq, last, now, limit);
      Decided(h, Purge(dq, now - WINDOW), now, limit);
    }
    RunSnoc(times, now, limit);
  }

  /** The same in plain terms: a call is let through exactly when fewer than the limit were
      let through in the minute up to it. */
  lemma AdmitsExactly(times: seq<int>, now: int, limit: nat)
    requires Nondecreasing(times + [now])
    ensures Admits(times, now, limit) <==> HowMany(Allowed(times, limit), now - 60_000, now) < limit
    ensures Allowed(times + [now], limit) == Allowed(times, limit) + if Admits(times, now, limit) then [now] else []
  {
    ForwardRun(times, now, limit);
    BetweenCounts(Allowed(times, limit), now - WINDOW, now);
    RunSnoc(times, now, limit);
  }

  lemma StillNondecreasing(times: seq<int>, now: int)
    requires times != [] && Nondecreasing(times + [now])
    ensures Nondecreasing(times) && times[|times| - 1] <= now
  {
    var all := times + [now];
    assert forall i :: 0 <= i < |times| ==> all[i] == times[i];
    assert all[|times| - 1] <= all[|times|];
  }

  // ----- exactly when the limit holds -----

  /** More than a window apart. */
  predicate Spread(h: seq<int>) {
    forall i, j :: 0 <= i < j < |h| ==> h[i] + WINDOW < h[j]
  }

  lemma {:induction false} SpreadCapped(h: seq<int>, from: int)
    requires Spread(h)
    ensures InWindow(h, from) <= 1
    ensures InWindow(h, from) == 1 ==> exists i :: 0 <= i < |h| && from <= h[i]
  {
    if h != [] {
      var rest := h[..|h| - 1];
      SpreadCapped(rest, from);
      if InWindow(rest, from) == 1 {
        var i :| 0 <= i < |rest| && from <= rest[i];
        assert h[i] == rest[i] && h[i] + WINDOW < h[|h| - 1];
      }
    }
  }

  /** With a limit of one, whatever the clock does, the calls let through are more than a
      window apart and the deque is the last of them. */
  lemma {:induction false} OneAtATime(times: seq<int>)
    ensures Spread(Allowed(times, 1))
    ensures var h := Allowed(times, 1); Deque(times, 1) == if h == [] then [] else [h[|h| - 1]]
  {
    if times != [] {
      var before, now := times[..|times| - 1], times[|times| - 1];
      OneAtATime(before);
      assert times == before + [now];
      RunSnoc(before, now, 1);
      OneMore(Allowed(before, 1), Deque(before, 1), now);
    }
  }

  lemma OneMore(h: seq<int>, dq: seq<int>, now: int)
    requires Spread(h) && dq == if h == [] then [] else [h[|h| - 1]]
    ensures var kept := Purge(dq, now - WINDOW);
      if |kept| < 1 then Spread(h + [now]) && kept + [now] == [now] else kept == dq
  {
    assert dq != [] ==> dq[1..] == [];
  }

  lemma LimitOneCapped(times: seq<int>)
    ensures Capped(Allowed(times, 1), 1)
  {
    OneAtATime(times);
    forall from ensures InWindow(Allowed(times, 1), from) <= 1 {
      SpreadCapped(Allowed(times, 1), from);
    }
  }

  /** `n` calls at the same time. */
  function Repeat(time: int, n: nat): (r: seq<int>)
    ensures |r| == n && forall i :: 0 <= i < n ==> r[i] == time
  {
    if n == 0 then [] else Repeat(time, n - 1) + [time]
  }

  lemma {:induction false} RepeatInWindow(time: int, n: nat)
    ensures InWindow(Repeat(time, n), time) == n
  {
    if n > 0 {
      RepeatInWindow(time, n - 1);
      BetweenSnoc(Repeat(time, n - 1), time, time, time + WINDOW);
    }
  }

  lemma PurgeNothing(dq: seq<int>, from: int)
    requires dq == [] || dq[0] >= from
    ensures Purge(dq, from) == dq
  {
  }

  lemma RepeatAllowed(time: int, n: nat, limit: nat)
    requires n <= limit
    ensures Allowed(Repeat(time, n), limit) == Repeat(time, n) == Deque(Repeat(time, n), limit)
  {
    var run: seq<int> := [];
    for i := 0 to n
      invariant run == Repeat(time, i) && Allowed(run, limit) == run && Deque(run, limit) == run
    {
      PurgeNothing(run, time - WINDOW);
      AdmittedNext(run, time, limit);
      run := run + [time];
    }
  }

  /** A call that keeps the deque as it was and is let through. */
  lemma AdmittedNext(times: seq<int>, now: int, limit: nat)
    requires Purge(Deque(times, limit), now - WINDOW) == Deque(times, limit) && |Deque(times, limit)| < limit
    ensures Allowed(times + [now], limit) == Allowed(times, limit) + [now]
    ensures Deque(times + [now], limit) == Deque(times, limit) + [now]
  {
    RunSnoc(times, now, limit);
  }

  lemma {:induction false} PurgeRepeat(time: int, n: nat, from: int)
    requires time < from
    ensures Purge(Repeat(time, n), from) == []
    decreases n
  {
    if n > 0 {
      assert Repeat(time, n)[1..] == Repeat(time, n - 1);
      PurgeRepeat(time, n - 1, from);
    }
  }

  /** As many calls as allowed, one after their window, and one from before that. */
  function BackwardRun(limit: nat, back: int, now: int): seq<int> {
    Repeat(back - WINDOW, limit) + [now] + [back]
  }

  /** With a limit of two or more, any step back can exceed it. */
  lemma StepBackExceedsLimit(limit: nat, back: int, now: int)
    requires limit >= 2 && back < now
    ensures !Capped(Allowed(BackwardRun(limit, back, now), limit), limit)
  {
    var first := Repeat(back - WINDOW, limit);
    RepeatAllowed(back - WINDOW, limit, limit);
    RepeatInWindow(back - WINDOW, limit);
    PurgeRepeat(back - WINDOW, limit, now - WINDOW);
    RunSnoc(first, now, limit);
    assert Deque(first + [now], limit) == [now] && Allowed(first + [now], limit) == first + [now];
    assert Purge([now], back - WINDOW) == [now];
    RunSnoc(first + [now], back, limit);
    BetweenSnoc(first, now, back - WINDOW, back);
    BetweenSnoc(first + [now], back, back - WINDOW, back);
    assert InWindow(first + [now] + [back], back - WINDOW) == limit + 1;
  }

  /** No time is more than `d` before an earlier one. */
  predicate StepsBackAtMost(times: seq<int>, d: nat) {
    forall i, j :: 0 <= i < j < |times| ==> times[i] - d <= times[j]
  }

  /** The limit holds over every run whose clock steps back at most `d` exactly when the
      limit is one or the clock does not step back at all. */
  lemma CapExactly(limit: nat, d: nat)
    requires limit >= 1
    ensures (forall times :: StepsBackAtMost(times, d) ==> Capped(Allowed(times, limit), limit)) <==> limit == 1 || d == 0
  {
    if limit == 1 {
      forall times ensures Capped(Allowed(times, limit), limit) {
        LimitOneCapped(times);
      }
    } else if d == 0 {
      forall times | StepsBackAtMost(times, d) ensures Capped(Allowed(times, limit), limit) {
        ForwardCapped(times, limit);
      }
    } else {
      StepBackExceedsLimit(limit, 0, 1);
      assert StepsBackAtMost(BackwardRun(limit, 0, 1), d);
    }
  }

  lemma ForwardCapped(times: seq<int>, limit: nat)
    requires Nondecreasing(times)
    ensures Capped(Allowed(times, limit), limit)
  {
    if times != [] {
      assert times == times[..|times| - 1] + [times[|times| - 1]];
      ForwardRun(times[..|times| - 1], times[|times| - 1], limit);
    }
  }

  lemma BetweenSnoc(h: seq<int>, t: int, from: int, to: int)
    ensures Between(h + [t], from, to) == Between(h, from, to) + if from <= t <= to then [t] else []
  {
    assert (h + [t])[..|h|] == h;
  }

  // ----- the limiter -----

  /** The loop that drops times from the front of a deque. */
  method PurgeFront(times: seq<int>, from: int) returns (dq: seq<int>)
    ensures dq == Purge(times, from)
  {
    dq := times;
    while dq != [] && dq[0] < from
      invariant Purge(dq, from) == Purge(times, from)
      decreases |dq|
    {
      dq := dq[1..];
    }
  }

  class RateLimiter {
    const limit: nat
    var buckets: map<string, seq<int>>
    /** The times of all calls of each client. */
    ghost var calls: map<string, seq<int>>

    constructor (limitPerMinute: int)
      ensures Valid() && limit == (if limitPerMinute < 1 then 1 else limitPerMinute)
      ensures buckets == map[] && calls == map[]
    {
      limit := if limitPerMinute < 1 then 1 else limitPerMinute;
      buckets, calls := map[], map[];
    }

    /** Each client's deque is that of its own calls. */
    ghost predicate Valid()
      reads this
    {
      && limit >= 1
      && buckets.Keys == calls.Keys
      && forall c :: c in calls ==> buckets[c] == Deque(calls[c], limit)
    }

    ghost function CallsOf(client: string): seq<int>
      reads this
    {
      if client in calls then calls[client] else []
    }

    /** Decides one call by the earlier calls of the same client. */
    method Allow(client: string, now: int) returns (ok: bool)
      requires Valid()
      modifies this
      ensures Valid()
      ensures ok <==> Admits(old(CallsOf(client)), now, limit)
      ensures calls == old(calls)[client := old(CallsOf(client)) + [now]]
    {
      ghost var times := CallsOf(client);
      var dq := if client in buckets then buckets[client] else [];
      dq := PurgeFront(dq, now - WINDOW);
      RunSnoc(times, now, limit);
      ok := |dq| < limit;
      if ok {
        dq := dq + [now];
      }
      buckets := buckets[client := dq];
      calls := calls[client := times + [now]];
    }
  }
}
