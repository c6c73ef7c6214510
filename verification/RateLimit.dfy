/**
 The sliding one-minute limiter. A caller reads the clock before it waits for the mutex, so the
 readings need not arrive in order; a run is the sequence of checks in the order of the lock.
 */
module RateLimit {
  import opened Bytes

  /** Nanoseconds on the monotonic clock; zero is the earliest instant the clock can represent. */
  type Time = nat

  const WINDOW: Time := 60_000_000_000

  /** `now.checked_sub(WINDOW).unwrap_or(now)`. */
  function Cutoff(now: Time): Time {
    if now >= WINDOW then now - WINDOW else now
  }

  /** The queue after popping from the front while the front is not above `cutoff`. */
  function Pruned(q: seq<Time>, cutoff: Time): (r: seq<Time>)
    ensures |r| <= |q|
  {
    if q != [] && q[0] <= cutoff then Pruned(q[1..], cutoff) else q
  }

  type Calls = map<Bytes, seq<Time>>

  function Queue(calls: Calls, id: Bytes): seq<Time> {
    if id in calls then calls[id] else []
  }

  datatype Verdict = Verdict(calls: Calls, admitted: bool)

  /** One check: prune, compare, and append on admission; a denied check still prunes. */
  function Checked(calls: Calls, id: Bytes, now: Time, maximum: nat): Verdict {
    var q := Pruned(Queue(calls, id), Cutoff(now));
    if |q| >= maximum then Verdict(calls[id := q], false) else Verdict(calls[id := q + [now]], true)
  }

  class RateLimiter {
    var calls: Calls

    constructor ()
      ensures calls == map[]
    {
      calls := map[];
    }

    /** The part of `check` inside the mutex; `now` was read before. */
    method Check(capabilityId: Bytes, now: Time, maximum: nat) returns (admitted: bool)
      modifies this
      ensures Verdict(calls, admitted) == Checked(old(calls), capabilityId, now, maximum)
      ensures forall id :: id != capabilityId ==> Queue(calls, id) == Queue(old(calls), id)
    {
      var cutoff := if now >= WINDOW then now - WINDOW else now;
      var queue: seq<Time> := if capabilityId in calls then calls[capabilityId] else [];
      while queue != [] && queue[0] <= cutoff
        invariant Pruned(queue, cutoff) == Pruned(Queue(old(calls), capabilityId), cutoff)
        decreases |queue|
      {
        queue := queue[1..];
      }
      admitted := |queue| < maximum;
      if admitted {
        queue := queue + [now];
      }
      calls := calls[capabilityId := queue];
    }
  }

  // ----- runs -----

  datatype Event = Event(id: Bytes, now: Time, maximum: nat)

  function CallsAfter(h: seq<Event>): Calls
    decreases |h|, 1
  {
    if h == [] then map[] else Last(h).calls
  }

  /** The verdict on the last check of a run. */
  function Last(h: seq<Event>): Verdict
    requires h != []
    decreases |h|, 0
  {
    var e := h[|h| - 1];
    Checked(CallsAfter(h[..|h| - 1]), e.id, e.now, e.maximum)
  }

  /** The stamps admitted for `id`, in lock order. */
  function Stamps(h: seq<Event>, id: Bytes): seq<Time> {
    if h == [] then []
    else
      var e := h[|h| - 1];
      Stamps(h[..|h| - 1], id) + if e.id == id && Last(h).admitted then [e.now] else []
  }

  /** How many stamps lie in the closed window from `a` to `b`. */
  function CountIn(s: seq<Time>, a: Time, b: Time): (n: nat)
    ensures n <= |s|
  {
    if s == [] then 0
    else CountIn(s[..|s| - 1], a, b) + if a <= s[|s| - 1] <= b then 1 else 0
  }

  /** No reading for `id` is more than `d` behind an earlier one. */
  predicate SkewAtMost(h: seq<Event>, id: Bytes, d: nat) {
    forall i, j :: 0 <= i < j < |h| && h[i].id == id && h[j].id == id ==> h[i].now <= h[j].now + d
  }

  /** The clock has been running for a window, so that `checked_sub` never falls back. */
  predicate ClockReady(h: seq<Event>, id: Bytes) {
    forall i :: 0 <= i < |h| && h[i].id == id ==> h[i].now >= WINDOW
  }

  predicate Limit(h: seq<Event>, id: Bytes, maximum: nat) {
    forall i :: 0 <= i < |h| && h[i].id == id ==> h[i].maximum == maximum
  }

  predicate ReadingsBelow(h: seq<Event>, id: Bytes, bound: Time) {
    forall i :: 0 <= i < |h| && h[i].id == id ==> h[i].now < bound
  }

  lemma {:induction false} CountInSplit(s: seq<Time>, t: seq<Time>, a: Time, b: Time)
    ensures CountIn(s + t, a, b) == CountIn(s, a, b) + CountIn(t, a, b)
    decreases |t|
  {
    if t == [] {
      assert s + t == s;
    } else {
      assert (s + t)[..|s + t| - 1] == s + t[..|t| - 1];
      CountInSplit(s, t[..|t| - 1], a, b);
    }
  }

  lemma CountInOne(t: Time, a: Time, b: Time)
    ensures CountIn([t], a, b) == if a <= t <= b then 1 else 0
  {
    assert [t][..0] == [];
  }

  /** Popping stamps below the window does not change the count inside it. */
  lemma {:induction false} PrunedKeepsWindow(q: seq<Time>, cutoff: Time, a: Time, b: Time)
    requires cutoff < a
    ensures CountIn(Pruned(q, cutoff), a, b) == CountIn(q, a, b)
  {
    if q != [] && q[0] <= cutoff {
      PrunedKeepsWindow(q[1..], cutoff, a, b);
      assert q == [q[0]] + q[1..];
      CountInSplit([q[0]], q[1..], a, b);
      CountInOne(q[0], a, b);
    }
  }

  /** What one more check does to the queue and to the admitted stamps of `id`. */
  lemma AfterCheck(h: seq<Event>, id: Bytes)
    requires h != []
    ensures var e, h' := h[|h| - 1], h[..|h| - 1];
            var q := Pruned(Queue(CallsAfter(h'), id), Cutoff(e.now));
            if e.id == id && |q| < e.maximum then
              Last(h).admitted && Queue(CallsAfter(h), id) == q + [e.now] && Stamps(h, id) == Stamps(h', id) + [e.now]
            else
              && (e.id == id ==> !Last(h).admitted)
              && Queue(CallsAfter(h), id) == (if e.id == id then q else Queue(CallsAfter(h'), id))
              && Stamps(h, id) == Stamps(h', id)
  {
  }

  /** As long as no reading is a full window past `a`, the queue still holds every stamp from `a` on. */
  lemma {:induction false} QueueHoldsWindow(h: seq<Event>, id: Bytes, a: Time, b: Time)
    requires ClockReady(h, id) && ReadingsBelow(h, id, a + WINDOW)
    ensures CountIn(Queue(CallsAfter(h), id), a, b) == CountIn(Stamps(h, id), a, b)
    decreases |h|
  {
    if h != [] {
      var e, h' := h[|h| - 1], h[..|h| - 1];
      QueueHoldsWindow(h', id, a, b);
      AfterCheck(h, id);
      hide CallsAfter, Last, Stamps, CountIn, Pruned;
      if e.id == id {
        var q := Queue(CallsAfter(h'), id);
        PrunedKeepsWindow(q, Cutoff(e.now), a, b);
        CountInSplit(Pruned(q, Cutoff(e.now)), [e.now], a, b);
        CountInSplit(Stamps(h', id), [e.now], a, b);
      }
    }
  }

  /**
   Safety over whole runs: with readings at most `d` out of order, no window shorter than
   `WINDOW - d` holds more than `maximum` admitted calls of a capability.
   */
  lemma {:induction false} LimiterSafety(h: seq<Event>, id: Bytes, maximum: nat, d: nat, a: Time, b: Time)
    requires ClockReady(h, id) && Limit(h, id, maximum) && SkewAtMost(h, id, d)
    requires b - a < WINDOW - d
    ensures CountIn(Stamps(h, id), a, b) <= maximum
    decreases |h|
  {
    if h != [] {
      var e, h' := h[|h| - 1], h[..|h| - 1];
      LimiterSafety(h', id, maximum, d, a, b);
      AfterCheck(h, id);
      CountInOne(e.now, a, b);
      hide CallsAfter, Last, Stamps, CountIn, Pruned;
      if e.id == id && Last(h).admitted {
        CountInSplit(Stamps(h', id), [e.now], a, b);
        if a <= e.now <= b {
          forall i | 0 <= i < |h'| && h'[i].id == id ensures h'[i].now < a + WINDOW {
            assert h[i].now <= h[|h| - 1].now + d;
          }
          QueueHoldsWindow(h', id, a, b);
          PrunedKeepsWindow(Queue(CallsAfter(h'), id), Cutoff(e.now), a, b);
        }
      }
    }
  }

  /** With readings in order: the sliding minute, in nanoseconds. */
  lemma {:induction false} SlidingMinute(h: seq<Event>, id: Bytes, maximum: nat, a: Time, b: Time)
    requires Limit(h, id, maximum)
    requires forall i :: 0 <= i < |h| && h[i].id == id ==> h[i].now >= 60_000_000_000
    requires forall i, j :: 0 <= i < j < |h| && h[i].id == id && h[j].id == id ==> h[i].now <= h[j].now
    requires b < a + 60_000_000_000
    ensures CountIn(Stamps(h, id), a, b) <= maximum
  {
    hide Stamps, CountIn;
    LimiterSafety(h, id, maximum, 0, a, b);
  }

  /** Two calls at `a`, one a window later, one at `b`: all four admitted at a limit of two. */
  lemma FourAdmitted(a: Time, t: Time, b: Time, id: Bytes) returns (h: seq<Event>)
    requires WINDOW <= a && t == a + WINDOW && b >= WINDOW && Cutoff(b) <= a
    ensures h == [Event(id, a, 2)] + [Event(id, a, 2)] + [Event(id, t, 2)] + [Event(id, b, 2)]
    ensures Stamps(h, id) == [a] + [a] + [t] + [b]
  {
    hide Stamps, CallsAfter, Last, Pruned;
    var e0, e1, e2 := Event(id, a, 2), Event(id, t, 2), Event(id, b, 2);
    var h1, h2, h3 := [e0], [e0] + [e0], [e0] + [e0] + [e1];
    h := h3 + [e2];
    NothingYet(id);
    PrunedPair(a, t);
    ShortPruned([a], Cutoff(a));
    ShortPruned([t], Cutoff(b));
    OneMore([], h1, e0, [], []);
    FirstKept(a);
    OneMore(h1, h2, e0, [a], [a]);
    OneMore(h2, h3, e1, [a] + [a], [a] + [a]);
    OneMore(h3, h, e2, [t], [a] + [a] + [t]);
  }

  lemma NothingYet(id: Bytes)
    ensures Queue(CallsAfter([]), id) == [] && Stamps([], id) == []
  {
  }

  lemma ShortPruned(q: seq<Time>, cutoff: Time)
    requires |q| == 1
    ensures |Pruned(q, cutoff)| <= 1
  {
  }

  lemma FirstKept(a: Time)
    requires a >= WINDOW
    ensures Pruned([], Cutoff(a)) == [] && Pruned([a], Cutoff(a)) == [a] && [] + [a] == [a]
  {
  }

  /** The window length is the best possible: one of length `WINDOW - d` can hold more. */
  lemma {:induction false} WindowLengthTight(d: nat, id: Bytes) returns (h: seq<Event>)
    requires d < WINDOW
    ensures ClockReady(h, id) && Limit(h, id, 2) && SkewAtMost(h, id, d)
    ensures CountIn(Stamps(h, id), WINDOW, WINDOW + (WINDOW - d)) > 2
  {
    hide Stamps, CountIn;
    var t, a, b := 2 * WINDOW, WINDOW, 2 * WINDOW - d;
    h := FourAdmitted(a, t, b, id);
    ThreeInside(a, t, b);
  }

  lemma ThreeInside(a: Time, t: Time, b: Time)
    requires a <= b
    ensures CountIn([a] + [a] + [t] + [b], a, b) > 2
  {
    hide CountIn;
    CountInSplit([a] + [a] + [t], [b], a, b);
    CountInSplit([a] + [a], [t], a, b);
    CountInSplit([a], [a], a, b);
    CountInOne(a, a, b);
    CountInOne(b, a, b);
  }

  lemma PrunedPair(a: Time, t: Time)
    ensures Pruned([a] + [a], a) == [] && Pruned([], a) == [] && |Pruned([a], 0)| <= 1 && |Pruned([t], a)| <= 1
  {
    assert ([a] + [a])[1..] == [a] && [a][1..] == [];
  }

  /** A check on a known queue and history. */
  lemma OneMore(h: seq<Event>, h': seq<Event>, e: Event, q: seq<Time>, s: seq<Time>)
    requires h' == h + [e] && Queue(CallsAfter(h), e.id) == q && Stamps(h, e.id) == s
    requires |Pruned(q, Cutoff(e.now))| < e.maximum
    ensures Queue(CallsAfter(h'), e.id) == Pruned(q, Cutoff(e.now)) + [e.now]
    ensures Stamps(h', e.id) == s + [e.now]
  {
    hide CallsAfter, Last, Stamps, Pruned;
    assert h'[..|h'| - 1] == h;
    AfterCheck(h', e.id);
  }

  // ----- readings in order: the simple count -----

  predicate Sorted(s: seq<Time>) {
    forall i, j :: 0 <= i < j < |s| ==> s[i] <= s[j]
  }

  /** The stamps after `now - WINDOW`, whatever their position. */
  function Recent(s: seq<Time>, now: Time): seq<Time>
    requires now >= WINDOW
  {
    if s == [] then []
    else Recent(s[..|s| - 1], now) + if now - WINDOW < s[|s| - 1] <= now then [s[|s| - 1]] else []
  }

  lemma RecentAppend(s: seq<Time>, now: Time)
    requires now >= WINDOW
    ensures Recent(s + [now], now) == Recent(s, now) + [now]
  {
    assert (s + [now])[..|s|] == s;
  }

  predicate AllAtMost(s: seq<Time>, now: Time) {
    forall i :: 0 <= i < |s| ==> s[i] <= now
  }

  lemma {:induction false} PrunedIsRecent(s: seq<Time>, now: Time)
    requires now >= WINDOW && Sorted(s) && AllAtMost(s, now)
    ensures Pruned(s, now - WINDOW) == Recent(s, now)
    decreases |s|
  {
    if s != [] {
      RecentStep(s, now);
      hide *;
      var front, last, c := s[..|s| - 1], s[|s| - 1], now - WINDOW;
      PrunedIsRecent(front, now);
      LastNotPruned(s, c);
      assert s == front + [last];
      PrunedAppend(front, last, c);
    }
  }

  lemma RecentStep(s: seq<Time>, now: Time)
    requires now >= WINDOW && Sorted(s) && AllAtMost(s, now) && s != []
    ensures var front, last := s[..|s| - 1], s[|s| - 1];
            && Sorted(front) && AllAtMost(front, now)
            && Recent(s, now) == if now - WINDOW < last then Recent(front, now) + [last] else Recent(front, now)
  {
  }

  /** In sorted stamps, if any survives pruning then so does the last. */
  lemma {:induction false} LastNotPruned(s: seq<Time>, cutoff: Time)
    requires Sorted(s) && s != []
    ensures Pruned(s[..|s| - 1], cutoff) != [] ==> s[|s| - 1] > cutoff
    decreases |s|
  {
    if |s| > 1 && s[0] <= cutoff {
      assert s[1..][..|s[1..]| - 1] == s[..|s| - 1][1..];
      LastNotPruned(s[1..], cutoff);
    }
  }

  lemma {:induction false} PrunedAppend(q: seq<Time>, t: Time, cutoff: Time)
    ensures Pruned(q + [t], cutoff)
         == if Pruned(q, cutoff) == [] && t <= cutoff then [] else Pruned(q, cutoff) + [t]
    decreases |q|
  {
    if q == [] {
      assert q + [t] == [t] && [t][1..] == [];
    } else if q[0] <= cutoff {
      assert (q + [t])[1..] == q[1..] + [t];
      PrunedAppend(q[1..], t, cutoff);
    }
  }

  lemma {:induction false} PrunedTwice(s: seq<Time>, c1: Time, c2: Time)
    requires c1 <= c2
    ensures Pruned(Pruned(s, c1), c2) == Pruned(s, c2)
  {
    if s != [] && s[0] <= c1 { PrunedTwice(s[1..], c1, c2); }
  }

  lemma {:induction false} StampsInOrder(h: seq<Event>, id: Bytes, now: Time)
    requires SkewAtMost(h, id, 0) && ReadingsBelow(h, id, now + 1)
    ensures Sorted(Stamps(h, id)) && AllAtMost(Stamps(h, id), now)
    decreases |h|
  {
    if h != [] {
      var e, h' := h[|h| - 1], h[..|h| - 1];
      StampsInOrder(h', id, now);
      AfterCheck(h, id);
      hide CallsAfter, Last, Stamps;
      if e.id == id {
        forall i | 0 <= i < |h'| && h'[i].id == id ensures h'[i].now < e.now + 1 {
          assert h[i].now <= h[|h| - 1].now + 0;
        }
        StampsInOrder(h', id, e.now);
      }
    }
  }

  /** A pruned queue and the history stay equal under later pruning when both get a new stamp. */
  lemma PrunedStep(q: seq<Time>, s: seq<Time>, c1: Time, t: Time, c2: Time)
    requires c1 <= c2 && Pruned(q, c2) == Pruned(s, c2)
    ensures Pruned(Pruned(q, c1), c2) == Pruned(s, c2)
    ensures Pruned(Pruned(q, c1) + [t], c2) == Pruned(s + [t], c2)
  {
    PrunedTwice(q, c1, c2);
    PrunedAppend(Pruned(q, c1), t, c2);
    PrunedAppend(s, t, c2);
  }

  /** Pruning the queue again equals pruning the whole history of admitted stamps. */
  lemma {:induction false} QueuePrunedFromHistory(h: seq<Event>, id: Bytes, now: Time)
    requires SkewAtMost(h, id, 0) && ClockReady(h, id) && ReadingsBelow(h, id, now + 1) && now >= WINDOW
    ensures Pruned(Queue(CallsAfter(h), id), now - WINDOW) == Pruned(Stamps(h, id), now - WINDOW)
    decreases |h|
  {
    if h != [] {
      var e, h' := h[|h| - 1], h[..|h| - 1];
      QueuePrunedFromHistory(h', id, now);
      if e.id == id {
        assert Cutoff(e.now) <= now - WINDOW;
        hide *;
        AfterCheck(h, id);
        PrunedStep(Queue(CallsAfter(h'), id), Stamps(h', id), Cutoff(e.now), e.now, now - WINDOW);
      } else {
        hide *;
        AfterCheck(h, id);
      }
    }
  }

  /**
   With readings in order, a check admits exactly when fewer than `maximum` calls were admitted
   in the minute before it, counted over the full history, and the queue is those calls.
   */
  lemma SimpleCount(h: seq<Event>, id: Bytes, now: Time, maximum: nat)
    requires SkewAtMost(h + [Event(id, now, maximum)], id, 0)
    requires ClockReady(h + [Event(id, now, maximum)], id) && now >= WINDOW
    ensures Checked(CallsAfter(h), id, now, maximum).admitted <==> |Recent(Stamps(h, id), now)| < maximum
    ensures Queue(CallsAfter(h + [Event(id, now, maximum)]), id) == Recent(Stamps(h + [Event(id, now, maximum)], id), now)
  {
    var e := Event(id, now, maximum);
    var g := h + [e];
    assert g[|g| - 1] == e && g[..|g| - 1] == h;
    AfterCheck(g, id);
    RecentAppend(Stamps(h, id), now);
    assert Checked(CallsAfter(h), id, now, maximum).admitted == Last(g).admitted;
    hide CallsAfter, Last, Stamps, Pruned, Recent;
    forall i, j | 0 <= i < j < |h| && h[i].id == id && h[j].id == id ensures h[i].now <= h[j].now + 0 {
      assert g[i].now <= g[j].now + 0;
    }
    forall i | 0 <= i < |h| && h[i].id == id ensures WINDOW <= h[i].now < now + 1 {
      assert g[i].now <= g[|g| - 1].now + 0;
    }
    StampsInOrder(h, id, now);
    QueuePrunedFromHistory(h, id, now);
    PrunedIsRecent(Stamps(h, id), now);
  }

  // ----- capabilities do not affect each other -----

  function Only(h: seq<Event>, id: Bytes): seq<Event> {
    if h == [] then []
    else Only(h[..|h| - 1], id) + if h[|h| - 1].id == id then [h[|h| - 1]] else []
  }

  /** Leaving out the checks of all other capabilities changes neither the queue nor the verdicts. */
  lemma {:induction false} Independent(h: seq<Event>, id: Bytes)
    ensures Queue(CallsAfter(h), id) == Queue(CallsAfter(Only(h, id)), id)
    ensures Stamps(h, id) == Stamps(Only(h, id), id)
    decreases |h|
  {
    if h != [] {
      var e, h' := h[|h| - 1], h[..|h| - 1];
      Independent(h', id);
      AfterCheck(h, id);
      if e.id == id {
        var o := Only(h', id);
        assert Only(h, id) == o + [e] && (o + [e])[..|o|] == o;
        hide *;
        AfterCheck(o + [e], id);
      } else {
        assert Only(h, id) == Only(h', id);
      }
    }
  }

  // ----- a clock younger than a window -----

  /** All readings for `id` are below the window, and every limit lets something through. */
  predicate Young(h: seq<Event>, id: Bytes) {
    forall i :: 0 <= i < |h| && h[i].id == id ==> h[i].now < WINDOW && h[i].maximum >= 1
  }

  predicate NoneAbove(q: seq<Time>, t: Time) {
    forall i :: 0 <= i < |q| ==> q[i] <= t
  }

  lemma {:induction false} PrunedAway(q: seq<Time>, cutoff: Time)
    requires NoneAbove(q, cutoff)
    ensures Pruned(q, cutoff) == []
  {
    if q != [] { PrunedAway(q[1..], cutoff); }
  }

  lemma {:induction false} QueueBelow(h: seq<Event>, id: Bytes, t: Time)
    requires ReadingsBelow(h, id, t + 1)
    ensures NoneAbove(Queue(CallsAfter(h), id), t)
    decreases |h|
  {
    if h != [] {
      var e, h' := h[|h| - 1], h[..|h| - 1];
      QueueBelow(h', id, t);
      AfterCheck(h, id);
      hide CallsAfter, Last, Stamps, Pruned;
      PrunedPart(Queue(CallsAfter(h'), id), Cutoff(e.now), t);
    }
  }

  lemma {:induction false} PrunedPart(q: seq<Time>, cutoff: Time, t: Time)
    requires NoneAbove(q, t)
    ensures NoneAbove(Pruned(q, cutoff), t)
  {
    if q != [] && q[0] <= cutoff { PrunedPart(q[1..], cutoff, t); }
  }

  /** The reading in front finds the queue emptied. */
  lemma YoungLast(h: seq<Event>, id: Bytes)
    requires h != [] && h[|h| - 1].id == id && Young(h, id) && SkewAtMost(h, id, 0)
    ensures Last(h).admitted
  {
    var e, h' := h[|h| - 1], h[..|h| - 1];
    AfterCheck(h, id);
    hide CallsAfter, Last, Stamps, Pruned;
    forall i | 0 <= i < |h'| && h'[i].id == id ensures h'[i].now < e.now + 1 {
      assert h[i].now <= h[|h| - 1].now + 0;
    }
    QueueBelow(h', id, e.now);
    PrunedAway(Queue(CallsAfter(h'), id), e.now);
  }

  lemma OneStamp(h: seq<Event>, id: Bytes)
    requires h != []
    ensures Stamps(h, id) == Stamps(h[..|h| - 1], id) + if h[|h| - 1].id == id && Last(h).admitted then [h[|h| - 1].now] else []
    ensures Only(h, id) == Only(h[..|h| - 1], id) + if h[|h| - 1].id == id then [h[|h| - 1]] else []
  {
    hide Last;
  }

  /**
   A clock younger than a window makes the cutoff `now`: with readings in order every check empties
   the queue, so all checks are admitted, whatever the limits.
   */
  lemma {:induction false} YoungClockNeverLimits(h: seq<Event>, id: Bytes)
    requires Young(h, id) && SkewAtMost(h, id, 0)
    ensures forall i :: 0 <= i < |h| && h[i].id == id ==> Last(h[..i + 1]).admitted
    ensures |Stamps(h, id)| == |Only(h, id)|
    decreases |h|
  {
    if h != [] {
      var h' := h[..|h| - 1];
      YoungClockNeverLimits(h', id);
      OneStamp(h, id);
      if h[|h| - 1].id == id { YoungLast(h, id); }
      hide Last, Stamps, Only;
      forall i | 0 <= i < |h| && h[i].id == id ensures Last(h[..i + 1]).admitted {
        if i < |h'| {
          assert h'[i].id == id && h'[..i + 1] == h[..i + 1];
        } else {
          assert h[..i + 1] == h;
        }
      }
    }
  }

  /** Every check for `id` reads the same instant and has the same limit. */
  predicate AtInstant(h: seq<Event>, id: Bytes, t: Time, maximum: nat) {
    forall i :: 0 <= i < |h| && h[i].id == id ==> h[i].now == t && h[i].maximum == maximum
  }

  lemma {:induction false} StampsAtInstant(h: seq<Event>, id: Bytes, t: Time, maximum: nat)
    requires AtInstant(h, id, t, maximum)
    ensures CountIn(Stamps(h, id), t, t) == |Stamps(h, id)|
    decreases |h|
  {
    if h != [] {
      var e, h' := h[|h| - 1], h[..|h| - 1];
      StampsAtInstant(h', id, t, maximum);
      AfterCheck(h, id);
      hide CallsAfter, Last, Stamps, CountIn;
      CountInSplit(Stamps(h', id), [e.now], t, t);
      CountInOne(e.now, t, t);
    }
  }

  function Copies(e: Event, n: nat): (h: seq<Event>)
    ensures |h| == n && forall i :: 0 <= i < n ==> h[i] == e
  {
    if n == 0 then [] else Copies(e, n - 1) + [e]
  }

  lemma OnlyNext(h: seq<Event>, e: Event)
    ensures Only(h + [e], e.id) == Only(h, e.id) + [e]
  {
    assert (h + [e])[..|h|] == h;
  }

  lemma {:induction false} OnlyCopies(e: Event, n: nat)
    ensures Only(Copies(e, n), e.id) == Copies(e, n)
  {
    if n > 0 {
      OnlyCopies(e, n - 1);
      OnlyNext(Copies(e, n - 1), e);
    }
  }

  /** The limit holds among calls at one instant if and only if the clock has run for a window by then. */
  lemma {:induction false} InstantLimitExactly(id: Bytes, t: Time, maximum: nat)
    requires maximum >= 1
    ensures (forall h :: AtInstant(h, id, t, maximum) ==> |Stamps(h, id)| <= maximum) <==> t >= WINDOW
  {
    hide Stamps, Only, Last;
    if t >= WINDOW {
      forall h | AtInstant(h, id, t, maximum) ensures |Stamps(h, id)| <= maximum {
        LimiterSafety(h, id, maximum, 0, t, t);
        StampsAtInstant(h, id, t, maximum);
      }
    } else {
      var e := Event(id, t, maximum);
      var h := Copies(e, maximum + 1);
      YoungClockNeverLimits(h, id);
      OnlyCopies(e, maximum + 1);
      assert AtInstant(h, id, t, maximum);
    }
  }
}
