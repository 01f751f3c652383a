// The in-memory fixed-window rate limiter. Times are milliseconds; the clock is an input.
module RateLimit {
  import opened Collections

  const PRUNE_ABOVE := 5000

  datatype Bucket = Bucket(count: nat, resetAt: int)
  type Table = map<string, Bucket>
  datatype Answer = Answer(limited: bool, retryAfterS: int)

  // One call, as functions of the table.

  /** The caller's bucket, counting this call: a new one when there is none or it has expired. */
  function Counted(t: Table, key: string, windowMs: int, now: int): Bucket {
    if key in t && now < t[key].resetAt then t[key].(count := t[key].count + 1) else Bucket(1, now + windowMs)
  }

  function Prune(t: Table, now: int): Table {
    map k | k in t && now < t[k].resetAt :: t[k]
  }

  function Store(t: Table, key: string, windowMs: int, now: int): Table {
    var t' := t[key := Counted(t, key, windowMs, now)];
    if |t'| > PRUNE_ABOVE then Prune(t', now) else t'
  }

  function CeilSeconds(ms: int): int { -(-ms / 1000) }

  function Reply(b: Bucket, max: int, now: int): Answer {
    if b.count > max then Answer(true, CeilSeconds(b.resetAt - now)) else Answer(false, 0)
  }

  class RateLimiter {
    var buckets: Table

    constructor ()
      ensures buckets == map[]
    {
      buckets := map[];
    }

    method DeleteExpired(now: int)
      modifies this
      ensures buckets == Prune(old(buckets), now)
      ensures forall k :: k in buckets <==> k in old(buckets) && now < old(buckets)[k].resetAt
      ensures forall k | k in buckets :: buckets[k] == old(buckets)[k]
    {
      ghost var full := buckets;
      var todo := buckets.Keys;
      while todo != {}
        invariant todo <= buckets.Keys
        invariant forall k :: k in buckets <==> k in full && (k in todo || now < full[k].resetAt)
        invariant forall k | k in buckets :: buckets[k] == full[k]
        decreases todo
      {
        var k := AnyOf(todo);
        todo := todo - {k};
        if now >= buckets[k].resetAt { buckets := buckets - {k}; }
      }
    }

    method RateLimit(key: string, max: int, windowMs: int, now: int) returns (a: Answer)
      modifies this
      ensures buckets == Store(old(buckets), key, windowMs, now)
      ensures a == Reply(Counted(old(buckets), key, windowMs, now), max, now)
      ensures |buckets| <= 5000 || forall k | k in buckets :: now < buckets[k].resetAt
      ensures forall k | k != key :: k in buckets <==>
        k in old(buckets) && (|old(buckets).Keys + {key}| <= 5000 || now < old(buckets)[k].resetAt)
      ensures forall k | k != key && k in buckets :: buckets[k] == old(buckets)[k]
    {
      var b := Bucket(0, now + windowMs);
      if key in buckets && now < buckets[key].resetAt {
        b := buckets[key];
      }
      b := b.(count := b.count + 1);
      buckets := buckets[key := b];
      assert buckets.Keys == old(buckets).Keys + {key};
      if |buckets| > PRUNE_ABOVE { DeleteExpired(now); }
      return if b.count > max then Answer(true, CeilSeconds(b.resetAt - now)) else Answer(false, 0);
    }

    method Reset(key: string)
      modifies this
      ensures key !in buckets
      ensures forall k | k != key :: k in buckets <==> k in old(buckets)
      ensures forall k | k != key && k in buckets :: buckets[k] == old(buckets)[k]
    {
      buckets := buckets - {key};
    }
  }

  /**
   * A refused caller that comes back whole seconds later, with no call of its own in between, finds a
   * new window exactly when it waited as long as it was told.
   */
  lemma RetryAfterIsExact(t: Table, key: string, max: int, windowMs: int, now: int, waitS: nat)
    requires Reply(Counted(t, key, windowMs, now), max, now).limited
    ensures var told, later := Reply(Counted(t, key, windowMs, now), max, now).retryAfterS, now + 1000 * waitS;
      Counted(Store(t, key, windowMs, now), key, windowMs, later) == Bucket(1, later + windowMs) <==> waitS >= told
  {
    var b := Counted(t, key, windowMs, now);
    assert now + 1000 * waitS >= b.resetAt <==> waitS >= CeilSeconds(b.resetAt - now);
  }

  // Histories.

  datatype Event = Call(key: string, max: int, windowMs: int, now: int) | Reset(key: string)

  /** Serve one event; `pruning` tells the limiter at hand from one that never deletes. */
  function Serve(pruning: bool, t: Table, e: Event): Table {
    match e
    case Reset(key) => t - {key}
    case Call(key, _, windowMs, now) =>
      if pruning then Store(t, key, windowMs, now) else t[key := Counted(t, key, windowMs, now)]
  }

  function Run(pruning: bool, t: Table, events: seq<Event>): Table {
    if events == [] then t else Serve(pruning, Run(pruning, t, events[..|events| - 1]), events[|events| - 1])
  }

  function AnswerTo(t: Table, e: Event): Option<Answer> {
    match e
    case Reset(_) => None
    case Call(key, max, windowMs, now) => Some(Reply(Counted(t, key, windowMs, now), max, now))
  }

  /** The answer to the last event of a history. */
  function LastAnswer(pruning: bool, events: seq<Event>): Option<Answer>
    requires events != []
  {
    AnswerTo(Run(pruning, map[], events[..|events| - 1]), events[|events| - 1])
  }

  /** The clock never runs backwards, and ends no later than `now`. */
  predicate Ordered(events: seq<Event>, now: int) {
    events == [] ||
    match events[|events| - 1]
    case Reset(_) => Ordered(events[..|events| - 1], now)
    case Call(_, _, _, at) => at <= now && Ordered(events[..|events| - 1], at)
  }

  // Pruning is invisible.

  /** From time `now` on, the pruned table is as good as the full one. */
  ghost predicate Agrees(pruned: Table, full: Table, now: int) {
    && (forall k | k in pruned :: k in full && pruned[k] == full[k])
    && (forall k | k in full && now < full[k].resetAt :: k in pruned)
  }

  lemma ServeAgrees(pruned: Table, full: Table, e: Event, now: int)
    requires e.Call? ==> e.now == now
    requires Agrees(pruned, full, now)
    ensures AnswerTo(pruned, e) == AnswerTo(full, e)
    ensures Agrees(Serve(true, pruned, e), Serve(false, full, e), now)
  {
    if e.Call? {
      assert Counted(pruned, e.key, e.windowMs, now) == Counted(full, e.key, e.windowMs, now);
    }
  }

  lemma {:induction false} RunAgrees(events: seq<Event>, now: int)
    requires Ordered(events, now)
    ensures Agrees(Run(true, map[], events), Run(false, map[], events), now)
  {
    if events != [] {
      var rest, e := events[..|events| - 1], events[|events| - 1];
      var at := if e.Call? then e.now else now;
      RunAgrees(rest, at);
      ServeAgrees(Run(true, map[], rest), Run(false, map[], rest), e, at);
    }
  }

  /** Under a clock that never runs backwards the limiter answers as one that never deletes. */
  lemma PruningIsInvisible(events: seq<Event>, now: int)
    requires events != [] && Ordered(events, now)
    ensures LastAnswer(true, events) == LastAnswer(false, events)
  {
    var rest, e := events[..|events| - 1], events[|events| - 1];
    var at := if e.Call? then e.now else now;
    RunAgrees(rest, at);
    ServeAgrees(Run(true, map[], rest), Run(false, map[], rest), e, at);
  }

  // Keys do not influence each other.

  function OnlyKey(events: seq<Event>, key: string): seq<Event> {
    if events == [] then []
    else
      var rest := OnlyKey(events[..|events| - 1], key);
      if events[|events| - 1].key == key then rest + [events[|events| - 1]] else rest
  }

  lemma {:induction false} OnlyOwnEvents(events: seq<Event>, key: string)
    ensures var all, own := Run(false, map[], events), Run(false, map[], OnlyKey(events, key));
      (key in all <==> key in own) && (key in all ==> all[key] == own[key])
  {
    if events != [] {
      var rest, e := events[..|events| - 1], events[|events| - 1];
      OnlyOwnEvents(rest, key);
      if e.key == key {
        assert (OnlyKey(rest, key) + [e])[..|OnlyKey(rest, key)|] == OnlyKey(rest, key);
      }
    }
  }

  lemma {:induction false} OnlyKeyOrdered(events: seq<Event>, key: string, now: int)
    requires Ordered(events, now)
    ensures Ordered(OnlyKey(events, key), now)
  {
    if events != [] {
      var rest, e := events[..|events| - 1], events[|events| - 1];
      var at := if e.Call? then e.now else now;
      OnlyKeyOrdered(rest, key, at);
      if e.key == key {
        assert (OnlyKey(rest, key) + [e])[..|OnlyKey(rest, key)|] == OnlyKey(rest, key);
      } else {
        OrderedLater(OnlyKey(rest, key), at, now);
      }
    }
  }

  lemma {:induction false} OrderedLater(events: seq<Event>, at: int, now: int)
    requires Ordered(events, at) && at <= now
    ensures Ordered(events, now)
  {
    if events != [] && events[|events| - 1].Reset? {
      OrderedLater(events[..|events| - 1], at, now);
    }
  }

  lemma OwnLast(events: seq<Event>)
    requires events != []
    ensures var e, own := events[|events| - 1], OnlyKey(events, events[|events| - 1].key);
      own != [] && own[|own| - 1] == e && own[..|own| - 1] == OnlyKey(events[..|events| - 1], e.key)
  {
  }

  /** A key's answers, pruning and all, are those it would get with the limiter to itself. */
  lemma {:induction false} KeysAreIndependent(events: seq<Event>, now: int)
    requires events != [] && Ordered(events, now)
    ensures var own := OnlyKey(events, events[|events| - 1].key);
      own != [] && LastAnswer(true, events) == LastAnswer(true, own)
  {
    hide OnlyKey, Run, Ordered;
    var e := events[|events| - 1];
    OwnLast(events);
    OnlyKeyOrdered(events, e.key, now);
    PruningIsInvisible(events, now);
    PruningIsInvisible(OnlyKey(events, e.key), now);
    OnlyOwnEvents(events[..|events| - 1], e.key);
  }

  // A reset forgets one key's past.

  lemma {:induction false} ResetRun(before: seq<Event>, key: string, after: seq<Event>)
    ensures var all, own := Run(false, map[], before + [Reset(key)] + after), Run(false, map[], after);
      (key in all <==> key in own) && (key in all ==> all[key] == own[key])
  {
    var events := before + [Reset(key)] + after;
    if after == [] {
      assert events[..|events| - 1] == before && events[|events| - 1] == Reset(key);
    } else {
      var rest := after[..|after| - 1];
      assert events[..|events| - 1] == before + [Reset(key)] + rest;
      ResetRun(before, key, rest);
    }
  }

  lemma {:induction false} OrderedParts(before: seq<Event>, after: seq<Event>, now: int)
    requires Ordered(before + after, now)
    ensures Ordered(before, now) && Ordered(after, now)
  {
    if after == [] {
      assert before + after == before;
    } else {
      var rest, e := after[..|after| - 1], after[|after| - 1];
      assert (before + after)[..|before + after| - 1] == before + rest;
      var at := if e.Call? then e.now else now;
      OrderedParts(before, rest, at);
      OrderedLater(before, at, now);
    }
  }

  lemma {:induction false} OrderedWithout(before: seq<Event>, key: string, after: seq<Event>, now: int)
    requires Ordered(before + [Reset(key)] + after, now)
    ensures Ordered(before + after, now)
  {
    var events := before + [Reset(key)] + after;
    if after == [] {
      assert events[..|events| - 1] == before == before + after && events[|events| - 1] == Reset(key);
    } else {
      var rest, e := after[..|after| - 1], after[|after| - 1];
      assert events[..|events| - 1] == before + [Reset(key)] + rest;
      assert (before + after)[..|before + after| - 1] == before + rest;
      OrderedWithout(before, key, rest, if e.Call? then e.now else now);
    }
  }

  lemma {:induction false} OnlyKeyAppend(a: seq<Event>, b: seq<Event>, key: string)
    ensures OnlyKey(a + b, key) == OnlyKey(a, key) + OnlyKey(b, key)
  {
    if b == [] {
      assert a + b == a;
    } else {
      assert (a + b)[..|a + b| - 1] == a + b[..|b| - 1];
      OnlyKeyAppend(a, b[..|b| - 1], key);
    }
  }

  /**
   * After a reset the key is answered as if it had never called before, and every other key as if
   * there had been no reset.
   */
  lemma ResetStartsOver(before: seq<Event>, key: string, after: seq<Event>, now: int)
    requires after != [] && Ordered(before + [Reset(key)] + after, now)
    ensures LastAnswer(true, before + [Reset(key)] + after) ==
            LastAnswer(true, if after[|after| - 1].key == key then after else before + after)
  {
    hide Ordered, OnlyKey, Run;
    var events, last := before + [Reset(key)] + after, after[|after| - 1];
    assert events[|events| - 1] == last;
    if last.key == key {
      OrderedParts(before + [Reset(key)], after, now);
      PruningIsInvisible(events, now);
      PruningIsInvisible(after, now);
      assert events[..|events| - 1] == before + [Reset(key)] + after[..|after| - 1];
      ResetRun(before, key, after[..|after| - 1]);
    } else {
      OrderedWithout(before, key, after, now);
      KeysAreIndependent(events, now);
      KeysAreIndependent(before + after, now);
      OnlyKeyAppend(before + [Reset(key)], after, last.key);
      OnlyKeyAppend(before, [Reset(key)], last.key);
      OnlyKeyAppend(before, after, last.key);
      OnlyOther(key, last.key);
      assert (before + after)[|before + after| - 1] == last;
      assert OnlyKey(events, last.key) == OnlyKey(before + after, last.key);
    }
  }

  lemma OnlyOther(key: string, other: string)
    requires key != other
    ensures OnlyKey([Reset(key)], other) == []
  {
  }

  // One key, fixed limit and window, no reset: which calls are admitted.

  predicate NonDecreasing(times: seq<int>) {
    forall i, j | 0 <= i <= j < |times| :: times[i] <= times[j]
  }

  /** The call that opened the window in which call `i` falls. */
  function Opener(times: seq<int>, windowMs: int, i: nat): (o: nat)
    requires i < |times|
    ensures o <= i
  {
    if i == 0 then 0
    else
      var o := Opener(times, windowMs, i - 1);
      if times[i] >= times[o] + windowMs then i else o
  }

  /** Call `i` is among the first `max` of its window. */
  predicate Admitted(times: seq<int>, windowMs: int, max: int, i: nat)
    requires i < |times|
  {
    i - Opener(times, windowMs, i) < max
  }

  predicate IsKeyHistory(events: seq<Event>, key: string, max: int, windowMs: int) {
    forall e | e in events && e.key == key :: e.Call? && e.max == max && e.windowMs == windowMs
  }

  function Times(events: seq<Event>): seq<int>
    requires forall e | e in events :: e.Call?
  {
    seq(|events|, i requires 0 <= i < |events| => events[i].now)
  }

  lemma {:induction false} OpenerPrefix(a: seq<int>, b: seq<int>, windowMs: int, i: nat)
    requires i < |a| && a <= b
    ensures Opener(a, windowMs, i) == Opener(b, windowMs, i)
  {
    if i > 0 { OpenerPrefix(a, b, windowMs, i - 1); }
  }

  /** What the bucket holds after call `i`. */
  function WindowBucket(times: seq<int>, windowMs: int, i: nat): Bucket
    requires i < |times|
  {
    var o := Opener(times, windowMs, i);
    Bucket(i - o + 1, times[o] + windowMs)
  }

  /** The key's bucket counts the calls of the current window. */
  lemma {:induction false} BucketIsWindow(calls: seq<Event>, key: string, max: int, windowMs: int)
    requires calls != [] && IsKeyHistory(calls, key, max, windowMs)
    requires forall e | e in calls :: e.key == key && e.Call?
    ensures var t := Run(false, map[], calls);
      key in t && t[key] == WindowBucket(Times(calls), windowMs, |calls| - 1)
  {
    hide WindowBucket, Run, IsKeyHistory, Times, Counted;
    var rest, e := calls[..|calls| - 1], calls[|calls| - 1];
    assert calls == rest + [e];
    OwnCall(calls, e, key, max, windowMs);
    forall x | x in rest ensures x in calls {}
    RunCall(rest, e);
    TimesSnoc(rest, e);
    if rest == [] {
      FirstBucket(key, windowMs, Times(calls));
    } else {
      HistoryPrefix(calls, key, max, windowMs);
      BucketIsWindow(rest, key, max, windowMs);
      WindowPrefix(Times(rest), e.now, windowMs);
      NextBucket(Run(false, map[], rest), key, windowMs, Times(calls), |rest|);
    }
  }

  lemma WindowPrefix(times: seq<int>, now: int, windowMs: int)
    requires times != []
    ensures WindowBucket(times + [now], windowMs, |times| - 1) == WindowBucket(times, windowMs, |times| - 1)
  {
    hide Opener;
    OpenerPrefix(times, times + [now], windowMs, |times| - 1);
  }

  lemma FirstBucket(key: string, windowMs: int, times: seq<int>)
    requires times != []
    ensures Counted(map[], key, windowMs, times[0]) == WindowBucket(times, windowMs, 0)
  {
  }

  lemma NextBucket(t: Table, key: string, windowMs: int, times: seq<int>, i: nat)
    requires 0 < i < |times| && key in t && t[key] == WindowBucket(times, windowMs, i - 1)
    ensures Counted(t, key, windowMs, times[i]) == WindowBucket(times, windowMs, i)
  {
  }

  lemma TimesSnoc(rest: seq<Event>, e: Event)
    requires e.Call? && forall x | x in rest :: x.Call?
    ensures Times(rest + [e]) == Times(rest) + [e.now] && |Times(rest)| == |rest|
  {
  }

  lemma OwnCall(calls: seq<Event>, e: Event, key: string, max: int, windowMs: int)
    requires IsKeyHistory(calls, key, max, windowMs) && e in calls && e.key == key
    ensures e.Call? && e.max == max && e.windowMs == windowMs
  {
  }

  lemma HistoryPrefix(calls: seq<Event>, key: string, max: int, windowMs: int)
    requires calls != [] && IsKeyHistory(calls, key, max, windowMs)
    ensures IsKeyHistory(calls[..|calls| - 1], key, max, windowMs)
  {
  }

  lemma RunCall(rest: seq<Event>, e: Event)
    requires e.Call?
    ensures var t := Run(false, map[], rest);
      Run(false, map[], rest + [e]) == t[e.key := Counted(t, e.key, e.windowMs, e.now)]
    ensures Run(false, map[], []) == map[]
  {
    assert (rest + [e])[..|rest|] == rest;
  }

  /** Exactly the first `max` calls of each opened window are admitted. */
  lemma FirstOfWindowAdmitted(calls: seq<Event>, key: string, max: int, windowMs: int)
    requires calls != [] && IsKeyHistory(calls, key, max, windowMs)
    requires forall e | e in calls :: e.key == key && e.Call?
    ensures var a := LastAnswer(false, calls);
      a.Some? && (!a.value.limited <==> Admitted(Times(calls), windowMs, max, |calls| - 1))
  {
    var rest, e := calls[..|calls| - 1], calls[|calls| - 1];
    assert e in calls;
    BucketIsWindow(calls, key, max, windowMs);
  }

  lemma {:induction false} OwnCalls(events: seq<Event>, key: string, max: int, windowMs: int)
    requires IsKeyHistory(events, key, max, windowMs)
    ensures forall e | e in OnlyKey(events, key) :: e.key == key && e.Call? && e.max == max && e.windowMs == windowMs
  {
    if events != [] {
      var rest := events[..|events| - 1];
      forall x | x in rest ensures x in events {}
      OwnCalls(rest, key, max, windowMs);
      assert events[|events| - 1] in events;
    }
  }

  lemma {:induction false} OrderedTimes(calls: seq<Event>, now: int)
    requires Ordered(calls, now) && forall e | e in calls :: e.Call?
    ensures NonDecreasing(Times(calls)) && forall i | 0 <= i < |calls| :: Times(calls)[i] <= now
  {
    if calls != [] {
      var rest, e := calls[..|calls| - 1], calls[|calls| - 1];
      assert e in calls;
      forall x | x in rest ensures x in calls {}
      OrderedTimes(rest, e.now);
      assert Times(calls) == Times(rest) + [e.now];
    }
  }

  /**
   * In any history, with other keys in between and entries pruned, a call is admitted exactly when
   * it is among the first `max` of the window its own key's calls have opened.
   */
  lemma AdmittedInAnyHistory(events: seq<Event>, key: string, max: int, windowMs: int, now: int)
    requires events != [] && Ordered(events, now) && events[|events| - 1].key == key
    requires IsKeyHistory(events, key, max, windowMs)
    ensures var own, a := OnlyKey(events, key), LastAnswer(true, events);
      && own != [] && a.Some? && (forall e | e in own :: e.Call?)
      && NonDecreasing(Times(own))
      && (!a.value.limited <==> Admitted(Times(own), windowMs, max, |own| - 1))
  {
    hide OnlyKey, Ordered, LastAnswer, NonDecreasing;
    var own := OnlyKey(events, key);
    OwnLast(events);
    OwnCalls(events, key, max, windowMs);
    OnlyKeyOrdered(events, key, now);
    OrderedTimes(own, now);
    KeysAreIndependent(events, now);
    PruningIsInvisible(own, now);
    FirstOfWindowAdmitted(own, key, max, windowMs);
  }

  // Any interval of the window's length.

  /** The calls admitted in the half-open interval of length `windowMs` from `start`. */
  function AdmittedFrom(times: seq<int>, windowMs: int, max: int, start: int): set<nat> {
    set i: nat | i < |times| && start <= times[i] < start + windowMs && Admitted(times, windowMs, max, i)
  }

  lemma {:induction false} WindowReach(times: seq<int>, windowMs: int, i: nat, j: nat)
    requires i <= j < |times| && NonDecreasing(times)
    requires times[j] < times[Opener(times, windowMs, i)] + windowMs
    ensures Opener(times, windowMs, j) == Opener(times, windowMs, i)
  {
    if i < j { WindowReach(times, windowMs, i, j - 1); }
  }

  lemma {:induction false} WindowUnbroken(times: seq<int>, windowMs: int, m: nat, i: nat)
    requires i < |times| && Opener(times, windowMs, i) <= m <= i
    ensures Opener(times, windowMs, m) == Opener(times, windowMs, i)
  {
    if m < i { WindowUnbroken(times, windowMs, m, i - 1); }
  }

  /** Two calls of one interval that both fall in a later window than `lo` share that window. */
  lemma AtMostTwoWindows(times: seq<int>, windowMs: int, start: int, lo: nat, i: nat, j: nat)
    requires NonDecreasing(times) && lo <= i <= j < |times|
    requires start <= times[lo] && times[j] < start + windowMs
    requires Opener(times, windowMs, i) != Opener(times, windowMs, lo)
    ensures Opener(times, windowMs, j) == Opener(times, windowMs, i)
    ensures lo < Opener(times, windowMs, i)
  {
    var o := Opener(times, windowMs, i);
    if o <= lo { WindowUnbroken(times, windowMs, lo, i); }
    WindowReach(times, windowMs, i, j);
  }

  lemma {:induction false} FirstFrom(times: seq<int>, start: int, i: nat) returns (lo: nat)
    requires NonDecreasing(times) && i < |times| && start <= times[i]
    ensures lo <= i && start <= times[lo] && forall k: nat | k < lo :: times[k] < start
  {
    if i > 0 && start <= times[i - 1] {
      lo := FirstFrom(times, start, i - 1);
    } else {
      lo := i;
    }
  }

  /** A call of the interval falls in its first window, opened earlier, or in the one of call `i`. */
  lemma TwoWindows(times: seq<int>, windowMs: int, start: int, lo: nat, i: nat, j: nat)
    requires NonDecreasing(times) && lo <= i < |times| && lo <= j < |times|
    requires start <= times[lo] && times[i] < start + windowMs && times[j] < start + windowMs
    requires Opener(times, windowMs, i) != Opener(times, windowMs, lo)
    ensures Opener(times, windowMs, lo) < lo
    ensures Opener(times, windowMs, j) == Opener(times, windowMs, lo) ||
      Opener(times, windowMs, j) == Opener(times, windowMs, i)
  {
    hide Opener;
    if Opener(times, windowMs, lo) == lo { WindowReach(times, windowMs, lo, i); }
    if Opener(times, windowMs, j) != Opener(times, windowMs, lo) {
      if i <= j {
        AtMostTwoWindows(times, windowMs, start, lo, i, j);
      } else {
        AtMostTwoWindows(times, windowMs, start, lo, j, i);
      }
    }
  }

  /** At most 2 * max - 1 of the times are admitted in any half-open interval of the window's length. */
  lemma TimesBound(times: seq<int>, windowMs: int, max: nat, start: int)
    requires NonDecreasing(times) && max > 0
    ensures |AdmittedFrom(times, windowMs, max, start)| <= 2 * max - 1
  {
    hide Opener, NonDecreasing, Range;
    var s := AdmittedFrom(times, windowMs, max, start);
    if s != {} {
      var first := HasElement(s);
      var lo := FirstFrom(times, start, first);
      var o := Opener(times, windowMs, lo);
      if i :| i in s && Opener(times, windowMs, i) != o {
        var o2 := Opener(times, windowMs, i);
        forall j | j in s
          ensures j in Range(o + 1, max - 1) + Range(o2, max)
        {
          TwoWindows(times, windowMs, start, lo, i, j);
        }
        TwoWindows(times, windowMs, start, lo, i, i);
        SubsetSize(s, Range(o + 1, max - 1) + Range(o2, max));
      } else {
        SubsetSize(s, Range(o, max));
      }
    }
  }

  /** The calls of a key that the limiter lets through in the half-open interval of length `windowMs` from `start`. */
  function LetThrough(events: seq<Event>, key: string, windowMs: int, start: int): set<nat> {
    set i: nat | i < |events| && events[i].key == key && events[i].Call? && start <= events[i].now < start + windowMs
                 && LastAnswer(true, events[..i + 1]).Some? && !LastAnswer(true, events[..i + 1]).value.limited
  }

  /** Which of the key's own events event `i` is. */
  function OwnIndex(events: seq<Event>, key: string, i: nat): int
    requires i < |events|
  {
    |OnlyKey(events[..i + 1], key)| - 1
  }

  lemma OwnIndexIs(events: seq<Event>, key: string, i: nat)
    requires i < |events| && events[i].key == key
    ensures var k := OwnIndex(events, key, i);
      0 <= k < |OnlyKey(events, key)| && OnlyKey(events, key)[k] == events[i]
      && OnlyKey(events[..i + 1], key) == OnlyKey(events, key)[..k + 1]
  {
    hide OnlyKey;
    OwnLast(events[..i + 1]);
    OnlyKeyAppend(events[..i + 1], events[i + 1..], key);
    assert events[..i + 1] + events[i + 1..] == events;
  }

  lemma OwnIndexGrows(events: seq<Event>, key: string, i: nat, j: nat)
    requires i < j < |events| && events[j].key == key
    ensures OwnIndex(events, key, i) < OwnIndex(events, key, j)
  {
    hide OnlyKey;
    OnlyKeyAppend(events[..i + 1], events[i + 1..j + 1], key);
    assert events[..i + 1] + events[i + 1..j + 1] == events[..j + 1];
    OwnLast(events[i + 1..j + 1]);
  }

  lemma LetThroughIsAdmitted(events: seq<Event>, key: string, max: int, windowMs: int, start: int, now: int, i: nat)
    requires Ordered(events, now) && IsKeyHistory(events, key, max, windowMs)
    requires i in LetThrough(events, key, windowMs, start)
    ensures (forall e | e in OnlyKey(events, key) :: e.Call?)
    ensures OwnIndex(events, key, i) in AdmittedFrom(Times(OnlyKey(events, key)), windowMs, max, start)
  {
    hide Ordered, OnlyKey, LastAnswer, OwnIndex, Opener;
    var first, own := events[..i + 1], OnlyKey(events, key);
    OwnCalls(events, key, max, windowMs);
    OwnIndexIs(events, key, i);
    assert first + events[i + 1..] == events;
    OrderedParts(first, events[i + 1..], now);
    forall e | e in first ensures e in events {}
    AdmittedInAnyHistory(first, key, max, windowMs, now);
    var k := OwnIndex(events, key, i);
    assert OnlyKey(first, key) == own[..k + 1];
    assert Times(own[..k + 1]) == Times(own)[..k + 1];
    OpenerPrefix(Times(own)[..k + 1], Times(own), windowMs, k);
  }

  /**
   * Under a clock that never runs backwards the limiter lets at most 2 * max - 1 calls of a key through
   * in any half-open interval of the window's length, whatever the other keys do.
   */
  lemma SlidingBound(events: seq<Event>, key: string, max: nat, windowMs: int, start: int, now: int)
    requires Ordered(events, now) && IsKeyHistory(events, key, max, windowMs) && max > 0
    ensures |LetThrough(events, key, windowMs, start)| <= 2 * max - 1
  {
    hide Ordered, OnlyKey, AdmittedFrom, OwnIndex;
    var s := LetThrough(events, key, windowMs, start);
    OwnCalls(events, key, max, windowMs);
    var times := Times(OnlyKey(events, key));
    OnlyKeyOrdered(events, key, now);
    OrderedTimes(OnlyKey(events, key), now);
    TimesBound(times, windowMs, max, start);
    var f := (i: nat) => if i < |events| then OwnIndex(events, key, i) else 0;
    forall i | i in s
      ensures f(i) in AdmittedFrom(times, windowMs, max, start)
    {
      LetThroughIsAdmitted(events, key, max, windowMs, start, now, i);
    }
    forall i, j | i in s && j in s && i != j
      ensures f(i) != f(j)
    {
      if i < j { OwnIndexGrows(events, key, i, j); } else { OwnIndexGrows(events, key, j, i); }
    }
    InjectiveSize(s, f, AdmittedFrom(times, windowMs, max, start));
  }

  /**
   * A history that reaches the bound: one call, then the rest of the limit just before the window ends,
   * then a full limit.
   */
  function Burst(windowMs: int, max: nat): seq<int> {
    seq(2 * max, i => if i == 0 then 0 else if i < max then windowMs - 1 else windowMs)
  }

  lemma {:induction false} BurstOpener(windowMs: int, max: nat, i: nat)
    requires windowMs >= 2 && max > 0 && i < 2 * max
    ensures Opener(Burst(windowMs, max), windowMs, i) == if i < max then 0 else max
  {
    if i > 0 { BurstOpener(windowMs, max, i - 1); }
  }

  lemma BurstIs(windowMs: int, max: nat)
    requires windowMs >= 2
    ensures |Burst(windowMs, max)| == 2 * max && forall i | 0 <= i < 2 * max :: Burst(windowMs, max)[i] <= windowMs
  {
  }

  lemma TimesBoundIsTight(windowMs: int, max: nat)
    requires windowMs >= 2 && max > 0
    ensures NonDecreasing(Burst(windowMs, max))
    ensures AdmittedFrom(Burst(windowMs, max), windowMs, max, windowMs - 1) == Range(1, 2 * max - 1)
  {
    var times := Burst(windowMs, max);
    forall i: nat | i < 2 * max
      ensures Admitted(times, windowMs, max, i)
    {
      BurstOpener(windowMs, max, i);
    }
  }

  /** Calls of one key at those times. */
  function CallsAt(key: string, max: int, windowMs: int, times: seq<int>): (events: seq<Event>)
    ensures |events| == |times| && forall e | e in events ::
      e.key == key && e.Call? && e.max == max && e.windowMs == windowMs
  {
    seq(|times|, i requires 0 <= i < |times| => Call(key, max, windowMs, times[i]))
  }

  lemma {:induction false} CallsAreOrdered(key: string, max: int, windowMs: int, times: seq<int>, now: int)
    requires NonDecreasing(times) && forall i | 0 <= i < |times| :: times[i] <= now
    ensures Ordered(CallsAt(key, max, windowMs, times), now)
  {
    if times != [] {
      var rest := times[..|times| - 1];
      var events := CallsAt(key, max, windowMs, times);
      assert events[..|events| - 1] == CallsAt(key, max, windowMs, rest);
      CallsAreOrdered(key, max, windowMs, rest, times[|times| - 1]);
    }
  }

  /** Alone in its history, a key's call is let through exactly when it is among the first of its window. */
  lemma CallIsLetThrough(key: string, max: int, windowMs: int, times: seq<int>, i: nat)
    requires NonDecreasing(times) && i < |times|
    ensures var a := LastAnswer(true, CallsAt(key, max, windowMs, times)[..i + 1]);
      a.Some? && (!a.value.limited <==> Admitted(times, windowMs, max, i))
  {
    hide Ordered, LastAnswer, Opener;
    var calls := CallsAt(key, max, windowMs, times)[..i + 1];
    assert calls == CallsAt(key, max, windowMs, times[..i + 1]);
    CallsAreOrdered(key, max, windowMs, times[..i + 1], times[i]);
    PruningIsInvisible(calls, times[i]);
    FirstOfWindowAdmitted(calls, key, max, windowMs);
    assert Times(calls) == times[..i + 1];
    OpenerPrefix(times[..i + 1], times, windowMs, i);
  }

  /** No smaller bound holds: the limiter lets exactly that many calls of a burst through. */
  lemma SlidingBoundIsTight(key: string, windowMs: int, max: nat)
    requires windowMs >= 2 && max > 0
    ensures var events := CallsAt(key, max, windowMs, Burst(windowMs, max));
      Ordered(events, windowMs) && IsKeyHistory(events, key, max, windowMs)
      && |LetThrough(events, key, windowMs, windowMs - 1)| == 2 * max - 1
  {
    hide LastAnswer, Admitted, Ordered, Burst, Range, NonDecreasing;
    var times := Burst(windowMs, max);
    var events := CallsAt(key, max, windowMs, times);
    TimesBoundIsTight(windowMs, max);
    BurstIs(windowMs, max);
    CallsAreOrdered(key, max, windowMs, times, windowMs);
    forall i: nat | i < |times|
      ensures LastAnswer(true, events[..i + 1]).Some?
      ensures !LastAnswer(true, events[..i + 1]).value.limited <==> Admitted(times, windowMs, max, i)
    {
      CallIsLetThrough(key, max, windowMs, times, i);
    }
    assert LetThrough(events, key, windowMs, windowMs - 1) == AdmittedFrom(times, windowMs, max, windowMs - 1);
  }
}
