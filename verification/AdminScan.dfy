// The persistent record of remote-admin probes: what each row means over every history, and which
// nodes are offered for probing. Times are seconds, as the table stores them.
module AdminScan {
  import opened Collections

  datatype Meta = Meta(firmware: Option<string>, hwModel: Option<string>, role: Option<string>)

  datatype Row = Row(firstOk: Option<int>, lastOk: Option<int>, lastScan: Option<int>, okCount: nat, meta: Meta)

  type Table = map<nat, Row>

  const ID_LIMIT := 0x1_0000_0000

  /** Node ids are taken as unsigned 32-bit numbers. */
  function Key(nodeId: int): nat { nodeId % ID_LIMIT }

  function Coalesce<T>(a: Option<T>, b: Option<T>): Option<T> { if a.Some? then a else b }

  function Merge(told: Meta, known: Meta): Meta {
    Meta(Coalesce(told.firmware, known.firmware), Coalesce(told.hwModel, known.hwModel),
      Coalesce(told.role, known.role))
  }

  // The three statements.

  function AfterOk(row: Option<Row>, meta: Meta, now: int): Row {
    match row
    case None => Row(Some(now), Some(now), Some(now), 1, meta)
    case Some(r) => Row(Coalesce(r.firstOk, Some(now)), Some(now), Some(now), r.okCount + 1, Merge(meta, r.meta))
  }

  function AfterScan(row: Option<Row>, now: int): Row {
    match row
    case None => Row(None, None, Some(now), 0, Meta(None, None, None))
    case Some(r) => r.(lastScan := Some(now))
  }

  function At(t: Table, k: nat): Option<Row> { if k in t then Some(t[k]) else None }

  class ScanStore {
    var rows: Table

    constructor ()
      ensures rows == map[]
    {
      rows := map[];
    }

    method RecordAdminOk(nodeId: int, meta: Meta, now: int)
      modifies this
      ensures rows == old(rows)[Key(nodeId) := AfterOk(At(old(rows), Key(nodeId)), meta, now)]
    {
      var k := Key(nodeId);
      if k in rows {
        var r := rows[k];
        var first := Coalesce(r.firstOk, Some(now));
        rows := rows[k := Row(first, Some(now), Some(now), r.okCount + 1, Merge(meta, r.meta))];
      } else {
        rows := rows[k := Row(Some(now), Some(now), Some(now), 1, meta)];
      }
    }

    method MarkScanned(nodeId: int, now: int)
      modifies this
      ensures rows == old(rows)[Key(nodeId) := AfterScan(At(old(rows), Key(nodeId)), now)]
    {
      var k := Key(nodeId);
      if k in rows {
        rows := rows[k := rows[k].(lastScan := Some(now))];
      } else {
        rows := rows[k := Row(None, None, Some(now), 0, Meta(None, None, None))];
      }
    }

    method ForgetRemoteAdmin(nodeId: int)
      modifies this
      ensures Key(nodeId) !in rows
      ensures forall k | k != Key(nodeId) :: At(rows, k) == At(old(rows), k)
    {
      rows := rows - {Key(nodeId)};
    }
  }

  // Histories.

  datatype Event = Ok(id: int, meta: Meta, now: int) | Scanned(id: int, now: int) | Forgotten(id: int)

  function Apply(t: Table, e: Event): Table {
    match e
    case Ok(id, meta, now) => t[Key(id) := AfterOk(At(t, Key(id)), meta, now)]
    case Scanned(id, now) => t[Key(id) := AfterScan(At(t, Key(id)), now)]
    case Forgotten(id) => t - {Key(id)}
  }

  function Run(events: seq<Event>): Table {
    if events == [] then map[] else Apply(Run(events[..|events| - 1]), events[|events| - 1])
  }

  /** The node's events since it was last forgotten. */
  function Since(events: seq<Event>, k: nat): seq<Event> {
    if events == [] then []
    else
      var e, rest := events[|events| - 1], Since(events[..|events| - 1], k);
      if Key(e.id) != k then rest else if e.Forgotten? then [] else rest + [e]
  }

  function Oks(events: seq<Event>): seq<Event> {
    if events == [] then []
    else
      var e, rest := events[|events| - 1], Oks(events[..|events| - 1]);
      if e.Ok? then rest + [e] else rest
  }

  datatype Which = Firmware | HwModel | NodeRole

  function FieldOf(m: Meta, which: Which): Option<string> {
    match which
    case Firmware => m.firmware
    case HwModel => m.hwModel
    case NodeRole => m.role
  }

  /** The latest value that any of the successes reported. */
  function LastKnown(oks: seq<Event>, which: Which): Option<string> {
    if oks == [] then None
    else
      var e, before := oks[|oks| - 1], LastKnown(oks[..|oks| - 1], which);
      if e.Ok? then Coalesce(FieldOf(e.meta, which), before) else before
  }

  function Time(e: Event): int { if e.Forgotten? then 0 else e.now }

  /** What a row must say, given the node's events since it was last forgotten. */
  ghost predicate Records(row: Row, since: seq<Event>)
    requires since != []
  {
    var oks := Oks(since);
    && row.okCount == |oks|
    && row.lastScan == Some(Time(since[|since| - 1]))
    && row.firstOk == (if oks == [] then None else Some(Time(oks[0])))
    && row.lastOk == (if oks == [] then None else Some(Time(oks[|oks| - 1])))
    && forall which :: FieldOf(row.meta, which) == LastKnown(oks, which)
  }

  lemma AddOk(row: Option<Row>, since: seq<Event>, e: Event)
    requires e.Ok?
    requires if row.None? then since == [] else since != [] && Records(row.value, since)
    ensures Records(AfterOk(row, e.meta, e.now), since + [e])
  {
    var x := since + [e];
    assert x[..|x| - 1] == since;
    assert Oks(x) == Oks(since) + [e];
    assert Oks(x)[..|Oks(x)| - 1] == Oks(since);
  }

  lemma AddScan(row: Option<Row>, since: seq<Event>, e: Event)
    requires e.Scanned?
    requires if row.None? then since == [] else since != [] && Records(row.value, since)
    ensures Records(AfterScan(row, e.now), since + [e])
  {
    var x := since + [e];
    assert x[..|x| - 1] == since;
    assert Oks(x) == Oks(since);
  }

  /** In every history a row says exactly what happened since the node was last forgotten. */
  lemma {:induction false} RunRecords(events: seq<Event>, k: nat)
    ensures k in Run(events) <==> Since(events, k) != []
    ensures k in Run(events) ==> Records(Run(events)[k], Since(events, k))
  {
    hide Records, AfterOk, AfterScan;
    if events != [] {
      var rest, e := events[..|events| - 1], events[|events| - 1];
      RunRecords(rest, k);
      if Key(e.id) == k && e.Ok? { AddOk(At(Run(rest), k), Since(rest, k), e); }
      if Key(e.id) == k && e.Scanned? { AddScan(At(Run(rest), k), Since(rest, k), e); }
    }
  }

  // Consequences a reader of the table relies on.

  predicate TimesOrdered(events: seq<Event>) {
    forall i, j | 0 <= i <= j < |events| :: Time(events[i]) <= Time(events[j])
  }

  /** The clock never runs backwards. */
  predicate ClockOrdered(events: seq<Event>) {
    forall i, j | 0 <= i <= j < |events| && !events[i].Forgotten? && !events[j].Forgotten? ::
      events[i].now <= events[j].now
  }

  lemma {:induction false} SinceOrdered(events: seq<Event>, k: nat)
    requires ClockOrdered(events)
    ensures TimesOrdered(Since(events, k))
    ensures forall i | 0 <= i < |Since(events, k)| :: Since(events, k)[i] in events && !Since(events, k)[i].Forgotten?
  {
    if events != [] {
      var rest, e := events[..|events| - 1], events[|events| - 1];
      assert events == rest + [e];
      SinceOrdered(rest, k);
    }
  }

  lemma {:induction false} OksOrdered(events: seq<Event>)
    requires TimesOrdered(events)
    ensures TimesOrdered(Oks(events))
    ensures forall e | e in Oks(events) :: e.Ok? && e in events
    ensures events != [] ==> forall i | 0 <= i < |Oks(events)| :: Time(Oks(events)[i]) <= Time(events[|events| - 1])
  {
    if events != [] {
      var rest := events[..|events| - 1];
      OksOrdered(rest);
      forall i | 0 <= i < |Oks(rest)|
        ensures Time(Oks(rest)[i]) <= Time(events[|events| - 1])
      {
        assert Time(Oks(rest)[i]) <= Time(rest[|rest| - 1]);
      }
    }
  }

  /**
   * Under a clock that never runs backwards: a success is on record exactly when the count is
   * positive, the first is the earliest of them, and first <= last <= last scan.
   */
  lemma RowOrder(events: seq<Event>, k: nat)
    requires k in Run(events) && ClockOrdered(events)
    ensures var row, oks := Run(events)[k], Oks(Since(events, k));
      && (row.lastOk.Some? <==> row.okCount > 0) && (row.firstOk.Some? <==> row.okCount > 0)
      && row.lastScan.Some?
      && (row.okCount > 0 ==> row.firstOk.value <= row.lastOk.value <= row.lastScan.value)
      && (row.okCount > 0 ==> forall i | 0 <= i < |oks| :: row.firstOk.value <= Time(oks[i]) <= row.lastOk.value)
  {
    RunRecords(events, k);
    SinceOrdered(events, k);
    OksOrdered(Since(events, k));
  }

  lemma {:induction false} LastKnownKeeps(oks: seq<Event>, i: nat, which: Which)
    requires i < |oks| && oks[i].Ok? && FieldOf(oks[i].meta, which).Some?
    ensures LastKnown(oks, which).Some?
  {
    if i < |oks| - 1 { LastKnownKeeps(oks[..|oks| - 1], i, which); }
  }

  /** Once reported, a firmware, hardware or role value is never lost to a success without one. */
  lemma {:induction false} KnownIsNeverErased(events: seq<Event>, k: nat, i: nat, which: Which)
    requires i < |Oks(Since(events, k))| && Oks(Since(events, k))[i].Ok?
    requires FieldOf(Oks(Since(events, k))[i].meta, which).Some?
    ensures k in Run(events) && FieldOf(Run(events)[k].meta, which).Some?
  {
    RunRecords(events, k);
    LastKnownKeeps(Oks(Since(events, k)), i, which);
  }

  /** The first success stays the first through every run in which the node is not forgotten. */
  lemma {:induction false} FirstOkIsStable(events: seq<Event>, later: seq<Event>, k: nat)
    requires k in Run(events) && Run(events)[k].firstOk.Some?
    requires forall e | e in later :: !(e.Forgotten? && Key(e.id) == k)
    ensures k in Run(events + later) && Run(events + later)[k].firstOk == Run(events)[k].firstOk
  {
    if later == [] {
      assert events + later == events;
    } else {
      var rest, e := later[..|later| - 1], later[|later| - 1];
      assert (events + later)[..|events + later| - 1] == events + rest;
      assert e in later;
      forall x | x in rest ensures x in later {}
      FirstOkIsStable(events, rest, k);
    }
  }

  /** A forgotten node is as one never heard of; every other node is as if nothing had been forgotten. */
  lemma {:induction false} ForgettingStartsOver(before: seq<Event>, id: int, after: seq<Event>, k: nat)
    ensures At(Run(before + [Forgotten(id)] + after), k) == At(Run(if k == Key(id) then after else before + after), k)
  {
    hide AfterOk, AfterScan;
    var events := before + [Forgotten(id)] + after;
    if after == [] {
      assert events[..|events| - 1] == before == before + after;
    } else {
      var rest := after[..|after| - 1];
      assert events[..|events| - 1] == before + [Forgotten(id)] + rest;
      assert (before + after)[..|before + after| - 1] == before + rest;
      ForgettingStartsOver(before, id, rest, k);
    }
  }

  // Which nodes are offered.

  const HOUR := 3600

  datatype Query = Query(receptions: seq<(nat, int)>, owned: set<nat>, ownedOnly: bool,
                         limit: int, staleHours: int, activeHours: int, reconfirmHours: int, now: int)

  /** Nodes heard recently enough, claimed ones only if so asked; ids are unsigned 32-bit. */
  function Active(q: Query): set<nat> {
    set r | r in q.receptions && r.0 < ID_LIMIT && r.1 >= q.now - q.activeHours * HOUR &&
      (q.ownedOnly ==> r.0 in q.owned) :: r.0
  }

  predicate Due(t: Table, k: nat, q: Query) {
    || k !in t
    || (t[k].lastOk.None? && (t[k].lastScan.None? || t[k].lastScan.value < q.now - q.staleHours * HOUR))
    || (t[k].lastOk.Some? && q.reconfirmHours > 0 && t[k].lastOk.value < q.now - q.reconfirmHours * HOUR)
  }

  /** Never probed, then probed without a time, then the rest. */
  function Rank(t: Table, k: nat): nat {
    if k !in t then 0 else if t[k].lastScan.None? then 1 else 2
  }

  function Ascending(s: set<nat>, n: nat): seq<nat> {
    if n == 0 then [] else if n - 1 in s then Ascending(s, n - 1) + [n - 1] else Ascending(s, n - 1)
  }

  function DueOfRank(t: Table, q: Query, rank: nat): set<nat> {
    set k | k in Active(q) && Due(t, k, q) && Rank(t, k) == rank
  }

  function OfRank(t: Table, q: Query, rank: nat): seq<nat> {
    Ascending(DueOfRank(t, q, rank), ID_LIMIT)
  }

  function Clamp(limit: int): nat {
    if limit < 1 then 1 else if limit > 50 then 50 else limit
  }

  function Take(s: seq<nat>, n: nat): (r: seq<nat>)
    ensures r <= s && |r| <= n && (|r| < n ==> r == s)
  {
    if |s| <= n then s else s[..n]
  }

  function ScanCandidates(t: Table, q: Query): seq<nat> {
    Take(OfRank(t, q, 0) + OfRank(t, q, 1) + OfRank(t, q, 2), Clamp(q.limit))
  }

  lemma {:induction false} AscendingIs(s: set<nat>, n: nat)
    ensures forall k :: k in Ascending(s, n) <==> k in s && k < n
    ensures forall i, j | 0 <= i < j < |Ascending(s, n)| :: Ascending(s, n)[i] < Ascending(s, n)[j]
  {
    if n > 0 {
      AscendingIs(s, n - 1);
      var rest := Ascending(s, n - 1);
      assert forall i | 0 <= i < |rest| :: rest[i] in rest;
    }
  }

  lemma OfRankIs(t: Table, q: Query, rank: nat, k: nat)
    ensures k in OfRank(t, q, rank) <==> k in Active(q) && Due(t, k, q) && Rank(t, k) == rank
  {
    hide Ascending;
    AscendingIs(DueOfRank(t, q, rank), ID_LIMIT);
  }

  /** Only active nodes that are due are offered, and all of them when the limit allows. */
  lemma CandidatesAreDue(t: Table, q: Query, k: nat)
    ensures k in ScanCandidates(t, q) ==> k in Active(q) && Due(t, k, q)
    ensures |ScanCandidates(t, q)| < Clamp(q.limit) ==> (k in ScanCandidates(t, q) <==> k in Active(q) && Due(t, k, q))
  {
    hide OfRank, Active, Due;
    OfRankIs(t, q, 0, k);
    OfRankIs(t, q, 1, k);
    OfRankIs(t, q, 2, k);
  }

  /** A node that never answered is not offered again until more than `staleHours` after its last probe. */
  lemma NotOfferedTooSoon(t: Table, q: Query, k: nat)
    requires k in ScanCandidates(t, q) && k in t && t[k].lastOk.None? && t[k].lastScan.Some?
    ensures t[k].lastScan.value < q.now - q.staleHours * HOUR
  {
    CandidatesAreDue(t, q, k);
  }

  /** A node that answered is offered again only if re-confirmation is on, and then after that long. */
  lemma AnsweredIsLeftAlone(t: Table, q: Query, k: nat)
    requires k in ScanCandidates(t, q) && k in t && t[k].lastOk.Some?
    ensures q.reconfirmHours > 0 && t[k].lastOk.value < q.now - q.reconfirmHours * HOUR
  {
    CandidatesAreDue(t, q, k);
  }

  /** The offer begins with never-probed nodes in order of id: all of them, or as many as the limit allows. */
  lemma NeverProbedFirst(t: Table, q: Query)
    ensures var unprobed, c := OfRank(t, q, 0), ScanCandidates(t, q);
      |c| <= Clamp(q.limit) && if |unprobed| <= Clamp(q.limit) then unprobed <= c else c == unprobed[..Clamp(q.limit)]
    ensures forall k :: k in OfRank(t, q, 0) <==> k in Active(q) && k !in t
    ensures forall i, j | 0 <= i < j < |OfRank(t, q, 0)| :: OfRank(t, q, 0)[i] < OfRank(t, q, 0)[j]
    ensures forall i | |OfRank(t, q, 0)| <= i < |ScanCandidates(t, q)| :: ScanCandidates(t, q)[i] in t
  {
    hide Ascending, Active, Due;
    AscendingIs(DueOfRank(t, q, 0), ID_LIMIT);
    forall k
      ensures k in OfRank(t, q, 0) <==> k in Active(q) && k !in t
      ensures k in OfRank(t, q, 1) || k in OfRank(t, q, 2) ==> k in t
    {
      OfRankIs(t, q, 0, k);
      OfRankIs(t, q, 1, k);
      OfRankIs(t, q, 2, k);
      NeverProbedIsDue(t, k, q);
    }
    hide OfRank;
    var rest := OfRank(t, q, 1) + OfRank(t, q, 2);
    assert forall k | k in rest :: k in t;
    assert OfRank(t, q, 0) + OfRank(t, q, 1) + OfRank(t, q, 2) == OfRank(t, q, 0) + rest;
  }

  lemma NeverProbedIsDue(t: Table, k: nat, q: Query)
    ensures k !in t ==> Due(t, k, q)
  {
  }

  // Ticks: everything offered is marked scanned.

  function MarkAll(t: Table, ids: seq<nat>, now: int): Table {
    if ids == [] then t
    else
      var before, k := MarkAll(t, ids[..|ids| - 1], now), ids[|ids| - 1];
      before[k := AfterScan(At(before, k), now)]
  }

  function Tick(t: Table, q: Query): Table { MarkAll(t, ScanCandidates(t, q), q.now) }

  lemma {:induction false} MarkAllKeys(t: Table, ids: seq<nat>, now: int)
    ensures forall k :: k in MarkAll(t, ids, now) <==> k in t || k in ids
  {
    if ids != [] {
      assert ids == ids[..|ids| - 1] + [ids[|ids| - 1]];
      MarkAllKeys(t, ids[..|ids| - 1], now);
    }
  }

  /** The active nodes without a row. */
  function NeverProbed(t: Table, active: set<nat>): set<nat> {
    set k | k in active && k !in t
  }

  /** A tick probes as many never-probed nodes as the limit allows. */
  lemma TickProbes(t: Table, q: Query)
    ensures var before, after := |NeverProbed(t, Active(q))|, |NeverProbed(Tick(t, q), Active(q))|;
      after == if before <= Clamp(q.limit) then 0 else before - Clamp(q.limit)
  {
    hide Active, OfRank, MarkAll, ScanCandidates, Clamp;
    var c, lim := ScanCandidates(t, q), Clamp(q.limit);
    var unprobed := OfRank(t, q, 0);
    NeverProbedFirst(t, q);
    MarkAllKeys(t, c, q.now);
    DistinctSize(unprobed);
    assert NeverProbed(t, Active(q)) == Elements(unprobed);
    if |unprobed| <= lim {
      assert forall k | k in unprobed :: k in c;
      assert NeverProbed(Tick(t, q), Active(q)) == {};
    } else {
      SplitSorted(unprobed, lim);
      DistinctSize(unprobed[lim..]);
      assert NeverProbed(Tick(t, q), Active(q)) == Elements(unprobed[lim..]);
    }
  }

  lemma SplitSorted(s: seq<nat>, n: nat)
    requires n <= |s| && forall i, j | 0 <= i < j < |s| :: s[i] < s[j]
    ensures forall k :: k in s[n..] <==> k in s && k !in s[..n]
  {
  }

  function Ticks(t: Table, qs: seq<Query>): Table {
    if qs == [] then t else Tick(Ticks(t, qs[..|qs| - 1]), qs[|qs| - 1])
  }

  /**
   * With a fixed active set and limit k, m ticks leave max(0, N - m * k) of N never-probed nodes: all
   * are probed once after ceil(N / k) ticks, and not sooner.
   */
  lemma {:induction false} TicksProbe(t: Table, qs: seq<Query>, active: set<nat>, lim: nat)
    requires forall q | q in qs :: Active(q) == active && Clamp(q.limit) == lim
    ensures var n := |NeverProbed(t, active)|;
      |NeverProbed(Ticks(t, qs), active)| == if n <= |qs| * lim then 0 else n - |qs| * lim
  {
    hide Active, Tick, Clamp, NeverProbed;
    if qs != [] {
      var rest, q := qs[..|qs| - 1], qs[|qs| - 1];
      assert q in qs;
      forall x | x in rest ensures x in qs {}
      TicksProbe(t, rest, active, lim);
      TickProbes(Ticks(t, rest), q);
      assert |qs| * lim == |rest| * lim + lim;
    }
  }

  // The worker skips the station's own node without marking it.

  function Skipping(ids: seq<nat>, self: nat): seq<nat> {
    if ids == [] then []
    else
      var rest := Skipping(ids[..|ids| - 1], self);
      if ids[|ids| - 1] == self then rest else rest + [ids[|ids| - 1]]
  }

  function WorkerTick(t: Table, q: Query, self: nat): Table {
    MarkAll(t, Skipping(ScanCandidates(t, q), self), q.now)
  }

  lemma {:induction false} SkippingIs(ids: seq<nat>, self: nat)
    ensures forall k :: k in Skipping(ids, self) <==> k in ids && k != self
  {
    if ids != [] {
      assert ids == ids[..|ids| - 1] + [ids[|ids| - 1]];
      SkippingIs(ids[..|ids| - 1], self);
    }
  }

  predicate StrictlyAscending(s: seq<nat>) {
    forall i, j | 0 <= i < j < |s| :: s[i] < s[j]
  }

  lemma {:induction false} SameElementsSameSeq(a: seq<nat>, b: seq<nat>)
    requires StrictlyAscending(a) && StrictlyAscending(b) && forall k :: k in a <==> k in b
    ensures a == b
  {
    if a == [] {
      FirstIsIn(b);
    } else {
      assert b != [] by { assert a[0] in b; }
      assert a[0] in b && b[0] in a;
      assert a[0] == b[0];
      TailElements(a);
      TailElements(b);
      SameElementsSameSeq(a[1..], b[1..]);
    }
  }

  lemma TailElements(s: seq<nat>)
    requires StrictlyAscending(s) && s != []
    ensures forall k :: k in s[1..] <==> k in s && k != s[0]
  {
    assert s == [s[0]] + s[1..];
  }

  /** The never-probed active nodes, in order of id. */
  function Unprobed(t: Table, active: set<nat>): seq<nat> {
    Ascending(NeverProbed(t, active), ID_LIMIT)
  }

  function Drop(u: seq<nat>, n: nat): seq<nat> { if n <= |u| then u[n..] else [] }

  /** What one tick leaves: the first `lim` are probed, save the station itself. */
  function AfterTick(u: seq<nat>, self: nat, lim: nat): seq<nat> {
    (if self in Take(u, lim) then [self] else []) + Drop(u, lim)
  }

  lemma UnprobedIs(t: Table, q: Query)
    ensures Unprobed(t, Active(q)) == OfRank(t, q, 0) && StrictlyAscending(Unprobed(t, Active(q)))
    ensures forall k :: k in Unprobed(t, Active(q)) <==> k in NeverProbed(t, Active(q))
  {
    hide Ascending, Active, Due;
    AscendingIs(NeverProbed(t, Active(q)), ID_LIMIT);
    AscendingIs(DueOfRank(t, q, 0), ID_LIMIT);
    forall k
      ensures k in DueOfRank(t, q, 0) <==> k in NeverProbed(t, Active(q))
    {
      NeverProbedIsDue(t, k, q);
    }
    ActiveIsSmall(q);
    SameElementsSameSeq(Unprobed(t, Active(q)), OfRank(t, q, 0));
  }

  lemma ActiveIsSmall(q: Query)
    ensures forall k | k in Active(q) :: k < ID_LIMIT
  {
  }

  lemma CutElements(u: seq<nat>, lim: nat)
    requires StrictlyAscending(u)
    ensures forall k :: k in Drop(u, lim) <==> k in u && k !in Take(u, lim)
    ensures forall k, l | k in Take(u, lim) && l in Drop(u, lim) :: k < l
  {
    if lim < |u| { SplitSorted(u, lim); }
  }

  /** A worker tick probes the first `limit` never-probed nodes but the station's own. */
  lemma WorkerTickLeaves(t: Table, q: Query, self: nat)
    ensures Unprobed(WorkerTick(t, q, self), Active(q)) == AfterTick(Unprobed(t, Active(q)), self, Clamp(q.limit))
  {
    hide Active, Due, Ascending, Skipping, MarkAll, Take, Drop, OfRank, ScanCandidates, Clamp, NeverProbed;
    var u, c, lim := Unprobed(t, Active(q)), ScanCandidates(t, q), Clamp(q.limit);
    var t' := WorkerTick(t, q, self);
    UnprobedIs(t, q);
    UnprobedIs(t', q);
    CutElements(u, lim);
    SkippingIs(c, self);
    MarkAllKeys(t, Skipping(c, self), q.now);
    forall k | k in u
      ensures k in c <==> k in Take(u, lim)
    {
      OfferedIsFirst(t, q, k);
    }
    StillNeverProbed(t, t', Active(q), self, c);
    var v := AfterTick(u, self, lim);
    AfterTickElements(u, self, lim);
    AfterTickAscends(u, self, lim);
    SameElementsSameSeq(Unprobed(t', Active(q)), v);
  }

  lemma StillNeverProbed(t: Table, t': Table, active: set<nat>, self: nat, c: seq<nat>)
    requires forall k :: k in t' <==> k in t || (k in c && k != self)
    ensures forall k :: k in NeverProbed(t', active) <==> k in NeverProbed(t, active) && (k == self || k !in c)
  {
  }

  lemma OfferedIsFirst(t: Table, q: Query, k: nat)
    requires k in Unprobed(t, Active(q))
    ensures k in ScanCandidates(t, q) <==> k in Take(Unprobed(t, Active(q)), Clamp(q.limit))
  {
    hide Active, Due, Ascending, OfRank, ScanCandidates, Clamp, Unprobed;
    UnprobedIs(t, q);
    NeverProbedFirst(t, q);
  }

  lemma AfterTickAscends(u: seq<nat>, self: nat, lim: nat)
    requires StrictlyAscending(u)
    ensures StrictlyAscending(AfterTick(u, self, lim))
  {
    CutElements(u, lim);
    var d := Drop(u, lim);
    assert forall i | 0 <= i < |d| :: d[i] in d;
  }

  // What m worker ticks leave.

  function WorkerTicks(t: Table, qs: seq<Query>, self: nat): Table {
    if qs == [] then t else WorkerTick(WorkerTicks(t, qs[..|qs| - 1], self), qs[|qs| - 1], self)
  }

  function Place(u: seq<nat>, self: nat): (p: nat)
    requires self in u
    ensures p < |u| && u[p] == self
  {
    if u[0] == self then 0 else 1 + Place(u[1..], self)
  }

  function Product(a: nat, b: nat): nat { a * b }

  /** How many of the nodes, in order of id, the first `m` ticks have gone through; the station is at place `p`. */
  function Passed(p: nat, lim: nat, m: nat): nat
    requires lim > 0
  {
    var turn: nat := p / lim;
    if m <= turn then m * lim else (turn + 1) * lim + Product(m - turn - 1, lim - 1)
  }

  /** The nodes, in order of id, that `m` ticks leave unprobed. */
  function Left(u: seq<nat>, self: nat, lim: nat, m: nat): seq<nat>
    requires lim > 0
  {
    if self !in u then Drop(u, m * lim)
    else
      var p := Place(u, self);
      (if m <= p / lim then [] else [self]) + Drop(u, Passed(p, lim, m))
  }

  lemma DropDrop(u: seq<nat>, a: nat, b: nat)
    ensures Drop(Drop(u, a), b) == Drop(u, a + b)
  {
  }

  lemma TickBeforeTurn(u: seq<nat>, self: nat, lim: nat, d: nat, p: nat)
    requires StrictlyAscending(u) && p < |u| && u[p] == self && d + lim <= p
    ensures AfterTick(Drop(u, d), self, lim) == Drop(u, d + lim)
  {
    var v := Drop(u, d);
    assert v[p - d] == self;
    assert self !in v[..lim];
    DropDrop(u, d, lim);
  }

  lemma TickAtTurn(u: seq<nat>, self: nat, lim: nat, d: nat, p: nat)
    requires StrictlyAscending(u) && p < |u| && u[p] == self && d <= p < d + lim
    ensures AfterTick(Drop(u, d), self, lim) == [self] + Drop(u, d + lim)
  {
    var v := Drop(u, d);
    assert v[p - d] == self;
    assert self in Take(v, lim) by { assert Take(v, lim)[p - d] == self; }
    DropDrop(u, d, lim);
  }

  lemma TickAfterTurn(u: seq<nat>, self: nat, lim: nat, d: nat)
    requires lim > 0
    ensures AfterTick([self] + Drop(u, d), self, lim) == [self] + Drop(u, d + (lim - 1))
  {
    var rest := Drop(u, d);
    assert Take([self] + rest, lim)[0] == self;
    assert Drop([self] + rest, lim) == Drop(rest, lim - 1);
    DropDrop(u, d, lim - 1);
  }

  lemma TickElsewhere(u: seq<nat>, self: nat, lim: nat, d: nat)
    requires self !in u
    ensures AfterTick(Drop(u, d), self, lim) == Drop(u, d + lim)
  {
    assert forall k | k in Take(Drop(u, d), lim) :: k in u;
    DropDrop(u, d, lim);
  }

  lemma TurnIsAt(p: nat, lim: nat, m: nat)
    requires lim > 0
    ensures m * lim <= p <==> m <= p / lim
    ensures (m + 1) * lim == m * lim + lim
  {
    var a := p / lim;
    assert a * lim <= p < a * lim + lim;
    if m <= a { assert m * lim <= a * lim; } else { assert (a + 1) * lim <= m * lim; }
  }

  lemma PassedGrows(p: nat, lim: nat, m: nat)
    requires lim > 0
    ensures Passed(p, lim, m + 1) == Passed(p, lim, m) + if m <= p / lim then lim else lim - 1
  {
    TurnIsAt(p, lim, m);
    TurnIsAt(p, lim, m + 1);
    var a := p / lim;
    if m > a { assert Product(m - a, lim - 1) == Product(m - a - 1, lim - 1) + (lim - 1); }
  }

  lemma LeftStep(u: seq<nat>, self: nat, lim: nat, m: nat)
    requires StrictlyAscending(u) && lim > 0
    ensures AfterTick(Left(u, self, lim, m), self, lim) == Left(u, self, lim, m + 1)
  {
    hide AfterTick, Drop, Passed, StrictlyAscending;
    if self !in u {
      TurnIsAt(0, lim, m);
      TickElsewhere(u, self, lim, m * lim);
    } else {
      var p := Place(u, self);
      TurnIsAt(p, lim, m);
      TurnIsAt(p, lim, m + 1);
      PassedGrows(p, lim, m);
      PassedIs(p, lim, m);
      var d := Passed(p, lim, m);
      assert forall x: seq<nat> :: [] + x == x;
      if m + 1 <= p / lim {
        TickBeforeTurn(u, self, lim, d, p);
      } else if m <= p / lim {
        TickAtTurn(u, self, lim, d, p);
      } else {
        TickAfterTurn(u, self, lim, d);
      }
    }
  }

  lemma PassedIs(p: nat, lim: nat, m: nat)
    requires lim > 0
    ensures m <= p / lim ==> Passed(p, lim, m) == m * lim
  {
  }

  /**
   * With a fixed active set and limit k, exactly which nodes m worker ticks leave unprobed: the ticks
   * go through the nodes by id, k at a time, until the station's own turn; from then on it takes up
   * one of the k places at every tick.
   */
  lemma {:induction false} WorkerTicksLeave(t: Table, qs: seq<Query>, active: set<nat>, lim: nat, self: nat)
    requires forall q | q in qs :: Active(q) == active && Clamp(q.limit) == lim
    requires lim > 0
    ensures Unprobed(WorkerTicks(t, qs, self), active) == Left(Unprobed(t, active), self, lim, |qs|)
  {
    hide Active, WorkerTick, Clamp, Unprobed, AfterTick, Left, StrictlyAscending;
    UnprobedAscends(t, active);
    if qs == [] {
      NothingPassed(Unprobed(t, active), self, lim);
    } else {
      var rest, q := qs[..|qs| - 1], qs[|qs| - 1];
      assert q in qs;
      forall x | x in rest ensures x in qs {}
      WorkerTicksLeave(t, rest, active, lim, self);
      WorkerTickLeaves(WorkerTicks(t, rest, self), q, self);
      LeftStep(Unprobed(t, active), self, lim, |rest|);
    }
  }

  lemma UnprobedAscends(t: Table, active: set<nat>)
    ensures StrictlyAscending(Unprobed(t, active))
  {
    AscendingIs(NeverProbed(t, active), ID_LIMIT);
  }

  lemma NothingPassed(u: seq<nat>, self: nat, lim: nat)
    requires lim > 0
    ensures Left(u, self, lim, 0) == u
  {
    hide Passed;
    if self in u {
      TurnIsAt(Place(u, self), lim, 0);
      PassedIs(Place(u, self), lim, 0);
    }
    assert 0 * lim == 0;
  }

  // Whom the skipping starves.

  predicate LastInLine(u: seq<nat>, self: nat) { u != [] && u[|u| - 1] == self }

  lemma EnoughTicks(u: seq<nat>, self: nat, lim: nat, m: nat)
    requires StrictlyAscending(u) && lim > 0 && m >= |u|
    ensures (forall k | k in Left(u, self, lim, m) :: k == self) <==> lim >= 2 || self !in u || LastInLine(u, self)
  {
    hide Passed;
    TurnIsAt(0, lim, m);
    AtLeast(m, lim);
    if self in u {
      var p := Place(u, self);
      TurnIsAt(p, lim, m);
      PassedEnough(p, lim, m);
      var d := Passed(p, lim, m);
      if lim == 1 && p + 1 < |u| {
        assert Drop(u, d)[0] == u[p + 1] && u[p + 1] in Left(u, self, lim, m);
      }
    }
  }

  lemma AtLeast(m: nat, lim: nat)
    requires lim > 0
    ensures m * lim >= m
  {
  }

  lemma PassedEnough(p: nat, lim: nat, m: nat)
    requires lim > 0 && m > p
    ensures m > p / lim
    ensures lim >= 2 ==> Passed(p, lim, m) >= m
    ensures lim == 1 ==> Passed(p, lim, m) == p + 1
  {
    TurnIsAt(p, lim, m);
    AtLeast(m, lim);
    var turn: nat := p / lim;
    if lim >= 2 {
      AtLeast(turn + 1, lim);
      AtLeast(m - turn - 1, lim - 1);
    }
  }

  /**
   * Given as many ticks as there are nodes to probe, the worker probes them all if and only if it
   * may probe two at a time, or its own node is not in line, or is the last there by id.
   */
  lemma EveryoneIsProbedIff(t: Table, qs: seq<Query>, active: set<nat>, lim: nat, self: nat)
    requires qs != [] && |qs| >= |NeverProbed(t, active)|
    requires forall q | q in qs :: Active(q) == active && Clamp(q.limit) == lim
    ensures NeverProbed(WorkerTicks(t, qs, self), active) <= {self} <==>
            lim >= 2 || self !in NeverProbed(t, active) || forall k | k in NeverProbed(t, active) :: k <= self
  {
    hide Active, Clamp, NeverProbed, Unprobed, WorkerTicks, Left;
    var q, t' := qs[0], WorkerTicks(t, qs, self);
    assert q in qs;
    ClampIsPositive(q.limit);
    UnprobedIs(t, q);
    UnprobedIs(t', q);
    var u := Unprobed(t, active);
    DistinctSize(u);
    assert Elements(u) == NeverProbed(t, active);
    WorkerTicksLeave(t, qs, active, lim, self);
    EnoughTicks(u, self, lim, |qs|);
    if self in u { LastIsGreatest(u, self); }
  }

  lemma ClampIsPositive(limit: int)
    ensures Clamp(limit) > 0
  {
  }

  lemma LastIsGreatest(u: seq<nat>, self: nat)
    requires StrictlyAscending(u) && self in u
    ensures LastInLine(u, self) <==> forall k | k in u :: k <= self
  {
    assert u[|u| - 1] in u;
  }

  /** The station's own node is first in line and the worker may probe only one. */
  predicate Stuck(t: Table, q: Query, self: nat) {
    Clamp(q.limit) == 1 && self in NeverProbed(t, Active(q)) && forall k | k in NeverProbed(t, Active(q)) :: self <= k
  }

  /**
   * One probe per tick, with the station's own node heard, never probed and first by id: it is all
   * that is ever offered, it is skipped, and no tick probes anything.
   */
  lemma OwnNodeStarvesTheRest(t: Table, q: Query, self: nat)
    requires Stuck(t, q, self)
    ensures ScanCandidates(t, q) == [self] && WorkerTick(t, q, self) == t
  {
    hide Active, OfRank, ScanCandidates;
    NeverProbedFirst(t, q);
    var unprobed, c := OfRank(t, q, 0), ScanCandidates(t, q);
    assert self in unprobed;
    assert unprobed[0] in unprobed;
    var i :| 0 <= i < |unprobed| && unprobed[i] == self;
    assert unprobed[0] in NeverProbed(t, Active(q));
    assert unprobed[0] == self;
    assert c == [self];
    assert Skipping(c, self) == [] by { assert c[..0] == []; }
  }

  /** While other nodes wait, a worker tick probes one of them if and only if it is not stuck. */
  lemma WorkerProgressIff(t: Table, q: Query, self: nat)
    requires NeverProbed(t, Active(q)) - {self} != {}
    ensures NeverProbed(WorkerTick(t, q, self), Active(q)) - {self} < NeverProbed(t, Active(q)) - {self}
            <==> !Stuck(t, q, self)
  {
    hide Active, Clamp, NeverProbed, Unprobed, WorkerTick, AfterTick;
    var lim, u, v := Clamp(q.limit), Unprobed(t, Active(q)), Unprobed(WorkerTick(t, q, self), Active(q));
    ClampIsPositive(q.limit);
    UnprobedIs(t, q);
    UnprobedIs(WorkerTick(t, q, self), q);
    WorkerTickLeaves(t, q, self);
    var x := HasElement(NeverProbed(t, Active(q)) - {self});
    assert x in u;
    ProgressOf(u, self, lim);
    var before, after := NeverProbed(t, Active(q)) - {self}, NeverProbed(WorkerTick(t, q, self), Active(q)) - {self};
    assert after <= before;
    if k :| k in u && k != self && k !in v {
      assert k in before && k !in after;
    } else {
      assert before <= after;
    }
  }

  /** Some node other than the station is among those a tick probes. */
  lemma ProgressOf(u: seq<nat>, self: nat, lim: nat)
    requires StrictlyAscending(u) && lim > 0 && exists k | k in u :: k != self
    ensures forall k | k in AfterTick(u, self, lim) :: k in u
    ensures (exists k | k in u :: k != self && k !in AfterTick(u, self, lim)) <==>
            !(lim == 1 && self in u && forall k | k in u :: self <= k)
  {
    hide AfterTick, Take, Drop;
    AfterTickElements(u, self, lim);
    FirstTaken(u, lim);
    LeastFirst(u);
    var other :| other in u && other != self;
    assert u[0] == self ==> |u| > 1;
    if u[0] != self {
      assert u[0] !in AfterTick(u, self, lim);
    } else if lim > 1 {
      assert u[1] in u && u[1] !in AfterTick(u, self, lim);
    }
  }

  lemma LeastFirst(u: seq<nat>)
    requires StrictlyAscending(u) && u != []
    ensures u[0] in u && forall k | k in u :: u[0] <= k
  {
  }

  lemma FirstTaken(u: seq<nat>, lim: nat)
    requires u != [] && lim > 0
    ensures u[0] in Take(u, lim) && (lim > 1 && |u| > 1 ==> u[1] in Take(u, lim))
    ensures lim == 1 ==> forall k :: k in Take(u, lim) <==> k == u[0]
  {
    var cut := Take(u, lim);
    assert cut[0] == u[0] && (|cut| > 1 ==> cut[1] == u[1]);
  }

  lemma AfterTickElements(u: seq<nat>, self: nat, lim: nat)
    requires StrictlyAscending(u)
    ensures forall k :: k in AfterTick(u, self, lim) <==> k in u && (k == self || k !in Take(u, lim))
  {
    CutElements(u, lim);
  }

  /** Two nodes heard, and one probe a tick. */
  function TwoHeard(): Query { Query([(1, 0), (2, 0)], {}, false, 1, 0, 0, 0, 0) }

  lemma TwoHeardActive()
    ensures Active(TwoHeard()) == {1, 2} && NeverProbed(map[], {1, 2}) == {1, 2} && Clamp(TwoHeard().limit) == 1
  {
    assert (1, 0) in TwoHeard().receptions && (2, 0) in TwoHeard().receptions;
  }

  /** With the station the first of them, no number of ticks probes the other. */
  lemma StarvationHappens(m: nat)
    ensures Active(TwoHeard()) == {1, 2}
    ensures NeverProbed(WorkerTicks(map[], seq(m, _ => TwoHeard()), 1), {1, 2}) == {1, 2}
  {
    hide Active, NeverProbed, Unprobed, WorkerTicks, Left, Clamp, TwoHeard;
    var q, qs := TwoHeard(), seq(m, _ => TwoHeard());
    TwoHeardActive();
    UnprobedIs(map[], q);
    UnprobedIs(WorkerTicks(map[], qs, 1), q);
    SameElementsSameSeq(Unprobed(map[], {1, 2}), [1, 2]);
    WorkerTicksLeave(map[], qs, {1, 2}, 1, 1);
    NoneLeaves(m);
  }

  lemma NoneLeaves(m: nat)
    ensures Left([1, 2], 1, 1, m) == [1, 2]
  {
    TurnIsAt(0, 1, m);
  }
}
