// Which nodes the scanner is offered, said of the receptions and rows themselves.
module ScanOffers {
  import opened Collections
  import opened AdminScan

  lemma ActiveIs(q: Query, k: nat)
    ensures k in Active(q) <==>
            && k < 0x1_0000_0000 && (q.ownedOnly ==> k in q.owned)
            && exists r | r in q.receptions :: r.0 == k && r.1 >= q.now - 3600 * q.activeHours
  {
  }

  lemma DueIs(t: Table, k: nat, q: Query)
    ensures Due(t, k, q) <==>
            if k !in t then true
            else if t[k].lastOk.None? then
              t[k].lastScan.None? || t[k].lastScan.value < q.now - 3600 * q.staleHours
            else q.reconfirmHours > 0 && t[k].lastOk.value < q.now - 3600 * q.reconfirmHours
  {
  }

  /**
   * A node is offered only if it was heard in the last `activeHours`, is claimed where only claimed ones
   * are wanted, and is new, or unanswered and not probed in the last `staleHours`, or up for
   * re-confirmation; and while the limit is not reached every such node is.
   */
  lemma OfferedAre(t: Table, q: Query, k: nat)
    ensures var c, lim := ScanCandidates(t, q), if q.limit < 1 then 1 else if q.limit > 50 then 50 else q.limit;
      var heard := k < 0x1_0000_0000 && (q.ownedOnly ==> k in q.owned) &&
        exists r | r in q.receptions :: r.0 == k && r.1 >= q.now - 3600 * q.activeHours;
      var due := if k !in t then true
        else if t[k].lastOk.None? then t[k].lastScan.None? || t[k].lastScan.value < q.now - 3600 * q.staleHours
        else q.reconfirmHours > 0 && t[k].lastOk.value < q.now - 3600 * q.reconfirmHours;
      |c| <= lim && (k in c ==> heard && due) && (|c| < lim ==> (k in c <==> heard && due))
  {
    hide ScanCandidates, Active, Due;
    CandidatesAreDue(t, q, k);
    ActiveIs(q, k);
    DueIs(t, k, q);
    OfferIsShort(t, q);
  }

  lemma OfferIsShort(t: Table, q: Query)
    ensures |ScanCandidates(t, q)| <= Clamp(q.limit)
  {
  }

  /** A node whose every reception is older than `activeHours` is never offered, whatever its row says. */
  lemma SilentIsNotOffered(t: Table, q: Query, k: nat)
    requires forall r | r in q.receptions && r.0 == k :: r.1 < q.now - 3600 * q.activeHours
    ensures k !in ScanCandidates(t, q)
  {
    OfferedAre(t, q, k);
  }

  // The order of the offer.

  /** New nodes come first, then those never probed, then the rest; within each of the three by id. */
  predicate Before(t: Table, a: nat, b: nat) {
    if a !in t || b !in t then a !in t && (b in t || a < b)
    else if t[a].lastScan.None? != t[b].lastScan.None? then t[a].lastScan.None?
    else a < b
  }

  predicate Ordered(t: Table, s: seq<nat>) {
    forall i, j | 0 <= i < j < |s| :: Before(t, s[i], s[j])
  }

  /** The three groups one after the other. */
  function Line(t: Table, q: Query): seq<nat> { OfRank(t, q, 0) + OfRank(t, q, 1) + OfRank(t, q, 2) }

  lemma GroupOrdered(t: Table, q: Query, rank: nat)
    requires rank <= 2
    ensures Ordered(t, OfRank(t, q, rank))
    ensures forall k | k in OfRank(t, q, rank) :: Rank(t, k) == rank
  {
    hide Ascending, Active, Due;
    AscendingIs(DueOfRank(t, q, rank), ID_LIMIT);
    var s := OfRank(t, q, rank);
    forall i, j | 0 <= i < j < |s|
      ensures Before(t, s[i], s[j])
    {
      OfRankIs(t, q, rank, s[i]);
      OfRankIs(t, q, rank, s[j]);
    }
    forall k | k in s
      ensures Rank(t, k) == rank
    {
      OfRankIs(t, q, rank, k);
    }
  }

  lemma Append(t: Table, a: seq<nat>, b: seq<nat>)
    requires Ordered(t, a) && Ordered(t, b) && forall x, y | x in a && y in b :: Before(t, x, y)
    ensures Ordered(t, a + b)
  {
  }

  lemma RanksApart(t: Table, a: nat, b: nat)
    ensures Rank(t, a) < Rank(t, b) ==> Before(t, a, b)
  {
  }

  lemma LineIs(t: Table, q: Query)
    ensures Ordered(t, Line(t, q)) && forall k :: k in Line(t, q) <==> k in Active(q) && Due(t, k, q)
  {
    hide OfRank, Active, Due, Before, Rank;
    GroupOrdered(t, q, 0);
    GroupOrdered(t, q, 1);
    GroupOrdered(t, q, 2);
    forall a, b
      ensures Rank(t, a) < Rank(t, b) ==> Before(t, a, b)
    {
      RanksApart(t, a, b);
    }
    Append(t, OfRank(t, q, 0), OfRank(t, q, 1));
    Append(t, OfRank(t, q, 0) + OfRank(t, q, 1), OfRank(t, q, 2));
    forall k
      ensures k in Line(t, q) <==> k in Active(q) && Due(t, k, q)
    {
      OfRankIs(t, q, 0, k);
      OfRankIs(t, q, 1, k);
      OfRankIs(t, q, 2, k);
      ThreeRanks(t, k);
    }
  }

  lemma ThreeRanks(t: Table, k: nat)
    ensures Rank(t, k) <= 2
  {
  }

  /** The offer is the beginning of the line: whoever is left out has a full offer of others before it. */
  lemma OfferIsTheFirst(t: Table, q: Query, k: nat)
    requires k in Active(q) && Due(t, k, q) && k !in ScanCandidates(t, q)
    ensures var c := ScanCandidates(t, q);
      && |c| == (if q.limit < 1 then 1 else if q.limit > 50 then 50 else q.limit)
      && forall x | x in c :: Before(t, x, k)
  {
    hide OfRank, Active, Due, Before;
    LineIs(t, q);
    var line, c := Line(t, q), ScanCandidates(t, q);
    var i :| 0 <= i < |line| && line[i] == k;
    assert c <= line;
    assert forall j | 0 <= j < |c| :: line[j] == c[j] && c[j] in c;
  }

  lemma OfferOrdered(t: Table, q: Query)
    ensures Ordered(t, ScanCandidates(t, q))
  {
    hide OfRank, Active, Due, Before;
    LineIs(t, q);
    assert ScanCandidates(t, q) <= Line(t, q);
  }

  /**
   * A node without a row that was heard in the last `activeHours`, and is claimed where that is asked, is
   * offered unless the limit is used up by such nodes with lower ids.
   */
  lemma NewNodeIsOffered(t: Table, q: Query, k: nat, at: int)
    requires k !in t && k < 0x1_0000_0000 && (q.ownedOnly ==> k in q.owned)
    requires (k, at) in q.receptions && at >= q.now - 3600 * q.activeHours
    ensures var c := ScanCandidates(t, q);
      k in c || (|c| == (if q.limit < 1 then 1 else if q.limit > 50 then 50 else q.limit)
                 && forall x | x in c :: x !in t && x < k)
  {
    hide ScanCandidates, Active, Due;
    ActiveIs(q, k);
    DueIs(t, k, q);
    if k !in ScanCandidates(t, q) { OfferIsTheFirst(t, q, k); }
  }

  // Ids.

  /** Ids are stored as they are if they fit 32 bits, negative ones as their unsigned reading; no two clash. */
  lemma KeysAreIds(a: int, b: int)
    requires -0x8000_0000 <= a < 0x1_0000_0000
    ensures Key(a) == if a < 0 then a + 0x1_0000_0000 else a
    ensures 0 <= a && 0 <= b < 0x1_0000_0000 && a != b ==> Key(a) != Key(b)
  {
  }
}
