/**
 * The distance-weighted vote of votePatients (parallelCode.js). Every
 * neighbour votes for its own status with weight base / distance, where base
 * is the smallest neighbour distance; the tallies are kept per status and the
 * status with the largest tally wins, the first-inserted one on a tie.
 *
 * Weights are JavaScript numbers: exact rationals (`real`, floating-point
 * rounding is not modelled) plus the two special values a division can give
 * here, Infinity and NaN. An exact match (distance 0) makes base 0, so every
 * neighbour at distance 0 weighs 0 / 0 = NaN and every other one 0 / d = 0.
 */
module Voting {
  import opened Patients
  import opened Enumeration
  import opened Selection

  // ---------------------------------------------------------------------------
  // Numbers

  /** A JavaScript number as the vote meets it. */
  datatype Num = Finite(val: real) | Infinity | NaN

  /**
   * `a + b` on the non-negative numbers the vote adds: NaN absorbs
   * everything, Infinity every finite value, finite values add exactly.
   */
  function Add(a: Num, b: Num): (r: Num)
    ensures r.NaN? <==> a.NaN? || b.NaN?
    ensures r.Infinity? <==> !r.NaN? && (a.Infinity? || b.Infinity?)
    ensures r.Finite? ==> a.Finite? && b.Finite? && r.val == a.val + b.val
  {
    if a.NaN? || b.NaN? then NaN
    else if a.Infinity? || b.Infinity? then Infinity
    else Finite(a.val + b.val)
  }

  /**
   * `a > b`: false as soon as NaN is involved, Infinity exceeds every finite
   * value and not itself, finite values compare as numbers.
   */
  function Greater(a: Num, b: Num): (r: bool)
    ensures a.NaN? || b.NaN? ==> !r
    ensures a.Infinity? && b.Finite? ==> r
    ensures b.Infinity? ==> !r
    ensures a.Finite? && b.Finite? ==> (r <==> a.val > b.val)
  {
    match (a, b)
    case (Finite(x), Finite(y)) => x > y
    case (Infinity, Finite(_)) => true
    case _ => false
  }

  /**
   * `base / delta` for non-negative integers: the exact quotient for a
   * positive divisor, 0 / 0 = NaN, and a positive number over 0 is Infinity.
   */
  function Weight(base: nat, delta: nat): (w: Num)
    ensures delta > 0 ==> w.Finite? && w.val >= 0.0
    ensures delta == 0 ==> (w.NaN? <==> base == 0) && (w.Infinity? <==> base > 0)
  {
    if delta > 0 then Finite(base as real / delta as real)
    else if base == 0 then NaN
    else Infinity
  }

  // ---------------------------------------------------------------------------
  // Ballots

  /** One neighbour as the vote sees it: the status of its row and its distance. */
  datatype Ballot = Ballot(status: Label, delta: nat)

  /** The neighbour map refers to training rows only. */
  predicate InRange(neighbors: Neighbors, train: seq<Patient>) {
    forall i :: i in neighbors ==> i < |train|
  }

  /** No neighbour is at distance zero from the query. */
  predicate NoExactMatch(neighbors: Neighbors) {
    forall i :: i in neighbors ==> neighbors[i] > 0
  }

  /** The ballots in the order votePatients visits the neighbours (ascending index). */
  function Ballots(neighbors: Neighbors, train: seq<Patient>): (bs: seq<Ballot>)
    requires InRange(neighbors, train)
    ensures |bs| == |neighbors|
  {
    var keys := Ascending(neighbors.Keys);
    assert forall t :: 0 <= t < |keys| ==> keys[t] in neighbors;
    seq(|keys|, t requires 0 <= t < |keys| => Ballot(train[keys[t]].status, neighbors[keys[t]]))
  }

  /** Each neighbour casts one of the ballots. */
  lemma BallotOfNeighbor(neighbors: Neighbors, train: seq<Patient>, i: nat)
    requires InRange(neighbors, train)
    requires i in neighbors
    ensures exists t :: 0 <= t < |Ballots(neighbors, train)| && Ballots(neighbors, train)[t] == Ballot(train[i].status, neighbors[i])
  {
    var keys := Ascending(neighbors.Keys);
    var t :| 0 <= t < |keys| && keys[t] == i;
    assert Ballots(neighbors, train)[t] == Ballot(train[i].status, neighbors[i]);
  }

  /** Each ballot comes from a neighbour. */
  lemma NeighborOfBallot(neighbors: Neighbors, train: seq<Patient>, t: nat)
    requires InRange(neighbors, train)
    requires t < |Ballots(neighbors, train)|
    ensures exists i :: i in neighbors && Ballots(neighbors, train)[t] == Ballot(train[i].status, neighbors[i])
  {
    var keys := Ascending(neighbors.Keys);
    assert keys[t] in neighbors;
  }

  /** The first ballot is cast by the neighbour with the smallest index. */
  lemma FirstBallot(neighbors: Neighbors, train: seq<Patient>)
    requires InRange(neighbors, train) && neighbors != map[]
    ensures Least(neighbors.Keys) in neighbors
    ensures Ballots(neighbors, train)[0]
              == Ballot(train[Least(neighbors.Keys)].status, neighbors[Least(neighbors.Keys)])
  {
    var keys := Ascending(neighbors.Keys);
    assert neighbors.Keys != {};
    assert keys[0] == Least(neighbors.Keys);
  }

  /** Without an exact match every ballot is cast from a positive distance. */
  lemma BallotsPositive(neighbors: Neighbors, train: seq<Patient>)
    requires InRange(neighbors, train) && NoExactMatch(neighbors)
    ensures Positive(Ballots(neighbors, train))
  {
    var bs := Ballots(neighbors, train);
    forall t | 0 <= t < |bs|
      ensures bs[t].delta > 0
    {
      NeighborOfBallot(neighbors, train, t);
    }
  }

  /** Every ballot is cast from a positive distance. */
  ghost predicate Positive(bs: seq<Ballot>) {
    forall t :: 0 <= t < |bs| ==> bs[t].delta > 0
  }

  // ---------------------------------------------------------------------------
  // Tallies

  /** The tally of `status` over the first n ballots: the sum of the weights cast for it. */
  ghost function Tally(bs: seq<Ballot>, n: nat, base: nat, status: Label): Num
    requires n <= |bs|
  {
    if n == 0 then Finite(0.0)
    else Add(Tally(bs, n - 1, base, status),
             if bs[n - 1].status == status then Weight(base, bs[n - 1].delta) else Finite(0.0))
  }

  /**
   * The statuses of the first n ballots in the order they first appear: the
   * insertion order of the vote table.
   */
  ghost function FirstSeen(bs: seq<Ballot>, n: nat): seq<Label>
    requires n <= |bs|
  {
    if n == 0 then []
    else
      var seen := FirstSeen(bs, n - 1);
      if bs[n - 1].status in seen then seen else seen + [bs[n - 1].status]
  }

  /** No status enters the vote table twice. */
  ghost predicate Distinct(labels: seq<Label>) {
    forall p, q :: 0 <= p < q < |labels| ==> labels[p] != labels[q]
  }

  /** Some ballot among the first n is cast for `status`. */
  ghost predicate HasBallot(bs: seq<Ballot>, n: nat, status: Label)
    requires n <= |bs|
  {
    exists t :: 0 <= t < n && bs[t].status == status
  }

  /** The vote table holds exactly the statuses that have a ballot, each once. */
  lemma {:induction false} FirstSeenIsStatuses(bs: seq<Ballot>, n: nat)
    requires n <= |bs|
    ensures Distinct(FirstSeen(bs, n))
    ensures forall l :: l in FirstSeen(bs, n) <==> HasBallot(bs, n, l)
  {
    if n > 0 {
      FirstSeenIsStatuses(bs, n - 1);
      forall l
        ensures l in FirstSeen(bs, n) <==> HasBallot(bs, n, l)
      {
        if HasBallot(bs, n, l) {
          var t :| 0 <= t < n && bs[t].status == l;
          if t < n - 1 {
            assert HasBallot(bs, n - 1, l);
          }
        }
        if l in FirstSeen(bs, n - 1) {
          assert HasBallot(bs, n - 1, l);
          var t :| 0 <= t < n - 1 && bs[t].status == l;
          assert bs[t].status == l;
        }
      }
    }
  }

  /** The first status entered is that of the first ballot. */
  lemma {:induction false} FirstSeenStartsWithFirstBallot(bs: seq<Ballot>, n: nat)
    requires 0 < n <= |bs|
    ensures |FirstSeen(bs, n)| > 0 && FirstSeen(bs, n)[0] == bs[0].status
  {
    if n > 1 {
      FirstSeenStartsWithFirstBallot(bs, n - 1);
    }
  }

  /** A status without a ballot has tally 0. */
  lemma {:induction false} TallyAbsent(bs: seq<Ballot>, n: nat, base: nat, status: Label)
    requires n <= |bs|
    requires status !in FirstSeen(bs, n)
    ensures Tally(bs, n, base, status) == Finite(0.0)
  {
    if n > 0 {
      assert status !in FirstSeen(bs, n - 1);
      TallyAbsent(bs, n - 1, base, status);
    }
  }

  /** From positive distances every tally is a finite, non-negative number. */
  lemma {:induction false} TallyNonNegative(bs: seq<Ballot>, n: nat, base: nat, status: Label)
    requires n <= |bs| && Positive(bs)
    ensures Tally(bs, n, base, status).Finite? && Tally(bs, n, base, status).val >= 0.0
  {
    if n > 0 {
      TallyNonNegative(bs, n - 1, base, status);
    }
  }

  /** A status's tally is at least the weight of any one ballot cast for it. */
  lemma {:induction false} TallyCoversBallot(bs: seq<Ballot>, n: nat, base: nat, t: nat)
    requires t < n <= |bs| && Positive(bs)
    ensures Tally(bs, n, base, bs[t].status).Finite? && Weight(base, bs[t].delta).Finite?
    ensures Tally(bs, n, base, bs[t].status).val >= Weight(base, bs[t].delta).val
  {
    TallyNonNegative(bs, n, base, bs[t].status);
    TallyNonNegative(bs, n - 1, base, bs[t].status);
    if t < n - 1 {
      TallyCoversBallot(bs, n - 1, base, t);
    }
  }

  /** With a positive base, a status has a positive tally exactly when it has a ballot. */
  lemma TallyPositiveIffPresent(bs: seq<Ballot>, n: nat, base: nat, status: Label)
    requires n <= |bs| && Positive(bs) && base > 0
    ensures Tally(bs, n, base, status).Finite?
    ensures Tally(bs, n, base, status).val > 0.0 <==> status in FirstSeen(bs, n)
  {
    TallyNonNegative(bs, n, base, status);
    FirstSeenIsStatuses(bs, n);
    if status in FirstSeen(bs, n) {
      var t :| 0 <= t < n && bs[t].status == status;
      TallyCoversBallot(bs, n, base, t);
    } else {
      TallyAbsent(bs, n, base, status);
    }
  }

  /** With base 0 a weight is 0 / d = 0, or 0 / 0 = NaN. */
  lemma WeightOfZeroBase(delta: nat)
    ensures Weight(0, delta) == (if delta == 0 then NaN else Finite(0.0))
  {
    if delta > 0 {
      assert 0 as real / delta as real == 0.0;
    }
  }

  /** With base 0 every tally is 0 or NaN: the weights are 0 / d = 0 and 0 / 0 = NaN. */
  lemma {:induction false} TallyOfZeroBase(bs: seq<Ballot>, n: nat, status: Label)
    requires n <= |bs|
    ensures Tally(bs, n, 0, status) == Finite(0.0) || Tally(bs, n, 0, status) == NaN
  {
    if n > 0 {
      TallyOfZeroBase(bs, n - 1, status);
      var w := if bs[n - 1].status == status then Weight(0, bs[n - 1].delta) else Finite(0.0);
      WeightOfZeroBase(bs[n - 1].delta);
      assert Tally(bs, n, 0, status) == Add(Tally(bs, n - 1, 0, status), w);
    }
  }

  // ---------------------------------------------------------------------------
  // The first loop: building the vote table

  /**
   * The vote table after the first n ballots: one entry per status seen,
   * holding its tally, with `order` the order its keys enumerate in.
   */
  ghost predicate IsVoteTable(bs: seq<Ballot>, n: nat, base: nat, votes: map<Label, Num>, order: seq<Label>)
    requires n <= |bs|
  {
    && order == FirstSeen(bs, n)
    && (forall l :: l in votes <==> l in order)
    && (forall l :: l in votes ==> votes[l] == Tally(bs, n, base, l))
  }

  /**
   * The vote table the first loop of votePatients has built after the first
   * n ballots: a ballot adds its weight to its status's entry, creating the
   * entry on the status's first ballot.
   */
  ghost function VoteTable(bs: seq<Ballot>, n: nat, base: nat): map<Label, Num>
    requires n <= |bs|
  {
    if n == 0 then map[]
    else
      var votes := VoteTable(bs, n - 1, base);
      var b := bs[n - 1];
      if b.status !in votes then votes[b.status := Weight(base, b.delta)]
      else votes[b.status := Add(votes[b.status], Weight(base, b.delta))]
  }

  /** The table built ballot by ballot holds every seen status's tally, keyed in first-seen order. */
  lemma {:induction false} VoteTableIsTallies(bs: seq<Ballot>, n: nat, base: nat)
    requires n <= |bs|
    ensures IsVoteTable(bs, n, base, VoteTable(bs, n, base), FirstSeen(bs, n))
  {
    if n > 0 {
      VoteTableIsTallies(bs, n - 1, base);
      VoteTableStep(bs, n, base, VoteTable(bs, n - 1, base));
    }
  }

  /** One ballot more keeps the table the tallies of the statuses seen, in first-seen order. */
  lemma VoteTableStep(bs: seq<Ballot>, n: nat, base: nat, prev: map<Label, Num>)
    requires 0 < n <= |bs|
    requires prev == VoteTable(bs, n - 1, base)
    requires IsVoteTable(bs, n - 1, base, prev, FirstSeen(bs, n - 1))
    ensures IsVoteTable(bs, n, base, VoteTable(bs, n, base), FirstSeen(bs, n))
  {
    if bs[n - 1].status !in prev {
      TallyAbsent(bs, n - 1, base, bs[n - 1].status);
    }
  }

  /** One ballot more, with its weight `w`: the step of the first loop of votePatients. */
  lemma VoteTableNext(bs: seq<Ballot>, t: nat, base: nat, votes: map<Label, Num>, status: Label, w: Num)
    requires t < |bs| && bs[t].status == status && w == Weight(base, bs[t].delta)
    requires votes == VoteTable(bs, t, base)
    ensures status !in votes ==> VoteTable(bs, t + 1, base) == votes[status := w]
    ensures status in votes ==> VoteTable(bs, t + 1, base) == votes[status := Add(votes[status], w)]
  {
  }

  /**
   * The first loop of votePatients: each neighbour, in ascending index order,
   * adds base / distance to the entry of its row's status, creating the entry
   * on the status's first ballot; `order` records the entries' insertion order.
   */
  method CountVotes(neighbors: Neighbors, testData: seq<Patient>, base: nat) returns (votes: map<Label, Num>, order: seq<Label>)
    requires InRange(neighbors, testData)
    ensures votes == VoteTable(Ballots(neighbors, testData), |neighbors|, base)
    ensures order == FirstSeen(Ballots(neighbors, testData), |neighbors|)
    ensures IsVoteTable(Ballots(neighbors, testData), |neighbors|, base, votes, order)
  {
    votes := map[];
    order := [];
    var keys := Ascending(neighbors.Keys);
    ghost var bs := Ballots(neighbors, testData);
    for t := 0 to |keys|
      invariant votes == VoteTable(bs, t, base)
      invariant order == FirstSeen(bs, t)
      invariant forall l :: l in votes <==> l in order
    {
      var i := keys[t];
      assert i in neighbors;
      var status := testData[i].status;
      assert bs[t] == Ballot(status, neighbors[i]);
      var weight := Weight(base, neighbors[i]);
      VoteTableNext(bs, t, base, votes, status, weight);
      if status !in votes {
        votes := votes[status := weight];
        order := order + [status];
      } else {
        votes := votes[status := Add(votes[status], weight)];
      }
    }
    VoteTableIsTallies(bs, |bs|, base);
  }

  // ---------------------------------------------------------------------------
  // The second loop: picking the winner

  /** Every status of the order has an entry in the table. */
  predicate Covers(votes: map<Label, Num>, order: seq<Label>) {
    forall q :: 0 <= q < |order| ==> order[q] in votes
  }

  /**
   * The state (maxVotes, maxStatus) of the second loop of votePatients after
   * the first n entries: an entry takes the lead when nothing is held yet
   * (maxVotes is still -1) or when it is greater than the lead.
   */
  ghost function Leader(votes: map<Label, Num>, order: seq<Label>, n: nat): (Num, Option<Label>)
    requires n <= |order| && Covers(votes, order)
  {
    if n == 0 then (Finite(-1.0), None)
    else
      var (maxVotes, maxStatus) := Leader(votes, order, n - 1);
      var v := votes[order[n - 1]];
      if maxVotes == Finite(-1.0) || Greater(v, maxVotes) then (v, Some(order[n - 1]))
      else (maxVotes, maxStatus)
  }

  /**
   * Position p holds the first largest of the first n entries: no entry is
   * greater and every entry before it is smaller.
   */
  ghost predicate IsFirstArgMaxAt(votes: map<Label, Num>, order: seq<Label>, n: nat, p: int)
    requires n <= |order| && Covers(votes, order)
  {
    && 0 <= p < n
    && (forall q :: 0 <= q < n ==> !Greater(votes[order[q]], votes[order[p]]))
    && (forall q :: 0 <= q < p ==> Greater(votes[order[p]], votes[order[q]]))
  }

  /** Over finite, non-negative tallies the loop leads with the first largest entry. */
  lemma {:induction false} LeaderIsFirstArgMax(votes: map<Label, Num>, order: seq<Label>, n: nat)
    requires 0 < n <= |order| && Covers(votes, order)
    requires forall q :: 0 <= q < |order| ==> votes[order[q]].Finite? && votes[order[q]].val >= 0.0
    ensures exists p :: IsFirstArgMaxAt(votes, order, n, p)
                        && Leader(votes, order, n) == (votes[order[p]], Some(order[p]))
  {
    if n == 1 {
      assert Leader(votes, order, 0) == (Finite(-1.0), None);
      assert IsFirstArgMaxAt(votes, order, 1, 0);
    } else {
      LeaderIsFirstArgMax(votes, order, n - 1);
      var p :| IsFirstArgMaxAt(votes, order, n - 1, p)
               && Leader(votes, order, n - 1) == (votes[order[p]], Some(order[p]));
      if Greater(votes[order[n - 1]], votes[order[p]]) {
        assert IsFirstArgMaxAt(votes, order, n, n - 1);
      } else {
        assert IsFirstArgMaxAt(votes, order, n, p);
      }
    }
  }

  /** When every entry is 0 or NaN nothing ever overtakes the first entry. */
  lemma {:induction false} LeaderOfZeros(votes: map<Label, Num>, order: seq<Label>, n: nat)
    requires 0 < n <= |order| && Covers(votes, order)
    requires forall q :: 0 <= q < |order| ==> votes[order[q]] == Finite(0.0) || votes[order[q]] == NaN
    ensures Leader(votes, order, n) == (votes[order[0]], Some(order[0]))
  {
    if n > 1 {
      LeaderOfZeros(votes, order, n - 1);
    }
  }

  /** The loop holds nothing exactly while it has seen nothing. */
  lemma {:induction false} LeaderNone(votes: map<Label, Num>, order: seq<Label>, n: nat)
    requires n <= |order| && Covers(votes, order)
    ensures Leader(votes, order, n).1 == None <==> n == 0
  {
    if n > 0 {
      LeaderNone(votes, order, n - 1);
    }
  }

  /**
   * The second loop of votePatients: `maxVotes` starts at -1, and an entry
   * takes the lead while it is still -1 or when it is greater than the lead.
   */
  method PickWinner(votes: map<Label, Num>, order: seq<Label>) returns (maxStatus: Option<Label>)
    requires Covers(votes, order)
    ensures maxStatus == Leader(votes, order, |order|).1
  {
    var maxVotes := Finite(-1.0);
    maxStatus := None;
    for j := 0 to |order|
      invariant (maxVotes, maxStatus) == Leader(votes, order, j)
    {
      var status := order[j];
      if maxVotes == Finite(-1.0) || Greater(votes[status], maxVotes) {
        maxVotes := votes[status];
        maxStatus := Some(status);
      }
    }
  }

  // ---------------------------------------------------------------------------
  // The vote

  /**
   * `result` is the verdict of the ballots: null when there are none;
   * otherwise a status that has a ballot, whose tally no other status's
   * exceeds, and that every status inserted before it strictly trails.
   */
  ghost predicate IsVerdict(bs: seq<Ballot>, base: nat, result: Option<Label>)
  {
    var labels := FirstSeen(bs, |bs|);
    && (result == None <==> bs == [])
    && (result.Some? ==>
          && result.value in labels
          && (forall l :: l in labels ==> !Greater(Tally(bs, |bs|, base, l), Tally(bs, |bs|, base, result.value)))
          && (forall p, q :: 0 <= q < p < |labels| && labels[p] == result.value ==>
                Greater(Tally(bs, |bs|, base, result.value), Tally(bs, |bs|, base, labels[q]))))
  }

  /** What votePatients returns: the lead after the second loop over the table of the first. */
  ghost function Vote(neighbors: Neighbors, testData: seq<Patient>): Option<Label>
    requires InRange(neighbors, testData)
  {
    var bs := Ballots(neighbors, testData);
    var base := ClosestDelta(neighbors);
    VoteTableIsTallies(bs, |bs|, base);
    Leader(VoteTable(bs, |bs|, base), FirstSeen(bs, |bs|), |FirstSeen(bs, |bs|)|).1
  }

  /** The vote is deterministic: the ballots decide the verdict. */
  lemma VerdictUnique(bs: seq<Ballot>, base: nat, r1: Option<Label>, r2: Option<Label>)
    requires Positive(bs)
    requires IsVerdict(bs, base, r1) && IsVerdict(bs, base, r2)
    ensures r1 == r2
  {
    if r1.Some? {
      var labels := FirstSeen(bs, |bs|);
      FirstSeenIsStatuses(bs, |bs|);
      var p1 :| 0 <= p1 < |labels| && labels[p1] == r1.value;
      var p2 :| 0 <= p2 < |labels| && labels[p2] == r2.value;
      TallyNonNegative(bs, |bs|, base, r1.value);
      TallyNonNegative(bs, |bs|, base, r2.value);
    }
  }

  /** Without an exact match the vote is the verdict of the ballots. */
  lemma VoteIsVerdict(neighbors: Neighbors, testData: seq<Patient>)
    requires InRange(neighbors, testData) && NoExactMatch(neighbors)
    ensures IsVerdict(Ballots(neighbors, testData), ClosestDelta(neighbors), Vote(neighbors, testData))
  {
    var bs := Ballots(neighbors, testData);
    var base := ClosestDelta(neighbors);
    var votes := VoteTable(bs, |bs|, base);
    var order := FirstSeen(bs, |bs|);
    VoteTableIsTallies(bs, |bs|, base);
    BallotsPositive(neighbors, testData);
    FirstSeenIsStatuses(bs, |bs|);
    forall q | 0 <= q < |order|
      ensures votes[order[q]].Finite? && votes[order[q]].val >= 0.0
    {
      TallyNonNegative(bs, |bs|, base, order[q]);
    }
    LeaderNone(votes, order, |order|);
    assert bs != [] ==> HasBallot(bs, |bs|, bs[0].status);
    if order != [] {
      LeaderIsFirstArgMax(votes, order, |order|);
      var p :| IsFirstArgMaxAt(votes, order, |order|, p)
               && Leader(votes, order, |order|) == (votes[order[p]], Some(order[p]));
      VerdictOfTable(bs, base, order, votes, p);
    }
  }

  /**
   * The arg-max over a complete vote table (one entry per status, in
   * insertion order, holding its tally) is the verdict: `p` is the first
   * position of a largest tally.
   */
  lemma VerdictOfTable(bs: seq<Ballot>, base: nat, order: seq<Label>, votes: map<Label, Num>, p: nat)
    requires IsVoteTable(bs, |bs|, base, votes, order)
    requires Covers(votes, order) && IsFirstArgMaxAt(votes, order, |order|, p)
    ensures IsVerdict(bs, base, Some(order[p]))
  {
    FirstSeenIsStatuses(bs, |bs|);
    assert bs == [] ==> order == [];
    forall p', q | 0 <= q < p' < |order| && order[p'] == order[p]
      ensures Greater(Tally(bs, |bs|, base, order[p]), Tally(bs, |bs|, base, order[q]))
    {
      assert p' == p;
    }
    forall l | l in order
      ensures !Greater(Tally(bs, |bs|, base, l), Tally(bs, |bs|, base, order[p]))
    {
      var q :| 0 <= q < |order| && order[q] == l;
    }
  }

  /** The vote is null exactly when there are no neighbours, and otherwise some neighbour's status. */
  lemma VoteIsNeighborStatus(neighbors: Neighbors, testData: seq<Patient>)
    requires InRange(neighbors, testData)
    ensures Vote(neighbors, testData) == None <==> neighbors == map[]
    ensures Vote(neighbors, testData).Some? ==>
              exists i :: i in neighbors && testData[i].status == Vote(neighbors, testData).value
  {
    var bs := Ballots(neighbors, testData);
    var base := ClosestDelta(neighbors);
    var votes := VoteTable(bs, |bs|, base);
    var order := FirstSeen(bs, |bs|);
    VoteTableIsTallies(bs, |bs|, base);
    FirstSeenIsStatuses(bs, |bs|);
    LeaderNone(votes, order, |order|);
    if neighbors != map[] {
      assert bs[0].status in order;
      var result := Vote(neighbors, testData);
      LeaderIsAnEntry(votes, order, |order|);
      var t :| 0 <= t < |bs| && bs[t].status == result.value;
      NeighborOfBallot(neighbors, testData, t);
    }
  }

  /** The lead, once there is one, is one of the entries. */
  lemma {:induction false} LeaderIsAnEntry(votes: map<Label, Num>, order: seq<Label>, n: nat)
    requires n <= |order| && Covers(votes, order)
    ensures Leader(votes, order, n).1.Some? ==> Leader(votes, order, n).1.value in order
  {
    if n > 0 {
      LeaderIsAnEntry(votes, order, n - 1);
    }
  }

  /**
   * With an exact match among the neighbours, base is 0, every tally is 0
   * or NaN, and the vote is the status of the neighbour with the smallest
   * index, however far it is.
   */
  lemma VoteOfExactMatch(neighbors: Neighbors, testData: seq<Patient>)
    requires InRange(neighbors, testData) && !NoExactMatch(neighbors)
    ensures Least(neighbors.Keys) in neighbors
    ensures Vote(neighbors, testData) == Some(testData[Least(neighbors.Keys)].status)
  {
    var bs := Ballots(neighbors, testData);
    var base := ClosestDelta(neighbors);
    assert base == 0;
    var votes := VoteTable(bs, |bs|, base);
    var order := FirstSeen(bs, |bs|);
    VoteTableIsTallies(bs, |bs|, base);
    forall q | 0 <= q < |order|
      ensures votes[order[q]] == Finite(0.0) || votes[order[q]] == NaN
    {
      TallyOfZeroBase(bs, |bs|, order[q]);
    }
    FirstBallot(neighbors, testData);
    FirstSeenStartsWithFirstBallot(bs, |bs|);
    LeaderOfZeros(votes, order, |order|);
  }

  /**
   * votePatients: base is the closest distance, the first loop builds the
   * vote table and the second picks its winner.
   */
  method VotePatients(neighbors: Neighbors, testData: seq<Patient>) returns (maxStatus: Option<Label>)
    requires InRange(neighbors, testData)
    ensures maxStatus == Vote(neighbors, testData)
    ensures maxStatus == None <==> neighbors == map[]
    ensures maxStatus.Some? ==> exists i :: i in neighbors && testData[i].status == maxStatus.value
    ensures NoExactMatch(neighbors) ==>
              IsVerdict(Ballots(neighbors, testData), ClosestDelta(neighbors), maxStatus)
    ensures !NoExactMatch(neighbors) ==>
              Least(neighbors.Keys) in neighbors && maxStatus == Some(testData[Least(neighbors.Keys)].status)
  {
    var base := GetClosestDelta(neighbors);
    var votes, order := CountVotes(neighbors, testData, base);
    maxStatus := PickWinner(votes, order);
    VoteIsNeighborStatus(neighbors, testData);
    if NoExactMatch(neighbors) {
      VoteIsVerdict(neighbors, testData);
    } else {
      VoteOfExactMatch(neighbors, testData);
    }
  }

  /**
   * An exact match does not guarantee its own status: with row 0 at distance
   * 16 voting Normal and row 1 at distance 0 voting Tumor, the vote is
   * Normal, the status of the lowest-index neighbour.
   */
  lemma ExactMatchCanLose()
    ensures InRange(map[0 := 16, 1 := 0], [Patient([9, 9], "Normal"), Patient([1, 1], "Tumor")])
    ensures Vote(map[0 := 16, 1 := 0], [Patient([9, 9], "Normal"), Patient([1, 1], "Tumor")]) == Some("Normal")
  {
    var n := map[0 := 16, 1 := 0];
    var train := [Patient([9, 9], "Normal"), Patient([1, 1], "Tumor")];
    assert n.Keys == {0, 1};
    assert n[1] == 0;
    VoteOfExactMatch(n, train);
    assert Least(n.Keys) == 0;
  }

  // ---------------------------------------------------------------------------
  // Weights

  /** A weight whose base is at most its distance lies in (0, 1], and is 1 exactly at the base. */
  lemma WeightBounds(base: nat, delta: nat)
    requires 0 < base <= delta
    ensures Weight(base, delta).Finite?
    ensures 0.0 < Weight(base, delta).val <= 1.0
    ensures Weight(base, delta).val == 1.0 <==> base == delta
  {
    var w := Weight(base, delta).val;
    assert w * delta as real == base as real;
    assert w > 1.0 ==> w * delta as real > 1.0 * delta as real;
    if w == 1.0 {
      assert base as real == delta as real;
    }
  }

  /** A neighbour at the closest distance, which is then at most MaxValue. */
  lemma ClosestNeighbor(neighbors: Neighbors) returns (j: nat)
    requires neighbors != map[]
    requires forall i :: i in neighbors ==> neighbors[i] <= MaxValue
    ensures j in neighbors && neighbors[j] == ClosestDelta(neighbors)
  {
    var i :| i in neighbors;
    assert ClosestDelta(neighbors) <= neighbors[i] <= MaxValue;
    if ClosestDelta(neighbors) == MaxValue {
      j := i;
    } else {
      j :| j in neighbors && neighbors[j] == ClosestDelta(neighbors);
    }
  }

  /**
   * Without an exact match every weight lies in (0, 1] and the closest
   * neighbour's weight is exactly 1. (A JavaScript number never exceeds
   * Number.MAX_VALUE, hence the bound on the distances.)
   */
  lemma WeightsInUnitInterval(neighbors: Neighbors)
    requires forall i :: i in neighbors ==> 0 < neighbors[i] <= MaxValue
    ensures forall i :: i in neighbors ==>
              Weight(ClosestDelta(neighbors), neighbors[i]).Finite? &&
              0.0 < Weight(ClosestDelta(neighbors), neighbors[i]).val <= 1.0
    ensures neighbors != map[] ==>
              exists i :: i in neighbors && Weight(ClosestDelta(neighbors), neighbors[i]) == Finite(1.0)
  {
    var base := ClosestDelta(neighbors);
    if neighbors != map[] {
      var j := ClosestNeighbor(neighbors);
      assert base > 0;
      WeightBounds(base, neighbors[j]);
      forall i | i in neighbors
        ensures Weight(base, neighbors[i]).Finite? && 0.0 < Weight(base, neighbors[i]).val <= 1.0
      {
        WeightBounds(base, neighbors[i]);
      }
    }
  }

  /** Without an exact match the winning tally is at least 1: the closest neighbour alone contributes 1. */
  lemma WinnerTallyAtLeastOne(neighbors: Neighbors, train: seq<Patient>)
    requires InRange(neighbors, train) && neighbors != map[]
    requires forall i :: i in neighbors ==> 0 < neighbors[i] <= MaxValue
    ensures Vote(neighbors, train).Some?
    ensures var tally := Tally(Ballots(neighbors, train), |neighbors|, ClosestDelta(neighbors), Vote(neighbors, train).value);
            tally.Finite? && tally.val >= 1.0
  {
    var bs := Ballots(neighbors, train);
    var base := ClosestDelta(neighbors);
    VoteIsNeighborStatus(neighbors, train);
    VoteIsVerdict(neighbors, train);
    BallotsPositive(neighbors, train);
    var winner := Vote(neighbors, train).value;
    var i := ClosestNeighbor(neighbors);
    WeightBounds(base, neighbors[i]);
    BallotOfNeighbor(neighbors, train, i);
    var t :| 0 <= t < |bs| && bs[t] == Ballot(train[i].status, neighbors[i]);
    TallyCoversBallot(bs, |bs|, base, t);
    TallyNonNegative(bs, |bs|, base, winner);
    FirstSeenIsStatuses(bs, |bs|);
    assert bs[t].status in FirstSeen(bs, |bs|);
  }
}
