/**
 * Two ballots for different statuses, the first from distance 2 and the
 * second from distance 18, with closest distance 2.
 */
module PairVote {
  import opened Patients
  import opened Voting

  /** Two ballots for different statuses a and b enter the vote table as [a, b]. */
  lemma FirstSeenOfPair(a: Label, b: Label)
    requires a != b
    ensures FirstSeen([Ballot(a, 2), Ballot(b, 18)], 2) == [a, b]
  {
    var bs := [Ballot(a, 2), Ballot(b, 18)];
    assert FirstSeen(bs, 1) == [] + [a];
    assert FirstSeen(bs, 2) == [a] + [b];
  }

  /** The status a voting from distance 2 totals 2/2 = 1. */
  lemma TallyOfNearer(a: Label, b: Label)
    requires a != b
    ensures Tally([Ballot(a, 2), Ballot(b, 18)], 2, 2, a) == Finite(1.0)
  {
    var bs := [Ballot(a, 2), Ballot(b, 18)];
    assert Weight(2, 2) == Finite(1.0);
    assert Tally(bs, 1, 2, a) == Finite(1.0);
  }

  /** Adding 0 to a finite number leaves it unchanged. */
  lemma AddZero(x: Num)
    requires x.Finite?
    ensures Add(Finite(0.0), x) == x
  {
  }

  /** The first ballot adds nothing to the total of b. */
  lemma TallyOfFartherAfterOne(a: Label, b: Label)
    requires a != b
    ensures Tally([Ballot(a, 2), Ballot(b, 18)], 1, 2, b) == Finite(0.0)
  {
  }

  /** The status b voting from distance 18 totals 2/18. */
  lemma TallyOfFarther(a: Label, b: Label)
    requires a != b
    ensures Tally([Ballot(a, 2), Ballot(b, 18)], 2, 2, b) == Weight(2, 18)
  {
    var bs := [Ballot(a, 2), Ballot(b, 18)];
    TallyOfFartherAfterOne(a, b);
    assert bs[1].status == b && bs[1].delta == 18;
    assert Weight(2, 18).Finite?;
    AddZero(Weight(2, 18));
  }

  /** 1 exceeds the weight 2/18. */
  lemma FartherWeightBelowOne()
    ensures Greater(Finite(1.0), Weight(2, 18))
  {
    WeightBounds(2, 18);
  }

  /** The nearer status a outweighs the farther status b: 1 against 2/18. */
  lemma NearerLeads(a: Label, b: Label)
    requires a != b
    ensures Greater(Tally([Ballot(a, 2), Ballot(b, 18)], 2, 2, a), Tally([Ballot(a, 2), Ballot(b, 18)], 2, 2, b))
  {
    TallyOfNearer(a, b);
    TallyOfFarther(a, b);
    FartherWeightBelowOne();
  }

  /** The only verdict of those two ballots is a. */
  lemma VerdictOfPair(a: Label, b: Label, r: Option<Label>)
    requires a != b
    requires IsVerdict([Ballot(a, 2), Ballot(b, 18)], 2, r)
    ensures r == Some(a)
  {
    var bs := [Ballot(a, 2), Ballot(b, 18)];
    FirstSeenOfPair(a, b);
    NearerLeads(a, b);
    assert a in FirstSeen(bs, 2);
    assert r.Some? && r.value in [a, b];
  }
}

/**
 * Two worked examples of the classifier: training rows [0, 0, Tumor] and
 * [10, 10, Normal], query [1, 1] (distances 2 and 18).
 */
module Scenarios {
  import opened Patients
  import opened Metric
  import opened Enumeration
  import opened Selection
  import opened Voting
  import opened WorkerThread
  import opened PairVote

  const Train: seq<Patient> := [Patient([0, 0], "Tumor"), Patient([10, 10], "Normal")]
  const Query: Patient := Patient([1, 1], "Tumor")

  lemma Distances()
    ensures Conforms(Query, Train)
    ensures Distance(Query, Train[0]) == 2 && Distance(Query, Train[1]) == 18
  {
    assert SumAbsDiff(Query.features, Train[0].features, 1) == 1;
    assert SumAbsDiff(Query.features, Train[1].features, 1) == 9;
  }

  /** The only key of a one-entry map is the farthest. */
  lemma FarthestOfSingleton(j: nat, d: nat)
    ensures j in map[j := d] && Farthest(map[j := d]) == j
  {
    FarthestUnique(map[j := d], j);
  }

  /** With k = 1 the nearest row is row 0, at distance 2, and the vote is Tumor. */
  lemma NearestWithOne()
    ensures Conforms(Query, Train)
    ensures Nearest(Query, Train, 1) == map[0 := 2]
    ensures Vote(map[0 := 2], Train) == Some("Tumor")
  {
    Distances();
    assert Scan(Query, Train, 1, 1) == map[0 := 2];
    FarthestOfSingleton(0, 2);
    assert Scan(Query, Train, 1, 2) == Step(map[0 := 2], 1, 1, 18);
    VoteIsNeighborStatus(map[0 := 2], Train);
  }

  /** The two rows are visited in index order. */
  lemma AscendingPair()
    ensures Ascending({0, 1}) == [0, 1]
  {
    var ks := Ascending({0, 1});
    assert 0 in ks && 1 in ks;
    assert |ks| == 2;
  }

  /** With k = 2 both rows are kept. */
  lemma NearestWithTwo()
    ensures Conforms(Query, Train)
    ensures Nearest(Query, Train, 2) == map[0 := 2, 1 := 18]
  {
    Distances();
    assert Scan(Query, Train, 2, 1) == map[0 := 2];
  }

  /** Row 0 votes Tumor from distance 2, then row 1 votes Normal from distance 18. */
  lemma BallotsOfPair()
    ensures InRange(map[0 := 2, 1 := 18], Train)
    ensures Ballots(map[0 := 2, 1 := 18], Train) == [Ballot("Tumor", 2), Ballot("Normal", 18)]
    ensures ClosestDelta(map[0 := 2, 1 := 18]) == 2
  {
    var n := map[0 := 2, 1 := 18];
    assert n.Keys == {0, 1};
    AscendingPair();
  }

  /** Rows 0 and 1 kept at distances 2 and 18 vote Tumor: 1 outweighs 2/18. */
  lemma VoteOfPair()
    ensures InRange(map[0 := 2, 1 := 18], Train)
    ensures Vote(map[0 := 2, 1 := 18], Train) == Some("Tumor")
  {
    BallotsOfPair();
    var n := map[0 := 2, 1 := 18];
    VoteIsVerdict(n, Train);
    assert "Tumor"[0] != "Normal"[0];
    VerdictOfPair("Tumor", "Normal", Vote(n, Train));
  }

  /** With k = 2 both rows are kept and the vote is Tumor. */
  lemma VoteWithTwo()
    ensures Conforms(Query, Train)
    ensures Nearest(Query, Train, 2) == map[0 := 2, 1 := 18]
    ensures Vote(map[0 := 2, 1 := 18], Train) == Some("Tumor")
  {
    NearestWithTwo();
    VoteOfPair();
  }

  /** The classifier a worker runs diagnoses the query as Tumor with k = 1 and with k = 2. */
  lemma DiagnosedTumor()
    ensures Conforms(Query, Train)
    ensures Classify(Query, Train, 1) == Some("Tumor")
    ensures Classify(Query, Train, 2) == Some("Tumor")
  {
    NearestWithOne();
    VoteWithTwo();
  }
}
