/**
 * Selection of the k nearest training rows (parallelCode.js, findLowestDelta,
 * getFarthestNeighbor and getClosestDelta).
 *
 * The source keeps the selection in a plain object whose keys are training-row
 * indices and whose values are distances. Here it is a map from index to
 * distance; the source's loops over it visit the keys in ascending order
 * (module Enumeration).
 */
module Selection {
  import opened Patients
  import opened Metric
  import opened Enumeration

  /** The nearestNeighbors object: training-row index to distance from the query. */
  type Neighbors = map<nat, nat>

  /** JavaScript's Number.MAX_VALUE, (2^53 - 1) * 2^971, as an exact integer. */
  const MaxValue: nat := 179769313486231570814527423731704356798070567525844996598917476803157260780028538760589558632766878171540458953514382464234321326889464182768467546703537516986049910576551282076245490090389328944075868508455133942304583236903222948165808559332123348274797826204144723168738177180919299881250404026184124858368

  /** Every training row can be compared with the query. */
  predicate Conforms(test: Patient, train: seq<Patient>) {
    forall i :: 0 <= i < |train| ==> Fits(test, train[i])
  }

  // ---------------------------------------------------------------------------
  // getFarthestNeighbor

  /**
   * `j` is the key getFarthestNeighbor answers: its distance is the largest in
   * the map and no smaller key has that same distance (the scan goes up the
   * keys and replaces its candidate only on a strictly larger distance).
   */
  ghost predicate IsFarthest(n: Neighbors, j: nat) {
    && j in n
    && (forall x :: x in n ==> n[x] <= n[j])
    && (forall x :: x in n && n[x] == n[j] ==> j <= x)
  }

  lemma {:induction false} FarthestExists(n: Neighbors)
    requires n != map[]
    ensures exists j :: IsFarthest(n, j)
    decreases |n|
  {
    var y :| y in n;
    if n.Keys == {y} {
      assert IsFarthest(n, y);
    } else {
      var rest := n - {y};
      assert rest.Keys == n.Keys - {y};
      assert |rest| < |n|;
      assert rest != map[] by {
        var z :| z in n.Keys && z != y;
        assert z in rest;
      }
      FarthestExists(rest);
      var m :| IsFarthest(rest, m);
      var far := if n[y] > n[m] || (n[y] == n[m] && y < m) then y else m;
      forall x | x in n
        ensures n[x] <= n[far]
        ensures n[x] == n[far] ==> far <= x
      {
        if x != y {
          assert x in rest;
        }
      }
      assert IsFarthest(n, far);
    }
  }

  /** The key getFarthestNeighbor answers on a non-empty map. */
  ghost function Farthest(n: Neighbors): (j: nat)
    requires n != map[]
    ensures IsFarthest(n, j)
  {
    FarthestExists(n);
    var j :| IsFarthest(n, j);
    j
  }

  /** Only one key answers. */
  lemma FarthestUnique(n: Neighbors, j: nat)
    requires IsFarthest(n, j)
    ensures j == Farthest(n)
  {
    var f := Farthest(n);
    assert n[j] <= n[f] && n[f] <= n[j];
  }

  /**
   * The max scan of getFarthestNeighbor: -1 on an empty map, otherwise the
   * lowest index among those at the largest distance.
   */
  method GetFarthestNeighbor(n: Neighbors) returns (maxI: int)
    ensures maxI == -1 <==> n == map[]
    ensures maxI != -1 ==> 0 <= maxI && IsFarthest(n, maxI)
  {
    var keys := Ascending(n.Keys);
    var maxD: int := -1;
    maxI := -1;
    for t := 0 to |keys|
      invariant maxI == -1 <==> t == 0
      invariant t == 0 ==> maxD == -1
      invariant t > 0 ==> 0 <= maxI && maxI in n && maxD == n[maxI] && maxI in keys[..t]
      invariant forall q :: 0 <= q < t ==> n[keys[q]] <= maxD
      invariant forall q :: 0 <= q < t && n[keys[q]] == maxD ==> maxI <= keys[q]
    {
      var index := keys[t];
      if n[index] > maxD {
        maxD := n[index];
        maxI := index;
      }
    }
    if maxI != -1 {
      forall x | x in n
        ensures n[x] <= n[maxI]
        ensures n[x] == n[maxI] ==> maxI <= x
      {
        var q :| 0 <= q < |keys| && keys[q] == x;
      }
    }
  }

  // ---------------------------------------------------------------------------
  // getClosestDelta

  /**
   * What getClosestDelta answers: the smallest distance in the map, or
   * Number.MAX_VALUE when the map is empty (or every distance exceeds it).
   */
  function ClosestDelta(n: Neighbors): (base: nat)
    ensures base <= MaxValue
    ensures forall i :: i in n ==> base <= n[i]
    ensures base == MaxValue || exists i :: i in n && n[i] == base
  {
    if n == map[] then MaxValue
    else
      assert forall i :: i in n ==> n[i] in n.Values;
      Min(MaxValue, Least(n.Values))
  }

  /** The min scan of getClosestDelta. */
  method GetClosestDelta(n: Neighbors) returns (minDelta: int)
    ensures minDelta == ClosestDelta(n)
    ensures minDelta <= MaxValue
    ensures forall i :: i in n ==> minDelta <= n[i]
    ensures minDelta == MaxValue || exists i :: i in n && n[i] == minDelta
  {
    var keys := Ascending(n.Keys);
    minDelta := MaxValue;
    for t := 0 to |keys|
      invariant minDelta <= MaxValue
      invariant forall q :: 0 <= q < t ==> minDelta <= n[keys[q]]
      invariant minDelta == MaxValue || exists q :: 0 <= q < t && n[keys[q]] == minDelta
    {
      var index := keys[t];
      minDelta := if n[index] < minDelta then n[index] else minDelta;
    }
    forall i | i in n
      ensures minDelta <= n[i]
    {
      var q :| 0 <= q < |keys| && keys[q] == i;
    }
    var base := ClosestDelta(n);
    assert minDelta <= base && base <= minDelta;
  }

  // ---------------------------------------------------------------------------
  // findLowestDelta

  /**
   * One iteration of findLowestDelta's loop, for training row `i` at distance
   * `delta`. While fewer than k rows are held the row is added. Otherwise the
   * farthest held row is looked up; when the new row is strictly closer it is
   * added and the farthest one deleted. On an empty map getFarthestNeighbor
   * answers -1, `nearestNeighbors[-1]` is undefined and `delta < undefined` is
   * false, so nothing changes (this happens only when k <= 0).
   */
  ghost function Step(nn: Neighbors, k: int, i: nat, delta: nat): Neighbors {
    if |nn| < k then nn[i := delta]
    else if nn == map[] then nn
    else
      var far := Farthest(nn);
      if delta < nn[far] then nn[i := delta] - {far} else nn
  }

  /** The neighbour map after the loop has looked at the first n training rows. */
  ghost function Scan(test: Patient, train: seq<Patient>, k: int, n: nat): Neighbors
    requires n <= |train| && Conforms(test, train)
  {
    if n == 0 then map[]
    else Step(Scan(test, train, k, n - 1), k, n - 1, Distance(test, train[n - 1]))
  }

  /** One more row scanned is one more step. */
  lemma ScanNext(test: Patient, train: seq<Patient>, k: int, n: nat)
    requires n < |train| && Conforms(test, train)
    ensures Scan(test, train, k, n + 1) == Step(Scan(test, train, k, n), k, n, Distance(test, train[n]))
  {
  }

  /** The map findLowestDelta returns. */
  ghost function Nearest(test: Patient, train: seq<Patient>, k: int): Neighbors
    requires Conforms(test, train)
  {
    Scan(test, train, k, |train|)
  }

  /** The best-so-far property: no held row is farther than a dropped one. */
  ghost predicate KeptNoFartherThanDropped(test: Patient, train: seq<Patient>, n: nat, nn: Neighbors)
    requires n <= |train| && Conforms(test, train)
  {
    forall i, j :: i in nn && 0 <= j < n && j !in nn ==> nn[i] <= Distance(test, train[j])
  }

  /**
   * The loop invariant of findLowestDelta after the first n rows: the map
   * holds min(k, n) rows (none when k <= 0), its keys are indices already
   * scanned with their true distances, none is dropped before k are held,
   * and every held distance is at most every dropped one.
   */
  ghost predicate ScanState(test: Patient, train: seq<Patient>, k: int, n: nat, nn: Neighbors)
    requires n <= |train| && Conforms(test, train)
  {
    && |nn| == (if k <= 0 then 0 else Min(k, n))
    && (forall i :: i in nn ==> i < n && nn[i] == Distance(test, train[i]))
    && (n <= k ==> forall j :: 0 <= j < n ==> j in nn)
    && KeptNoFartherThanDropped(test, train, n, nn)
  }

  /** An iteration that adds the row while fewer than k are held. */
  lemma GrowKeepsScanState(test: Patient, train: seq<Patient>, k: int, m: nat, prev: Neighbors)
    requires m < |train| && Conforms(test, train)
    requires ScanState(test, train, k, m, prev) && |prev| < k
    ensures ScanState(test, train, k, m + 1, prev[m := Distance(test, train[m])])
  {
    assert m !in prev;
    assert m < k;
  }

  /** An iteration that swaps the farthest held row for a strictly closer one. */
  lemma SwapKeepsScanState(test: Patient, train: seq<Patient>, k: int, m: nat, prev: Neighbors, far: nat)
    requires m < |train| && Conforms(test, train)
    requires ScanState(test, train, k, m, prev) && |prev| >= k
    requires IsFarthest(prev, far) && Distance(test, train[m]) < prev[far]
    ensures ScanState(test, train, k, m + 1, prev[m := Distance(test, train[m])] - {far})
  {
    var s := prev[m := Distance(test, train[m])] - {far};
    assert m !in prev;
    assert s.Keys == prev.Keys + {m} - {far};
    assert |s| == |prev|;
    SwapKeepsNoFarther(test, train, m, prev, far);
  }

  /** The swap keeps every held distance at most every dropped one. */
  lemma SwapKeepsNoFarther(test: Patient, train: seq<Patient>, m: nat, prev: Neighbors, far: nat)
    requires m < |train| && Conforms(test, train)
    requires forall i :: i in prev ==> i < m && prev[i] == Distance(test, train[i])
    requires KeptNoFartherThanDropped(test, train, m, prev)
    requires IsFarthest(prev, far) && Distance(test, train[m]) < prev[far]
    ensures KeptNoFartherThanDropped(test, train, m + 1, prev[m := Distance(test, train[m])] - {far})
  {
    var s := prev[m := Distance(test, train[m])] - {far};
    forall i, j | i in s && 0 <= j < m + 1 && j !in s
      ensures s[i] <= Distance(test, train[j])
    {
      assert s[i] <= prev[far];
      if j != far {
        assert j !in prev;
      }
    }
  }

  /** An iteration that drops the row: it is no closer than the farthest held one. */
  lemma DropKeepsScanState(test: Patient, train: seq<Patient>, k: int, m: nat, prev: Neighbors)
    requires m < |train| && Conforms(test, train)
    requires ScanState(test, train, k, m, prev) && |prev| >= k
    requires prev == map[] || Distance(test, train[m]) >= prev[Farthest(prev)]
    ensures ScanState(test, train, k, m + 1, prev)
  {
    assert m !in prev;
    if prev != map[] {
      var far := Farthest(prev);
      forall i, j | i in prev && 0 <= j < m + 1 && j !in prev
        ensures prev[i] <= Distance(test, train[j])
      {
        assert prev[i] <= prev[far];
      }
    }
  }

  /** One iteration keeps the invariant. */
  lemma StepKeepsScanState(test: Patient, train: seq<Patient>, k: int, m: nat, prev: Neighbors)
    requires m < |train| && Conforms(test, train)
    requires ScanState(test, train, k, m, prev)
    ensures ScanState(test, train, k, m + 1, Step(prev, k, m, Distance(test, train[m])))
  {
    var d := Distance(test, train[m]);
    if |prev| < k {
      GrowKeepsScanState(test, train, k, m, prev);
    } else if prev != map[] && d < prev[Farthest(prev)] {
      SwapKeepsScanState(test, train, k, m, prev, Farthest(prev));
    } else {
      DropKeepsScanState(test, train, k, m, prev);
    }
  }

  /** The invariant holds after every iteration. */
  lemma {:induction false} ScanInvariant(test: Patient, train: seq<Patient>, k: int, n: nat)
    requires n <= |train| && Conforms(test, train)
    ensures ScanState(test, train, k, n, Scan(test, train, k, n))
  {
    if n > 0 {
      ScanInvariant(test, train, k, n - 1);
      StepKeepsScanState(test, train, k, n - 1, Scan(test, train, k, n - 1));
    }
  }

  /**
   * Once the map is full, an iteration either leaves it as it is or swaps one
   * entry: the farthest row goes, the new row comes in, every other entry stays
   * and the size is unchanged.
   */
  lemma FullStepSwapsAtMostOne(nn: Neighbors, k: int, i: nat, delta: nat)
    requires nn != map[] && |nn| >= k && i !in nn
    ensures |Step(nn, k, i, delta)| == |nn|
    ensures Step(nn, k, i, delta) == nn
         || exists far ::
              && IsFarthest(nn, far) && delta < nn[far]
              && Step(nn, k, i, delta).Keys == nn.Keys - {far} + {i}
              && Step(nn, k, i, delta)[i] == delta
              && forall j :: j in nn && j != far ==> Step(nn, k, i, delta)[j] == nn[j]
  {
    var s := Step(nn, k, i, delta);
    var far := Farthest(nn);
    if delta < nn[far] {
      assert s.Keys == nn.Keys + {i} - {far};
      assert |s.Keys| == |nn.Keys|;
    }
  }

  /**
   * Once k rows are held, the iteration looks up the key getFarthestNeighbor
   * answers (-1 on an empty map, whose `nearestNeighbors[-1]` is undefined and
   * compares false) and swaps it for the new row when that is strictly closer.
   */
  lemma StepWhenFull(nn: Neighbors, k: int, i: nat, delta: nat, far: int)
    requires |nn| >= k
    requires far == -1 <==> nn == map[]
    requires far != -1 ==> 0 <= far && IsFarthest(nn, far)
    ensures far != -1 ==> far in nn
    ensures Step(nn, k, i, delta)
         == if far != -1 && delta < nn[far] then nn[i := delta] - {far} else nn
  {
    if far != -1 {
      FarthestUnique(nn, far);
    }
  }

  /**
   * The body of findLowestDelta's loop for row `i` at distance `thisDelta`:
   * add the row while fewer than k are held, otherwise swap it for the
   * farthest held row when it is strictly closer.
   */
  method Consider(nearestNeighbors: Neighbors, k: int, i: nat, thisDelta: nat) returns (next: Neighbors)
    ensures next == Step(nearestNeighbors, k, i, thisDelta)
  {
    next := nearestNeighbors;
    if |next| < k {
      next := next[i := thisDelta];
    } else {
      var farthest := GetFarthestNeighbor(next);
      StepWhenFull(next, k, i, thisDelta, farthest);
      if farthest != -1 && thisDelta < next[farthest] {
        next := next[i := thisDelta];
        next := next - {farthest};
      }
    }
  }

  /**
   * The bounded nearest-neighbour scan of findLowestDelta: the result holds
   * min(k, |train|) rows (none when k <= 0), each with its own distance, and
   * none of them is farther than a row left out.
   */
  method FindLowestDelta(testPatient: Patient, trainPatientData: seq<Patient>, k: int) returns (nearestNeighbors: Neighbors)
    requires Conforms(testPatient, trainPatientData)
    ensures nearestNeighbors == Nearest(testPatient, trainPatientData, k)
    ensures |nearestNeighbors| == if k <= 0 then 0 else Min(k, |trainPatientData|)
    ensures forall i :: i in nearestNeighbors ==>
              i < |trainPatientData| && nearestNeighbors[i] == Distance(testPatient, trainPatientData[i])
    ensures KeptNoFartherThanDropped(testPatient, trainPatientData, |trainPatientData|, nearestNeighbors)
  {
    nearestNeighbors := map[];
    var i := 0;
    while i < |trainPatientData|
      invariant 0 <= i <= |trainPatientData|
      invariant nearestNeighbors == Scan(testPatient, trainPatientData, k, i)
    {
      var thisDelta := GetPatientDistance(testPatient, trainPatientData[i]);
      ScanNext(testPatient, trainPatientData, k, i);
      nearestNeighbors := Consider(nearestNeighbors, k, i, thisDelta);
      i := i + 1;
    }
    ScanInvariant(testPatient, trainPatientData, k, |trainPatientData|);
  }
}
