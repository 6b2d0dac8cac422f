# PANTS worker thread: distance-weighted k-nearest-neighbour classifier

This project models the code a PANTS worker thread runs (`parallelCode.js`).
A worker holds a private copy of the training patients. It receives its id,
the training rows and `k` from the master. Once it has all three it posts a
`ready` message. After that it answers every `patient` message with a
`diagnosis` message. A diagnosis runs three steps:

- **Distance** (`Metric`): the Manhattan distance between two patient rows over the
  integer feature cells. The trailing status cell is excluded.
- **Selection** (`Selection`): one pass over the training rows. It keeps at most
  `k` best-so-far rows in a map from row index to distance. When a strictly
  closer row arrives, the current farthest row (the lowest index among ties) is
  evicted.
- **Vote** (`Voting`): every kept row votes for its own status with weight
  `closest distance / its distance`. The weights are summed per status. The
  status with the largest sum wins; on a tie, the status inserted first wins.

The worker (`WorkerThread`) is a class holding the script's four globals: `id`,
`learned`, `trainPatientData` and `k`. Its `HandleMessage` method returns the
messages one call of `onmessage` posts (its outbox). Every loop of the modelled
functions is a method with loop invariants. Each method is proved equal to a
specification function: `Distance`, or one of the ghost functions `Nearest`,
`Vote` and `Handle`. The properties of the source are lemmas about those
functions.

JavaScript details that the model makes explicit:

- A `for (key in object)` loop over the neighbour map visits integer keys in
  ascending order. This follows section 10.1.11.1 of ECMA-262,
  OrdinaryOwnPropertyKeys. `Enumeration.Ascending` gives that order. The vote
  table's string keys are visited in insertion order (the `order` sequence).
- A division can give Infinity or NaN. `Voting.Num` models these values, and
  `>` and `+` follow JavaScript's rules for them (`Voting.Add`, `Voting.Greater`,
  `Voting.Weight`). A neighbour at distance 0 makes the closest distance 0.
  Every neighbour at distance 0 then weighs `0/0 = NaN`, and every other one
  weighs `0/d = 0`. The first status in the table therefore has a total of 0 or
  NaN, and nothing ever overtakes it. The vote goes to the status of the
  lowest-index neighbour (`Voting.VoteOfExactMatch`).
- `getFarthestNeighbor` answers -1 on an empty map. The next statement reads
  `nearestNeighbors[-1]`, which is `undefined`, and `d < undefined` is false.
  So with `k <= 0` (including `k` still -1) the selection stays empty and the
  vote is `null`.
- `getClosestDelta` starts from `Number.MAX_VALUE`. The model writes that value
  as an exact integer.
- `diagnose` catches every exception. Its only one here is the `TypeError`
  from reading `trainPatientData.length` while no training rows are held (the
  value is `null`). In that case nothing is posted.

Behaviour of the code that a reader might not expect:

- On equal vote totals, the status whose first vote came earliest (ascending
  row index) wins. The lexicographically smallest label does not.
- An exact match (distance 0) is not short-circuited. The result is the NaN
  behaviour described above. So a row at distance 0 can lose to a farther row
  with a lower index, although the comment at `parallelCode.js:101` says that
  nearer neighbours get a larger vote. For example, with rows
  `[9, 9, Normal]` and `[1, 1, Tumor]` kept at distances 16 and 0, the vote is
  Normal (`Voting.ExactMatchCanLose`).
- A fault inside `diagnose` posts nothing. No failure result is posted.
- The distance skips the last cell of each row, which holds the status.

## Model

| member | source | states |
|---|---|---|
| `Metric.GetPatientDistance` | parallelCode.js:79-88 | the accumulator loop returns the sum of `\|a[i] - b[i]\|` over the query's feature cells, which is non-negative |
| `Metric.DistanceIgnoresStatusAndTail` | parallelCode.js:82-85 | no cell of the other row beyond the query's feature cells, its status included, affects the distance |
| `Metric.DistanceSymmetric` | parallelCode.js:79-88 | the distance between rows with equally many features is symmetric |
| `Metric.DistanceZeroIffSameFeatures` | parallelCode.js:79-88 | the distance is 0 exactly when the feature cells are equal |
| `Metric.DistanceTriangle` | parallelCode.js:79-88 | the distance obeys the triangle inequality |
| `Selection.GetFarthestNeighbor` | parallelCode.js:187-200 | -1 exactly on an empty map; otherwise a key with maximal distance, and the lowest such key on ties |
| `Selection.FarthestUnique` | parallelCode.js:191-198 | only one key is maximal with no smaller key at the same distance, so the tie-break makes the answer unique |
| `Selection.ClosestDelta` | parallelCode.js:207-215 | at most `Number.MAX_VALUE` and at most every stored distance; it is either `Number.MAX_VALUE` or a stored distance |
| `Selection.GetClosestDelta` | parallelCode.js:207-215 | the min scan computes `ClosestDelta`: a lower bound of the map's distances that is one of them, or `Number.MAX_VALUE` |
| `Selection.Consider` | parallelCode.js:147-164 | one loop iteration: add while fewer than k rows are held, otherwise swap out the farthest row when the new one is strictly closer |
| `Selection.StepWhenFull` | parallelCode.js:157-163 | once full, the iteration changes the map only when the farthest key exists and the new distance is strictly smaller, by swapping those two keys |
| `Selection.FullStepSwapsAtMostOne` | parallelCode.js:157-163 | a full map keeps its size; it is unchanged, or exactly the farthest key is replaced by the new row and every other entry stays |
| `Selection.StepKeepsScanState` | parallelCode.js:148-164 | one iteration preserves the loop invariant: the size is min(k, rows scanned), keys are scanned indices with their true distances, and every kept distance is at most every dropped one |
| `Selection.ScanInvariant` | parallelCode.js:146-165 | the invariant holds after every number of iterations |
| `Selection.FindLowestDelta` | parallelCode.js:142-168 | the result holds min(k, number of rows) entries (none when k <= 0); each key is a row index mapped to its distance, and no kept row is farther than a dropped one |
| `Voting.Weight` | parallelCode.js:110-114 | `base / distance` over non-negative integers: a finite non-negative number for a positive distance; for distance 0, NaN exactly when the base is 0 and Infinity exactly when it is positive |
| `Voting.Add` | parallelCode.js:114 | JavaScript `+=`: NaN exactly when an operand is NaN; otherwise Infinity exactly when an operand is Infinity; a finite sum only of finite operands, equal to their sum |
| `Voting.Greater` | parallelCode.js:122 | JavaScript `>`: false whenever NaN is involved or the right side is Infinity; Infinity exceeds every finite number; finite numbers compare by value |
| `Voting.CountVotes` | parallelCode.js:104-116 | the first loop builds one entry per status, in first-vote order, each holding that status's sum of `base / distance` |
| `Voting.PickWinner` | parallelCode.js:118-127 | the second loop ends with the lead of the table scan (`maxVotes` starting at -1, replaced on a strictly greater total) |
| `Voting.LeaderIsFirstArgMax` | parallelCode.js:118-127 | over finite non-negative totals the lead is the first entry with a maximal total |
| `Voting.TallyPositiveIffPresent` | parallelCode.js:104-116 | with a positive base, a status's total is positive exactly when some neighbour votes for it |
| `Voting.VotePatients` | parallelCode.js:98-130 | the result is the vote; it is null exactly when there are no neighbours and otherwise a neighbour's status; without an exact match it is the verdict, with one it is the lowest-index neighbour's status |
| `Voting.VoteIsVerdict` | parallelCode.js:98-130 | without an exact match, the vote is a status with a vote whose total no status exceeds, and every status inserted before it has a strictly smaller total |
| `Voting.VerdictUnique` | parallelCode.js:118-127 | the verdict is unique, so the vote is a deterministic function of the neighbours |
| `Voting.VoteIsNeighborStatus` | parallelCode.js:98-130 | the vote is null exactly on an empty map and is otherwise the status of some neighbour |
| `Voting.VoteOfExactMatch` | parallelCode.js:102-127 | with a neighbour at distance 0, the vote is the status of the lowest-index neighbour |
| `Voting.ExactMatchCanLose` | parallelCode.js:101-127 | with rows `[9, 9, Normal]` at distance 16 and `[1, 1, Tumor]` at distance 0, the vote is Normal: the exact match loses to the farther row with the lower index |
| `Voting.WeightBounds` | parallelCode.js:110-114 | with `0 < base <= d`, the weight `base / d` lies in (0, 1] and is 1 exactly when `d == base` |
| `Voting.WeightsInUnitInterval` | parallelCode.js:102-115 | without an exact match every weight lies in (0, 1], and some neighbour (the closest) has weight exactly 1 |
| `Voting.WinnerTallyAtLeastOne` | parallelCode.js:102-127 | without an exact match the winning status's total is at least 1 |
| `WorkerThread.Receive` | parallelCode.js:40-53 | an `id`, `train` or `k` message sets exactly its own field; other messages change nothing; `learned` is untouched |
| `WorkerThread.Classify` | parallelCode.js:27-30 | the diagnosis is null exactly when k is not positive or there are no training rows, and is otherwise a training row's status |
| `WorkerThread.HandleStep` | parallelCode.js:38-68 | one message: `learned` only goes 0 to 1, exactly when the configuration becomes complete; ready is then posted last, carrying the id; a patient message posts one diagnosis when training rows are held and none otherwise |
| `WorkerThread.PatientDiagnosis` | parallelCode.js:25-35 | a patient message to a ready thread posts exactly one message: the diagnosis with the vote, the thread id, the patient's last cell as `correct` and the echoed `pid` |
| `WorkerThread.RunReadyOnce` | parallelCode.js:61-66 | over any sequence of messages, ready is posted at most once, and exactly once from a fresh thread iff id, training rows and k were all set after some message; the fields end as the messages set them |
| `WorkerThread.ReadyAfterConfiguration` | parallelCode.js:40-66 | from a fresh thread the three configuration messages, in any of the six orders, post exactly one ready, carrying the id |
| `WorkerThread.Worker.constructor` | parallelCode.js:13-16 | the globals start as id -1, learned 0, no training rows, k -1 |
| `WorkerThread.Worker.Diagnose` | parallelCode.js:25-35 | posts nothing without training rows and otherwise one diagnosis with the classifier's answer, the thread id, the patient's status and the patient id |
| `WorkerThread.Worker.HandleMessage` | parallelCode.js:38-68 | the new globals and the outbox are those of `Handle`, and the consistency invariant between `learned` and the configuration is kept |
| `Scenarios.DiagnosedTumor` | parallelCode.js:25-31 | for training rows `[0,0,Tumor]` and `[10,10,Normal]` and query `[1,1]`, the diagnosis is Tumor with k = 1 and with k = 2 |
| `PairVote.VerdictOfPair` | parallelCode.js:104-127 | for any two different statuses voting from distances 2 and 18 with closest distance 2, the only verdict is the nearer status |
| `Scenarios.VoteWithTwo` | parallelCode.js:98-130 | with k = 2 both rows are kept (distances 2 and 18), and the totals 1 against 2/18 give Tumor |

## Left out

- `pants.js` only loads the thread library and parses command-line options; it holds no logic.
- The master side (dispatching patients, counting results, terminating threads) is not part of this model. Threads run concurrently but each handles its own messages one at a time, so `postMessage` is an outbox of one handler call.
- `printNN` is a debugging formatter that nothing calls. The `console.log` calls only log.
- `parseInt` on malformed cells, and the resulting NaN distances, are left out: features are integers.
- A training row with fewer cells than the query reads `undefined` cells and also gives NaN distances. `Selection.Conforms` and `WorkerThread.Admits` exclude it as a precondition.
- Floating-point rounding is not modelled. Weights are exact rationals, and distances are unbounded integers (JavaScript numbers lose precision above 2^53).
- Vote-table labels are assumed to be ordinary strings. A label that is an integer-like string (such as "0") would be enumerated in ascending numeric order before other keys. A label naming an `Object.prototype` member (such as "toString") would find an inherited value instead of `null`.
- Message contents are typed. `id`, `k` and `pid` are integers, the training content is a row sequence or null, and the patient is a row. The loose comparisons `!=`/`==` on other JavaScript types are not modelled.
- `Voting.WeightsInUnitInterval`: requires every distance to be at most `Number.MAX_VALUE`, which any JavaScript number is; the unbounded integers of the model need it stated.
- The implicit globals `i`, `maxD`, `maxI` and `minDelta` are treated as locals; each thread runs one handler at a time, so the leak is not observable.
