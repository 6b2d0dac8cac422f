/**
 * One worker thread (parallelCode.js, onmessage and diagnose). The thread
 * holds four globals: its id, the `learned` flag, the training rows and k.
 * Configuration messages set the first three; once all of id, training rows
 * and k are set the thread posts a single `ready` message; each `patient`
 * message is classified and answered with a `diagnosis` message.
 *
 * postMessage is modelled as the sequence of messages one call of the
 * handler posts (its outbox), in the order it posts them.
 */
module WorkerThread {
  import opened Patients
  import opened Selection
  import opened Voting

  /** A message the master sends, by its `type` field. */
  datatype Message =
    | IdMsg(newId: int)                       // type "id"
    | TrainMsg(rows: Option<seq<Patient>>)    // type "train"; the content may be null
    | KMsg(newK: int)                         // type "k"
    | PatientMsg(patient: Patient, pid: int)  // type "patient"
    | OtherMsg                                // any other type: no field changes

  /** A message the thread posts back. */
  datatype Posted =
    | Ready(workerId: int)
    | Diagnosis(content: Option<Label>, id: int, correct: Label, pid: int)

  /** The thread's globals: -1 and null mean "not received yet". */
  datatype State = State(id: int, learned: int, train: Option<seq<Patient>>, k: int)

  /** The globals when the script has just been loaded. */
  const Initial: State := State(-1, 0, None, -1)

  /** The condition of the ready check, apart from `learned == 0`. */
  predicate Configured(s: State) {
    s.id != -1 && s.train.Some? && s.k != -1
  }

  /**
   * What holds between messages: `learned` is 0 or 1, and while it is 0 the
   * thread is not fully configured (the check at the end of every message
   * would have posted ready and set it to 1).
   */
  predicate Consistent(s: State) {
    (s.learned == 0 || s.learned == 1) && (s.learned == 0 ==> !Configured(s))
  }

  /** The field updates of the first four `if`s of onmessage. */
  function Receive(s: State, msg: Message): (s': State)
    ensures s'.learned == s.learned
    ensures s'.id == (if msg.IdMsg? then msg.newId else s.id)
    ensures s'.train == (if msg.TrainMsg? then msg.rows else s.train)
    ensures s'.k == (if msg.KMsg? then msg.newK else s.k)
  {
    match msg
    case IdMsg(c) => s.(id := c)
    case TrainMsg(c) => s.(train := c)
    case KMsg(c) => s.(k := c)
    case _ => s
  }

  /**
   * The message `msg` can be handled in state `s`: a patient's feature cells
   * can be compared with every training row (the rows are at least as long).
   */
  ghost predicate Admits(s: State, msg: Message) {
    msg.PatientMsg? && s.train.Some? ==> Conforms(msg.patient, s.train.value)
  }

  /**
   * The status the classifier gives patient `p`: the vote over the k nearest
   * training rows. It is null exactly when no row is selected (k not
   * positive, or no training rows), and otherwise some training row's status.
   */
  ghost function Classify(p: Patient, train: seq<Patient>, k: int): (r: Option<Label>)
    requires Conforms(p, train)
    ensures r == None <==> k <= 0 || train == []
    ensures r.Some? ==> exists i :: 0 <= i < |train| && train[i].status == r.value
  {
    ScanInvariant(p, train, k, |train|);
    VoteIsNeighborStatus(Nearest(p, train, k), train);
    Vote(Nearest(p, train, k), train)
  }

  /**
   * What diagnose posts for patient `p`: with no training rows the length
   * lookup throws a TypeError, which is caught and logged, so nothing is
   * posted; otherwise one diagnosis carrying the vote over the k nearest
   * rows, the thread id, the patient's own status and the patient id.
   */
  ghost function DiagnosisOf(s: State, p: Patient, pid: int): seq<Posted>
    requires s.train.Some? ==> Conforms(p, s.train.value)
  {
    if s.train.None? then []
    else
      [Diagnosis(Classify(p, s.train.value, s.k), s.id, p.status, pid)]
  }

  /**
   * One call of onmessage: update the fields, diagnose a patient, then post
   * ready and set `learned` if that is now due. Gives the new globals and
   * the messages posted, in order.
   */
  ghost function Handle(s: State, msg: Message): (State, seq<Posted>)
    requires Admits(s, msg)
  {
    var s1 := Receive(s, msg);
    var diagnosis := if msg.PatientMsg? then DiagnosisOf(s1, msg.patient, msg.pid) else [];
    if s1.learned == 0 && Configured(s1) then (s1.(learned := 1), diagnosis + [Ready(s1.id)])
    else (s1, diagnosis)
  }

  /** The number of ready messages in an outbox. */
  function Readies(out: seq<Posted>): (n: nat)
    ensures n <= |out|
    ensures n == 0 <==> forall j :: 0 <= j < |out| ==> !out[j].Ready?
  {
    if out == [] then 0 else Readies(out[..|out| - 1]) + (if out[|out| - 1].Ready? then 1 else 0)
  }

  /** The number of diagnosis messages in an outbox. */
  function Diagnoses(out: seq<Posted>): (n: nat)
    ensures n <= |out|
    ensures n == 0 <==> forall j :: 0 <= j < |out| ==> !out[j].Diagnosis?
  {
    if out == [] then 0 else Diagnoses(out[..|out| - 1]) + (if out[|out| - 1].Diagnosis? then 1 else 0)
  }

  lemma {:induction false} CountsOfConcat(a: seq<Posted>, b: seq<Posted>)
    ensures Readies(a + b) == Readies(a) + Readies(b)
    ensures Diagnoses(a + b) == Diagnoses(a) + Diagnoses(b)
    decreases |b|
  {
    if b == [] {
      assert a + b == a;
    } else {
      var b' := b[..|b| - 1];
      assert (a + b)[..|a + b| - 1] == a + b';
      CountsOfConcat(a, b');
    }
  }

  /**
   * One message, step by step: `learned` only goes from 0 to 1; ready is
   * posted (last, carrying the id) exactly when `learned` was 0 and the
   * message completes the configuration; a patient message posts one
   * diagnosis when training rows are held and none otherwise, and no other
   * message posts one.
   */
  lemma HandleStep(s: State, msg: Message)
    requires Consistent(s) && Admits(s, msg)
    ensures var (s', out) := Handle(s, msg);
      && Consistent(s')
      && s.learned <= s'.learned
      && (s'.id, s'.train, s'.k) == (Receive(s, msg).id, Receive(s, msg).train, Receive(s, msg).k)
      && (s'.learned != s.learned <==> s.learned == 0 && Configured(Receive(s, msg)))
      && Readies(out) == s'.learned - s.learned
      && (Readies(out) == 1 ==> out[|out| - 1] == Ready(s'.id))
      && Diagnoses(out) == (if msg.PatientMsg? && s.train.Some? then 1 else 0)
  {
    var s1 := Receive(s, msg);
    var diagnosis := if msg.PatientMsg? then DiagnosisOf(s1, msg.patient, msg.pid) else [];
    assert Readies(diagnosis) == 0;
    assert Diagnoses(diagnosis) == (if msg.PatientMsg? && s.train.Some? then 1 else 0) by {
      if msg.PatientMsg? && s.train.Some? {
        assert |diagnosis| == 1 && diagnosis[0].Diagnosis?;
        assert diagnosis[..0] == [];
      }
    }
    CountsOfConcat(diagnosis, [Ready(s1.id)]);
    assert [Ready(s1.id)][..0] == [];
  }

  /**
   * The diagnosis a patient message posts: the vote over the k nearest
   * training rows, the thread id, the last cell of the patient row as the
   * correct answer, and the patient id echoed back.
   */
  lemma PatientDiagnosis(s: State, p: Patient, pid: int)
    requires Consistent(s) && s.train.Some? && Conforms(p, s.train.value)
    ensures var out := Handle(s, PatientMsg(p, pid)).1;
      && |out| >= 1
      && out[0] == Diagnosis(Classify(p, s.train.value, s.k), s.id, p.status, pid)
      && |out| == 1
  {
    assert Receive(s, PatientMsg(p, pid)) == s;
    assert Handle(s, PatientMsg(p, pid)).1 == DiagnosisOf(s, p, pid);
  }

  // ---------------------------------------------------------------------------
  // Runs of messages

  /** Every message of the run can be handled in the state it arrives in. */
  ghost predicate Admissible(s: State, msgs: seq<Message>)
    decreases |msgs|
  {
    msgs == [] || (Admits(s, msgs[0]) && Admissible(Handle(s, msgs[0]).0, msgs[1..]))
  }

  /** The globals after a run of messages, and everything the run posted. */
  ghost function Run(s: State, msgs: seq<Message>): (State, seq<Posted>)
    requires Admissible(s, msgs)
    decreases |msgs|
  {
    if msgs == [] then (s, [])
    else
      var (s1, out1) := Handle(s, msgs[0]);
      var (s2, out2) := Run(s1, msgs[1..]);
      (s2, out1 + out2)
  }

  /** The configuration fields after a run: only the handler's field updates. */
  function Configure(s: State, msgs: seq<Message>): (s': State)
    ensures s'.learned == s.learned
    decreases |msgs|
  {
    if msgs == [] then s else Configure(Receive(s, msgs[0]), msgs[1..])
  }

  /** At some point of the run, all of id, training rows and k are set. */
  predicate EverConfigured(s: State, msgs: seq<Message>)
    decreases |msgs|
  {
    msgs != [] && (Configured(Receive(s, msgs[0])) || EverConfigured(Receive(s, msgs[0]), msgs[1..]))
  }

  /**
   * Over any run, whatever order the configuration arrives in: the globals
   * stay consistent; id, training rows and k are exactly what the field
   * updates made them; `learned` ends at 1 exactly when it started at 1 or
   * the configuration was complete after some message; and the run posts
   * ready exactly as many times as `learned` went up, so at most once.
   */
  lemma {:induction false} RunReadyOnce(s: State, msgs: seq<Message>)
    requires Consistent(s) && Admissible(s, msgs)
    ensures var (s', out) := Run(s, msgs);
      && Consistent(s')
      && (s'.id, s'.train, s'.k) == (Configure(s, msgs).id, Configure(s, msgs).train, Configure(s, msgs).k)
      && (s'.learned == 1 <==> s.learned == 1 || EverConfigured(s, msgs))
      && Readies(out) == s'.learned - s.learned
      && Readies(out) <= 1
    decreases |msgs|
  {
    if msgs != [] {
      var (s1, out1) := Handle(s, msgs[0]);
      HandleStep(s, msgs[0]);
      RunReadyOnce(s1, msgs[1..]);
      var (s2, out2) := Run(s1, msgs[1..]);
      CountsOfConcat(out1, out2);
      assert (s1.id, s1.train, s1.k) == (Receive(s, msgs[0]).id, Receive(s, msgs[0]).train, Receive(s, msgs[0]).k);
      ConfigureDependsOnFields(s1, Receive(s, msgs[0]), msgs[1..]);
      EverConfiguredDependsOnFields(s1, Receive(s, msgs[0]), msgs[1..]);
    }
  }

  /** Configure only looks at the configuration fields of its start state. */
  lemma {:induction false} ConfigureDependsOnFields(a: State, b: State, msgs: seq<Message>)
    requires (a.id, a.train, a.k) == (b.id, b.train, b.k)
    ensures (Configure(a, msgs).id, Configure(a, msgs).train, Configure(a, msgs).k)
         == (Configure(b, msgs).id, Configure(b, msgs).train, Configure(b, msgs).k)
    decreases |msgs|
  {
    if msgs != [] {
      ConfigureDependsOnFields(Receive(a, msgs[0]), Receive(b, msgs[0]), msgs[1..]);
    }
  }

  /** Neither does EverConfigured. */
  lemma {:induction false} EverConfiguredDependsOnFields(a: State, b: State, msgs: seq<Message>)
    requires (a.id, a.train, a.k) == (b.id, b.train, b.k)
    ensures EverConfigured(a, msgs) == EverConfigured(b, msgs)
    decreases |msgs|
  {
    if msgs != [] {
      EverConfiguredDependsOnFields(Receive(a, msgs[0]), Receive(b, msgs[0]), msgs[1..]);
    }
  }

  /**
   * From a freshly loaded thread, the three configuration messages in any of
   * their six orders post exactly one message, ready with the id, after the
   * last of them, and leave the thread configured with `learned` set.
   */
  lemma ReadyAfterConfiguration(i: int, t: seq<Patient>, kk: int, x: Message, y: Message, z: Message)
    requires i != -1 && kk != -1
    requires {x, y, z} == {IdMsg(i), TrainMsg(Some(t)), KMsg(kk)}
    ensures Admissible(Initial, [x, y, z])
    ensures Run(Initial, [x, y, z]) == (State(i, 1, Some(t), kk), [Ready(i)])
  {
    assert x in {IdMsg(i), TrainMsg(Some(t)), KMsg(kk)};
    assert y in {IdMsg(i), TrainMsg(Some(t)), KMsg(kk)};
    assert z in {IdMsg(i), TrainMsg(Some(t)), KMsg(kk)};
    assert IdMsg(i) in {x, y, z} && TrainMsg(Some(t)) in {x, y, z} && KMsg(kk) in {x, y, z};
    var s1 := Receive(Initial, x);
    var s2 := Receive(s1, y);
    var s3 := Receive(s2, z);
    assert !Configured(s1) && !Configured(s2) && Configured(s3);
    assert s3 == State(i, 0, Some(t), kk);
    assert Handle(Initial, x) == (s1, []);
    assert Handle(s1, y) == (s2, []);
    assert !z.PatientMsg?;
    var none: seq<Posted> := [];
    assert none + [Ready(i)] == [Ready(i)];
    assert Handle(s2, z).1 == none + [Ready(i)];
    assert [x, y, z][1..] == [y, z] && [y, z][1..] == [z] && [z][1..] == [];
    assert Admissible(s2, [z]);
    assert Admissible(s1, [y, z]);
    assert Run(s2, [z]) == (s3.(learned := 1), [Ready(i)] + none);
    assert Run(s1, [y, z]) == (s3.(learned := 1), none + ([Ready(i)] + none));
    assert [Ready(i)] + none == [Ready(i)] && none + ([Ready(i)] + none) == [Ready(i)];
  }

  // ---------------------------------------------------------------------------
  // The thread

  /** The thread's global variables and its message handler. */
  class Worker {
    var id: int
    var learned: int
    var trainPatientData: Option<seq<Patient>>
    var k: int

    /** The globals as a value. */
    function Globals(): State
      reads this
    {
      State(id, learned, trainPatientData, k)
    }

    ghost predicate Valid()
      reads this
    {
      Consistent(Globals())
    }

    /** The script is loaded: id and k are -1, no training rows, nothing learned. */
    constructor ()
      ensures Valid() && Globals() == Initial
    {
      id := -1;
      learned := 0;
      trainPatientData := None;
      k := -1;
    }

    /**
     * diagnose: classify the patient with the held training rows and k, and
     * post the result; a TypeError (no training rows) is caught and nothing
     * is posted.
     */
    method Diagnose(testPatientData: Patient, patientID: int) returns (posted: seq<Posted>)
      requires trainPatientData.Some? ==> Conforms(testPatientData, trainPatientData.value)
      ensures posted == DiagnosisOf(Globals(), testPatientData, patientID)
      ensures |posted| == (if trainPatientData.Some? then 1 else 0)
      ensures |posted| == 1 ==> posted[0].id == id && posted[0].correct == testPatientData.status
                                && posted[0].pid == patientID
    {
      if trainPatientData.None? {
        posted := [];
        return;
      }
      var train := trainPatientData.value;
      var kNeighbors := FindLowestDelta(testPatientData, train, k);
      var realAnswer := testPatientData.status;
      var guessedAnswer := VotePatients(kNeighbors, train);
      posted := [Diagnosis(guessedAnswer, id, realAnswer, patientID)];
    }

    /** onmessage: handle one message and give the messages it posts. */
    method HandleMessage(msg: Message) returns (posted: seq<Posted>)
      requires Valid() && Admits(Globals(), msg)
      modifies this
      ensures Valid()
      ensures (Globals(), posted) == Handle(old(Globals()), msg)
    {
      HandleStep(Globals(), msg);
      posted := [];
      match msg {
        case IdMsg(c) => id := c;
        case TrainMsg(c) => trainPatientData := c;
        case KMsg(c) => k := c;
        case PatientMsg(patient, pid) =>
          posted := Diagnose(patient, pid);
        case OtherMsg =>
      }
      if learned == 0 && id != -1 && trainPatientData.Some? && k != -1 {
        posted := posted + [Ready(id)];
        learned := 1;
      }
    }
  }
}
