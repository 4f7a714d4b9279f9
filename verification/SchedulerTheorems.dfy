/** What holds of every state of every run of a download. */
module SchedulerTheorems {
  import opened Bytes
  import opened Segments
  import opened Histories
  import opened CompleteResources
  import opened Scheduler
  import opened SchedulerInvariants

  /** What a download that the poll found completed, or that is stored, is worth. */
  ghost predicate ServiceRight(file: seq<Byte>, s: State) {
    match s.service
    case Storing(d) => d <= s.dups && |s.table.Missing()| <= d % UINT16_LIMIT
    case Stored(d, bytes) => d <= s.dups && (d % UINT16_LIMIT == 0 ==> bytes == file)
    case _ => true
  }

  ghost predicate Kept(file: seq<Byte>, s: State) {
    && Shape(file, s)
    && Counted(s)
    && DataRight(file, s)
    && BusyHeld(s)
    && ServiceRight(file, s)
  }

  lemma InitKept(file: seq<Byte>, s: State)
    requires |file| <= MAX_FILE_SIZE && Init(file, s)
    ensures Kept(file, s)
  {
    InitShape(file, s);
    assert s.table.Done() == {};
  }

  /** When nothing is missing the truncating write gives back the file. */
  lemma AllDoneIsFile(file: seq<Byte>, s: State)
    requires |file| <= MAX_FILE_SIZE && Shape(file, s) && DataRight(file, s) && s.table.Missing() == {}
    ensures |file| <= |s.table.data| && s.table.data[..|file|] == file
  {
    CountBounds(|file|);
    var data := s.table.data;
    forall p: nat | p < |file| ensures data[p] == file[p] {
      var id := p / SEGMENT_SIZE;
      assert id !in s.table.Missing();
      assert Agrees(data, Padded(file), id * SEGMENT_SIZE, (id + 1) * SEGMENT_SIZE);
    }
  }

  lemma MissingEqualsDups(file: seq<Byte>, s: State)
    requires Shape(file, s) && Counted(s)
    ensures s.table.IsCompleted() <==> |s.table.Missing()| == s.dups % UINT16_LIMIT
  {
    DoneAndMissing(s.table, SegmentsCount(|file|));
  }

  lemma ServiceRightKept(file: seq<Byte>, s: State, step: Step)
    requires |file| <= MAX_FILE_SIZE && Kept(file, s) && Enabled(file, s, step)
    ensures ServiceRight(file, Apply(file, s, step))
  {
    var s' := Apply(file, s, step);
    DoneGrows(file, s, step);
    if step.PollCompleted? {
      MissingEqualsDups(file, s);
    } else if step.Store? {
      if s.service.dupsAtPoll % UINT16_LIMIT == 0 { AllDoneIsFile(file, s); }
    } else if s.service.Storing? {
      assert forall id: nat | id in s'.table.Missing() :: id !in s'.table.Done();
      assert s'.table.Missing() <= s.table.Missing();
      SubsetSize(s'.table.Missing(), s.table.Missing());
    }
  }

  lemma StepKept(file: seq<Byte>, s: State, step: Step)
    requires |file| <= MAX_FILE_SIZE && Kept(file, s) && Enabled(file, s, step)
    ensures Kept(file, Apply(file, s, step))
  {
    ShapeKept(file, s, step);
    CountedKept(file, s, step);
    DataRightKept(file, s, step);
    BusyHeldKept(file, s, step);
    ServiceRightKept(file, s, step);
  }

  lemma {:induction false} RunKept(file: seq<Byte>, trace: seq<State>, steps: seq<Step>, i: nat)
    requires |file| <= MAX_FILE_SIZE && Run(file, trace, steps) && i < |trace|
    ensures Kept(file, trace[i])
  {
    if i == 0 {
      InitKept(file, trace[0]);
    } else {
      RunKept(file, trace, steps, i - 1);
      assert StepOf(file, trace[i - 1], steps[i - 1], trace[i]);
      StepKept(file, trace[i - 1], steps[i - 1]);
    }
  }

  // ----- Completion -----

  /** `is_completed` holds exactly when as many segments are missing as were completed twice,
      counted modulo 2^16; so without duplicates it holds exactly when every segment is there. */
  lemma CompletedIff(file: seq<Byte>, trace: seq<State>, steps: seq<Step>, i: nat)
    requires |file| <= MAX_FILE_SIZE && Run(file, trace, steps) && i < |trace|
    ensures trace[i].table.IsCompleted() <==> |trace[i].table.Missing()| == trace[i].dups % UINT16_LIMIT
    ensures trace[i].dups == 0 ==> (trace[i].table.IsCompleted() <==> trace[i].table.Missing() == {})
    ensures trace[i].table.IsCompleted() ==> (trace[i].table.Missing() == {} <==> trace[i].dups % UINT16_LIMIT == 0)
  {
    RunKept(file, trace, steps, i);
    MissingEqualsDups(file, trace[i]);
  }

  /** Completed segments stay completed for the rest of the run, and duplicates only accumulate. */
  lemma {:induction false} CompletedForGood(file: seq<Byte>, trace: seq<State>, steps: seq<Step>, i: nat, j: nat)
    requires Run(file, trace, steps) && i <= j < |trace|
    ensures trace[i].table.Done() <= trace[j].table.Done()
    ensures trace[i].dups <= trace[j].dups
  {
    if i == j {
    } else {
      CompletedForGood(file, trace, steps, i, j - 1);
      assert StepOf(file, trace[j - 1], steps[j - 1], trace[j]);
      DoneGrows(file, trace[j - 1], steps[j - 1]);
    }
  }

  /** Once a segment is completed its slot holds the source for the rest of the run, whatever is
      released, downloaded again or cut off half-way. */
  lemma CompletedSlotIsSource(file: seq<Byte>, trace: seq<State>, steps: seq<Step>, i: nat, j: nat, id: nat)
    requires |file| <= MAX_FILE_SIZE && Run(file, trace, steps) && i <= j < |trace|
    requires id in trace[i].table.Done()
    ensures id < SegmentsCount(|file|) && (id + 1) * SEGMENT_SIZE <= |trace[j].table.data|
    ensures trace[j].table.data[id * SEGMENT_SIZE..(id + 1) * SEGMENT_SIZE] == Slice(file, id)
  {
    CompletedForGood(file, trace, steps, i, j);
    RunKept(file, trace, steps, j);
    assert id in trace[j].table.Done();
    assert Agrees(trace[j].table.data, Padded(file), id * SEGMENT_SIZE, (id + 1) * SEGMENT_SIZE);
  }

  /** A completed segment is never handed out again. */
  lemma CompletedNeverGranted(file: seq<Byte>, trace: seq<State>, steps: seq<Step>, i: nat, j: nat, id: nat, w: nat)
    requires Run(file, trace, steps) && i <= j < |steps|
    requires id in trace[i].table.Done()
    ensures steps[j] != Scan(w, id)
  {
    CompletedForGood(file, trace, steps, i, j);
    assert StepOf(file, trace[j], steps[j], trace[j + 1]);
  }

  /** A stored download is the source file, byte for byte, when no segment had been completed twice. */
  lemma StoredIsSource(file: seq<Byte>, trace: seq<State>, steps: seq<Step>, i: nat)
    requires |file| <= MAX_FILE_SIZE && Run(file, trace, steps) && i < |trace|
    requires trace[i].service.Stored? && trace[i].service.dupsAtPoll % UINT16_LIMIT == 0
    ensures trace[i].service.bytes == file
  {
    RunKept(file, trace, steps, i);
  }

  // ----- Waking -----

  /** Exactly when a wakeup is lost: some worker is told "completed" while another sleeps and every worker
      on its way to a scan is needed for a free segment. */
  lemma StrandedIff(file: seq<Byte>, trace: seq<State>, steps: seq<Step>, n: nat)
    requires Run(file, trace, steps) && n < |trace|
    ensures (exists i: nat :: i <= n && Stranded(trace[i])) <==> (exists k: nat :: k < n && Strands(trace[k], steps[k]))
  {
    var holds := (i: nat) => i < |trace| && Stranded(trace[i]);
    var causes := (k: nat) => k < |steps| && Strands(trace[k], steps[k]);
    assert Sleepers(trace[0].workers) == {};
    forall k: nat | k < n && !holds(k) ensures holds(k + 1) <==> causes(k) {
      assert StepOf(file, trace[k], steps[k], trace[k + 1]);
      StrandedNext(file, trace[k], steps[k]);
    }
    FirstTime(holds, causes, n);
    if i: nat :| i <= n && Stranded(trace[i]) { assert holds(i); }
    if k: nat :| k < n && Strands(trace[k], steps[k]) { assert causes(k); }
  }

  /** No lost wakeup otherwise: while a worker sleeps, every free segment has a worker of its own that is
      awake in get_segment and will scan the table. */
  lemma FreeSegmentsHaveScanners(file: seq<Byte>, trace: seq<State>, steps: seq<Step>, i: nat)
    requires |file| <= MAX_FILE_SIZE && Run(file, trace, steps) && i < |trace|
    requires forall j: nat | j < i :: !Strands(trace[j], steps[j])
    ensures |trace[i].table.busy| == |trace[i].table.completed| && NoneStranded(trace[i])
  {
    RunKept(file, trace, steps, i);
    StrandedIff(file, trace, steps, i);
  }

  /** No false answer is ever given before a repeated completion, or before `is_completed` first holds. */
  lemma AnswersTrue(file: seq<Byte>, trace: seq<State>, steps: seq<Step>, i: nat)
    requires |file| <= MAX_FILE_SIZE && Run(file, trace, steps) && i < |trace|
    requires trace[i].dups == 0 || forall j: nat | j < i :: !trace[j].table.IsCompleted()
    ensures forall j: nat | j < i :: !FalseAnswer(trace[j], steps[j])
  {
    if trace[i].dups == 0 {
      forall j: nat | j < i ensures !FalseAnswer(trace[j], steps[j]) {
        CompletedForGood(file, trace, steps, j, i);
        RunKept(file, trace, steps, j);
        if trace[j].table.IsCompleted() { CompletedMeansAllDone(file, trace[j]); }
      }
    }
  }

  /** A step by which worker `w` gets on with the download on its own. */
  predicate OwnStep(step: Step, w: nat) {
    match step
    case CheckCompleted(v) => v == w
    case Scan(v, _) => v == w
    case ScanAndSleep(v) => v == w
    case RecordOwned(v) => v == w
    case ReceiveBytes(v, n) => v == w && n > 0
    case FinishReceive(v) => v == w
    case SetSegment(v) => v == w
    case ReleaseFailed(v, _) => v == w
    case _ => false
  }

  ghost predicate CanAct(file: seq<Byte>, s: State, w: nat)
    requires Shape(file, s)
  {
    exists step :: OwnStep(step, w) && Enabled(file, s, step)
  }

  lemma {:induction false} FirstFree(t: Table, id: nat) returns (first: nat)
    requires |t.busy| == |t.completed| && t.Downloadable(id)
    ensures IsFirstFree(t, first)
    decreases id
  {
    if j: nat :| j < id && t.Downloadable(j) {
      first := FirstFree(t, j);
    } else {
      first := id;
    }
  }

  lemma AwakeCanAct(file: seq<Byte>, s: State, w: nat)
    requires Shape(file, s) && w < |s.workers|
    requires Pending(s.workers[w].phase) || Holding(s.workers[w].phase)
    ensures CanAct(file, s, w)
  {
    var step: Step;
    match s.workers[w].phase {
    case AtCheck => step := CheckCompleted(w);
    case AtScan =>
      if s.table.Free() == {} {
        step := ScanAndSleep(w);
      } else {
        var id: nat :| id in s.table.Free();
        var first := FirstFree(s.table, id);
        step := Scan(w, first);
      }
    case Granted(_) => step := RecordOwned(w);
    case Receiving(_, got) => step := if got == SEGMENT_SIZE then FinishReceive(w) else ReceiveBytes(w, 1);
    case Received(_) => step := Step.SetSegment(w);
    case Failing(_) =>
      var wake: nat :| Sleepers(s.workers) != {} ==> wake in Sleepers(s.workers);
      step := ReleaseFailed(w, wake);
    }
    assert OwnStep(step, w) && Enabled(file, s, step);
  }

  /** While a worker sleeps and something is missing, another worker can go on, unless a wakeup was lost. */
  lemma SleepersAreNotAlone(file: seq<Byte>, trace: seq<State>, steps: seq<Step>, i: nat)
    requires |file| <= MAX_FILE_SIZE && Run(file, trace, steps) && i < |trace|
    requires forall j: nat | j < i :: !Strands(trace[j], steps[j])
    requires Sleepers(trace[i].workers) != {} && trace[i].table.Missing() != {}
    ensures Shape(file, trace[i])
    ensures exists w: nat :: w < |trace[i].workers| && !trace[i].workers[w].phase.Asleep? && CanAct(file, trace[i], w)
  {
    RunKept(file, trace, steps, i);
    FreeSegmentsHaveScanners(file, trace, steps, i);
    var s := trace[i];
    var id: nat :| id in s.table.Missing();
    if s.table.busy[id] {
      var w: nat :| w < |s.workers| && Holds(s.workers[w], id);
      AwakeCanAct(file, s, w);
    } else {
      assert id in s.table.Free();
      assert PendingWorkers(s.workers) != {};
      var w: nat :| w in PendingWorkers(s.workers);
      AwakeCanAct(file, s, w);
    }
  }

  /** Neither asleep nor ended. */
  predicate Active(w: Worker) { !w.phase.Asleep? && !w.phase.Ended? }

  /** Something is missing, some worker sleeps, and no other is left to wake it. */
  ghost predicate Deadlocked(s: State) {
    && |s.table.busy| == |s.table.completed| && s.table.Missing() != {} && Sleepers(s.workers) != {}
    && forall w: nat | w < |s.workers| :: !Active(s.workers[w])
  }

  /** Worker `w` ends in this step without waking anybody. */
  predicate EndsQuietly(s: State, step: Step, w: nat) {
    || step == ConnectFails(w)
    || (step == CheckCompleted(w) && s.table.IsCompleted())
    || (step == EnterLoop(w) && w < |s.workers| && s.workers[w].closed)
  }

  /** The last active worker ends while another sleeps and something is missing. */
  ghost predicate EndsLast(s: State, step: Step) {
    && |s.table.busy| == |s.table.completed| && s.table.Missing() != {} && Sleepers(s.workers) != {}
    && exists w: nat :: w < |s.workers| && EndsQuietly(s, step, w)
                        && forall v: nat | v < |s.workers| && v != w :: !Active(s.workers[v])
  }

  /** How a worker stops being active. */
  lemma ActiveAfter(file: seq<Byte>, s: State, step: Step, v: nat)
    requires Shape(file, s) && Enabled(file, s, step) && v < |s.workers| == |Apply(file, s, step).workers|
    requires Active(s.workers[v]) && !Active(Apply(file, s, step).workers[v])
    ensures EndsQuietly(s, step, v) || step == ScanAndSleep(v) || (step.ReleaseFailed? && step.w == v)
  {
  }

  lemma InactiveAfter(file: seq<Byte>, s: State, step: Step, v: nat)
    requires Shape(file, s) && Enabled(file, s, step) && v < |s.workers| == |Apply(file, s, step).workers|
    requires !Active(s.workers[v]) && !Active(Apply(file, s, step).workers[v])
    ensures Apply(file, s, step).workers[v].phase == s.workers[v].phase
  {
  }

  /** A step that ends one worker quietly leaves the others and the table alone. */
  lemma QuietEnd(file: seq<Byte>, s: State, step: Step, w: nat)
    requires Shape(file, s) && Enabled(file, s, step) && EndsQuietly(s, step, w)
    ensures var s' := Apply(file, s, step);
            && s'.table == s.table && |s'.workers| == |s.workers| && w < |s.workers| && s'.workers[w].phase.Ended?
            && forall v: nat | v < |s.workers| && v != w :: s'.workers[v] == s.workers[v]
  {
  }

  lemma MissingShrinks(file: seq<Byte>, s: State, step: Step)
    requires Shape(file, s) && Enabled(file, s, step)
    ensures Apply(file, s, step).table.Valid(SegmentsCount(|file|))
    ensures Apply(file, s, step).table.Missing() <= s.table.Missing()
  {
    TableAfter(file, s, step);
    DoneGrows(file, s, step);
    var t, t' := s.table, Apply(file, s, step).table;
    forall id: nat | id in t'.Missing() ensures id in t.Missing() {
      assert id !in t'.Done();
    }
  }

  lemma EndsLastDeadlocks(file: seq<Byte>, s: State, step: Step)
    requires Shape(file, s) && Enabled(file, s, step) && EndsLast(s, step)
    ensures Deadlocked(Apply(file, s, step))
  {
    var s' := Apply(file, s, step);
    var w: nat :| w < |s.workers| && EndsQuietly(s, step, w)
                  && forall v: nat | v < |s.workers| && v != w :: !Active(s.workers[v]);
    QuietEnd(file, s, step, w);
    var u: nat :| u in Sleepers(s.workers);
    assert u in Sleepers(s'.workers);
  }

  /** Who goes to sleep while something is missing leaves a holder behind. */
  lemma SleepLeavesHolder(file: seq<Byte>, s: State, w: nat)
    requires Shape(file, s) && Enabled(file, s, ScanAndSleep(w)) && BusyHeld(s) && s.table.Missing() != {}
    ensures var s' := Apply(file, s, ScanAndSleep(w)); exists x: nat :: x < |s'.workers| && Active(s'.workers[x])
  {
    var s' := Apply(file, s, ScanAndSleep(w));
    var id: nat :| id in s.table.Missing();
    assert id !in s.table.Free();
    var x: nat :| x < |s.workers| && Holds(s.workers[x], id);
    assert Active(s'.workers[x]);
  }

  /** Who gives its segment back while somebody sleeps wakes a sleeper. */
  lemma ReleaseWakes(file: seq<Byte>, s: State, step: Step)
    requires Shape(file, s) && Enabled(file, s, step) && step.ReleaseFailed? && Sleepers(s.workers) != {}
    ensures var s' := Apply(file, s, step); exists x: nat :: x < |s'.workers| && Active(s'.workers[x])
  {
    assert Active(Apply(file, s, step).workers[step.wake]);
  }

  /** Nobody falls asleep except by a scan that finds nothing. */
  lemma StillAsleep(file: seq<Byte>, s: State, step: Step)
    requires Shape(file, s) && Enabled(file, s, step) && !step.ScanAndSleep?
    ensures Sleepers(Apply(file, s, step).workers) <= Sleepers(s.workers)
  {
    WorkerCount(file, s, step);
    var s' := Apply(file, s, step);
    forall u: nat | u in Sleepers(s'.workers) ensures u in Sleepers(s.workers) {
      if Active(s.workers[u]) {
        ActiveAfter(file, s, step, u);
      } else {
        InactiveAfter(file, s, step, u);
      }
    }
  }

  /** So who stops being active last ends quietly. */
  lemma LastActive(file: seq<Byte>, s: State, step: Step, w: nat)
    requires Shape(file, s) && Enabled(file, s, step) && BusyHeld(s) && w < |s.workers| && Active(s.workers[w])
    requires Deadlocked(Apply(file, s, step))
    ensures EndsQuietly(s, step, w)
  {
    var s' := Apply(file, s, step);
    WorkerCount(file, s, step);
    MissingShrinks(file, s, step);
    ActiveAfter(file, s, step, w);
    if step == ScanAndSleep(w) {
      SleepLeavesHolder(file, s, w);
    } else if step.ReleaseFailed? && step.w == w {
      StillAsleep(file, s, step);
      ReleaseWakes(file, s, step);
    }
  }

  /** Only one worker ends in a step. */
  lemma OnlyOneEnds(s: State, step: Step)
    requires |s.table.busy| == |s.table.completed| && s.table.Missing() != {} && Sleepers(s.workers) != {}
    requires !Deadlocked(s)
    requires forall v: nat | v < |s.workers| && Active(s.workers[v]) :: EndsQuietly(s, step, v)
    ensures EndsLast(s, step)
  {
    var w: nat :| w < |s.workers| && Active(s.workers[w]);
    forall v: nat | v < |s.workers| && v != w ensures !Active(s.workers[v]) {
      assert EndsQuietly(s, step, w);
    }
  }

  lemma DeadlockedBy(file: seq<Byte>, s: State, step: Step)
    requires Shape(file, s) && Enabled(file, s, step) && BusyHeld(s) && !Deadlocked(s)
    requires Deadlocked(Apply(file, s, step))
    ensures EndsLast(s, step)
  {
    var s' := Apply(file, s, step);
    WorkerCount(file, s, step);
    MissingShrinks(file, s, step);
    forall v: nat | v < |s.workers| && Active(s.workers[v]) ensures EndsQuietly(s, step, v) {
      LastActive(file, s, step, v);
    }
    if step.ScanAndSleep? {
      SleepLeavesHolder(file, s, step.w);
    } else {
      StillAsleep(file, s, step);
      OnlyOneEnds(s, step);
    }
  }

  lemma DeadlockNext(file: seq<Byte>, s: State, step: Step)
    requires Shape(file, s) && Enabled(file, s, step) && BusyHeld(s) && !Deadlocked(s)
    ensures Deadlocked(Apply(file, s, step)) <==> EndsLast(s, step)
  {
    if EndsLast(s, step) { EndsLastDeadlocks(file, s, step); }
    if Deadlocked(Apply(file, s, step)) { DeadlockedBy(file, s, step); }
  }

  /** Exactly when a download deadlocks: the last active worker ends, by a failed connection, an answer
      "completed" or being closed, while another sleeps and something is missing. */
  lemma DeadlockIff(file: seq<Byte>, trace: seq<State>, steps: seq<Step>, n: nat)
    requires |file| <= MAX_FILE_SIZE && Run(file, trace, steps) && n < |trace|
    ensures (exists i: nat :: i <= n && Deadlocked(trace[i]))
            <==> (exists k: nat :: k < n && EndsLast(trace[k], steps[k]))
  {
    var holds := (i: nat) => i < |trace| && Deadlocked(trace[i]);
    var causes := (k: nat) => k < |steps| && EndsLast(trace[k], steps[k]);
    assert Sleepers(trace[0].workers) == {};
    forall k: nat | k < n && !holds(k) ensures holds(k + 1) <==> causes(k) {
      assert StepOf(file, trace[k], steps[k], trace[k + 1]);
      RunKept(file, trace, steps, k);
      DeadlockNext(file, trace[k], steps[k]);
    }
    FirstTime(holds, causes, n);
    if i: nat :| i <= n && Deadlocked(trace[i]) { assert holds(i); }
    if k: nat :| k < n && EndsLast(trace[k], steps[k]) { assert causes(k); }
  }

  // ----- Sleeping through completion -----

  predicate ScansAt(s: State, w: nat) { w < |s.workers| && s.workers[w].phase.AtScan? }

  predicate SleepsAt(s: State, w: nat) { w < |s.workers| && s.workers[w].phase.Asleep? }

  /** At step `j` worker `w` tests for completion, finds it false, and stays at the scan up to state `i`. */
  ghost predicate TestedSince(trace: seq<State>, steps: seq<Step>, w: nat, j: nat, i: nat)
    requires i < |trace| == |steps| + 1
  {
    && j < i && steps[j] == CheckCompleted(w) && !trace[j].table.IsCompleted()
    && forall m: nat | j < m <= i :: ScansAt(trace[m], w)
  }

  /** Falls asleep at step `k` and stays asleep up to state `i`. */
  ghost predicate AsleepSince(trace: seq<State>, steps: seq<Step>, w: nat, k: nat, i: nat)
    requires i < |trace| == |steps| + 1
  {
    && k < i && steps[k] == ScanAndSleep(w)
    && forall m: nat | k < m <= i :: SleepsAt(trace[m], w)
  }

  lemma {:induction false} ScannerTested(file: seq<Byte>, trace: seq<State>, steps: seq<Step>, i: nat, w: nat)
    requires Run(file, trace, steps) && i < |trace| && ScansAt(trace[i], w)
    ensures exists j: nat :: TestedSince(trace, steps, w, j, i)
  {
    if i == 0 { // every worker is still connecting
    } else {
      assert StepOf(file, trace[i - 1], steps[i - 1], trace[i]);
      WorkerCount(file, trace[i - 1], steps[i - 1]);
      if ScansAt(trace[i - 1], w) {
        ScannerTested(file, trace, steps, i - 1, w);
        var j: nat :| TestedSince(trace, steps, w, j, i - 1);
        assert TestedSince(trace, steps, w, j, i);
      } else {
        assert TestedSince(trace, steps, w, i - 1, i);
      }
    }
  }

  lemma CompletesBySet(file: seq<Byte>, s: State, step: Step)
    requires Shape(file, s) && Enabled(file, s, step)
    requires !s.table.IsCompleted() && Apply(file, s, step).table.IsCompleted()
    ensures step.SetSegment?
  {
    if !step.SetSegment? { TableAfter(file, s, step); }
  }

  /** Only `set_segment` can make the download completed. */
  lemma {:induction false} CompletedBySet(file: seq<Byte>, trace: seq<State>, steps: seq<Step>, j: nat, k: nat)
    requires Run(file, trace, steps) && j <= k < |trace|
    requires !trace[j].table.IsCompleted() && trace[k].table.IsCompleted()
    ensures exists m: nat :: j <= m < k && steps[m].SetSegment? && trace[m + 1].table.IsCompleted()
  {
    assert j < k;
    if trace[k - 1].table.IsCompleted() {
      CompletedBySet(file, trace, steps, j, k - 1);
    } else {
      assert StepOf(file, trace[k - 1], steps[k - 1], trace[k]);
      CompletesBySet(file, trace[k - 1], steps[k - 1]);
    }
  }

  /** Who is asleep although completed was so before the step, unless the step is the wait itself. */
  lemma SleeperBefore(file: seq<Byte>, s: State, step: Step, w: nat)
    requires Shape(file, s) && Enabled(file, s, step) && step != ScanAndSleep(w)
    requires SleepsAt(Apply(file, s, step), w) && Apply(file, s, step).table.IsCompleted()
    ensures SleepsAt(s, w) && s.table.IsCompleted()
  {
    WorkerCount(file, s, step);
    if !step.SetSegment? { TableAfter(file, s, step); }
  }

  lemma {:induction false} SleeperFellAsleep(file: seq<Byte>, trace: seq<State>, steps: seq<Step>, i: nat, w: nat)
    requires Run(file, trace, steps) && i < |trace| && SleepsAt(trace[i], w) && trace[i].table.IsCompleted()
    ensures exists k: nat :: AsleepSince(trace, steps, w, k, i) && trace[k].table.IsCompleted()
  {
    if i == 0 { // every worker is still connecting
    } else {
      var s, step := trace[i - 1], steps[i - 1];
      assert StepOf(file, s, step, trace[i]);
      WorkerCount(file, s, step);
      if step == ScanAndSleep(w) {
        assert AsleepSince(trace, steps, w, i - 1, i);
      } else {
        SleeperBefore(file, s, step, w);
        SleeperFellAsleep(file, trace, steps, i - 1, w);
        var k: nat :| AsleepSince(trace, steps, w, k, i - 1) && trace[k].table.IsCompleted();
        assert AsleepSince(trace, steps, w, k, i);
      }
    }
  }

  /** How a worker comes to be asleep after completion: the test that led to this very sleep, at `j`, came
      before a `set_segment`, at `m`, that completed the download, and the wait, at `k`, came after it. */
  lemma LateSleeper(file: seq<Byte>, trace: seq<State>, steps: seq<Step>, i: nat, w: nat)
    requires Run(file, trace, steps) && i < |trace| && SleepsAt(trace[i], w) && trace[i].table.IsCompleted()
    ensures exists j: nat, m: nat, k: nat ::
              && j <= m < k < i
              && TestedSince(trace, steps, w, j, k) && AsleepSince(trace, steps, w, k, i)
              && steps[m].SetSegment? && trace[m + 1].table.IsCompleted() && trace[k].table.IsCompleted()
  {
    SleeperFellAsleep(file, trace, steps, i, w);
    var k: nat :| AsleepSince(trace, steps, w, k, i) && trace[k].table.IsCompleted();
    assert StepOf(file, trace[k], steps[k], trace[k + 1]);
    ScannerTested(file, trace, steps, k, w);
    var j: nat :| TestedSince(trace, steps, w, j, k);
    CompletedBySet(file, trace, steps, j, k);
  }

  /** Workers are woken at completion, and none sleeps past it, exactly when none starts to wait after it:
      the test that is missing is the one between the scan and the wait. */
  lemma SleepsThroughIff(file: seq<Byte>, trace: seq<State>, steps: seq<Step>, n: nat, w: nat)
    requires Run(file, trace, steps) && n < |trace|
    ensures (exists i: nat :: i <= n && SleepsAt(trace[i], w) && trace[i].table.IsCompleted())
            <==> (exists k: nat :: k < n && steps[k] == ScanAndSleep(w) && trace[k].table.IsCompleted())
  {
    if i: nat :| i <= n && SleepsAt(trace[i], w) && trace[i].table.IsCompleted() {
      SleeperFellAsleep(file, trace, steps, i, w);
    }
    if k: nat :| k < n && steps[k] == ScanAndSleep(w) && trace[k].table.IsCompleted() {
      assert StepOf(file, trace[k], steps[k], trace[k + 1]);
      assert SleepsAt(trace[k + 1], w) && trace[k + 1].table.IsCompleted();
    }
  }

  // ----- Exclusion -----

  lemma {:induction false} NoReleaseExclusive(file: seq<Byte>, trace: seq<State>, steps: seq<Step>, i: nat)
    requires |file| <= MAX_FILE_SIZE && Run(file, trace, steps) && i < |trace|
    requires forall j: nat | j < i :: !InFlightRelease(trace[j], steps[j])
    ensures Exclusive(trace[i]) && trace[i].dups == 0
  {
    if i == 0 {
      forall id: nat ensures !Held(trace[0].workers, id) {}
    } else {
      NoReleaseExclusive(file, trace, steps, i - 1);
      assert StepOf(file, trace[i - 1], steps[i - 1], trace[i]);
      ExclusiveKept(file, trace[i - 1], steps[i - 1]);
    }
  }

  /** Each segment in flight has one owner throughout a run exactly when no step of the run
      releases a segment that another worker is still downloading. */
  lemma ExclusiveIffNoInFlightRelease(file: seq<Byte>, trace: seq<State>, steps: seq<Step>)
    requires |file| <= MAX_FILE_SIZE && Run(file, trace, steps)
    ensures (forall i: nat | i < |trace| :: Exclusive(trace[i]))
            <==> (forall i: nat | i < |steps| :: !InFlightRelease(trace[i], steps[i]))
  {
    if forall i: nat | i < |steps| :: !InFlightRelease(trace[i], steps[i]) {
      forall i: nat | i < |trace| ensures Exclusive(trace[i]) {
        NoReleaseExclusive(file, trace, steps, i);
      }
    } else {
      var i: nat :| i < |steps| && InFlightRelease(trace[i], steps[i]);
      assert StepOf(file, trace[i], steps[i], trace[i + 1]);
      InFlightReleaseBreaks(file, trace[i], steps[i]);
    }
  }

  /** Two workers of an exclusive state write to disjoint slots inside the buffer. */
  lemma SlotsDisjoint(file: seq<Byte>, s: State, v: nat, w: nat)
    requires Shape(file, s) && Exclusive(s) && v < |s.workers| && w < |s.workers| && v != w
    requires Holding(s.workers[v].phase) && Holding(s.workers[w].phase)
    ensures var a, b := s.workers[v].phase.id * SEGMENT_SIZE, s.workers[w].phase.id * SEGMENT_SIZE;
            && a + SEGMENT_SIZE <= |s.table.data| && b + SEGMENT_SIZE <= |s.table.data|
            && (a + SEGMENT_SIZE <= b || b + SEGMENT_SIZE <= a)
  {
    assert !Holds(s.workers[w], s.workers[v].phase.id);
  }

  /** The whole download: when no segment is released in flight, whatever is stored is the source. */
  lemma DownloadIsFaithful(file: seq<Byte>, trace: seq<State>, steps: seq<Step>, i: nat)
    requires |file| <= MAX_FILE_SIZE && Run(file, trace, steps) && i < |trace|
    requires forall j: nat | j < i :: !InFlightRelease(trace[j], steps[j])
    ensures trace[i].service.Stored? ==> trace[i].service.bytes == file
    ensures trace[i].table.IsCompleted() <==> trace[i].table.Missing() == {}
  {
    RunKept(file, trace, steps, i);
    NoReleaseExclusive(file, trace, steps, i);
    CompletedIff(file, trace, steps, i);
  }

  // ----- Closing -----

  /** Done with `get_segment` for good, once the worker is closed. */
  predicate Winding(p: Phase) { Holding(p) || p.LoopHead? || p.Ended? }

  lemma WindingKept(file: seq<Byte>, s: State, step: Step, w: nat)
    requires Shape(file, s) && Enabled(file, s, step) && w < |s.workers| == |Apply(file, s, step).workers|
    ensures s.workers[w].closed ==> Apply(file, s, step).workers[w].closed
    ensures s.workers[w].closed && Winding(s.workers[w].phase) ==> Winding(Apply(file, s, step).workers[w].phase)
  {
  }

  lemma {:induction false} ClosedStays(file: seq<Byte>, trace: seq<State>, steps: seq<Step>, i: nat, j: nat, w: nat)
    requires Run(file, trace, steps) && i <= j < |trace| && w < |trace[i].workers| && trace[i].workers[w].closed
    ensures |trace[j].workers| == |trace[i].workers| && trace[j].workers[w].closed
    ensures Winding(trace[i].workers[w].phase) ==> Winding(trace[j].workers[w].phase)
  {
    if i == j {
    } else {
      ClosedStays(file, trace, steps, i, j - 1, w);
      assert StepOf(file, trace[j - 1], steps[j - 1], trace[j]);
      WorkerCount(file, trace[j - 1], steps[j - 1]);
      WindingKept(file, trace[j - 1], steps[j - 1], w);
    }
  }

  /** A closed worker breaks its loop: wherever closing finds it, asleep included, it takes at most one
      more segment. */
  lemma ClosedTakesAtMostOne(file: seq<Byte>, trace: seq<State>, steps: seq<Step>, i: nat, a: nat, b: nat, w: nat)
    requires Run(file, trace, steps) && i <= a < b < |steps| && w < |trace[i].workers| && trace[i].workers[w].closed
    requires steps[a].Scan? && steps[a].w == w
    ensures !(steps[b].Scan? && steps[b].w == w)
  {
    ClosedStays(file, trace, steps, i, a, w);
    assert StepOf(file, trace[a], steps[a], trace[a + 1]);
    assert Holding(trace[a + 1].workers[w].phase);
    ClosedStays(file, trace, steps, a + 1, b, w);
    assert StepOf(file, trace[b], steps[b], trace[b + 1]);
  }

  lemma OwnedAfter(file: seq<Byte>, s: State, step: Step, w: nat)
    requires Shape(file, s) && Enabled(file, s, step) && w < |s.workers| == |Apply(file, s, step).workers|
    ensures if step == RecordOwned(w) then Apply(file, s, step).workers[w].owned < SegmentsCount(|file|)
            else Apply(file, s, step).workers[w].owned == s.workers[w].owned
  {
    if step == RecordOwned(w) { WorkerShapeKept(file, s, step, w); }
  }

  lemma OwnedNext(file: seq<Byte>, trace: seq<State>, steps: seq<Step>, i: nat, w: nat)
    requires Run(file, trace, steps) && i < |steps| && w < |trace[i + 1].workers|
    ensures w < |trace[i].workers|
    ensures if steps[i] == RecordOwned(w) then trace[i + 1].workers[w].owned < SegmentsCount(|file|)
            else trace[i + 1].workers[w].owned == trace[i].workers[w].owned
  {
    assert StepOf(file, trace[i], steps[i], trace[i + 1]);
    WorkerCount(file, trace[i], steps[i]);
    OwnedAfter(file, trace[i], steps[i], w);
  }

  /** `owned_segment_id` is a real id exactly once the worker has recorded one; only then does the
      timeout check name a segment of the table. */
  lemma {:induction false} OwnedOnceRecorded(file: seq<Byte>, trace: seq<State>, steps: seq<Step>, i: nat, w: nat)
    requires |file| <= MAX_FILE_SIZE && Run(file, trace, steps) && i < |trace| && w < |trace[i].workers|
    ensures trace[i].workers[w].owned < SegmentsCount(|file|) <==> exists j: nat :: j < i && steps[j] == RecordOwned(w)
  {
    if i == 0 {
      CountBounds(|file|);
    } else {
      OwnedNext(file, trace, steps, i - 1, w);
      OwnedOnceRecorded(file, trace, steps, i - 1, w);
    }
  }

  /** The id the timeout check reads from worker `k` can be released exactly if the worker has recorded
      one before; otherwise the release is outside the table. */
  lemma ReleaseDefinedIff(file: seq<Byte>, trace: seq<State>, steps: seq<Step>, j: nat)
    requires |file| <= MAX_FILE_SIZE && Run(file, trace, steps) && j < |steps| && steps[j] == ReadOwned
    ensures trace[j].service.Expired? && trace[j + 1].service.Releasing?
    ensures trace[j + 1].service.id < |trace[j + 1].table.busy|
            <==> exists m: nat :: m < j && steps[m] == RecordOwned(trace[j].service.k)
  {
    assert StepOf(file, trace[j], steps[j], trace[j + 1]);
    OwnedOnceRecorded(file, trace, steps, j, trace[j].service.k);
  }

  // ----- Handing out segments -----

  function Holders(ws: seq<Worker>, id: nat): set<nat> { set w: nat | w < |ws| && Holds(ws[w], id) }

  predicate Grants(step: Step, id: nat) { step.Scan? && step.id == id }

  predicate Completes(s: State, step: Step, id: nat) {
    step.SetSegment? && step.w < |s.workers| && Holds(s.workers[step.w], id)
  }

  predicate GivesBack(s: State, step: Step, id: nat) {
    step.ReleaseFailed? && step.w < |s.workers| && Holds(s.workers[step.w], id)
  }

  /** How often `id` was handed out, completed and given back in the first `n` steps. */
  function GrantCount(steps: seq<Step>, id: nat, n: nat): nat
    requires n <= |steps|
  {
    if n == 0 then 0 else GrantCount(steps, id, n - 1) + if Grants(steps[n - 1], id) then 1 else 0
  }

  function CompletionCount(trace: seq<State>, steps: seq<Step>, id: nat, n: nat): nat
    requires n <= |steps| < |trace|
  {
    if n == 0 then 0
    else CompletionCount(trace, steps, id, n - 1) + if Completes(trace[n - 1], steps[n - 1], id) then 1 else 0
  }

  function FailureCount(trace: seq<State>, steps: seq<Step>, id: nat, n: nat): nat
    requires n <= |steps| < |trace|
  {
    if n == 0 then 0
    else FailureCount(trace, steps, id, n - 1) + if GivesBack(trace[n - 1], steps[n - 1], id) then 1 else 0
  }

  lemma SameHolderSet(ws: seq<Worker>, ws': seq<Worker>, w: int, id: nat)
    requires SameHolders(ws, ws', w)
    ensures Holders(ws', id) - {w} == Holders(ws, id) - {w}
  {
    forall v: int | v != w ensures v in Holders(ws', id) <==> v in Holders(ws, id) {
      if 0 <= v < |ws| { assert SameHold(ws[v], ws'[v]); }
    }
  }

  lemma ChangedHolder(file: seq<Byte>, s: State, step: Step, id: nat)
    requires Shape(file, s) && Enabled(file, s, step)
    ensures Changes(step) in Holders(s.workers, id) <==> Completes(s, step, id) || GivesBack(s, step, id)
    ensures Changes(step) in Holders(Apply(file, s, step).workers, id) <==> Grants(step, id)
  {
  }

  /** A step changes the holders by what it hands out, completes or gives back. */
  lemma HoldersNext(file: seq<Byte>, s: State, step: Step, id: nat)
    requires Shape(file, s) && Enabled(file, s, step)
    ensures |Holders(Apply(file, s, step).workers, id)| + (if Completes(s, step, id) || GivesBack(s, step, id) then 1 else 0)
            == |Holders(s.workers, id)| + if Grants(step, id) then 1 else 0
  {
    var s', w := Apply(file, s, step), Changes(step);
    HoldersAfter(file, s, step);
    SameHolderSet(s.workers, s'.workers, w, id);
    var a, b := Holders(s.workers, id), Holders(s'.workers, id);
    ChangedHolder(file, s, step, id);
    if w in a { assert a == (a - {w}) + {w}; } else { assert a == a - {w}; }
    if w in b { assert b == (b - {w}) + {w}; } else { assert b == b - {w}; }
  }

  lemma HoldersAt(file: seq<Byte>, trace: seq<State>, steps: seq<Step>, k: nat, id: nat)
    requires Run(file, trace, steps) && k < |steps|
    ensures |Holders(trace[k + 1].workers, id)|
            + (if Completes(trace[k], steps[k], id) || GivesBack(trace[k], steps[k], id) then 1 else 0)
            == |Holders(trace[k].workers, id)| + if Grants(steps[k], id) then 1 else 0
  {
    assert StepOf(file, trace[k], steps[k], trace[k + 1]);
    HoldersNext(file, trace[k], steps[k], id);
  }

  /** Every time a segment is handed out it is completed, given back or still held. */
  lemma {:induction false} GrantsConserved(file: seq<Byte>, trace: seq<State>, steps: seq<Step>, id: nat, n: nat)
    requires Run(file, trace, steps) && n < |trace|
    ensures GrantCount(steps, id, n)
            == CompletionCount(trace, steps, id, n) + FailureCount(trace, steps, id, n) + |Holders(trace[n].workers, id)|
  {
    if n == 0 {
      assert Holders(trace[0].workers, id) == {};
    } else {
      GrantsConserved(file, trace, steps, id, n - 1);
      HoldersAt(file, trace, steps, n - 1, id);
    }
  }

  lemma CompletesNext(file: seq<Byte>, s: State, step: Step, id: nat)
    requires Shape(file, s) && Enabled(file, s, step) && id < SegmentsCount(|file|)
    ensures var s' := Apply(file, s, step);
            && id < |s'.table.completed|
            && (Completes(s, step, id) ==>
                  s'.table.completed[id] && s'.dups == s.dups + if s.table.completed[id] then 1 else 0)
            && (!Completes(s, step, id) ==> s'.table.completed[id] == s.table.completed[id] && s'.dups >= s.dups)
  {
    if !step.SetSegment? { TableAfter(file, s, step); }
  }

  /** A segment is completed at least once if its bit is set, and each further time counts as a repeat. */
  lemma {:induction false} CompletionsBounded(file: seq<Byte>, trace: seq<State>, steps: seq<Step>, id: nat, n: nat)
    requires |file| <= MAX_FILE_SIZE && Run(file, trace, steps) && n < |trace| && id < SegmentsCount(|file|)
    ensures id < |trace[n].table.completed|
    ensures var done := if trace[n].table.completed[id] then 1 else 0;
            done <= CompletionCount(trace, steps, id, n) <= done + trace[n].dups
  {
    if n == 0 {
    } else {
      CompletionsBounded(file, trace, steps, id, n - 1);
      assert StepOf(file, trace[n - 1], steps[n - 1], trace[n]);
      CompletesNext(file, trace[n - 1], steps[n - 1], id);
    }
  }

  /** In an exclusive state a busy segment has one holder and any other has none. */
  lemma ExclusiveHolders(s: State, id: nat)
    requires Exclusive(s) && id < |s.table.busy|
    ensures |Holders(s.workers, id)| == if s.table.busy[id] then 1 else 0
  {
    if s.table.busy[id] {
      var w: nat :| w < |s.workers| && Holds(s.workers[w], id);
      assert Holders(s.workers, id) == {w};
    } else {
      assert !Held(s.workers, id);
      assert Holders(s.workers, id) == {};
    }
  }

  /** Without release in flight a segment is handed out once for each failed download of it, and once
      more if it is busy or completed; so without failures at most once. */
  lemma GrantedOnce(file: seq<Byte>, trace: seq<State>, steps: seq<Step>, id: nat, n: nat)
    requires |file| <= MAX_FILE_SIZE && Run(file, trace, steps) && n < |trace| && id < SegmentsCount(|file|)
    requires forall j: nat | j < n :: !InFlightRelease(trace[j], steps[j])
    ensures id < |trace[n].table.busy| == |trace[n].table.completed|
    ensures GrantCount(steps, id, n) == FailureCount(trace, steps, id, n)
                                        + if trace[n].table.busy[id] || trace[n].table.completed[id] then 1 else 0
  {
    NoReleaseExclusive(file, trace, steps, n);
    GrantsConserved(file, trace, steps, id, n);
    CompletionsBounded(file, trace, steps, id, n);
    ExclusiveHolders(trace[n], id);
  }
}
