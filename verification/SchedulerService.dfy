/** The polling service (src/DownloadService.cpp) over whole runs: when it gives up, whose segments it
    releases, and what it and the workers can always do next. */
module SchedulerService {
  import opened Bytes
  import opened Segments
  import opened Scheduler
  import opened SchedulerInvariants
  import opened SchedulerTheorems

  // ----- Giving up -----

  predicate Over(s: State) { s.service.Stored? || s.service.Aborted? }

  predicate FailsIn(step: Step, w: nat) { step == ConnectFails(w) || (step.ReleaseFailed? && step.w == w) }

  /** Worker `w` failed to connect, or failed in a download, before step `i`. */
  ghost predicate FailedBefore(steps: seq<Step>, i: nat, w: nat) {
    exists j: nat :: j < i <= |steps| && FailsIn(steps[j], w)
  }

  lemma OverStays(file: seq<Byte>, s: State, step: Step)
    requires Shape(file, s) && Enabled(file, s, step)
    ensures Over(s) ==> Apply(file, s, step).service == s.service
    ensures Apply(file, s, step).service.Aborted? <==> s.service.Aborted? || step.AllUnavailable?
  {
  }

  predicate Notifying(step: Step) { step.SetSegment? || step.ReleaseFailed? || step.ReleaseTimeouted? }

  /** The steps that wake others change of them nothing else. */
  lemma NotifiedFields(file: seq<Byte>, s: State, step: Step, w: nat)
    requires Shape(file, s) && Enabled(file, s, step) && Notifying(step)
    requires w < |s.workers| == |Apply(file, s, step).workers|
    ensures var a, b := s.workers[w], Apply(file, s, step).workers[w];
            && b.timeouted == a.timeouted && (b.closed <==> a.closed || FailsIn(step, w))
            && (b.phase.Connecting? <==> a.phase.Connecting?)
  {
  }

  lemma ClosedAfter(file: seq<Byte>, s: State, step: Step, w: nat)
    requires Shape(file, s) && Enabled(file, s, step) && w < |s.workers| == |Apply(file, s, step).workers|
    ensures Apply(file, s, step).workers[w].closed <==> s.workers[w].closed || FailsIn(step, w) || step == Close(w)
    ensures step == Close(w) ==> Over(s)
  {
    if Notifying(step) { NotifiedFields(file, s, step, w); }
  }

  lemma {:induction false} WorkersStay(file: seq<Byte>, trace: seq<State>, steps: seq<Step>, i: nat)
    requires Run(file, trace, steps) && i < |trace|
    ensures |trace[i].workers| == |trace[0].workers|
  {
    if i == 0 {
    } else {
      WorkersStay(file, trace, steps, i - 1);
      assert StepOf(file, trace[i - 1], steps[i - 1], trace[i]);
      WorkerCount(file, trace[i - 1], steps[i - 1]);
    }
  }

  lemma ClosedNext(file: seq<Byte>, trace: seq<State>, steps: seq<Step>, i: nat, w: nat)
    requires Run(file, trace, steps) && i < |steps| && w < |trace[i + 1].workers| && !Over(trace[i + 1])
    ensures w < |trace[i].workers| && !Over(trace[i])
    ensures trace[i + 1].workers[w].closed <==> trace[i].workers[w].closed || FailsIn(steps[i], w)
  {
    assert StepOf(file, trace[i], steps[i], trace[i + 1]);
    WorkerCount(file, trace[i], steps[i]);
    OverStays(file, trace[i], steps[i]);
    ClosedAfter(file, trace[i], steps[i], w);
  }

  /** Until the download is over, a worker is closed exactly if it has failed. */
  lemma {:induction false} ClosedIffFailed(file: seq<Byte>, trace: seq<State>, steps: seq<Step>, i: nat, w: nat)
    requires Run(file, trace, steps) && i < |trace| && w < |trace[i].workers| && !Over(trace[i])
    ensures trace[i].workers[w].closed <==> FailedBefore(steps, i, w)
  {
    if i == 0 {
    } else {
      ClosedNext(file, trace, steps, i - 1, w);
      ClosedIffFailed(file, trace, steps, i - 1, w);
    }
  }

  /** After a poll that timed out the service can give up exactly if every worker whose host is not banned
      has failed before. */
  lemma GiveUpIff(file: seq<Byte>, trace: seq<State>, steps: seq<Step>, k: nat, banned: set<nat>)
    requires |file| <= MAX_FILE_SIZE && Run(file, trace, steps) && k < |trace| && trace[k].service.Deciding?
    ensures Shape(file, trace[k])
    ensures Enabled(file, trace[k], AllUnavailable(banned)) <==>
              forall w: nat | w < |trace[k].workers| && w !in banned :: FailedBefore(steps, k, w)
  {
    RunKept(file, trace, steps, k);
    forall w: nat | w < |trace[k].workers| ensures trace[k].workers[w].closed <==> FailedBefore(steps, k, w) {
      ClosedIffFailed(file, trace, steps, k, w);
    }
  }

  /** The poll at step `p` found the download not completed, and the service has been deciding since. */
  ghost predicate DecidingSince(trace: seq<State>, steps: seq<Step>, p: nat, i: nat)
    requires i < |trace| == |steps| + 1
  {
    && p < i && steps[p] == PollTimeout && !trace[p].table.IsCompleted()
    && forall m: nat | p < m <= i :: trace[m].service.Deciding?
  }

  lemma DecidingBefore(file: seq<Byte>, s: State, step: Step)
    requires Shape(file, s) && Enabled(file, s, step) && Apply(file, s, step).service.Deciding?
    ensures s.service.Deciding? || (step == PollTimeout && !s.table.IsCompleted())
    ensures step == PollTimeout ==> !s.table.IsCompleted()
  {
  }

  lemma {:induction false} DecidingPolled(file: seq<Byte>, trace: seq<State>, steps: seq<Step>, i: nat)
    requires Run(file, trace, steps) && i < |trace| && trace[i].service.Deciding?
    ensures exists p: nat :: DecidingSince(trace, steps, p, i)
  {
    if i == 0 {
    } else {
      var j := i - 1;
      assert StepOf(file, trace[j], steps[j], trace[i]);
      DecidingBefore(file, trace[j], steps[j]);
      if steps[j] == PollTimeout {
        assert DecidingSince(trace, steps, j, i);
      } else {
        DecidingPolled(file, trace, steps, j);
        var p: nat :| DecidingSince(trace, steps, p, j);
        assert DecidingSince(trace, steps, p, i);
      }
    }
  }

  /** Step `k` gives up: a poll before it found the download not completed, and by then every worker whose
      host is not banned had failed. */
  ghost predicate GivesUpAt(trace: seq<State>, steps: seq<Step>, k: nat)
    requires k < |steps| < |trace| == |steps| + 1
  {
    && steps[k].AllUnavailable?
    && (exists p: nat :: DecidingSince(trace, steps, p, k))
    && forall w: nat | w < |trace[k].workers| && w !in steps[k].banned :: FailedBefore(steps, k, w)
  }

  /** A download is given up exactly by such a step. */
  lemma {:induction false} AbortedIff(file: seq<Byte>, trace: seq<State>, steps: seq<Step>, i: nat)
    requires |file| <= MAX_FILE_SIZE && Run(file, trace, steps) && i < |trace|
    ensures trace[i].service.Aborted? <==> exists k: nat :: k < i && GivesUpAt(trace, steps, k)
  {
    if i == 0 {
    } else {
      var k := i - 1;
      AbortedIff(file, trace, steps, k);
      assert StepOf(file, trace[k], steps[k], trace[i]);
      OverStays(file, trace[k], steps[k]);
      if steps[k].AllUnavailable? {
        DecidingPolled(file, trace, steps, k);
        GiveUpIff(file, trace, steps, k, steps[k].banned);
        assert GivesUpAt(trace, steps, k);
      }
    }
  }

  // ----- Timeouts -----

  /** The service sets the flag of worker `w`. */
  predicate Marks(s: State, step: Step, w: nat) { step == MarkTimeouted && s.service == Marking(w) }

  /** The flag of `w` was set at step `j`, and `w` has not received a whole segment since. */
  ghost predicate MarkedSince(trace: seq<State>, steps: seq<Step>, j: nat, i: nat, w: nat)
    requires i < |trace| == |steps| + 1
  {
    j < i && Marks(trace[j], steps[j], w) && forall m: nat | j < m < i :: steps[m] != FinishReceive(w)
  }

  ghost predicate MarkedNow(trace: seq<State>, steps: seq<Step>, i: nat, w: nat)
    requires i < |trace| == |steps| + 1
  {
    exists j: nat :: MarkedSince(trace, steps, j, i, w)
  }

  lemma FlagAfter(file: seq<Byte>, s: State, step: Step, w: nat)
    requires Shape(file, s) && Enabled(file, s, step) && w < |s.workers| == |Apply(file, s, step).workers|
    ensures Apply(file, s, step).workers[w].timeouted <==>
              Marks(s, step, w) || (s.workers[w].timeouted && step != FinishReceive(w))
  {
    if Notifying(step) { NotifiedFields(file, s, step, w); }
  }

  lemma MarkedNext(trace: seq<State>, steps: seq<Step>, i: nat, i': nat, w: nat)
    requires |trace| == |steps| + 1 && i < |steps| && i' == i + 1
    ensures MarkedNow(trace, steps, i', w) <==>
              Marks(trace[i], steps[i], w)
              || (MarkedNow(trace, steps, i, w) && steps[i] != FinishReceive(w))
  {
    if Marks(trace[i], steps[i], w) { assert MarkedSince(trace, steps, i, i', w); }
    if j: nat :| MarkedSince(trace, steps, j, i', w) && j != i { assert MarkedSince(trace, steps, j, i, w); }
    if j: nat :| MarkedSince(trace, steps, j, i, w) && steps[i] != FinishReceive(w) {
      assert MarkedSince(trace, steps, j, i', w);
    }
  }

  lemma FlagNext(file: seq<Byte>, trace: seq<State>, steps: seq<Step>, i: nat, w: nat)
    requires Run(file, trace, steps) && i < |steps| && w < |trace[i + 1].workers|
    ensures w < |trace[i].workers|
    ensures trace[i + 1].workers[w].timeouted <==>
              Marks(trace[i], steps[i], w) || (trace[i].workers[w].timeouted && steps[i] != FinishReceive(w))
  {
    assert StepOf(file, trace[i], steps[i], trace[i + 1]);
    WorkerCount(file, trace[i], steps[i]);
    FlagAfter(file, trace[i], steps[i], w);
  }

  /** A worker counts as timed out exactly if the service has marked it and it has received no whole segment since. */
  lemma {:induction false} TimeoutedIff(file: seq<Byte>, trace: seq<State>, steps: seq<Step>, i: nat, w: nat)
    requires Run(file, trace, steps) && i < |trace| && w < |trace[i].workers|
    ensures trace[i].workers[w].timeouted <==> MarkedNow(trace, steps, i, w)
  {
    if i == 0 {
    } else {
      FlagNext(file, trace, steps, i - 1, w);
      TimeoutedIff(file, trace, steps, i - 1, w);
      MarkedNext(trace, steps, i - 1, i, w);
    }
  }

  /** At step `e` the service finds that worker `k` timed out, and at step `o` it reads the id it releases. */
  ghost predicate FoundExpired(trace: seq<State>, steps: seq<Step>, e: nat, k: nat)
    requires |trace| == |steps| + 1
  {
    && e < |steps| && steps[e] == ReadTimeouted && trace[e].service == Checking(k)
    && MarkedNow(trace, steps, e, k)
  }

  ghost predicate ReadsOwned(trace: seq<State>, steps: seq<Step>, o: nat, k: nat, id: nat)
    requires |trace| == |steps| + 1
  {
    && o < |steps| && steps[o] == ReadOwned && k < |trace[o].workers| && trace[o].workers[k].owned == id
  }

  lemma SweepBefore(file: seq<Byte>, s: State, step: Step)
    requires Shape(file, s) && Enabled(file, s, step)
    ensures var a, b := s.service, Apply(file, s, step).service;
            && (b.Expired? ==> a == b || (step == ReadTimeouted && a == Checking(b.k) && s.workers[b.k].timeouted))
            && (b.Releasing? ==> a == b || (step == ReadOwned && a == Expired(b.k) && s.workers[b.k].owned == b.id))
  {
  }

  lemma {:induction false} ExpiredTraced(file: seq<Byte>, trace: seq<State>, steps: seq<Step>, i: nat)
    requires Run(file, trace, steps) && i < |trace| && trace[i].service.Expired?
    ensures exists e: nat :: e < i && FoundExpired(trace, steps, e, trace[i].service.k)
  {
    if i == 0 {
    } else {
      var m, k := i - 1, trace[i].service.k;
      assert StepOf(file, trace[m], steps[m], trace[i]);
      SweepBefore(file, trace[m], steps[m]);
      if trace[m].service == trace[i].service {
        ExpiredTraced(file, trace, steps, m);
      } else {
        TimeoutedIff(file, trace, steps, m, k);
        assert FoundExpired(trace, steps, m, k);
      }
    }
  }

  /** What the service releases is the id it read from a worker that had been marked, and had received no whole
      segment since, when the service looked. */
  lemma {:induction false} ReleasesExpiredOnly(file: seq<Byte>, trace: seq<State>, steps: seq<Step>, i: nat)
    requires Run(file, trace, steps) && i < |trace| && trace[i].service.Releasing?
    ensures var k, id := trace[i].service.k, trace[i].service.id;
            exists e: nat, o: nat :: e < o < i && FoundExpired(trace, steps, e, k) && ReadsOwned(trace, steps, o, k, id)
  {
    if i == 0 {
    } else {
      var m, k, id := i - 1, trace[i].service.k, trace[i].service.id;
      assert StepOf(file, trace[m], steps[m], trace[i]);
      SweepBefore(file, trace[m], steps[m]);
      if trace[m].service == trace[i].service {
        ReleasesExpiredOnly(file, trace, steps, m);
      } else {
        ExpiredTraced(file, trace, steps, m);
        var e: nat :| e < m && FoundExpired(trace, steps, e, k);
        assert ReadsOwned(trace, steps, m, k, id);
      }
    }
  }

  // ----- A sweep reaches every worker -----

  predicate Sweeping(v: Service) { v.Checking? || v.Expired? || v.Releasing? || v.Marking? }

  ghost predicate MarkedBetween(trace: seq<State>, steps: seq<Step>, p: nat, i: nat, w: nat)
    requires i < |trace| == |steps| + 1
  {
    exists j: nat :: p < j < i && Marks(trace[j], steps[j], w)
  }

  /** Since step `p` began the sweep, every worker before `k` has been marked in it. */
  ghost predicate SweptSince(trace: seq<State>, steps: seq<Step>, p: nat, i: nat, k: nat)
    requires i < |trace| == |steps| + 1
  {
    && p < i && steps[p] == SomeAvailable && (exists q: nat :: DecidingSince(trace, steps, q, p))
    && (forall m: nat | p < m <= i :: Sweeping(trace[m].service))
    && forall w: nat | w < k :: MarkedBetween(trace, steps, p, i, w)
  }

  lemma SweepNext(file: seq<Byte>, s: State, step: Step)
    requires Shape(file, s) && Enabled(file, s, step)
    ensures var a, b := s.service, Apply(file, s, step).service;
            Sweeping(b) ==>
              || (step == SomeAvailable && b == Checking(0))
              || (Sweeping(a) && a.k == b.k && step != MarkTimeouted && step != SomeAvailable)
              || (Sweeping(a) && Marks(s, step, a.k) && b == Checking(a.k + 1))
  {
  }

  lemma SweptNext(trace: seq<State>, steps: seq<Step>, p: nat, m: nat, i: nat)
    requires |trace| == |steps| + 1 && i == m + 1 < |trace| && Sweeping(trace[m].service) && Sweeping(trace[i].service)
    requires SweptSince(trace, steps, p, m, trace[m].service.k)
    requires trace[i].service.k == trace[m].service.k
             || (Marks(trace[m], steps[m], trace[m].service.k) && trace[i].service.k == trace[m].service.k + 1)
    ensures SweptSince(trace, steps, p, i, trace[i].service.k)
  {
    forall w: nat | w < trace[i].service.k ensures MarkedBetween(trace, steps, p, i, w) {
      if w < trace[m].service.k {
        assert MarkedBetween(trace, steps, p, m, w);
      } else {
        assert Marks(trace[m], steps[m], w);
      }
    }
  }

  lemma {:induction false} SweepTraced(file: seq<Byte>, trace: seq<State>, steps: seq<Step>, i: nat)
    requires Run(file, trace, steps) && i < |trace| && Sweeping(trace[i].service)
    ensures exists p: nat :: SweptSince(trace, steps, p, i, trace[i].service.k)
  {
    if i == 0 {
    } else {
      var m := i - 1;
      assert StepOf(file, trace[m], steps[m], trace[i]);
      SweepNext(file, trace[m], steps[m]);
      if steps[m] == SomeAvailable {
        DecidingPolled(file, trace, steps, m);
        assert SweptSince(trace, steps, m, i, 0);
      } else {
        SweepTraced(file, trace, steps, m);
        var p: nat :| SweptSince(trace, steps, p, m, trace[m].service.k);
        SweptNext(trace, steps, p, m, i);
      }
    }
  }

  /** A sweep ends only when it has marked every worker. */
  lemma SweepReachesAll(file: seq<Byte>, trace: seq<State>, steps: seq<Step>, i: nat)
    requires Run(file, trace, steps) && i < |steps| && steps[i] == EndChecks
    ensures exists p: nat :: SweptSince(trace, steps, p, i, |trace[i].workers|)
  {
    assert StepOf(file, trace[i], steps[i], trace[i + 1]);
    SweepTraced(file, trace, steps, i);
    var p: nat :| SweptSince(trace, steps, p, i, trace[i].service.k);
    assert SweptSince(trace, steps, p, i, |trace[i].workers|);
  }

  lemma SweepGoesOn(file: seq<Byte>, s: State, step: Step)
    requires Shape(file, s) && Enabled(file, s, step) && Sweeping(s.service)
    ensures Sweeping(Apply(file, s, step).service) <==> step != EndChecks && step != ReleaseOutside
  {
  }

  /** A sweep goes on until it has reached everybody, or has released outside the table; nothing else, a
      completed download included, ends it. */
  lemma {:induction false} SweepLastsIff(file: seq<Byte>, trace: seq<State>, steps: seq<Step>, i: nat, j: nat)
    requires Run(file, trace, steps) && i <= j < |trace| && Sweeping(trace[i].service)
    ensures (forall m: nat | i <= m <= j :: Sweeping(trace[m].service)) <==>
            (forall k: nat | i <= k < j :: steps[k] != EndChecks && steps[k] != ReleaseOutside)
  {
    if i == j {
    } else {
      SweepLastsIff(file, trace, steps, i, j - 1);
      if Sweeping(trace[j - 1].service) {
        assert StepOf(file, trace[j - 1], steps[j - 1], trace[j]);
        SweepGoesOn(file, trace[j - 1], steps[j - 1]);
      }
    }
  }

  // ----- Storing -----

  /** At step `p` the poll found the download completed, with `dups` repeated completions so far. */
  ghost predicate PolledCompleted(trace: seq<State>, steps: seq<Step>, p: nat, dups: nat)
    requires |trace| == |steps| + 1
  {
    && p < |steps| && steps[p] == PollCompleted && trace[p].service == Polling
    && trace[p].table.IsCompleted() && trace[p].dups == dups
  }

  lemma StoringBefore(file: seq<Byte>, s: State, step: Step)
    requires Shape(file, s) && Enabled(file, s, step)
    ensures var a, b := s.service, Apply(file, s, step).service;
            && (b.Storing? ==>
                  a == b || (step == PollCompleted && a == Polling && s.table.IsCompleted() && b.dupsAtPoll == s.dups))
            && (b.Stored? ==> a == b || (step == Store && a == Storing(b.dupsAtPoll)))
  {
  }

  /** A file is stored only after a poll that found the download completed. */
  lemma {:induction false} StoredAfterPoll(file: seq<Byte>, trace: seq<State>, steps: seq<Step>, i: nat)
    requires Run(file, trace, steps) && i < |trace| && (trace[i].service.Storing? || trace[i].service.Stored?)
    ensures exists p: nat :: p < i && PolledCompleted(trace, steps, p, trace[i].service.dupsAtPoll)
  {
    if i == 0 {
    } else {
      var k := i - 1;
      assert StepOf(file, trace[k], steps[k], trace[i]);
      StoringBefore(file, trace[k], steps[k]);
      if trace[k].service.Storing? || trace[k].service.Stored? {
        StoredAfterPoll(file, trace, steps, k);
      } else {
        assert PolledCompleted(trace, steps, k, trace[i].service.dupsAtPoll);
      }
    }
  }

  // ----- Connecting and finishing -----

  predicate Dials(step: Step, w: nat) { step == Connect(w) || step == ConnectFails(w) }

  lemma ConnectingAfter(file: seq<Byte>, s: State, step: Step, w: nat)
    requires Shape(file, s) && Enabled(file, s, step) && w < |s.workers| == |Apply(file, s, step).workers|
    ensures Apply(file, s, step).workers[w].phase.Connecting? <==> s.workers[w].phase.Connecting? && !Dials(step, w)
  {
    if Notifying(step) { NotifiedFields(file, s, step, w); }
  }

  /** A worker is connecting until its one attempt to connect. */
  lemma {:induction false} ConnectingIff(file: seq<Byte>, trace: seq<State>, steps: seq<Step>, i: nat, w: nat)
    requires Run(file, trace, steps) && i < |trace| && w < |trace[i].workers|
    ensures trace[i].workers[w].phase.Connecting? <==> forall j: nat | j < i :: !Dials(steps[j], w)
  {
    if i == 0 {
    } else {
      assert StepOf(file, trace[i - 1], steps[i - 1], trace[i]);
      WorkerCount(file, trace[i - 1], steps[i - 1]);
      ConnectingAfter(file, trace[i - 1], steps[i - 1], w);
      ConnectingIff(file, trace, steps, i - 1, w);
    }
  }

  lemma DialsOnce(file: seq<Byte>, trace: seq<State>, steps: seq<Step>, i: nat, j: nat, w: nat)
    requires Run(file, trace, steps) && i < j < |steps| && Dials(steps[i], w)
    ensures !Dials(steps[j], w)
  {
    assert StepOf(file, trace[j], steps[j], trace[j + 1]);
    if Dials(steps[j], w) { ConnectingIff(file, trace, steps, j, w); }
  }

  predicate HasReceived(s: State, w: nat, id: nat) { w < |s.workers| && s.workers[w].phase == Received(id) }

  lemma ReceivedNext(file: seq<Byte>, s: State, step: Step, w: nat, id: nat)
    requires Shape(file, s) && Enabled(file, s, step) && HasReceived(s, w, id)
    ensures HasReceived(Apply(file, s, step), w, id) <==> step != Step.SetSegment(w)
  {
  }

  /** A reply that has arrived whole is not lost: the worker keeps its segment until it completes it. */
  lemma {:induction false} ReceivedIsCompletedNext(file: seq<Byte>, trace: seq<State>, steps: seq<Step>,
                                                   i: nat, j: nat, w: nat, id: nat)
    requires Run(file, trace, steps) && i <= j < |trace| && HasReceived(trace[i], w, id)
    ensures (forall m: nat | i <= m <= j :: HasReceived(trace[m], w, id)) <==>
            (forall k: nat | i <= k < j :: steps[k] != Step.SetSegment(w))
  {
    if i == j {
    } else {
      ReceivedIsCompletedNext(file, trace, steps, i, j - 1, w, id);
      if HasReceived(trace[j - 1], w, id) {
        assert StepOf(file, trace[j - 1], steps[j - 1], trace[j]);
        ReceivedNext(file, trace[j - 1], steps[j - 1], w, id);
      }
    }
  }

  // ----- Who can go on -----

  predicate WorkerStep(step: Step, w: nat) { OwnStep(step, w) || step == Connect(w) || step == EnterLoop(w) }

  /** A worker can go on by itself exactly if it is neither asleep nor ended. */
  lemma WorkerGoesOnIff(file: seq<Byte>, s: State, w: nat)
    requires Shape(file, s) && w < |s.workers|
    ensures (exists step :: WorkerStep(step, w) && Enabled(file, s, step)) <==> Active(s.workers[w])
  {
    match s.workers[w].phase
    case Connecting => assert WorkerStep(Connect(w), w) && Enabled(file, s, Connect(w));
    case LoopHead => assert WorkerStep(EnterLoop(w), w) && Enabled(file, s, EnterLoop(w));
    case Asleep =>
    case Ended =>
    case _ =>
      AwakeCanAct(file, s, w);
      var step :| OwnStep(step, w) && Enabled(file, s, step);
      assert WorkerStep(step, w);
  }

  predicate ServiceStep(step: Step) {
    || step.PollCompleted? || step.PollTimeout? || step.AllUnavailable? || step.SomeAvailable? || step.ReadTimeouted?
    || step.ReadOwned? || step.ReleaseTimeouted? || step.ReleaseOutside? || step.MarkTimeouted? || step.EndChecks?
    || step.Store?
  }

  /** The service can go on exactly until it has stored the file, given up, or released outside the table. */
  lemma ServiceGoesOnIff(file: seq<Byte>, s: State)
    requires |file| <= MAX_FILE_SIZE && Shape(file, s)
    ensures (exists step :: ServiceStep(step) && Enabled(file, s, step)) <==> !Over(s) && !s.service.Undefined?
  {
    CountBounds(|file|);
    if !Over(s) && !s.service.Undefined? {
      var wake: nat :| Sleepers(s.workers) != {} ==> wake in Sleepers(s.workers);
      var step := match s.service
        case Polling => if s.table.IsCompleted() then PollCompleted else PollTimeout
        case Deciding => SomeAvailable
        case Checking(k) => if k < |s.workers| then ReadTimeouted else EndChecks
        case Expired(_) => ReadOwned
        case Releasing(_, id) => if id < |s.table.busy| then ReleaseTimeouted(wake) else ReleaseOutside
        case Marking(_) => MarkTimeouted
        case _ => Store;
      assert ServiceStep(step) && Enabled(file, s, step);
    }
  }

  // ----- Segments are handed out in order -----

  lemma {:induction false} GrantExists(steps: seq<Step>, id: nat, n: nat)
    requires n <= |steps| && GrantCount(steps, id, n) > 0
    ensures exists m: nat :: m < n && Grants(steps[m], id)
  {
    if n == 0 {
    } else if Grants(steps[n - 1], id) {
    } else {
      GrantExists(steps, id, n - 1);
    }
  }

  /** A segment is handed out only after every segment before it has been. */
  lemma GrantedInOrder(file: seq<Byte>, trace: seq<State>, steps: seq<Step>, k: nat, id: nat, j: nat)
    requires |file| <= MAX_FILE_SIZE && Run(file, trace, steps) && k < |steps| && Grants(steps[k], id) && j < id
    ensures exists m: nat :: m < k && Grants(steps[m], j)
  {
    RunKept(file, trace, steps, k);
    assert StepOf(file, trace[k], steps[k], trace[k + 1]);
    var s := trace[k];
    assert !s.table.Downloadable(j);
    GrantsConserved(file, trace, steps, j, k);
    CompletionsBounded(file, trace, steps, j, k);
    if s.table.busy[j] {
      var w: nat :| w < |s.workers| && Holds(s.workers[w], j);
      assert w in Holders(s.workers, j);
    }
    GrantExists(steps, j, k);
  }
}
