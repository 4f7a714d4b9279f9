/** Runs that show the conditions of the theorems are needed. */
module SchedulerScenarios {
  import opened Bytes
  import opened Segments
  import opened CompleteResources
  import opened Scheduler
  import opened SchedulerInvariants

  ghost predicate Reachable(file: seq<Byte>, s: State) {
    exists trace: seq<State>, steps: seq<Step> :: Run(file, trace, steps) && trace[|steps|] == s
  }

  lemma ReachInit(file: seq<Byte>, s: State)
    requires |file| <= MAX_FILE_SIZE && Init(file, s)
    ensures Reachable(file, s)
  {
    assert Run(file, [s], []) && [s][0] == s;
  }

  lemma Reach(file: seq<Byte>, s: State, step: Step) returns (s': State)
    requires |file| <= MAX_FILE_SIZE && Reachable(file, s) && Shape(file, s) && Enabled(file, s, step)
    ensures s' == Apply(file, s, step) && Shape(file, s') && Reachable(file, s')
  {
    s' := Apply(file, s, step);
    ShapeKept(file, s, step);
    var trace: seq<State>, steps: seq<Step> :| Run(file, trace, steps) && trace[|steps|] == s;
    var trace', steps' := trace + [s'], steps + [step];
    forall i: nat | i < |steps'| ensures StepOf(file, trace'[i], steps'[i], trace'[i + 1]) {
      if i < |steps| {
        assert StepOf(file, trace[i], steps[i], trace[i + 1]);
      }
    }
    assert Run(file, trace', steps') && trace'[|steps'|] == s';
  }

  /** A worker at the head of its loop passes the completion test. */
  lemma TestAgain(file: seq<Byte>, s: State, w: nat) returns (s': State)
    requires |file| <= MAX_FILE_SIZE && Reachable(file, s) && Shape(file, s) && !s.table.IsCompleted()
    requires w < |s.workers| && s.workers[w].phase.LoopHead? && !s.workers[w].closed
    ensures Reachable(file, s') && Shape(file, s') && s' == Move(s, w, AtScan)
  {
    var s1 := Reach(file, s, EnterLoop(w));
    s' := Reach(file, s1, CheckCompleted(w));
  }

  /** A fresh worker connects and passes the completion test. */
  lemma TestForCompletion(file: seq<Byte>, s: State, w: nat) returns (s': State)
    requires |file| <= MAX_FILE_SIZE && Reachable(file, s) && Shape(file, s) && !s.table.IsCompleted()
    requires w < |s.workers| && s.workers[w].phase.Connecting? && !s.workers[w].closed
    ensures Reachable(file, s') && Shape(file, s') && s' == Move(s, w, AtScan)
  {
    var s1 := Reach(file, s, Connect(w));
    s' := TestAgain(file, s1, w);
  }

  /** A fresh worker connects, takes the first free segment and receives all of it. */
  lemma Acquire(file: seq<Byte>, s: State, w: nat, id: nat) returns (s': State)
    requires |file| <= MAX_FILE_SIZE && Reachable(file, s) && Shape(file, s)
    requires w < |s.workers| && s.workers[w].phase.Connecting? && !s.workers[w].closed
    requires !s.table.IsCompleted() && IsFirstFree(s.table, id)
    ensures Reachable(file, s') && Shape(file, s')
    ensures id < SegmentsCount(|file|)
    ensures var lo := id * SEGMENT_SIZE;
            lo + SEGMENT_SIZE <= |s.table.data|
            && s' == s.(table := s.table.SetBusy(id).Receive(Padded(file), lo, lo + SEGMENT_SIZE),
                        workers := s.workers[w := s.workers[w].(phase := Receiving(id, SEGMENT_SIZE), owned := id)])
  {
    var s1 := TestForCompletion(file, s, w);
    var s2 := Reach(file, s1, Scan(w, id));
    var s3 := Reach(file, s2, RecordOwned(w));
    s' := Reach(file, s3, ReceiveBytes(w, SEGMENT_SIZE));
  }

  /** The service polls, sees an unfinished download and starts to look at the workers. */
  lemma StartChecks(file: seq<Byte>, s: State) returns (s': State)
    requires |file| <= MAX_FILE_SIZE && Reachable(file, s) && Shape(file, s)
    requires s.service.Polling? && !s.table.IsCompleted()
    ensures Reachable(file, s') && Shape(file, s') && s' == s.(service := Checking(0))
  {
    var s1 := Reach(file, s, PollTimeout);
    s' := Reach(file, s1, SomeAvailable);
  }

  /** A worker that was not timed out is marked. */
  lemma MarkWorker(file: seq<Byte>, s: State, k: nat) returns (s': State)
    requires |file| <= MAX_FILE_SIZE && Reachable(file, s) && Shape(file, s)
    requires s.service == Checking(k) && k < |s.workers| && !s.workers[k].timeouted
    ensures Reachable(file, s') && Shape(file, s')
    ensures s' == s.(workers := s.workers[k := s.workers[k].(timeouted := true)], service := Checking(k + 1))
  {
    var s1 := Reach(file, s, ReadTimeouted);
    s' := Reach(file, s1, MarkTimeouted);
  }

  function Marked(ws: seq<Worker>, from: nat): (r: seq<Worker>)
    ensures |r| == |ws|
  {
    seq(|ws|, v requires 0 <= v < |ws| => if v >= from then ws[v].(timeouted := true) else ws[v])
  }

  /** The rest of a round of the service over workers that were not timed out marks them. */
  lemma {:induction false} MarkFrom(file: seq<Byte>, s: State, k: nat) returns (s': State)
    requires |file| <= MAX_FILE_SIZE && Reachable(file, s) && Shape(file, s)
    requires s.service == Checking(k) && k <= |s.workers|
    requires forall v: nat | k <= v < |s.workers| :: !s.workers[v].timeouted
    ensures Reachable(file, s') && Shape(file, s')
    ensures s' == s.(workers := Marked(s.workers, k), service := Polling)
    decreases |s.workers| - k
  {
    if k == |s.workers| {
      s' := Reach(file, s, EndChecks);
      assert Marked(s.workers, k) == s.workers;
    } else {
      var s1 := MarkWorker(file, s, k);
      s' := MarkFrom(file, s1, k + 1);
      assert Marked(s1.workers, k + 1) == Marked(s.workers, k);
    }
  }

  /** One whole round over workers that were not timed out. */
  lemma Sweep(file: seq<Byte>, s: State) returns (s': State)
    requires |file| <= MAX_FILE_SIZE && Reachable(file, s) && Shape(file, s)
    requires s.service.Polling? && !s.table.IsCompleted() && forall v: nat | v < |s.workers| :: !s.workers[v].timeouted
    ensures Reachable(file, s') && Shape(file, s') && s' == s.(workers := Marked(s.workers, 0))
  {
    var s1 := StartChecks(file, s);
    s' := MarkFrom(file, s1, 0);
  }

  /** A new round finds worker 0 timed out and reads the id it owns. */
  lemma FindExpired(file: seq<Byte>, s: State) returns (s': State)
    requires |file| <= MAX_FILE_SIZE && Reachable(file, s) && Shape(file, s)
    requires |s.workers| > 0 && s.service.Polling? && !s.table.IsCompleted() && s.workers[0].timeouted
    ensures Reachable(file, s') && Shape(file, s') && s' == s.(service := Releasing(0, s.workers[0].owned))
  {
    var s1 := StartChecks(file, s);
    var s2 := Reach(file, s1, ReadTimeouted);
    s' := Reach(file, s2, ReadOwned);
  }

  /** The next round finds worker 0 timed out and releases the segment it is downloading. */
  lemma SecondSweepReleases(file: seq<Byte>, s: State) returns (s': State)
    requires |file| <= MAX_FILE_SIZE && Reachable(file, s) && Shape(file, s)
    requires |s.workers| > 0 && s.service.Polling? && !s.table.IsCompleted() && Sleepers(s.workers) == {}
    requires s.workers[0].timeouted && s.workers[0].owned < |s.table.busy|
    ensures Reachable(file, s') && Shape(file, s')
    ensures s' == s.(table := s.table.UnsetBusy(s.workers[0].owned), service := Marking(0))
  {
    var s1 := FindExpired(file, s);
    s' := Reach(file, s1, ReleaseTimeouted(|s.workers|));
  }

  /** A finished reply is entered in the table; nobody is asleep. */
  lemma Complete(file: seq<Byte>, s: State, w: nat) returns (s': State)
    requires |file| <= MAX_FILE_SIZE && Reachable(file, s) && Shape(file, s)
    requires w < |s.workers| && s.workers[w].phase.Receiving? && s.workers[w].phase.got == SEGMENT_SIZE
    requires Sleepers(s.workers) == {}
    ensures Reachable(file, s') && Shape(file, s')
    ensures var id := s.workers[w].phase.id;
            s' == s.(table := s.table.SetSegment(id),
                     workers := s.workers[w := s.workers[w].(phase := LoopHead, timeouted := false)],
                     dups := if s.table.completed[id] then s.dups + 1 else s.dups)
  {
    var s1 := Reach(file, s, FinishReceive(w));
    s' := Reach(file, s1, Step.SetSegment(w));
    var ws := s1.workers[w := s1.workers[w].(phase := LoopHead)];
    forall v: nat | v < |ws| ensures NotifyAll(ws)[v] == ws[v] {
      assert v !in Sleepers(s.workers);
    }
    assert NotifyAll(ws) == ws;
  }

  ghost function Fresh(file: seq<Byte>, workers: nat): State {
    var n := SegmentsCount(|file|);
    var none := seq(n, _ => false);
    State(Table(none, none, 0, seq(n * SEGMENT_SIZE, _ => 0)), seq(workers, _ => NewWorker()), Polling, 0)
  }

  lemma ReachFresh(file: seq<Byte>, workers: nat) returns (s: State)
    requires |file| <= MAX_FILE_SIZE && workers > 0
    ensures s == Fresh(file, workers) && Reachable(file, s) && Shape(file, s)
  {
    s := Fresh(file, workers);
    ReachInit(file, s);
    InitShape(file, s);
  }

  lemma PollAndStore(file: seq<Byte>, s: State) returns (s': State)
    requires |file| <= MAX_FILE_SIZE && Reachable(file, s) && Shape(file, s)
    requires s.service.Polling? && s.table.IsCompleted() && |file| <= |s.table.data|
    ensures Reachable(file, s') && Shape(file, s')
    ensures s' == s.(service := Stored(s.dups, s.table.data[..|file|]))
  {
    var s1 := Reach(file, s, PollCompleted);
    s' := Reach(file, s1, Store);
  }

  // ----- A segment completed twice -----

  /** In a file of two segments, worker 0 has all of segment 0 in the buffer, but a timeout has released it. */
  lemma ReleasedInFlight(file: seq<Byte>, workers: nat) returns (s: State)
    requires |file| == SEGMENT_SIZE + 1 && workers > 0
    ensures Reachable(file, s) && Shape(file, s) && s.service == Marking(0) && s.dups == 0
    ensures s.table.busy == [false, false] == s.table.completed && s.table.counter == 0 && s.table.data[SEGMENT_SIZE] == 0
    ensures |s.workers| == workers && s.workers[0].phase == Receiving(0, SEGMENT_SIZE) && !s.workers[0].closed
    ensures forall w: nat | 0 < w < workers :: s.workers[w] == NewWorker().(timeouted := true)
  {
    var s0 := ReachFresh(file, workers);
    var a := Acquire(file, s0, 0, 0);
    var b := Sweep(file, a);
    s := SecondSweepReleases(file, b);
  }

  lemma FinishSweepAndStore(file: seq<Byte>, s: State) returns (s': State)
    requires |file| <= MAX_FILE_SIZE && Reachable(file, s) && Shape(file, s)
    requires |s.workers| == 2 && s.service == Marking(0) && s.table.IsCompleted() && !s.workers[1].timeouted
    requires |file| <= |s.table.data|
    ensures Reachable(file, s') && s'.service == Stored(s.dups, s.table.data[..|file|])
  {
    var s1 := Reach(file, s, MarkTimeouted);
    var s2 := MarkFrom(file, s1, 1);
    s' := PollAndStore(file, s2);
  }

  /** Both workers enter segment 0, and the service finds the download completed. */
  lemma TwiceCompleted(file: seq<Byte>, s: State) returns (s': State)
    requires |file| == SEGMENT_SIZE + 1 && Reachable(file, s) && Shape(file, s) && s.service == Marking(0) && s.dups == 0
    requires s.table.completed == [false, false] && s.table.counter == 0 && s.table.data[SEGMENT_SIZE] == 0
    requires |s.workers| == 2 && forall w: nat | w < 2 :: s.workers[w].phase == Receiving(0, SEGMENT_SIZE)
    ensures Reachable(file, s') && s'.service.Stored? && s'.service.dupsAtPoll == 1
    ensures |s'.service.bytes| > SEGMENT_SIZE && s'.service.bytes[SEGMENT_SIZE] == 0
  {
    assert Sleepers(s.workers) == {};
    var a := Complete(file, s, 0);
    assert Sleepers(a.workers) == {};
    var b := Complete(file, a, 1);
    s' := FinishSweepAndStore(file, b);
  }

  /** One timeout while a download is in flight is enough for a wrong file to be stored: two workers
      complete segment 0, the counter reaches 2, and segment 1 is stored without being downloaded. */
  lemma DuplicateStoresWrongFile() returns (file: seq<Byte>, s: State)
    ensures |file| <= MAX_FILE_SIZE && Reachable(file, s)
    ensures s.service.Stored? && s.service.dupsAtPoll == 1 && s.service.bytes != file
  {
    file := seq(SEGMENT_SIZE + 1, _ => 1);
    var a := ReleasedInFlight(file, 2);
    var b := Acquire(file, a, 1, 0);
    s := TwiceCompleted(file, b);
    assert file[SEGMENT_SIZE] == 1;
  }

  /** Workers 0 and 1 both have segment 0, worker 2 has segment 1, worker 3 has passed the completion test. */
  lemma FourAtWork(file: seq<Byte>) returns (s: State)
    requires |file| == SEGMENT_SIZE + 1
    ensures Reachable(file, s) && Shape(file, s) && s.dups == 0
    ensures s.table.busy == [true, true] && s.table.completed == [false, false] && s.table.counter == 0
    ensures |s.workers| == 4 && forall w: nat | w < 4 :: !s.workers[w].closed
    ensures s.workers[0].phase == s.workers[1].phase == Receiving(0, SEGMENT_SIZE)
    ensures s.workers[2].phase == Receiving(1, SEGMENT_SIZE) && s.workers[3].phase.AtScan?
  {
    var a := ReleasedInFlight(file, 4);
    var b := Acquire(file, a, 1, 0);
    var c := Acquire(file, b, 2, 1);
    s := TestForCompletion(file, c, 3);
  }

  /** Worker 0 completes segment 0 and tests again, then worker 1 completes it once more: the counter is full. */
  lemma CounterFull(file: seq<Byte>, s: State) returns (s': State)
    requires |file| == SEGMENT_SIZE + 1 && Reachable(file, s) && Shape(file, s) && s.dups == 0
    requires s.table.busy == [true, true] && s.table.completed == [false, false] && s.table.counter == 0
    requires |s.workers| == 4 && forall w: nat | w < 4 :: !s.workers[w].closed
    requires s.workers[0].phase == s.workers[1].phase == Receiving(0, SEGMENT_SIZE)
    requires s.workers[2].phase == Receiving(1, SEGMENT_SIZE) && s.workers[3].phase.AtScan?
    ensures Reachable(file, s') && Shape(file, s') && s'.dups == 1 && s'.table.IsCompleted()
    ensures s'.table.busy == [false, true] && s'.table.completed == [true, false]
    ensures |s'.workers| == 4 && !s'.workers[1].closed
    ensures s'.workers[0].phase.AtScan? && s'.workers[1].phase.LoopHead? && s'.workers[3].phase.AtScan?
    ensures s'.workers[2].phase == Receiving(1, SEGMENT_SIZE)
  {
    assert Sleepers(s.workers) == {};
    var a := Complete(file, s, 0);
    assert a.table.busy == [false, true] && a.table.completed == [true, false];
    var b := TestAgain(file, a, 0);
    assert Sleepers(b.workers) == {};
    s' := Complete(file, b, 1);
    assert s'.table.busy == [false, true] && s'.table.completed == [true, false];
  }

  /** Workers 0 and 3 fall asleep after that, worker 1 ends, and worker 2 is about to release segment 1. */
  lemma TwoAsleep(file: seq<Byte>, s: State) returns (s': State)
    requires |file| == SEGMENT_SIZE + 1 && Reachable(file, s) && Shape(file, s) && s.dups == 1 && s.table.IsCompleted()
    requires s.table.busy == [false, true] && s.table.completed == [true, false]
    requires |s.workers| == 4 && !s.workers[1].closed
    requires s.workers[0].phase.AtScan? && s.workers[1].phase.LoopHead? && s.workers[3].phase.AtScan?
    requires s.workers[2].phase == Receiving(1, SEGMENT_SIZE)
    ensures Reachable(file, s') && Shape(file, s') && s'.dups == 1 && s'.table == s.table
    ensures |s'.workers| == 4 && s'.workers[0].phase.Asleep? && s'.workers[1].phase.Ended?
    ensures s'.workers[2].phase == Failing(1) && s'.workers[3].phase.Asleep?
  {
    assert s.table.Free() == {};
    var a := Reach(file, s, ScanAndSleep(0));
    var b := Reach(file, a, ScanAndSleep(3));
    var c := Reach(file, b, EnterLoop(1));
    var d := Reach(file, c, CheckCompleted(1));
    s' := Reach(file, d, Fail(2));
  }

  /** The release of segment 1 wakes worker 0. */
  lemma ReleaseWakesOne(file: seq<Byte>, s: State) returns (s': State)
    requires |file| == SEGMENT_SIZE + 1 && Reachable(file, s) && Shape(file, s) && s.dups == 1 && s.table.IsCompleted()
    requires s.table.busy == [false, true] && s.table.completed == [true, false]
    requires |s.workers| == 4 && s.workers[0].phase.Asleep? && s.workers[1].phase.Ended?
    requires s.workers[2].phase == Failing(1) && s.workers[3].phase.Asleep?
    ensures Reachable(file, s') && Shape(file, s') && s'.dups == 1 && s'.table.IsCompleted()
    ensures s'.table.busy == [false, false] && s'.table.completed == [true, false]
    ensures |s'.workers| == 4 && s'.workers[0].phase.AtCheck? && s'.workers[1].phase.Ended?
    ensures s'.workers[2].phase.Ended? && s'.workers[3].phase.Asleep?
  {
    assert 0 in Sleepers(s.workers);
    s' := Reach(file, s, ReleaseFailed(2, 0));
    assert s'.table.busy == [false, false];
  }

  lemma FalseAnswerStrands(file: seq<Byte>, s: State) returns (s': State)
    requires |file| == SEGMENT_SIZE + 1 && Reachable(file, s) && Shape(file, s) && s.dups == 1 && s.table.IsCompleted()
    requires s.table.busy == [false, false] && s.table.completed == [true, false]
    requires |s.workers| == 4 && s.workers[0].phase.AtCheck? && s.workers[1].phase.Ended?
    requires s.workers[2].phase.Ended? && s.workers[3].phase.Asleep?
    ensures Reachable(file, s') && Shape(file, s') && s'.dups == 1
    ensures |s'.workers| == 4 && s'.workers[3].phase.Asleep? && forall w: nat | w < 3 :: s'.workers[w].phase.Ended?
    ensures s'.table.Free() == {1} && Stranded(s')
  {
    s' := Reach(file, s, CheckCompleted(0));
    assert s'.table == s.table && 1 in s'.table.Free();
    assert 3 in Sleepers(s'.workers) && PendingWorkers(s'.workers) == {};
  }

  /** A repeated completion can strand a sleeper: the release wakes worker 0, which is told "completed" and
      ends, so segment 1 is free, worker 3 sleeps, and nobody is left to wake it or to take the segment. */
  lemma DuplicateStrandsSleeper() returns (file: seq<Byte>, s: State)
    ensures |file| <= MAX_FILE_SIZE && Reachable(file, s) && Shape(file, s) && s.dups == 1
    ensures |s.workers| == 4 && s.workers[3].phase.Asleep? && forall w: nat | w < 3 :: s.workers[w].phase.Ended?
    ensures s.table.Free() == {1} && Stranded(s)
  {
    file := seq(SEGMENT_SIZE + 1, _ => 1);
    var a := FourAtWork(file);
    var b := CounterFull(file, a);
    var c := TwoAsleep(file, b);
    var d := ReleaseWakesOne(file, c);
    s := FalseAnswerStrands(file, d);
  }

  // ----- A worker that sleeps through completion -----

  lemma OnlySpurious(file: seq<Byte>, s: State)
    requires Shape(file, s) && s.service.Stored?
    requires |s.workers| == 2 && s.workers[0].phase.Ended? && s.workers[1].phase.Asleep?
    ensures forall step | Enabled(file, s, step) :: step == SpuriousWakeup(1) || step.Close?
  {
  }

  lemma SleepAfterCompletion(file: seq<Byte>, s: State) returns (s': State)
    requires |file| <= MAX_FILE_SIZE && Reachable(file, s) && Shape(file, s)
    requires s.table.IsCompleted() && s.table.Free() == {} && s.service.Polling? && |file| <= |s.table.data|
    requires |s.workers| == 2 && s.workers[0].phase.LoopHead? && !s.workers[0].closed && s.workers[1].phase.AtScan?
    ensures Reachable(file, s') && Shape(file, s')
    ensures s'.service.Stored? && s'.dups == s.dups && |s'.workers| == 2 && s'.workers[1].phase.Asleep?
    ensures s'.table.IsCompleted()
    ensures forall step | Enabled(file, s', step) :: step == SpuriousWakeup(1) || step.Close?
  {
    var s1 := Reach(file, s, ScanAndSleep(1));
    var s2 := Reach(file, s1, EnterLoop(0));
    var s3 := Reach(file, s2, CheckCompleted(0));
    s' := PollAndStore(file, s3);
    OnlySpurious(file, s');
  }

  /** A worker can sleep through completion: it tested before the last `set_segment` and scanned
      after it. From there on no step but a spurious wakeup, or closing a worker, is possible, and
      closing changes no phase, so joining that worker's thread need not return. */
  lemma SleeperCanBeForgotten() returns (file: seq<Byte>, s: State)
    ensures |file| <= MAX_FILE_SIZE && Reachable(file, s) && Shape(file, s)
    ensures s.service.Stored? && s.dups == 0 && 1 < |s.workers| && s.workers[1].phase.Asleep?
    ensures s.table.IsCompleted()
    ensures forall step | Enabled(file, s, step) :: step == SpuriousWakeup(1) || step.Close?
  {
    file := [7];
    var s0 := ReachFresh(file, 2);
    var a := Acquire(file, s0, 0, 0);
    var b := TestForCompletion(file, a, 1);
    assert Sleepers(b.workers) == {};
    var c := Complete(file, b, 0);
    assert c.table.Free() == {};
    s := SleepAfterCompletion(file, c);
  }

  // ----- A timeout before the first segment -----

  /** Before a worker has recorded a segment, two polls are enough for the service to release
      NO_SEGMENT_ID, which is no bit of the table. */
  lemma TimeoutBeforeFirstSegment() returns (file: seq<Byte>, s: State)
    ensures |file| <= MAX_FILE_SIZE && Reachable(file, s) && s.service.Undefined?
  {
    file := [7];
    var s0 := ReachFresh(file, 2);
    var a := Sweep(file, s0);
    var b := FindExpired(file, a);
    s := Reach(file, b, ReleaseOutside);
  }

  // ----- Accidents -----

  /** A spurious wakeup is what the forgotten sleeper needs: it finds the download completed and ends. */
  lemma AccidentEndsSleeper() returns (file: seq<Byte>, s: State, s': State)
    ensures |file| <= MAX_FILE_SIZE && Reachable(file, s) && Reachable(file, s')
    ensures s.service.Stored? && 1 < |s.workers| && s.workers[1].phase.Asleep?
    ensures s'.service == s.service && 1 < |s'.workers| && s'.workers[1].phase.Ended?
  {
    file, s := SleeperCanBeForgotten();
    var a := Reach(file, s, SpuriousWakeup(1));
    s' := Reach(file, a, CheckCompleted(1));
  }

  /** No host can be reached: every worker fails and the service gives up. */
  lemma NobodyAnswers() returns (file: seq<Byte>, s: State)
    ensures |file| <= MAX_FILE_SIZE && Reachable(file, s) && s.service.Aborted?
    ensures |s.workers| == 2 && forall w: nat | w < 2 :: s.workers[w].phase.Ended? && s.workers[w].closed
  {
    file := [7];
    var s0 := ReachFresh(file, 2);
    var a := Reach(file, s0, ConnectFails(0));
    var b := Reach(file, a, ConnectFails(1));
    var c := Reach(file, b, PollTimeout);
    s := Reach(file, c, AllUnavailable({}));
  }
}
