/** A download as a transition system: the workers (src/DownloadWorker.cpp), the segment table
    they share, and the service that polls it (src/DownloadService.cpp). Every step is one
    critical section or one atomic access, so runs are the interleavings of the threads. */
module Scheduler {
  import opened Bytes
  import opened Segments
  import opened CompleteResources

  datatype Phase =
    | Connecting
    | LoopHead                      // about to test `closed`
    | AtCheck                       // in get_segment, about to test for completion
    | AtScan                        // the test said "not completed", the lock is free again
    | Asleep                        // blocked on the condition variable
    | Granted(id: nat)              // get_segment returned, owned_segment_id not yet written
    | Receiving(id: nat, got: nat)  // request sent, `got` bytes of the reply are in the buffer
    | Received(id: nat)             // whole reply in the buffer, `timeouted` cleared
    | Failing(id: nat)              // in the handler of a failed download
    | Ended

  datatype Worker = Worker(phase: Phase, owned: nat, timeouted: bool, closed: bool)

  /** `dupsAtPoll` is history: the duplicates counted when the poll found the download completed. */
  datatype Service =
    | Polling
    | Deciding                    // the poll said "not completed"
    | Checking(k: nat)            // about to read `timeouted` of worker k
    | Expired(k: nat)             // worker k timed out, about to read `owned_segment_id` from it
    | Releasing(k: nat, id: nat)  // about to release the id read from worker k
    | Marking(k: nat)             // about to set `timeouted` of worker k
    | Storing(dupsAtPoll: nat)
    | Stored(dupsAtPoll: nat, bytes: seq<Byte>)
    | Aborted
    | Undefined                   // the id to release was outside the table

  /** `dups` is history: how often an already completed segment was completed again. */
  datatype State = State(table: Table, workers: seq<Worker>, service: Service, dups: nat)

  datatype Step =
    | Connect(w: nat)
    | ConnectFails(w: nat)
    | EnterLoop(w: nat)
    | CheckCompleted(w: nat)
    | Scan(w: nat, id: nat)
    | ScanAndSleep(w: nat)
    | SpuriousWakeup(w: nat)
    | RecordOwned(w: nat)
    | ReceiveBytes(w: nat, n: nat)
    | FinishReceive(w: nat)
    | SetSegment(w: nat)
    | Fail(w: nat)
    | ReleaseFailed(w: nat, wake: nat)
    | PollCompleted
    | PollTimeout
    | AllUnavailable(banned: set<nat>)
    | SomeAvailable
    | ReadTimeouted
    | ReadOwned
    | ReleaseTimeouted(wake: nat)
    | ReleaseOutside
    | MarkTimeouted
    | EndChecks
    | Store
    | Close(w: nat)

  predicate Holding(p: Phase) { p.Granted? || p.Receiving? || p.Received? || p.Failing? }

  predicate Holds(w: Worker, id: nat) { Holding(w.phase) && w.phase.id == id }

  /** On the way to a scan of the table. */
  predicate Pending(p: Phase) { p.AtCheck? || p.AtScan? }

  function Sleepers(ws: seq<Worker>): set<nat> { set w: nat | w < |ws| && ws[w].phase.Asleep? }

  function PendingWorkers(ws: seq<Worker>): set<nat> { set w: nat | w < |ws| && Pending(ws[w].phase) }

  function NewWorker(): Worker { Worker(Connecting, NO_SEGMENT_ID, false, false) }

  /** `data` is the uninitialised buffer. */
  ghost predicate Init(file: seq<Byte>, s: State) {
    var n := SegmentsCount(|file|);
    && s.table == Table(seq(n, _ => false), seq(n, _ => false), 0, s.table.data)
    && |s.table.data| == n * SEGMENT_SIZE
    && |s.workers| > 0
    && (forall w: nat | w < |s.workers| :: s.workers[w] == NewWorker())
    && s.service == Polling
    && s.dups == 0
  }

  function Move(s: State, w: nat, p: Phase): State
    requires w < |s.workers|
  {
    s.(workers := s.workers[w := s.workers[w].(phase := p)])
  }

  /** notify_one wakes a sleeper when there is one; which one is the step's choice. */
  predicate CanNotify(ws: seq<Worker>, wake: nat) {
    Sleepers(ws) != {} ==> wake in Sleepers(ws)
  }

  function Woken(w: Worker): Worker { if w.phase.Asleep? then w.(phase := AtCheck) else w }

  function NotifyOne(ws: seq<Worker>, wake: nat): seq<Worker> {
    if wake < |ws| then ws[wake := Woken(ws[wake])] else ws
  }

  function NotifyAll(ws: seq<Worker>): (r: seq<Worker>)
    ensures |r| == |ws|
  {
    seq(|ws|, w requires 0 <= w < |ws| => Woken(ws[w]))
  }

  predicate Enabled(file: seq<Byte>, s: State, step: Step)
    requires |s.table.busy| == |s.table.completed| == SegmentsCount(|file|)
  {
    match step
    case Connect(w) => w < |s.workers| && s.workers[w].phase.Connecting?
    case ConnectFails(w) => w < |s.workers| && s.workers[w].phase.Connecting?
    case EnterLoop(w) => w < |s.workers| && s.workers[w].phase.LoopHead?
    case CheckCompleted(w) => w < |s.workers| && s.workers[w].phase.AtCheck?
    case Scan(w, id) => w < |s.workers| && s.workers[w].phase.AtScan? && IsFirstFree(s.table, id)
    case ScanAndSleep(w) => w < |s.workers| && s.workers[w].phase.AtScan? && s.table.Free() == {}
    case SpuriousWakeup(w) => w < |s.workers| && s.workers[w].phase.Asleep?
    case RecordOwned(w) => w < |s.workers| && s.workers[w].phase.Granted?
    case ReceiveBytes(w, n) => w < |s.workers| && s.workers[w].phase.Receiving?
                               && s.workers[w].phase.got + n <= SEGMENT_SIZE
    case FinishReceive(w) => w < |s.workers| && s.workers[w].phase.Receiving?
                             && s.workers[w].phase.got == SEGMENT_SIZE
    case SetSegment(w) => w < |s.workers| && s.workers[w].phase.Received?
    case Fail(w) => w < |s.workers| && s.workers[w].phase.Receiving?
    case ReleaseFailed(w, wake) => w < |s.workers| && s.workers[w].phase.Failing? && CanNotify(s.workers, wake)
    case PollCompleted => s.service.Polling? && s.table.IsCompleted()
    case PollTimeout => s.service.Polling? && !s.table.IsCompleted()
    case AllUnavailable(banned) =>
      s.service.Deciding? && forall w: nat | w < |s.workers| :: s.workers[w].closed || w in banned
    case SomeAvailable => s.service.Deciding? // the worker found available may have closed since
    case ReadTimeouted => s.service.Checking? && s.service.k < |s.workers|
    case ReadOwned => s.service.Expired? && s.service.k < |s.workers|
    case ReleaseTimeouted(wake) => s.service.Releasing? && s.service.id < |s.table.busy| && CanNotify(s.workers, wake)
    case ReleaseOutside => s.service.Releasing? && s.service.id >= |s.table.busy|
    case MarkTimeouted => s.service.Marking? && s.service.k < |s.workers|
    case EndChecks => s.service.Checking? && s.service.k >= |s.workers|
    case Store => s.service.Storing? && |file| <= |s.table.data|
    case Close(w) => (s.service.Stored? || s.service.Aborted?) && w < |s.workers|
  }

  predicate WorkerShape(n: nat, w: Worker) {
    && (w.owned == NO_SEGMENT_ID || w.owned < n)
    && match w.phase
       case Granted(id) => id < n
       case Receiving(id, got) => id < n && w.owned == id && got <= SEGMENT_SIZE
       case Received(id) => id < n && w.owned == id
       case Failing(id) => id < n && w.owned == id
       case _ => true
  }

  /** The shape of every reachable state; the proof that runs keep it is `ShapeKept`. */
  ghost predicate Shape(file: seq<Byte>, s: State) {
    var n := SegmentsCount(|file|);
    && s.table.Valid(n)
    && (forall w: nat | w < |s.workers| :: WorkerShape(n, s.workers[w]))
    && match s.service
       case Releasing(k, id) => k < |s.workers| && (id == NO_SEGMENT_ID || id < n)
       case Expired(k) => k < |s.workers|
       case Marking(k) => k < |s.workers|
       case _ => true
  }

  ghost function Apply(file: seq<Byte>, s: State, step: Step): State
    requires Shape(file, s) && Enabled(file, s, step)
  {
    match step
    case Connect(w) => Move(s, w, LoopHead)
    case ConnectFails(w) => s.(workers := s.workers[w := s.workers[w].(phase := Ended, closed := true)])
    case EnterLoop(w) => Move(s, w, if s.workers[w].closed then Ended else AtCheck)
    case CheckCompleted(w) => Move(s, w, if s.table.IsCompleted() then Ended else AtScan)
    case Scan(w, id) => Move(s, w, Granted(id)).(table := s.table.SetBusy(id))
    case ScanAndSleep(w) => Move(s, w, Asleep)
    case SpuriousWakeup(w) => Move(s, w, AtCheck)
    case RecordOwned(w) =>
      var id := s.workers[w].phase.id;
      s.(workers := s.workers[w := s.workers[w].(phase := Receiving(id, 0), owned := id)])
    case ReceiveBytes(w, n) =>
      var p := s.workers[w].phase;
      var lo := p.id * SEGMENT_SIZE + p.got;
      Move(s, w, Receiving(p.id, p.got + n)).(table := s.table.Receive(Padded(file), lo, lo + n))
    case FinishReceive(w) =>
      s.(workers := s.workers[w := s.workers[w].(phase := Received(s.workers[w].phase.id), timeouted := false)])
    case SetSegment(w) =>
      var id := s.workers[w].phase.id;
      var t := s.table.SetSegment(id);
      var ws := s.workers[w := s.workers[w].(phase := LoopHead)];
      State(t, if t.IsCompleted() then NotifyAll(ws) else ws, s.service,
            if s.table.completed[id] then s.dups + 1 else s.dups)
    case Fail(w) => Move(s, w, Failing(s.workers[w].phase.id))
    case ReleaseFailed(w, wake) =>
      s.(table := s.table.UnsetBusy(s.workers[w].owned),
         workers := NotifyOne(s.workers[w := s.workers[w].(phase := Ended, closed := true)], wake))
    case PollCompleted => s.(service := Storing(s.dups))
    case PollTimeout => s.(service := Deciding)
    case AllUnavailable(_) => s.(service := Aborted)
    case SomeAvailable => s.(service := Checking(0))
    case ReadTimeouted =>
      var k := s.service.k;
      s.(service := if s.workers[k].timeouted then Expired(k) else Marking(k))
    case ReadOwned => s.(service := Releasing(s.service.k, s.workers[s.service.k].owned))
    case ReleaseTimeouted(wake) =>
      s.(table := s.table.UnsetBusy(s.service.id), workers := NotifyOne(s.workers, wake), service := Marking(s.service.k))
    case ReleaseOutside => s.(service := Undefined)
    case MarkTimeouted =>
      var k := s.service.k;
      s.(workers := s.workers[k := s.workers[k].(timeouted := true)], service := Checking(k + 1))
    case EndChecks => s.(service := Polling)
    case Store => s.(service := Stored(s.service.dupsAtPoll, s.table.data[..|file|]))
    case Close(w) => s.(workers := s.workers[w := s.workers[w].(closed := true)])
  }

  ghost predicate StepOf(file: seq<Byte>, s: State, step: Step, s': State) {
    Shape(file, s) && Enabled(file, s, step) && s' == Apply(file, s, step)
  }

  /** A run: states joined by enabled steps, from an initial state. */
  ghost predicate Run(file: seq<Byte>, trace: seq<State>, steps: seq<Step>) {
    && |trace| == |steps| + 1
    && Init(file, trace[0])
    && forall i: nat | i < |steps| :: StepOf(file, trace[i], steps[i], trace[i + 1])
  }
}
