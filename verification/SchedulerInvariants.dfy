/** What every step of a download keeps. */
module SchedulerInvariants {
  import opened Bytes
  import opened Segments
  import opened CompleteResources
  import opened Scheduler

  lemma InitShape(file: seq<Byte>, s: State)
    requires |file| <= MAX_FILE_SIZE && Init(file, s)
    ensures Shape(file, s)
  {
    CountBounds(|file|);
  }

  // ----- What a step changes -----

  /** What becomes of the table. */
  lemma TableAfter(file: seq<Byte>, s: State, step: Step)
    requires Shape(file, s) && Enabled(file, s, step)
    ensures var t, t' := s.table, Apply(file, s, step).table;
            && t'.Valid(SegmentsCount(|file|))
            && (!step.SetSegment? ==> t'.completed == t.completed && t'.counter == t.counter)
            && (!step.ReceiveBytes? ==> t'.data == t.data)
            && (!step.Scan? && !step.SetSegment? && !step.ReleaseFailed? && !step.ReleaseTimeouted? ==> t'.busy == t.busy)
  {
  }

  lemma NotifiedShape(file: seq<Byte>, s: State, step: Step, w: nat)
    requires Shape(file, s) && Enabled(file, s, step) && w < |s.workers|
    requires step.SetSegment? || step.ReleaseFailed? || step.ReleaseTimeouted?
    ensures |Apply(file, s, step).workers| == |s.workers|
    ensures WorkerShape(SegmentsCount(|file|), Apply(file, s, step).workers[w])
  {
  }

  lemma WorkerShapeKept(file: seq<Byte>, s: State, step: Step, w: nat)
    requires Shape(file, s) && Enabled(file, s, step) && w < |s.workers|
    ensures |Apply(file, s, step).workers| == |s.workers|
    ensures WorkerShape(SegmentsCount(|file|), Apply(file, s, step).workers[w])
  {
    if step.SetSegment? || step.ReleaseFailed? || step.ReleaseTimeouted? {
      NotifiedShape(file, s, step, w);
    }
  }

  lemma WorkerCount(file: seq<Byte>, s: State, step: Step)
    requires Shape(file, s) && Enabled(file, s, step)
    ensures |Apply(file, s, step).workers| == |s.workers|
  {
  }

  lemma ShapeKept(file: seq<Byte>, s: State, step: Step)
    requires Shape(file, s) && Enabled(file, s, step)
    ensures Shape(file, Apply(file, s, step))
    ensures |Apply(file, s, step).workers| == |s.workers|
  {
    TableAfter(file, s, step);
    WorkerCount(file, s, step);
    forall w: nat | w < |s.workers| { WorkerShapeKept(file, s, step, w); }
    if step.ReadOwned? {
      assert WorkerShape(SegmentsCount(|file|), s.workers[s.service.k]);
    }
  }

  /** Both hold the same segment, or neither holds one. */
  predicate SameHold(a: Worker, b: Worker) {
    Holding(a.phase) == Holding(b.phase) && (Holding(a.phase) ==> a.phase.id == b.phase.id)
  }

  ghost predicate SameHolders(ws: seq<Worker>, ws': seq<Worker>, except: int) {
    |ws| == |ws'| && forall v: nat | v < |ws| && v != except :: SameHold(ws[v], ws'[v])
  }

  /** The worker that takes or gives up a segment in this step, if any. */
  function Changes(step: Step): int {
    if step.Scan? || step.SetSegment? || step.ReleaseFailed? then step.w else -1
  }

  lemma HolderAfter(file: seq<Byte>, s: State, step: Step, v: nat)
    requires Shape(file, s) && Enabled(file, s, step) && v < |s.workers| == |Apply(file, s, step).workers|
    ensures v != Changes(step) ==> SameHold(s.workers[v], Apply(file, s, step).workers[v])
  {
  }

  lemma HoldersAfter(file: seq<Byte>, s: State, step: Step)
    requires Shape(file, s) && Enabled(file, s, step)
    ensures SameHolders(s.workers, Apply(file, s, step).workers, Changes(step))
  {
    WorkerCount(file, s, step);
    forall v: nat | v < |s.workers| { HolderAfter(file, s, step, v); }
  }

  // ----- The completion counter -----

  /** The 16-bit counter counts completed segments and repeated completions together. */
  ghost predicate Counted(s: State) {
    s.table.counter == (|s.table.Done()| + s.dups) % UINT16_LIMIT
  }

  lemma CountedSet(t: Table, dups: nat, id: nat)
    requires |t.busy| == |t.completed| && id < |t.busy| && t.counter == (|t.Done()| + dups) % UINT16_LIMIT
    ensures t.SetSegment(id).counter
            == (|t.SetSegment(id).Done()| + if t.completed[id] then dups + 1 else dups) % UINT16_LIMIT
  {
    assert t.SetSegment(id).Done() == t.Done() + {id};
    assert id in t.Done() <==> t.completed[id];
  }

  lemma CountedKept(file: seq<Byte>, s: State, step: Step)
    requires Shape(file, s) && Enabled(file, s, step) && Counted(s)
    ensures Counted(Apply(file, s, step))
  {
    if step.SetSegment? {
      CountedSet(s.table, s.dups, s.workers[step.w].phase.id);
    } else {
      TableAfter(file, s, step);
    }
  }

  /** Completed bits are never cleared. */
  lemma DoneGrows(file: seq<Byte>, s: State, step: Step)
    requires Shape(file, s) && Enabled(file, s, step)
    ensures s.table.Done() <= Apply(file, s, step).table.Done()
    ensures s.dups <= Apply(file, s, step).dups
  {
    if !step.SetSegment? { TableAfter(file, s, step); }
  }

  // ----- The buffer -----

  ghost predicate Agrees(data: seq<Byte>, source: seq<Byte>, lo: nat, hi: nat)
    requires |data| == |source|
  {
    forall p: nat | lo <= p < hi && p < |data| :: data[p] == source[p]
  }

  /** How many bytes of its slot a worker has already filled. */
  function Filled(p: Phase): nat {
    match p case Receiving(_, got) => got case Received(_) => SEGMENT_SIZE case _ => 0
  }

  /** Completed slots, and the received part of slots in flight, hold the padded source. */
  ghost predicate DataRight(file: seq<Byte>, s: State)
    requires Shape(file, s)
  {
    var src := Padded(file);
    && (forall id: nat | id < |s.table.completed| && s.table.completed[id] ::
          Agrees(s.table.data, src, id * SEGMENT_SIZE, (id + 1) * SEGMENT_SIZE))
    && (forall w: nat | w < |s.workers| && Holding(s.workers[w].phase) ::
          var p := s.workers[w].phase;
          Agrees(s.table.data, src, p.id * SEGMENT_SIZE, p.id * SEGMENT_SIZE + Filled(p)))
  }

  /** Receiving source bytes never damages agreement with the source, and extends it. */
  lemma ReceiveAgrees(t: Table, src: seq<Byte>, lo: nat, hi: nat, a: nat, b: nat)
    requires |src| == |t.data| && lo <= hi <= |t.data| && Agrees(t.data, src, a, b)
    ensures Agrees(t.Receive(src, lo, hi).data, src, a, if b == lo then hi else b)
  {
  }

  /** How the filled part of a worker's slot changes in a step. */
  lemma FilledAfter(file: seq<Byte>, s: State, step: Step, w: nat)
    requires Shape(file, s) && Enabled(file, s, step)
    requires w < |s.workers| == |Apply(file, s, step).workers|
    ensures var p, p' := s.workers[w].phase, Apply(file, s, step).workers[w].phase;
            Holding(p') ==>
              || Filled(p') == 0
              || (Holding(p) && p'.id == p.id && Filled(p') <= Filled(p))
              || (step.ReceiveBytes? && step.w == w && Holding(p) && p'.id == p.id && Filled(p') == Filled(p) + step.n)
  {
  }

  /** Byte `a` up to `b` of the buffer stay right, and a receive up to `b` makes the received bytes right. */
  lemma BytesAfter(file: seq<Byte>, s: State, step: Step, a: nat, b: nat, b': nat)
    requires Shape(file, s) && Enabled(file, s, step) && Agrees(s.table.data, Padded(file), a, b)
    requires b' <= b
             || (step.ReceiveBytes? && b == s.workers[step.w].phase.id * SEGMENT_SIZE + s.workers[step.w].phase.got
                 && b' == b + step.n)
    ensures |Apply(file, s, step).table.data| == |Padded(file)|
    ensures Agrees(Apply(file, s, step).table.data, Padded(file), a, b')
  {
    TableAfter(file, s, step);
    if step.ReceiveBytes? {
      var lo := s.workers[step.w].phase.id * SEGMENT_SIZE + s.workers[step.w].phase.got;
      ReceiveAgrees(s.table, Padded(file), lo, lo + step.n, a, b);
    }
  }

  lemma SliceOfSlice(s: seq<Byte>, a: nat, b: nat, lo: nat, hi: nat)
    requires a <= b <= |s| && lo <= hi <= b - a
    ensures s[a..b][lo..hi] == s[a + lo..a + hi]
  {
    var t := s[a..b];
    forall i: nat | i < hi - lo ensures t[lo..hi][i] == s[a + lo..a + hi][i] {
      assert t[lo + i] == s[a + lo + i];
    }
  }

  /** Copying part of the server's reply to segment `id` into the slot is receiving source bytes. */
  lemma ReplyIsReceive(file: seq<Byte>, t: Table, id: nat, reply: seq<Byte>, got: nat, n: nat)
    requires t.Valid(SegmentsCount(|file|)) && id < SegmentsCount(|file|) && reply == Slice(file, id)
    requires got + n <= SEGMENT_SIZE
    ensures var lo := id * SEGMENT_SIZE + got;
            && lo + n <= |t.data|
            && t.data[..lo] + reply[got..got + n] + t.data[lo + n..] == t.Receive(Padded(file), lo, lo + n).data
  {
    SliceOfSlice(Padded(file), id * SEGMENT_SIZE, (id + 1) * SEGMENT_SIZE, got, got + n);
  }

  lemma SlotKept(file: seq<Byte>, s: State, step: Step, id: nat)
    requires Shape(file, s) && Enabled(file, s, step) && DataRight(file, s) && Shape(file, Apply(file, s, step))
    requires id < SegmentsCount(|file|) && Apply(file, s, step).table.completed[id]
    ensures Agrees(Apply(file, s, step).table.data, Padded(file), id * SEGMENT_SIZE, (id + 1) * SEGMENT_SIZE)
  {
    TableAfter(file, s, step);
    if !s.table.completed[id] {
      assert Holds(s.workers[step.w], id) && Filled(s.workers[step.w].phase) == SEGMENT_SIZE;
    }
    BytesAfter(file, s, step, id * SEGMENT_SIZE, (id + 1) * SEGMENT_SIZE, (id + 1) * SEGMENT_SIZE);
  }

  lemma FilledKept(file: seq<Byte>, s: State, step: Step, w: nat)
    requires Shape(file, s) && Enabled(file, s, step) && DataRight(file, s) && Shape(file, Apply(file, s, step))
    requires w < |s.workers| == |Apply(file, s, step).workers| && Holding(Apply(file, s, step).workers[w].phase)
    ensures var p := Apply(file, s, step).workers[w].phase;
            Agrees(Apply(file, s, step).table.data, Padded(file), p.id * SEGMENT_SIZE, p.id * SEGMENT_SIZE + Filled(p))
  {
    var p, p' := s.workers[w].phase, Apply(file, s, step).workers[w].phase;
    FilledAfter(file, s, step, w);
    if Filled(p') > 0 {
      var lo := p.id * SEGMENT_SIZE;
      BytesAfter(file, s, step, lo, lo + Filled(p), lo + Filled(p'));
    }
  }

  lemma DataRightKept(file: seq<Byte>, s: State, step: Step)
    requires Shape(file, s) && Enabled(file, s, step) && DataRight(file, s)
    ensures Shape(file, Apply(file, s, step)) && DataRight(file, Apply(file, s, step))
  {
    ShapeKept(file, s, step);
    var s', src := Apply(file, s, step), Padded(file);
    forall id: nat | id < |s'.table.completed| && s'.table.completed[id]
      ensures Agrees(s'.table.data, src, id * SEGMENT_SIZE, (id + 1) * SEGMENT_SIZE)
    {
      SlotKept(file, s, step, id);
    }
    forall w: nat | w < |s'.workers| && Holding(s'.workers[w].phase)
      ensures var p := s'.workers[w].phase;
              Agrees(s'.table.data, src, p.id * SEGMENT_SIZE, p.id * SEGMENT_SIZE + Filled(p))
    {
      FilledKept(file, s, step, w);
    }
  }

  // ----- Sleeping and waking -----

  ghost predicate Held(ws: seq<Worker>, id: nat) { exists w: nat :: w < |ws| && Holds(ws[w], id) }

  /** A segment marked busy is held by some worker. */
  ghost predicate BusyHeld(s: State) {
    forall id: nat | id < |s.table.busy| && s.table.busy[id] :: Held(s.workers, id)
  }

  /** While anyone sleeps, at least as many workers are on their way to a scan as segments are free. */
  ghost predicate NoneStranded(s: State)
    requires |s.table.busy| == |s.table.completed|
  {
    Sleepers(s.workers) != {} ==> |s.table.Free()| <= |PendingWorkers(s.workers)|
  }

  /** A worker is told that the download is completed although a segment is free. */
  ghost predicate FalseAnswer(s: State, step: Step) {
    && step.CheckCompleted? && s.table.IsCompleted()
    && |s.table.busy| == |s.table.completed| && s.table.Free() != {}
  }

  /** A worker sleeps and the free segments outnumber the workers on their way to a scan. */
  ghost predicate Stranded(s: State) { |s.table.busy| == |s.table.completed| && !NoneStranded(s) }

  /** A false answer that takes away a worker some free segment needed while another worker sleeps. */
  ghost predicate Strands(s: State, step: Step) {
    && FalseAnswer(s, step)
    && Sleepers(s.workers) != {} && |s.table.Free()| >= |PendingWorkers(s.workers)|
  }

  lemma BusyHeldKept(file: seq<Byte>, s: State, step: Step)
    requires Shape(file, s) && Enabled(file, s, step) && BusyHeld(s)
    ensures BusyHeld(Apply(file, s, step))
  {
    var s' := Apply(file, s, step);
    HoldersAfter(file, s, step);
    TableAfter(file, s, step);
    forall id: nat | id < |s'.table.busy| && s'.table.busy[id] ensures Held(s'.workers, id) {
      if step.Scan? && id == step.id {
        assert Holds(s'.workers[step.w], id);
      } else {
        assert s.table.busy[id];
        var w: nat :| w < |s.workers| && Holds(s.workers[w], id);
        assert SameHold(s.workers[w], s'.workers[w]);
      }
    }
  }

  /** Without duplicates the counter is the number of completed segments. */
  lemma CompletedMeansAllDone(file: seq<Byte>, s: State)
    requires Shape(file, s) && Counted(s) && s.dups == 0 && s.table.IsCompleted()
    ensures s.table.Missing() == {} && s.table.Free() == {}
  {
    DoneAndMissing(s.table, SegmentsCount(|file|));
    assert s.table.Free() <= s.table.Missing();
  }

  lemma {:induction false} SubsetSize(a: set<nat>, b: set<nat>)
    requires a <= b
    ensures |a| <= |b|
  {
    if a == {} {
    } else {
      var x :| x in a;
      SubsetSize(a - {x}, b - {x});
    }
  }

  /** Releasing a segment frees at most that one, and notify_one then adds a worker to the scan. */
  lemma ReleaseKeepsNoneStranded(t: Table, ws: seq<Worker>, id: nat, wake: nat)
    requires |t.busy| == |t.completed| && id < |t.busy| && CanNotify(ws, wake)
    requires Sleepers(ws) != {} ==> |t.Free()| <= |PendingWorkers(ws)|
    ensures Sleepers(NotifyOne(ws, wake)) != {} ==>
              |t.UnsetBusy(id).Free()| <= |PendingWorkers(NotifyOne(ws, wake))|
  {
    var ws' := NotifyOne(ws, wake);
    assert Sleepers(ws') <= Sleepers(ws);
    if Sleepers(ws') != {} {
      var u: nat :| u in Sleepers(ws');
      assert u in Sleepers(ws) && ws[wake].phase.Asleep?;
      assert PendingWorkers(ws') == PendingWorkers(ws) + {wake};
      assert t.UnsetBusy(id).Free() <= t.Free() + {id};
      SubsetSize(t.UnsetBusy(id).Free(), t.Free() + {id});
    }
  }

  lemma SetSegmentKeepsNoneStranded(file: seq<Byte>, s: State, w: nat)
    requires Shape(file, s) && Enabled(file, s, Step.SetSegment(w)) && NoneStranded(s)
    ensures NoneStranded(Apply(file, s, Step.SetSegment(w)))
  {
    var s' := Apply(file, s, Step.SetSegment(w));
    if s'.table.IsCompleted() {
      assert Sleepers(s'.workers) == {};
    } else {
      assert Sleepers(s'.workers) == Sleepers(s.workers);
      assert PendingWorkers(s'.workers) == PendingWorkers(s.workers);
      SubsetSize(s'.table.Free(), s.table.Free());
    }
  }

  lemma ScanKeepsNoneStranded(file: seq<Byte>, s: State, w: nat, id: nat)
    requires Shape(file, s) && Enabled(file, s, Step.Scan(w, id)) && NoneStranded(s)
    ensures NoneStranded(Apply(file, s, Step.Scan(w, id)))
  {
    var s' := Apply(file, s, Step.Scan(w, id));
    assert s'.table.Free() == s.table.Free() - {id};
    assert PendingWorkers(s'.workers) == PendingWorkers(s.workers) - {w};
    assert Sleepers(s'.workers) == Sleepers(s.workers);
  }

  lemma OtherStepSets(file: seq<Byte>, s: State, step: Step)
    requires Shape(file, s) && Enabled(file, s, step)
    requires !step.ReleaseFailed? && !step.ReleaseTimeouted? && !step.SetSegment?
    requires !step.Scan? && !step.ScanAndSleep? && !(step.CheckCompleted? && s.table.IsCompleted())
    ensures var s' := Apply(file, s, step);
            && s'.table.busy == s.table.busy && s'.table.completed == s.table.completed
            && Sleepers(s'.workers) <= Sleepers(s.workers)
            && PendingWorkers(s.workers) <= PendingWorkers(s'.workers)
  {
  }

  lemma OtherStepKeepsNoneStranded(file: seq<Byte>, s: State, step: Step)
    requires Shape(file, s) && Enabled(file, s, step) && NoneStranded(s) && !FalseAnswer(s, step)
    requires !step.ReleaseFailed? && !step.ReleaseTimeouted? && !step.SetSegment?
    requires !step.Scan? && !step.ScanAndSleep?
    ensures NoneStranded(Apply(file, s, step))
  {
    var s' := Apply(file, s, step);
    if step.CheckCompleted? && s.table.IsCompleted() {
      assert s'.table == s.table && s.table.Free() == {};
    } else {
      OtherStepSets(file, s, step);
      assert s'.table.Free() == s.table.Free();
      SubsetSize(PendingWorkers(s.workers), PendingWorkers(s'.workers));
    }
  }

  /** Only a false answer can leave more free segments than workers on their way to them. */
  lemma NoneStrandedKept(file: seq<Byte>, s: State, step: Step)
    requires Shape(file, s) && Enabled(file, s, step) && NoneStranded(s) && !FalseAnswer(s, step)
    ensures NoneStranded(Apply(file, s, step))
  {
    var s' := Apply(file, s, step);
    match step
    case ReleaseFailed(w, wake) =>
      var ws := s.workers[w := s.workers[w].(phase := Ended, closed := true)];
      assert Sleepers(ws) == Sleepers(s.workers) && PendingWorkers(ws) == PendingWorkers(s.workers);
      ReleaseKeepsNoneStranded(s.table, ws, s.workers[w].owned, wake);
    case ReleaseTimeouted(wake) =>
      ReleaseKeepsNoneStranded(s.table, s.workers, s.service.id, wake);
    case SetSegment(w) =>
      SetSegmentKeepsNoneStranded(file, s, w);
    case Scan(w, id) =>
      ScanKeepsNoneStranded(file, s, w, id);
    case ScanAndSleep(w) =>
      assert s'.table.Free() == {};
    case _ =>
      OtherStepKeepsNoneStranded(file, s, step);
  }

  /** Told "completed", a worker ends and takes no part in anything else. */
  lemma AnswerSets(file: seq<Byte>, s: State, step: Step)
    requires Shape(file, s) && Enabled(file, s, step) && step.CheckCompleted? && s.table.IsCompleted()
    ensures var s' := Apply(file, s, step);
            && s'.table == s.table && Sleepers(s'.workers) == Sleepers(s.workers)
            && step.w in PendingWorkers(s.workers) && PendingWorkers(s'.workers) == PendingWorkers(s.workers) - {step.w}
  {
  }

  /** Which steps strand a sleeper that was not stranded before. */
  lemma StrandedNext(file: seq<Byte>, s: State, step: Step)
    requires Shape(file, s) && Enabled(file, s, step) && NoneStranded(s)
    ensures Stranded(Apply(file, s, step)) <==> Strands(s, step)
  {
    TableAfter(file, s, step);
    if FalseAnswer(s, step) {
      AnswerSets(file, s, step);
    } else {
      NoneStrandedKept(file, s, step);
    }
  }

  /** The sleeping workers are the waiting set that the methods of CompleteResource maintain. */
  lemma SleepersFollowTheTable(file: seq<Byte>, s: State, step: Step)
    requires Shape(file, s) && Enabled(file, s, step)
    ensures var s' := Apply(file, s, step);
            var before, after := Sleepers(s.workers), Sleepers(s'.workers);
            && (step.Scan? ==> after == before)
            && (step.ScanAndSleep? ==> after == before + {step.w})
            && (step.SetSegment? ==> after == if s'.table.IsCompleted() then {} else before)
            && (step.ReleaseFailed? || step.ReleaseTimeouted? ==>
                  if before == {} then after == {} else exists w: nat :: w in before && after == before - {w})
  {
    var s' := Apply(file, s, step);
    if (step.ReleaseFailed? || step.ReleaseTimeouted?) && Sleepers(s.workers) != {} {
      assert Sleepers(s'.workers) == Sleepers(s.workers) - {step.wake};
    }
  }

  // ----- Exclusive segments -----

  /** The step releases a segment that some other worker is still downloading. */
  ghost predicate InFlightRelease(s: State, step: Step) {
    match step
    case ReleaseTimeouted(_) => s.service.Releasing? && Held(s.workers, s.service.id)
    case ReleaseFailed(w, _) =>
      w < |s.workers| && exists v: nat :: v < |s.workers| && v != w && Holds(s.workers[v], s.workers[w].owned)
    case _ => false
  }

  /** A segment is busy exactly while one worker holds it, and then it is not completed. */
  ghost predicate Exclusive(s: State) {
    && |s.table.busy| == |s.table.completed|
    && (forall id: nat | id < |s.table.busy| :: s.table.busy[id] <==> Held(s.workers, id))
    && (forall v: nat, w: nat | v < |s.workers| && w < |s.workers| && v != w && Holding(s.workers[v].phase) ::
          !Holds(s.workers[w], s.workers[v].phase.id))
    && (forall id: nat | id < |s.table.busy| :: !(s.table.busy[id] && s.table.completed[id]))
  }

  lemma SameHeld(ws: seq<Worker>, ws': seq<Worker>, id: nat)
    requires SameHolders(ws, ws', -1)
    ensures Held(ws, id) <==> Held(ws', id)
  {
    if v: nat :| v < |ws| && Holds(ws[v], id) { assert Holds(ws'[v], id); }
    if v: nat :| v < |ws'| && Holds(ws'[v], id) { assert Holds(ws[v], id); }
  }

  /** Nobody takes or gives up a segment; what is released is held by nobody. */
  lemma ExclusiveSame(s: State, s': State, released: nat)
    requires Exclusive(s) && SameHolders(s.workers, s'.workers, -1) && s'.table.completed == s.table.completed
    requires s'.table.busy == s.table.busy
             || (released < |s.table.busy| && !Held(s.workers, released) && s'.table.busy == s.table.busy[released := false])
    ensures Exclusive(s')
  {
    forall id: nat ensures Held(s'.workers, id) <==> Held(s.workers, id) { SameHeld(s.workers, s'.workers, id); }
  }

  /** Worker `w` takes the free segment `id`. */
  lemma ExclusiveTake(s: State, s': State, w: nat, id: nat)
    requires Exclusive(s) && SameHolders(s.workers, s'.workers, w) && s'.table.completed == s.table.completed
    requires w < |s.workers| && !Holding(s.workers[w].phase) && Holds(s'.workers[w], id)
    requires s.table.Downloadable(id) && s'.table.busy == s.table.busy[id := true]
    ensures Exclusive(s')
  {
    assert !Held(s.workers, id);
    forall x: nat ensures Held(s'.workers, x) <==> Held(s.workers, x) || x == id {
      if v: nat :| v < |s.workers| && Holds(s.workers[v], x) { assert Holds(s'.workers[v], x); }
      if v: nat :| v < |s'.workers| && Holds(s'.workers[v], x) { assert v == w || Holds(s.workers[v], x); }
    }
  }

  /** Worker `w` gives up its segment, completed or not. */
  lemma ExclusiveDrop(s: State, s': State, w: nat)
    requires Exclusive(s) && SameHolders(s.workers, s'.workers, w)
    requires w < |s.workers| && Holding(s.workers[w].phase) && !Holding(s'.workers[w].phase)
    requires s.workers[w].phase.id < |s.table.busy| && s'.table.busy == s.table.busy[s.workers[w].phase.id := false]
    requires s'.table.completed == s.table.completed
             || s'.table.completed == s.table.completed[s.workers[w].phase.id := true]
    ensures Exclusive(s')
  {
    var id := s.workers[w].phase.id;
    forall x: nat ensures Held(s'.workers, x) <==> Held(s.workers, x) && x != id {
      if v: nat :| v < |s.workers| && Holds(s.workers[v], x) && x != id { assert Holds(s'.workers[v], x); }
      if v: nat :| v < |s'.workers| && Holds(s'.workers[v], x) { assert v != w && Holds(s.workers[v], x); }
    }
  }

  lemma ExclusiveKept(file: seq<Byte>, s: State, step: Step)
    requires Shape(file, s) && Enabled(file, s, step) && Exclusive(s) && !InFlightRelease(s, step)
    ensures Exclusive(Apply(file, s, step))
    ensures Apply(file, s, step).dups == s.dups
  {
    var s' := Apply(file, s, step);
    HoldersAfter(file, s, step);
    TableAfter(file, s, step);
    if step.Scan? {
      ExclusiveTake(s, s', step.w, step.id);
    } else if step.SetSegment? || step.ReleaseFailed? {
      assert Held(s.workers, s.workers[step.w].phase.id);
      ExclusiveDrop(s, s', step.w);
    } else {
      ExclusiveSame(s, s', if step.ReleaseTimeouted? then s.service.id else 0);
    }
  }

  /** Releasing an in-flight segment breaks exclusion at once: a held segment is not busy. */
  lemma InFlightReleaseBreaks(file: seq<Byte>, s: State, step: Step)
    requires Shape(file, s) && Enabled(file, s, step) && InFlightRelease(s, step)
    ensures !Exclusive(Apply(file, s, step))
  {
    var s' := Apply(file, s, step);
    var id := if step.ReleaseTimeouted? then s.service.id else s.workers[step.w].owned;
    var v: nat :| v < |s.workers| && Holds(s.workers[v], id) && (step.ReleaseFailed? ==> v != step.w);
    assert Holds(s'.workers[v], id) && !s'.table.busy[id];
  }
}
