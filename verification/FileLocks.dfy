/** The lock lists of FileManager (src/FileManager.cpp), one step per critical section. A reader
    tests the write list and inserts into the read list in two steps; a writer holds the write-list
    mutex from before its scan of the read list until after its push. A thread that finds its file
    locked releases the mutexes first and waits on the condition variable in a later step. */
module FileLocks {
  import opened Histories

  type Name = seq<char>

  /** `Blocked` has found the file locked, `Waiting` is inside wait, `Retrying` has returned from it. */
  datatype Reader = Idle | Blocked(name: Name) | Waiting(name: Name) | Retrying(name: Name) | Checked(name: Name, at: nat)
  datatype Writer =
    | Resting | Holding(name: Name) | Blocked(name: Name) | Waiting(name: Name) | Retrying(name: Name)
    | Scanned(name: Name, at: nat)

  /** The times are history: the number of the step at which something happened. */
  datatype ReadEntry = ReadEntry(name: Name, checkedAt: nat, insertedAt: nat)
  datatype WriteEntry = WriteEntry(name: Name, scannedAt: nat)

  /** `notifies` counts the write_unlock calls that have erased an entry and not yet notified. */
  datatype State = State(rlocked: seq<ReadEntry>, wlocked: seq<WriteEntry>,
                         readers: seq<Reader>, writers: seq<Writer>, notifies: nat, now: nat)

  datatype Step =
    | ReaderCheck(r: nat, name: Name)
    | ReaderSleep(r: nat)
    | SpuriousReader(r: nat)
    | ReaderInsert(r: nat, opens: bool)
    | ReadUnlock(name: Name)
    | WriterAcquire(w: nat, name: Name)
    | WriterScan(w: nat)
    | WriterSleep(w: nat)
    | SpuriousWriter(w: nat)
    | WriterPush(w: nat)
    | WriteUnlock(name: Name)
    | Notify

  predicate ReadLocked(s: State, name: Name) { exists i: nat :: i < |s.rlocked| && s.rlocked[i].name == name }

  predicate WriteLocked(s: State, name: Name) { exists i: nat :: i < |s.wlocked| && s.wlocked[i].name == name }

  /** A writer that holds the write-list mutex. */
  predicate Locking(w: Writer) { w.Holding? || w.Scanned? }

  predicate MutexFree(s: State) { forall w: nat | w < |s.writers| :: !Locking(s.writers[w]) }

  function WakeReader(r: Reader): Reader { if r.Waiting? then Reader.Retrying(r.name) else r }

  function WakeWriter(w: Writer): Writer { if w.Waiting? then Writer.Retrying(w.name) else w }

  /** The list without its first entry of that name. read_unlock erases inside its loop; one matching
      entry is removed. */
  function RemoveRead(es: seq<ReadEntry>, name: Name): (r: seq<ReadEntry>)
    ensures forall e | e in r :: e in es
    ensures |r| <= |es|
  {
    if es == [] then [] else if es[0].name == name then es[1..] else [es[0]] + RemoveRead(es[1..], name)
  }

  function RemoveWrite(es: seq<WriteEntry>, name: Name): (r: seq<WriteEntry>)
    ensures forall e | e in r :: e in es
  {
    if es == [] then [] else if es[0].name == name then es[1..] else [es[0]] + RemoveWrite(es[1..], name)
  }

  predicate Init(s: State) {
    && s.rlocked == [] && s.wlocked == [] && s.notifies == 0 && s.now == 0
    && (forall r: nat | r < |s.readers| :: s.readers[r] == Idle)
    && (forall w: nat | w < |s.writers| :: s.writers[w] == Resting)
  }

  predicate Enabled(s: State, step: Step) {
    match step
    case ReaderCheck(r, name) =>
      r < |s.readers| && (s.readers[r] == Idle || s.readers[r] == Reader.Retrying(name)) && MutexFree(s)
    case ReaderSleep(r) => r < |s.readers| && s.readers[r].Blocked?
    case SpuriousReader(r) => r < |s.readers| && s.readers[r].Waiting?
    case ReaderInsert(r, _) => r < |s.readers| && s.readers[r].Checked?
    case ReadUnlock(_) => true
    case WriterAcquire(w, name) =>
      w < |s.writers| && (s.writers[w] == Resting || s.writers[w] == Writer.Retrying(name)) && MutexFree(s)
    case WriterScan(w) => w < |s.writers| && s.writers[w].Holding?
    case WriterSleep(w) => w < |s.writers| && s.writers[w].Blocked?
    case SpuriousWriter(w) => w < |s.writers| && s.writers[w].Waiting?
    case WriterPush(w) => w < |s.writers| && s.writers[w].Scanned?
    case WriteUnlock(_) => MutexFree(s)
    case Notify => s.notifies > 0
  }

  function Apply(s: State, step: Step): State
    requires Enabled(s, step)
  {
    var s1 := s.(now := s.now + 1);
    match step
    case ReaderCheck(r, name) =>
      s1.(readers := s.readers[r := if WriteLocked(s, name) then Reader.Blocked(name) else Checked(name, s.now)])
    case ReaderSleep(r) => s1.(readers := s.readers[r := Reader.Waiting(s.readers[r].name)])
    case SpuriousReader(r) => s1.(readers := s.readers[r := WakeReader(s.readers[r])])
    case ReaderInsert(r, opens) =>
      var name := s.readers[r].name;
      s1.(readers := s.readers[r := Idle],
          rlocked := if ReadLocked(s, name) || !opens then s.rlocked
                     else s.rlocked + [ReadEntry(name, s.readers[r].at, s.now)])
    case ReadUnlock(name) => s1.(rlocked := RemoveRead(s.rlocked, name))
    case WriterAcquire(w, name) => s1.(writers := s.writers[w := Holding(name)])
    case WriterScan(w) =>
      var name := s.writers[w].name;
      s1.(writers := s.writers[w := if ReadLocked(s, name) then Writer.Blocked(name) else Scanned(name, s.now)])
    case WriterSleep(w) => s1.(writers := s.writers[w := Writer.Waiting(s.writers[w].name)])
    case SpuriousWriter(w) => s1.(writers := s.writers[w := WakeWriter(s.writers[w])])
    case WriterPush(w) =>
      s1.(writers := s.writers[w := Resting],
          wlocked := s.wlocked + [WriteEntry(s.writers[w].name, s.writers[w].at)])
    case WriteUnlock(name) =>
      s1.(wlocked := RemoveWrite(s.wlocked, name), notifies := s.notifies + if WriteLocked(s, name) then 1 else 0)
    case Notify =>
      s1.(readers := seq(|s.readers|, r requires 0 <= r < |s.readers| => WakeReader(s.readers[r])),
          writers := seq(|s.writers|, w requires 0 <= w < |s.writers| => WakeWriter(s.writers[w])),
          notifies := s.notifies - 1)
  }

  ghost predicate Run(trace: seq<State>, steps: seq<Step>) {
    && |trace| == |steps| + 1
    && Init(trace[0])
    && forall i: nat | i < |steps| :: Enabled(trace[i], steps[i]) && trace[i + 1] == Apply(trace[i], steps[i])
  }

  /** A run taken one step further. */
  lemma Then(trace: seq<State>, steps: seq<Step>, step: Step, s: State) returns (trace': seq<State>, steps': seq<Step>)
    requires Run(trace, steps) && Enabled(trace[|steps|], step) && s == Apply(trace[|steps|], step)
    ensures Run(trace', steps') && |steps'| == |steps| + 1 && trace'[|steps'|] == s
  {
    trace', steps' := trace + [s], steps + [step];
  }

  /** The only writer locks a file nobody reads. */
  lemma WriteLock(trace: seq<State>, steps: seq<Step>, name: Name) returns (trace': seq<State>, steps': seq<Step>)
    requires Run(trace, steps)
    requires var s := trace[|steps|]; s.rlocked == [] && s.wlocked == [] && s.writers == [Resting]
    ensures Run(trace', steps') && |steps'| == |steps| + 3
    ensures var s := trace[|steps|];
            trace'[|steps'|] == s.(wlocked := [WriteEntry(name, s.now + 1)], now := s.now + 3)
  {
    var s := trace[|steps|];
    trace', steps' := Then(trace, steps, WriterAcquire(0, name), s.(writers := [Writer.Holding(name)], now := s.now + 1));
    trace', steps' := Then(trace', steps', WriterScan(0), s.(writers := [Scanned(name, s.now + 1)], now := s.now + 2));
    s := s.(wlocked := [WriteEntry(name, s.now + 1)], now := s.now + 3);
    trace', steps' := Then(trace', steps', WriterPush(0), s);
  }

  // ----- Order of events -----

  /** No file is opened for reading twice. */
  ghost predicate ReadOnce(es: seq<ReadEntry>) {
    forall i: nat, j: nat | i < j < |es| :: es[i].name != es[j].name
  }

  /** A reader that inserts next to a writer of the same file tested before the writer scanned and
      inserted after it. */
  ghost predicate Straddles(e: ReadEntry, scannedAt: nat) { e.checkedAt < scannedAt < e.insertedAt }

  ghost predicate Clocks(s: State) {
    && (forall v: nat, w: nat | v < w < |s.writers| :: !Locking(s.writers[v]) || !Locking(s.writers[w]))
    && (forall r: nat | r < |s.readers| && s.readers[r].Checked? :: s.readers[r].at < s.now)
    && (forall w: nat | w < |s.writers| && s.writers[w].Scanned? :: s.writers[w].at < s.now)
    && (forall i: nat | i < |s.wlocked| :: s.wlocked[i].scannedAt < s.now)
    && (forall i: nat | i < |s.rlocked| :: s.rlocked[i].insertedAt < s.now)
  }

  /** A reader between its two steps tested before every scan of a writer it could now meet. */
  ghost predicate ReadersFirst(s: State) {
    && (forall r: nat, w: nat | r < |s.readers| && s.readers[r].Checked? && w < |s.writers| && s.writers[w].Scanned? ::
          s.readers[r].at < s.writers[w].at)
    && (forall r: nat, i: nat | r < |s.readers| && s.readers[r].Checked? && i < |s.wlocked| ::
          s.wlocked[i].name == s.readers[r].name ==> s.readers[r].at < s.wlocked[i].scannedAt)
  }

  ghost predicate OverlapsStraddle(s: State) {
    && (forall i: nat, w: nat | i < |s.rlocked| && w < |s.writers| && s.writers[w].Scanned? ::
          s.writers[w].name == s.rlocked[i].name ==> Straddles(s.rlocked[i], s.writers[w].at))
    && (forall i: nat, j: nat | i < |s.rlocked| && j < |s.wlocked| ::
          s.rlocked[i].name == s.wlocked[j].name ==> Straddles(s.rlocked[i], s.wlocked[j].scannedAt))
  }

  ghost predicate Ordered(s: State) { ReadOnce(s.rlocked) && Clocks(s) && ReadersFirst(s) && OverlapsStraddle(s) }

  lemma {:induction false} RemoveReadOnce(es: seq<ReadEntry>, name: Name)
    requires ReadOnce(es)
    ensures ReadOnce(RemoveRead(es, name))
  {
    if es == [] || es[0].name == name {
    } else {
      RemoveReadOnce(es[1..], name);
      var r := RemoveRead(es[1..], name);
      forall j: nat | j < |r| ensures r[j].name != es[0].name {
        assert r[j] in es[1..];
      }
    }
  }

  lemma InAt<T>(s: seq<T>, x: T)
    requires x in s
    ensures exists j: nat :: j < |s| && s[j] == x
  {
    var j :| 0 <= j < |s| && s[j] == x;
    assert j as nat < |s|;
  }

  /** Where an entry of a shortened list comes from. */
  lemma RemovedFrom(s: State, name: Name)
    ensures forall i: nat | i < |RemoveRead(s.rlocked, name)| ::
              exists j: nat :: j < |s.rlocked| && s.rlocked[j] == RemoveRead(s.rlocked, name)[i]
    ensures forall i: nat | i < |RemoveWrite(s.wlocked, name)| ::
              exists j: nat :: j < |s.wlocked| && s.wlocked[j] == RemoveWrite(s.wlocked, name)[i]
  {
    var rs, ws := RemoveRead(s.rlocked, name), RemoveWrite(s.wlocked, name);
    forall i: nat | i < |rs| ensures exists j: nat :: j < |s.rlocked| && s.rlocked[j] == rs[i] {
      assert rs[i] in rs;
      InAt(s.rlocked, rs[i]);
    }
    forall i: nat | i < |ws| ensures exists j: nat :: j < |s.wlocked| && s.wlocked[j] == ws[i] {
      assert ws[i] in ws;
      InAt(s.wlocked, ws[i]);
    }
  }

  lemma ClocksKept(s: State, step: Step)
    requires Clocks(s) && Enabled(s, step)
    ensures Clocks(Apply(s, step))
  {
    if step.WriteUnlock? || step.ReadUnlock? { RemovedFrom(s, step.name); }
  }

  lemma ReadersFirstKept(s: State, step: Step)
    requires Clocks(s) && ReadersFirst(s) && Enabled(s, step)
    ensures ReadersFirst(Apply(s, step))
  {
    if step.WriteUnlock? { RemovedFrom(s, step.name); }
  }

  lemma OverlapsStraddleKept(s: State, step: Step)
    requires Clocks(s) && ReadersFirst(s) && OverlapsStraddle(s) && Enabled(s, step)
    ensures OverlapsStraddle(Apply(s, step))
  {
    if step.WriteUnlock? || step.ReadUnlock? { RemovedFrom(s, step.name); }
  }

  lemma OrderedKept(s: State, step: Step)
    requires Ordered(s) && Enabled(s, step)
    ensures Ordered(Apply(s, step))
  {
    if step.ReadUnlock? { RemoveReadOnce(s.rlocked, step.name); }
    ClocksKept(s, step);
    ReadersFirstKept(s, step);
    OverlapsStraddleKept(s, step);
  }

  lemma {:induction false} RunOrdered(trace: seq<State>, steps: seq<Step>, i: nat)
    requires Run(trace, steps) && i < |trace|
    ensures Ordered(trace[i]) && trace[i].now == i
  {
    if i == 0 {
    } else {
      RunOrdered(trace, steps, i - 1);
      assert trace[i] == Apply(trace[i - 1], steps[i - 1]);
      OrderedKept(trace[i - 1], steps[i - 1]);
    }
  }

  // ----- What the times refer to -----

  /** Step `k` opens `name` and adds it to the read list, by a reader that tested at step `t`. */
  ghost predicate InsertsAt(trace: seq<State>, steps: seq<Step>, name: Name, t: nat, k: nat) {
    && t < k < |steps| < |trace| && steps[k].ReaderInsert? && steps[k].r < |trace[k].readers|
    && trace[k].readers[steps[k].r] == Checked(name, t) && steps[k].opens && !ReadLocked(trace[k], name)
    && steps[t] == ReaderCheck(steps[k].r, name) && !WriteLocked(trace[t], name)
  }

  /** Step `j` is a writer's scan that finds `name` not read-locked. */
  ghost predicate ScansAt(trace: seq<State>, steps: seq<Step>, name: Name, j: nat) {
    && j < |steps| < |trace| && steps[j].WriterScan? && steps[j].w < |trace[j].writers|
    && trace[j].writers[steps[j].w] == Writer.Holding(name) && !ReadLocked(trace[j], name)
  }

  /** Step `t` is the test by which reader `r` found `name` not write-locked. */
  ghost predicate CheckedAt(trace: seq<State>, steps: seq<Step>, r: nat, name: Name, t: nat) {
    t < |steps| < |trace| && steps[t] == ReaderCheck(r, name) && !WriteLocked(trace[t], name)
  }

  ghost predicate ReadersTraced(trace: seq<State>, steps: seq<Step>, s: State) {
    forall r: nat | r < |s.readers| && s.readers[r].Checked? :: CheckedAt(trace, steps, r, s.readers[r].name, s.readers[r].at)
  }

  ghost predicate WritersTraced(trace: seq<State>, steps: seq<Step>, s: State) {
    && (forall w: nat | w < |s.writers| && s.writers[w].Scanned? :: ScansAt(trace, steps, s.writers[w].name, s.writers[w].at))
    && (forall k: nat | k < |s.wlocked| :: ScansAt(trace, steps, s.wlocked[k].name, s.wlocked[k].scannedAt))
  }

  ghost predicate ReadsTraced(trace: seq<State>, steps: seq<Step>, s: State) {
    forall k: nat | k < |s.rlocked| ::
      InsertsAt(trace, steps, s.rlocked[k].name, s.rlocked[k].checkedAt, s.rlocked[k].insertedAt)
  }

  /** The times recorded in step `i` are right, given those recorded before. */
  lemma ReadersTracedKept(trace: seq<State>, steps: seq<Step>, i: nat)
    requires Run(trace, steps) && i < |steps| && trace[i].now == i && ReadersTraced(trace, steps, trace[i])
    ensures ReadersTraced(trace, steps, trace[i + 1])
  {
    var s, s', step := trace[i], trace[i + 1], steps[i];
    assert Enabled(s, step) && s' == Apply(s, step);
    forall r: nat | r < |s'.readers| && s'.readers[r].Checked?
      ensures CheckedAt(trace, steps, r, s'.readers[r].name, s'.readers[r].at)
    {
      if step.ReaderCheck? && step.r == r {
        assert CheckedAt(trace, steps, r, step.name, i);
      } else {
        assert s.readers[r] == s'.readers[r];
      }
    }
  }

  lemma WritersTracedKept(trace: seq<State>, steps: seq<Step>, i: nat)
    requires Run(trace, steps) && i < |steps| && trace[i].now == i && WritersTraced(trace, steps, trace[i])
    ensures WritersTraced(trace, steps, trace[i + 1])
  {
    var s, s', step := trace[i], trace[i + 1], steps[i];
    assert Enabled(s, step) && s' == Apply(s, step);
    if step.WriteUnlock? { RemovedFrom(s, step.name); }
    forall w: nat | w < |s'.writers| && s'.writers[w].Scanned?
      ensures ScansAt(trace, steps, s'.writers[w].name, s'.writers[w].at)
    {
      if step.WriterScan? && step.w == w {
        assert ScansAt(trace, steps, s.writers[w].name, i);
      } else {
        assert s.writers[w] == s'.writers[w];
      }
    }
  }

  lemma ReadsTracedKept(trace: seq<State>, steps: seq<Step>, i: nat)
    requires Run(trace, steps) && i < |steps| && trace[i].now == i && Clocks(trace[i])
    requires ReadersTraced(trace, steps, trace[i]) && ReadsTraced(trace, steps, trace[i])
    ensures ReadsTraced(trace, steps, trace[i + 1])
  {
    var s, s', step := trace[i], trace[i + 1], steps[i];
    assert Enabled(s, step) && s' == Apply(s, step);
    if step.ReadUnlock? { RemovedFrom(s, step.name); }
    if step.ReaderInsert? {
      var c := s.readers[step.r];
      assert CheckedAt(trace, steps, step.r, c.name, c.at);
      assert step.opens && !ReadLocked(s, c.name) ==> InsertsAt(trace, steps, c.name, c.at, i);
    }
  }

  ghost predicate Traced(trace: seq<State>, steps: seq<Step>, s: State) {
    ReadersTraced(trace, steps, s) && WritersTraced(trace, steps, s) && ReadsTraced(trace, steps, s)
  }

  lemma TracedKept(trace: seq<State>, steps: seq<Step>, i: nat)
    requires Run(trace, steps) && i < |steps| && Traced(trace, steps, trace[i])
    ensures Traced(trace, steps, trace[i + 1])
  {
    RunOrdered(trace, steps, i);
    ReadersTracedKept(trace, steps, i);
    WritersTracedKept(trace, steps, i);
    ReadsTracedKept(trace, steps, i);
  }

  lemma {:induction false} RunTraced(trace: seq<State>, steps: seq<Step>, i: nat)
    requires Run(trace, steps) && i < |trace|
    ensures Traced(trace, steps, trace[i])
  {
    if i == 0 {
    } else {
      RunTraced(trace, steps, i - 1);
      TracedKept(trace, steps, i - 1);
    }
  }

  /** Before state `i` a reader tested the write list, a writer then scanned the read list, and the
      reader added its entry after that scan. */
  ghost predicate GapBefore(trace: seq<State>, steps: seq<Step>, name: Name, i: nat) {
    exists t: nat, j: nat, k: nat ::
      t < j < k < i && InsertsAt(trace, steps, name, t, k) && ScansAt(trace, steps, name, j)
  }

  ghost predicate LockedBothWays(s: State, name: Name) { ReadLocked(s, name) && WriteLocked(s, name) }

  /** A file in both lists got there through the gap in read_lock. */
  lemma OverlapNeedsGap(trace: seq<State>, steps: seq<Step>, i: nat, name: Name)
    requires Run(trace, steps) && i < |trace| && LockedBothWays(trace[i], name)
    ensures GapBefore(trace, steps, name, i)
  {
    RunOrdered(trace, steps, i);
    RunTraced(trace, steps, i);
    var s := trace[i];
    var a: nat :| a < |s.rlocked| && s.rlocked[a].name == name;
    var b: nat :| b < |s.wlocked| && s.wlocked[b].name == name;
    assert Straddles(s.rlocked[a], s.wlocked[b].scannedAt);
  }

  /** With no reader in that gap so far, the file is not read-locked and write-locked at once. */
  lemma ExclusionWithoutGap(trace: seq<State>, steps: seq<Step>, i: nat, name: Name)
    requires Run(trace, steps) && i < |trace| && !GapBefore(trace, steps, name, i)
    ensures !LockedBothWays(trace[i], name)
  {
    if LockedBothWays(trace[i], name) {
      OverlapNeedsGap(trace, steps, i, name);
    }
  }

  /** The test neither function makes again before adding its entry: the other list has the file. */
  predicate Meets(s: State, step: Step, name: Name)
    requires Enabled(s, step)
  {
    || (step.ReaderInsert? && step.opens && s.readers[step.r].name == name && WriteLocked(s, name))
    || (step.WriterPush? && s.writers[step.w].name == name && ReadLocked(s, name))
  }

  /** A name stays out of a list from which entries are only removed. */
  lemma LockedBefore(s: State, step: Step, name: Name)
    requires Enabled(s, step)
    ensures ReadLocked(Apply(s, step), name) ==>
              ReadLocked(s, name) || (step.ReaderInsert? && step.opens && s.readers[step.r].name == name)
    ensures WriteLocked(Apply(s, step), name) ==>
              WriteLocked(s, name) || (step.WriterPush? && s.writers[step.w].name == name)
  {
    if step.ReadUnlock? || step.WriteUnlock? { RemovedFrom(s, step.name); }
  }

  lemma MeetingOverlaps(s: State, step: Step, name: Name)
    requires Enabled(s, step) && Meets(s, step, name)
    ensures LockedBothWays(Apply(s, step), name)
  {
    var s' := Apply(s, step);
    assert forall i: nat | i < |s.rlocked| :: s'.rlocked[i] == s.rlocked[i];
    assert forall i: nat | i < |s.wlocked| :: s'.wlocked[i] == s.wlocked[i];
    if step.ReaderInsert? {
      assert !ReadLocked(s, name) ==> s'.rlocked[|s.rlocked|].name == name;
    } else {
      assert s'.wlocked[|s.wlocked|].name == name;
    }
  }

  /** Exactly when exclusion fails within `n` steps: some step adds the file to one list while the
      other list has it. */
  lemma OverlapsAt(trace: seq<State>, steps: seq<Step>, k: nat, name: Name)
    requires Run(trace, steps) && k < |steps|
    ensures !LockedBothWays(trace[k], name) ==>
              (LockedBothWays(trace[k + 1], name) <==> Meets(trace[k], steps[k], name))
  {
    LockedBefore(trace[k], steps[k], name);
    if Meets(trace[k], steps[k], name) {
      MeetingOverlaps(trace[k], steps[k], name);
    }
  }

  lemma OverlapIff(trace: seq<State>, steps: seq<Step>, n: nat, name: Name)
    requires Run(trace, steps) && n < |trace|
    ensures (exists i: nat :: i <= n && LockedBothWays(trace[i], name)) <==>
            (exists k: nat :: k < n && Meets(trace[k], steps[k], name))
  {
    var holds := (i: nat) => i < |trace| && LockedBothWays(trace[i], name);
    var causes := (k: nat) => k < |steps| && Enabled(trace[k], steps[k]) && Meets(trace[k], steps[k], name);
    assert !ReadLocked(trace[0], name);
    forall k: nat | k < n && !holds(k) ensures holds(k + 1) <==> causes(k) {
      OverlapsAt(trace, steps, k, name);
    }
    FirstTime(holds, causes, n);
    if i: nat :| i <= n && LockedBothWays(trace[i], name) { assert holds(i); }
    if k: nat :| k < n && Meets(trace[k], steps[k], name) { assert causes(k); }
  }

  /** The gap is real: test, scan, push and insert, in that order, lock the file both ways. */
  lemma GapBreaksExclusion(name: Name) returns (trace: seq<State>, steps: seq<Step>)
    ensures Run(trace, steps) && |steps| == 5
    ensures LockedBothWays(trace[5], name)
  {
    var s := State([], [], [Idle], [Resting], 0, 0);
    trace, steps := [s], [];
    trace, steps := Then(trace, steps, ReaderCheck(0, name), s.(readers := [Checked(name, 0)], now := 1));
    trace, steps := WriteLock(trace, steps, name);
    s := State([ReadEntry(name, 0, 4)], [WriteEntry(name, 2)], [Idle], [Resting], 0, 5);
    trace, steps := Then(trace, steps, ReaderInsert(0, true), s);
    assert s.rlocked[0].name == name && s.wlocked[0].name == name;
  }

  // ----- Waiting -----

  /** Whether a step is a write_unlock that erases an entry, the only source of notifications. */
  predicate Unlocks(s: State, step: Step) { step.WriteUnlock? && WriteLocked(s, step.name) }

  function UnlockCount(trace: seq<State>, steps: seq<Step>, n: nat): (c: nat)
    requires n <= |steps| < |trace|
  {
    if n == 0 then 0 else UnlockCount(trace, steps, n - 1) + if Unlocks(trace[n - 1], steps[n - 1]) then 1 else 0
  }

  function NotifyCount(steps: seq<Step>, n: nat): (c: nat)
    requires n <= |steps|
  {
    if n == 0 then 0 else NotifyCount(steps, n - 1) + if steps[n - 1].Notify? then 1 else 0
  }

  /** Every notification answers one erased write lock; the rest are still to come. */
  lemma {:induction false} NotifiesAreUnlocks(trace: seq<State>, steps: seq<Step>, n: nat)
    requires Run(trace, steps) && n < |trace|
    ensures NotifyCount(steps, n) + trace[n].notifies == UnlockCount(trace, steps, n)
  {
    if n == 0 {
    } else {
      NotifiesAreUnlocks(trace, steps, n - 1);
      assert Enabled(trace[n - 1], steps[n - 1]) && trace[n] == Apply(trace[n - 1], steps[n - 1]);
    }
  }

  ghost predicate WriterWaits(s: State, w: nat, name: Name) { w < |s.writers| && s.writers[w] == Writer.Waiting(name) }

  ghost predicate ReaderWaits(s: State, r: nat, name: Name) { r < |s.readers| && s.readers[r] == Reader.Waiting(name) }

  lemma WriterWaitsNext(s: State, step: Step, w: nat, name: Name)
    requires Enabled(s, step) && WriterWaits(s, w, name)
    ensures WriterWaits(Apply(s, step), w, name) <==> step != Notify && step != SpuriousWriter(w)
  {
  }

  lemma ReaderWaitsNext(s: State, step: Step, r: nat, name: Name)
    requires Enabled(s, step) && ReaderWaits(s, r, name)
    ensures ReaderWaits(Apply(s, step), r, name) <==> step != Notify && step != SpuriousReader(r)
  {
  }

  /** A waiting writer waits exactly as long as nothing notifies and nothing wakes it by accident;
      read_unlock does not end its wait. */
  lemma {:induction false} WriterWaitsIff(trace: seq<State>, steps: seq<Step>, i: nat, j: nat, w: nat, name: Name)
    requires Run(trace, steps) && i <= j < |trace| && WriterWaits(trace[i], w, name)
    ensures (forall m: nat | i <= m <= j :: WriterWaits(trace[m], w, name)) <==>
            (forall k: nat | i <= k < j :: steps[k] != Notify && steps[k] != SpuriousWriter(w))
  {
    if i == j {
    } else {
      WriterWaitsIff(trace, steps, i, j - 1, w, name);
      if WriterWaits(trace[j - 1], w, name) {
        assert Enabled(trace[j - 1], steps[j - 1]) && trace[j] == Apply(trace[j - 1], steps[j - 1]);
        WriterWaitsNext(trace[j - 1], steps[j - 1], w, name);
      }
    }
  }

  /** While the only writer waits, nothing is added to the write list. */
  lemma LoneWriterStep(s: State, step: Step, name: Name)
    requires Enabled(s, step) && |s.writers| == 1 && WriterWaits(s, 0, name) && s.wlocked == [] && s.notifies == 0
    requires step != SpuriousWriter(0)
    ensures var s' := Apply(s, step);
            |s'.writers| == 1 && WriterWaits(s', 0, name) && s'.wlocked == [] && s'.notifies == 0
  {
  }

  /** The download code relies on there being one writer. If it waits while no file is write-locked and
      no notification is under way, then only an accident ends the wait, whatever the readers do. */
  lemma {:induction false} LoneWriterWaits(trace: seq<State>, steps: seq<Step>, i: nat, j: nat, name: Name)
    requires Run(trace, steps) && i <= j < |trace|
    requires |trace[i].writers| == 1 && WriterWaits(trace[i], 0, name)
    requires trace[i].wlocked == [] && trace[i].notifies == 0
    requires forall k: nat | i <= k < j :: steps[k] != SpuriousWriter(0)
    ensures |trace[j].writers| == 1 && WriterWaits(trace[j], 0, name)
    ensures trace[j].wlocked == [] && trace[j].notifies == 0
  {
    if i == j {
    } else {
      LoneWriterWaits(trace, steps, i, j - 1, name);
      assert Enabled(trace[j - 1], steps[j - 1]) && trace[j] == Apply(trace[j - 1], steps[j - 1]);
      LoneWriterStep(trace[j - 1], steps[j - 1], name);
    }
  }

  lemma {:induction false} ReaderWaitsIff(trace: seq<State>, steps: seq<Step>, i: nat, j: nat, r: nat, name: Name)
    requires Run(trace, steps) && i <= j < |trace| && ReaderWaits(trace[i], r, name)
    ensures (forall m: nat | i <= m <= j :: ReaderWaits(trace[m], r, name)) <==>
            (forall k: nat | i <= k < j :: steps[k] != Notify && steps[k] != SpuriousReader(r))
  {
    if i == j {
    } else {
      ReaderWaitsIff(trace, steps, i, j - 1, r, name);
      if ReaderWaits(trace[j - 1], r, name) {
        assert Enabled(trace[j - 1], steps[j - 1]) && trace[j] == Apply(trace[j - 1], steps[j - 1]);
        ReaderWaitsNext(trace[j - 1], steps[j - 1], r, name);
      }
    }
  }

  /** A thread waits for a file it could lock, and no notification is under way. */
  ghost predicate ReaderStranded(s: State, r: nat, name: Name) {
    ReaderWaits(s, r, name) && !WriteLocked(s, name) && s.notifies == 0
  }

  ghost predicate WriterStranded(s: State, w: nat, name: Name) {
    WriterWaits(s, w, name) && !ReadLocked(s, name) && s.notifies == 0
  }

  /** wait is entered without testing the list again, after the notification was given. */
  predicate SleepsTooLate(s: State, step: Step, r: nat, name: Name) {
    && step == ReaderSleep(r) && r < |s.readers| && s.readers[r] == Reader.Blocked(name)
    && !WriteLocked(s, name) && s.notifies == 0
  }

  /** Either the same on the writer's side, or read_unlock frees the file the writer waits for. */
  predicate LeavesWaiting(s: State, step: Step, w: nat, name: Name) {
    && w < |s.writers| && s.notifies == 0
    && (|| (step == WriterSleep(w) && s.writers[w] == Writer.Blocked(name) && !ReadLocked(s, name))
        || (step == ReadUnlock(name) && s.writers[w] == Writer.Waiting(name) && ReadLocked(s, name)))
  }

  /** read_unlock takes the file out of the list, since the list has it once. */
  lemma {:induction false} RemoveReadRemoves(es: seq<ReadEntry>, name: Name)
    requires ReadOnce(es)
    ensures forall i: nat | i < |RemoveRead(es, name)| :: RemoveRead(es, name)[i].name != name
  {
    if es == [] || es[0].name == name {
    } else {
      RemoveReadRemoves(es[1..], name);
    }
  }

  lemma {:induction false} RemoveReadKeepsOthers(es: seq<ReadEntry>, name: Name, e: ReadEntry)
    requires e in es && e.name != name
    ensures e in RemoveRead(es, name)
  {
    if es[0].name == name || es[0] == e {
    } else {
      RemoveReadKeepsOthers(es[1..], name, e);
    }
  }

  lemma {:induction false} RemoveWriteKeepsOthers(es: seq<WriteEntry>, name: Name, e: WriteEntry)
    requires e in es && e.name != name
    ensures e in RemoveWrite(es, name)
  {
    if es[0].name == name || es[0] == e {
    } else {
      RemoveWriteKeepsOthers(es[1..], name, e);
    }
  }

  /** Only read_unlock takes a file out of the read list, and only write_unlock out of the write list. */
  lemma LockedAfter(s: State, step: Step, name: Name)
    requires Enabled(s, step) && ReadOnce(s.rlocked)
    ensures step == ReadUnlock(name) ==> !ReadLocked(Apply(s, step), name)
    ensures ReadLocked(s, name) && step != ReadUnlock(name) ==> ReadLocked(Apply(s, step), name)
    ensures WriteLocked(s, name) && step != WriteUnlock(name) ==> WriteLocked(Apply(s, step), name)
  {
    var s' := Apply(s, step);
    if step == ReadUnlock(name) {
      RemoveReadRemoves(s.rlocked, name);
    } else if ReadLocked(s, name) {
      var i: nat :| i < |s.rlocked| && s.rlocked[i].name == name;
      if step.ReadUnlock? { RemoveReadKeepsOthers(s.rlocked, step.name, s.rlocked[i]); }
      assert s.rlocked[i] in s'.rlocked;
    }
    if WriteLocked(s, name) && step != WriteUnlock(name) {
      var i: nat :| i < |s.wlocked| && s.wlocked[i].name == name;
      if step.WriteUnlock? { RemoveWriteKeepsOthers(s.wlocked, step.name, s.wlocked[i]); }
      assert s.wlocked[i] in s'.wlocked;
    }
  }

  lemma ReaderStrands(s: State, step: Step, r: nat, name: Name)
    requires Enabled(s, step) && ReadOnce(s.rlocked) && !ReaderStranded(s, r, name)
    ensures ReaderStranded(Apply(s, step), r, name) <==> SleepsTooLate(s, step, r, name)
  {
    LockedAfter(s, step, name);
    LockedBefore(s, step, name);
  }

  lemma WriterStrands(s: State, step: Step, w: nat, name: Name)
    requires Enabled(s, step) && ReadOnce(s.rlocked) && !WriterStranded(s, w, name)
    ensures WriterStranded(Apply(s, step), w, name) <==> LeavesWaiting(s, step, w, name)
  {
    LockedAfter(s, step, name);
    LockedBefore(s, step, name);
  }

  lemma ReaderStrandsAt(trace: seq<State>, steps: seq<Step>, k: nat, r: nat, name: Name)
    requires Run(trace, steps) && k < |steps|
    ensures !ReaderStranded(trace[k], r, name) ==>
              (ReaderStranded(trace[k + 1], r, name) <==> SleepsTooLate(trace[k], steps[k], r, name))
  {
    RunOrdered(trace, steps, k);
    if !ReaderStranded(trace[k], r, name) {
      ReaderStrands(trace[k], steps[k], r, name);
    }
  }

  /** Exactly when a reader is left waiting for a file it could lock. */
  lemma ReaderStrandedIff(trace: seq<State>, steps: seq<Step>, n: nat, r: nat, name: Name)
    requires Run(trace, steps) && n < |trace|
    ensures (exists i: nat :: i <= n && ReaderStranded(trace[i], r, name)) <==>
            (exists k: nat :: k < n && SleepsTooLate(trace[k], steps[k], r, name))
  {
    var holds := (i: nat) => i < |trace| && ReaderStranded(trace[i], r, name);
    var causes := (k: nat) => k < |steps| && SleepsTooLate(trace[k], steps[k], r, name);
    forall k: nat | k < n && !holds(k) ensures holds(k + 1) <==> causes(k) {
      ReaderStrandsAt(trace, steps, k, r, name);
    }
    FirstTime(holds, causes, n);
    if i: nat :| i <= n && ReaderStranded(trace[i], r, name) { assert holds(i); }
    if k: nat :| k < n && SleepsTooLate(trace[k], steps[k], r, name) { assert causes(k); }
  }

  lemma WriterStrandsAt(trace: seq<State>, steps: seq<Step>, k: nat, w: nat, name: Name)
    requires Run(trace, steps) && k < |steps|
    ensures !WriterStranded(trace[k], w, name) ==>
              (WriterStranded(trace[k + 1], w, name) <==> LeavesWaiting(trace[k], steps[k], w, name))
  {
    RunOrdered(trace, steps, k);
    if !WriterStranded(trace[k], w, name) {
      WriterStrands(trace[k], steps[k], w, name);
    }
  }

  /** Exactly when a writer is left waiting for a file it could lock. */
  lemma WriterStrandedIff(trace: seq<State>, steps: seq<Step>, n: nat, w: nat, name: Name)
    requires Run(trace, steps) && n < |trace|
    ensures (exists i: nat :: i <= n && WriterStranded(trace[i], w, name)) <==>
            (exists k: nat :: k < n && LeavesWaiting(trace[k], steps[k], w, name))
  {
    var holds := (i: nat) => i < |trace| && WriterStranded(trace[i], w, name);
    var causes := (k: nat) => k < |steps| && LeavesWaiting(trace[k], steps[k], w, name);
    forall k: nat | k < n && !holds(k) ensures holds(k + 1) <==> causes(k) {
      WriterStrandsAt(trace, steps, k, w, name);
    }
    FirstTime(holds, causes, n);
    if i: nat :| i <= n && WriterStranded(trace[i], w, name) { assert holds(i); }
    if k: nat :| k < n && LeavesWaiting(trace[k], steps[k], w, name) { assert causes(k); }
  }

  /** The only writer finds its file read-locked and waits. */
  lemma WriterWaitsFor(trace: seq<State>, steps: seq<Step>, name: Name) returns (trace': seq<State>, steps': seq<Step>)
    requires Run(trace, steps)
    requires var s := trace[|steps|]; ReadLocked(s, name) && s.writers == [Resting]
    ensures Run(trace', steps') && |steps'| == |steps| + 3
    ensures var s := trace[|steps|]; trace'[|steps'|] == s.(writers := [Writer.Waiting(name)], now := s.now + 3)
  {
    var s := trace[|steps|];
    var s1 := s.(writers := [Writer.Holding(name)], now := s.now + 1);
    trace', steps' := Then(trace, steps, WriterAcquire(0, name), s1);
    assert ReadLocked(s1, name);
    trace', steps' := Then(trace', steps', WriterScan(0), s.(writers := [Writer.Blocked(name)], now := s.now + 2));
    trace', steps' := Then(trace', steps', WriterSleep(0), s.(writers := [Writer.Waiting(name)], now := s.now + 3));
  }

  /** The last reader closes the file and the waiting writer is not told: nothing is locked, no
      notification is coming, and the writer waits. */
  lemma ReadUnlockStrandsWriter(name: Name) returns (trace: seq<State>, steps: seq<Step>)
    ensures Run(trace, steps) && |steps| == 6
    ensures trace[6].rlocked == [] && trace[6].wlocked == []
    ensures WriterStranded(trace[6], 0, name)
  {
    var s := State([], [], [Idle], [Resting], 0, 0);
    trace, steps := [s], [];
    trace, steps := Then(trace, steps, ReaderCheck(0, name), s.(readers := [Checked(name, 0)], now := 1));
    s := State([ReadEntry(name, 0, 1)], [], [Idle], [Resting], 0, 2);
    trace, steps := Then(trace, steps, ReaderInsert(0, true), s);
    assert s.rlocked[0].name == name;
    trace, steps := WriterWaitsFor(trace, steps, name);
    trace, steps := Then(trace, steps, ReadUnlock(name), State([], [], [Idle], [Writer.Waiting(name)], 0, 6));
  }

  /** The only writer unlocks its file and notifies while the reader is on its way into wait. */
  lemma UnlockAndNotify(trace: seq<State>, steps: seq<Step>, name: Name) returns (trace': seq<State>, steps': seq<Step>)
    requires Run(trace, steps)
    requires var s := trace[|steps|];
             && |s.wlocked| == 1 && s.wlocked[0].name == name && s.notifies == 0
             && s.writers == [Resting] && s.readers == [Reader.Blocked(name)]
    ensures Run(trace', steps') && |steps'| == |steps| + 2
    ensures var s := trace[|steps|]; trace'[|steps'|] == s.(wlocked := [], now := s.now + 2)
  {
    var s := trace[|steps|];
    trace', steps' := Then(trace, steps, WriteUnlock(name), s.(wlocked := [], notifies := 1, now := s.now + 1));
    trace', steps' := Then(trace', steps', Notify, s.(wlocked := [], now := s.now + 2));
  }

  /** A reader released the mutex and had not yet entered wait when the writer notified. */
  lemma NotifyBeforeSleep(name: Name) returns (trace: seq<State>, steps: seq<Step>)
    ensures Run(trace, steps) && |steps| == 7
    ensures trace[7].rlocked == [] && trace[7].wlocked == []
    ensures ReaderStranded(trace[7], 0, name)
  {
    var s := State([], [], [Idle], [Resting], 0, 0);
    trace, steps := WriteLock([s], [], name);
    s := State([], [WriteEntry(name, 1)], [Reader.Blocked(name)], [Resting], 0, 4);
    assert s.wlocked[0].name == name;
    trace, steps := Then(trace, steps, ReaderCheck(0, name), s);
    trace, steps := UnlockAndNotify(trace, steps, name);
    trace, steps := Then(trace, steps, ReaderSleep(0), State([], [], [Reader.Waiting(name)], [Resting], 0, 7));
  }

  /** An accidental wakeup is all the only writer needs, if its file is free: it scans again and locks it. */
  lemma AccidentFreesWriter(trace: seq<State>, steps: seq<Step>, name: Name)
    returns (trace': seq<State>, steps': seq<Step>)
    requires Run(trace, steps)
    requires trace[|steps|].writers == [Writer.Waiting(name)] && !ReadLocked(trace[|steps|], name)
    ensures Run(trace', steps') && |steps'| == |steps| + 4 && WriteLocked(trace'[|steps'|], name)
  {
    var s := trace[|steps|];
    var s1 := s.(writers := [Writer.Retrying(name)], now := s.now + 1);
    trace', steps' := Then(trace, steps, SpuriousWriter(0), s1);
    var s2 := s.(writers := [Writer.Holding(name)], now := s.now + 2);
    trace', steps' := Then(trace', steps', WriterAcquire(0, name), s2);
    assert !ReadLocked(s2, name);
    trace', steps' := Then(trace', steps', WriterScan(0), s.(writers := [Scanned(name, s.now + 2)], now := s.now + 3));
    var s4 := s.(writers := [Resting], wlocked := s.wlocked + [WriteEntry(name, s.now + 2)], now := s.now + 4);
    trace', steps' := Then(trace', steps', WriterPush(0), s4);
    assert s4.wlocked[|s.wlocked|].name == name;
  }

  /** And so for a reader, if no writer is at work. */
  lemma AccidentFreesReader(trace: seq<State>, steps: seq<Step>, r: nat, name: Name)
    returns (trace': seq<State>, steps': seq<Step>)
    requires Run(trace, steps) && MutexFree(trace[|steps|])
    requires ReaderWaits(trace[|steps|], r, name) && !WriteLocked(trace[|steps|], name)
    ensures Run(trace', steps') && |steps'| == |steps| + 2
    ensures r < |trace'[|steps'|].readers| && trace'[|steps'|].readers[r].Checked?
    ensures trace'[|steps'|].readers[r].name == name
  {
    var s := trace[|steps|];
    var s1 := s.(readers := s.readers[r := Reader.Retrying(name)], now := s.now + 1);
    trace', steps' := Then(trace, steps, SpuriousReader(r), s1);
    assert !WriteLocked(s1, name) && MutexFree(s1);
    trace', steps' := Then(trace', steps', ReaderCheck(r, name), Apply(s1, ReaderCheck(r, name)));
  }

  // ----- Who is held up, and by what -----

  /** The reader has found `name` locked and has not yet found it free. */
  predicate ReaderHeldUp(r: Reader, name: Name) {
    r == Reader.Blocked(name) || r == Reader.Waiting(name) || r == Reader.Retrying(name)
  }

  predicate WriterHeldUp(w: Writer, name: Name) {
    w == Writer.Blocked(name) || w == Writer.Waiting(name) || w == Writer.Retrying(name)
  }

  /** At step `t` reader `r` found `name` write-locked, and it has not tested again up to state `i`. */
  ghost predicate FoundLockedAt(trace: seq<State>, steps: seq<Step>, r: nat, name: Name, t: nat, i: nat)
    requires i < |trace| == |steps| + 1
  {
    && t < i && steps[t] == ReaderCheck(r, name) && WriteLocked(trace[t], name)
    && forall m: nat | t < m <= i :: r < |trace[m].readers| && ReaderHeldUp(trace[m].readers[r], name)
  }

  ghost predicate FoundReadAt(trace: seq<State>, steps: seq<Step>, w: nat, name: Name, t: nat, i: nat)
    requires i < |trace| == |steps| + 1
  {
    && t < i && steps[t] == WriterScan(w) && w < |trace[t].writers| && trace[t].writers[w] == Writer.Holding(name)
    && ReadLocked(trace[t], name)
    && (forall m: nat | t < m <= i :: w < |trace[m].writers| && WriterHeldUp(trace[m].writers[w], name))
  }

  lemma ReaderHeldUpBefore(s: State, step: Step, r: nat, name: Name)
    requires Enabled(s, step) && r < |Apply(s, step).readers| && ReaderHeldUp(Apply(s, step).readers[r], name)
    ensures r < |s.readers|
    ensures ReaderHeldUp(s.readers[r], name) || (step == ReaderCheck(r, name) && WriteLocked(s, name))
    ensures step == ReaderCheck(r, name) ==> WriteLocked(s, name)
  {
  }

  lemma WriterHeldUpBefore(s: State, step: Step, w: nat, name: Name)
    requires Enabled(s, step) && w < |Apply(s, step).writers| && WriterHeldUp(Apply(s, step).writers[w], name)
    ensures w < |s.writers|
    ensures WriterHeldUp(s.writers[w], name)
            || (step == WriterScan(w) && s.writers[w] == Writer.Holding(name) && ReadLocked(s, name))
  {
  }

  /** A reader is held up only by a write lock on its own file, which its last test found. */
  lemma {:induction false} ReaderHeldUpByOwnFile(trace: seq<State>, steps: seq<Step>, i: nat, r: nat, name: Name)
    requires Run(trace, steps) && i < |trace| && r < |trace[i].readers| && ReaderHeldUp(trace[i].readers[r], name)
    ensures exists t: nat :: FoundLockedAt(trace, steps, r, name, t, i)
  {
    if i == 0 {
    } else {
      var k := i - 1;
      assert Enabled(trace[k], steps[k]) && trace[i] == Apply(trace[k], steps[k]);
      ReaderHeldUpBefore(trace[k], steps[k], r, name);
      if steps[k] == ReaderCheck(r, name) {
        assert FoundLockedAt(trace, steps, r, name, k, i);
      } else {
        ReaderHeldUpByOwnFile(trace, steps, k, r, name);
        var t: nat :| FoundLockedAt(trace, steps, r, name, t, k);
        assert FoundLockedAt(trace, steps, r, name, t, i);
      }
    }
  }

  /** A writer is held up only by a read lock on its own file, which its last scan found. */
  lemma {:induction false} WriterHeldUpByOwnFile(trace: seq<State>, steps: seq<Step>, i: nat, w: nat, name: Name)
    requires Run(trace, steps) && i < |trace| && w < |trace[i].writers| && WriterHeldUp(trace[i].writers[w], name)
    ensures exists t: nat :: FoundReadAt(trace, steps, w, name, t, i)
  {
    if i == 0 {
    } else {
      var k := i - 1;
      assert Enabled(trace[k], steps[k]) && trace[i] == Apply(trace[k], steps[k]);
      WriterHeldUpBefore(trace[k], steps[k], w, name);
      if WriterHeldUp(trace[k].writers[w], name) {
        WriterHeldUpByOwnFile(trace, steps, k, w, name);
        var t: nat :| FoundReadAt(trace, steps, w, name, t, k);
        assert FoundReadAt(trace, steps, w, name, t, i);
      } else {
        assert FoundReadAt(trace, steps, w, name, k, i);
      }
    }
  }

  /** So a file that is never locked the other way holds nobody up. */
  lemma NeverLockedNeverHeldUp(trace: seq<State>, steps: seq<Step>, i: nat, name: Name)
    requires Run(trace, steps) && i < |trace|
    ensures (forall j: nat | j < i :: !WriteLocked(trace[j], name)) ==>
              forall r: nat | r < |trace[i].readers| :: !ReaderHeldUp(trace[i].readers[r], name)
    ensures (forall j: nat | j < i :: !ReadLocked(trace[j], name)) ==>
              forall w: nat | w < |trace[i].writers| :: !WriterHeldUp(trace[i].writers[w], name)
  {
    forall r: nat | r < |trace[i].readers| && ReaderHeldUp(trace[i].readers[r], name)
      ensures exists j: nat :: j < i && WriteLocked(trace[j], name)
    {
      ReaderHeldUpByOwnFile(trace, steps, i, r, name);
    }
    forall w: nat | w < |trace[i].writers| && WriterHeldUp(trace[i].writers[w], name)
      ensures exists j: nat :: j < i && ReadLocked(trace[j], name)
    {
      WriterHeldUpByOwnFile(trace, steps, i, w, name);
    }
  }

  /** Between steps `t` and `i` it entered wait and was woken. */
  ghost predicate ReaderWaitedIn(steps: seq<Step>, r: nat, t: nat, i: nat)
    requires i <= |steps|
  {
    exists p: nat, u: nat :: t < p < u < i && steps[p] == ReaderSleep(r) && (steps[u] == Notify || steps[u] == SpuriousReader(r))
  }

  /** How far reader `r` has come since step `t`, at which it found `name` locked. */
  ghost predicate ReaderStage(trace: seq<State>, steps: seq<Step>, r: nat, name: Name, t: nat, i: nat)
    requires i < |trace| == |steps| + 1
  {
    && r < |trace[i].readers|
    && match trace[i].readers[r]
       case Blocked(n) => n == name
       case Waiting(n) => n == name && exists p: nat :: t < p < i && steps[p] == ReaderSleep(r)
       case Retrying(n) => n == name && ReaderWaitedIn(steps, r, t, i)
       case _ => false
  }

  lemma ReaderStageNext(trace: seq<State>, steps: seq<Step>, r: nat, name: Name, t: nat, i: nat)
    requires Run(trace, steps) && t < i < |steps| && ReaderStage(trace, steps, r, name, t, i)
    requires !(steps[i].ReaderCheck? && steps[i].r == r)
    ensures ReaderStage(trace, steps, r, name, t, i + 1)
  {
    assert Enabled(trace[i], steps[i]) && trace[i + 1] == Apply(trace[i], steps[i]);
    if trace[i].readers[r].Waiting? && !trace[i + 1].readers[r].Waiting? {
      var p: nat :| t < p < i && steps[p] == ReaderSleep(r);
      assert t < p < i < i + 1 && (steps[i] == Notify || steps[i] == SpuriousReader(r));
    }
  }

  lemma {:induction false} ReaderStaged(trace: seq<State>, steps: seq<Step>, r: nat, name: Name, t: nat, i: nat)
    requires Run(trace, steps) && t < i < |trace| && steps[t] == ReaderCheck(r, name)
    requires WriteLocked(trace[t], name)
    requires forall m: nat | t < m < i :: !(steps[m].ReaderCheck? && steps[m].r == r)
    ensures ReaderStage(trace, steps, r, name, t, i)
  {
    if i == t + 1 {
      assert Enabled(trace[t], steps[t]) && trace[i] == Apply(trace[t], steps[t]);
    } else {
      ReaderStaged(trace, steps, r, name, t, i - 1);
      ReaderStageNext(trace, steps, r, name, t, i - 1);
    }
  }

  /** A reader that has found its file locked tests again only for that file, and only after it has waited and
      been woken. */
  lemma ReaderTriesAgainAfterWait(trace: seq<State>, steps: seq<Step>, r: nat, name: Name, t: nat, i: nat)
    requires Run(trace, steps) && t < i < |steps| && steps[t] == ReaderCheck(r, name)
    requires WriteLocked(trace[t], name)
    requires steps[i].ReaderCheck? && steps[i].r == r
    requires forall m: nat | t < m < i :: !(steps[m].ReaderCheck? && steps[m].r == r)
    ensures steps[i].name == name && ReaderWaitedIn(steps, r, t, i)
  {
    ReaderStaged(trace, steps, r, name, t, i);
    assert Enabled(trace[i], steps[i]);
  }

  /** Between steps `t` and `i` it entered wait and was woken. */
  ghost predicate WriterWaitedIn(steps: seq<Step>, w: nat, t: nat, i: nat)
    requires i <= |steps|
  {
    exists p: nat, u: nat :: t < p < u < i && steps[p] == WriterSleep(w) && (steps[u] == Notify || steps[u] == SpuriousWriter(w))
  }

  /** How far writer `w` has come since step `t`, at which it found `name` locked. */
  ghost predicate WriterStage(trace: seq<State>, steps: seq<Step>, w: nat, name: Name, t: nat, i: nat)
    requires i < |trace| == |steps| + 1
  {
    && w < |trace[i].writers|
    && match trace[i].writers[w]
       case Blocked(n) => n == name
       case Waiting(n) => n == name && exists p: nat :: t < p < i && steps[p] == WriterSleep(w)
       case Retrying(n) => n == name && WriterWaitedIn(steps, w, t, i)
       case _ => false
  }

  lemma WriterStageNext(trace: seq<State>, steps: seq<Step>, w: nat, name: Name, t: nat, i: nat)
    requires Run(trace, steps) && t < i < |steps| && WriterStage(trace, steps, w, name, t, i)
    requires !(steps[i].WriterAcquire? && steps[i].w == w)
    ensures WriterStage(trace, steps, w, name, t, i + 1)
  {
    assert Enabled(trace[i], steps[i]) && trace[i + 1] == Apply(trace[i], steps[i]);
    if trace[i].writers[w].Waiting? && !trace[i + 1].writers[w].Waiting? {
      var p: nat :| t < p < i && steps[p] == WriterSleep(w);
      assert t < p < i < i + 1 && (steps[i] == Notify || steps[i] == SpuriousWriter(w));
    }
  }

  lemma {:induction false} WriterStaged(trace: seq<State>, steps: seq<Step>, w: nat, name: Name, t: nat, i: nat)
    requires Run(trace, steps) && t < i < |trace| && steps[t] == WriterScan(w)
    requires w < |trace[t].writers| && trace[t].writers[w] == Writer.Holding(name) && ReadLocked(trace[t], name)
    requires forall m: nat | t < m < i :: !(steps[m].WriterAcquire? && steps[m].w == w)
    ensures WriterStage(trace, steps, w, name, t, i)
  {
    if i == t + 1 {
      assert Enabled(trace[t], steps[t]) && trace[i] == Apply(trace[t], steps[t]);
    } else {
      WriterStaged(trace, steps, w, name, t, i - 1);
      WriterStageNext(trace, steps, w, name, t, i - 1);
    }
  }

  /** The same for a writer that has found its file locked. */
  lemma WriterTriesAgainAfterWait(trace: seq<State>, steps: seq<Step>, w: nat, name: Name, t: nat, i: nat)
    requires Run(trace, steps) && t < i < |steps| && steps[t] == WriterScan(w)
    requires w < |trace[t].writers| && trace[t].writers[w] == Writer.Holding(name) && ReadLocked(trace[t], name)
    requires steps[i].WriterAcquire? && steps[i].w == w
    requires forall m: nat | t < m < i :: !(steps[m].WriterAcquire? && steps[m].w == w)
    ensures steps[i].name == name && WriterWaitedIn(steps, w, t, i)
  {
    WriterStaged(trace, steps, w, name, t, i);
    assert Enabled(trace[i], steps[i]);
  }

  /** A writer holds the write-list mutex from before its scan until its push. */
  lemma WriteListGuarded(s: State, step: Step, w: nat)
    requires Clocks(s) && Enabled(s, step) && w < |s.writers| && Locking(s.writers[w]) && step != WriterPush(w)
    ensures Apply(s, step).wlocked == s.wlocked
  {
  }

  /** So while it does, nobody else changes the write list. */
  lemma {:induction false} WriteListStill(trace: seq<State>, steps: seq<Step>, i: nat, j: nat, w: nat)
    requires Run(trace, steps) && i <= j < |trace|
    requires forall m: nat | i <= m <= j :: w < |trace[m].writers| && Locking(trace[m].writers[w])
    ensures trace[j].wlocked == trace[i].wlocked
  {
    if i == j {
    } else {
      var k := j - 1;
      WriteListStill(trace, steps, i, k, w);
      RunOrdered(trace, steps, k);
      assert Enabled(trace[k], steps[k]) && trace[j] == Apply(trace[k], steps[k]);
      assert Locking(trace[j].writers[w]);
      WriteListGuarded(trace[k], steps[k], w);
    }
  }

  lemma {:induction false} UncheckedUntilTest(trace: seq<State>, steps: seq<Step>, i: nat, j: nat, r: nat)
    requires Run(trace, steps) && i <= j < |trace| && r < |trace[i].readers| && !trace[i].readers[r].Checked?
    requires forall m: nat | i <= m < j :: !(steps[m].ReaderCheck? && steps[m].r == r)
    ensures r < |trace[j].readers| && !trace[j].readers[r].Checked?
  {
    if i == j {
    } else {
      UncheckedUntilTest(trace, steps, i, j - 1, r);
      assert Enabled(trace[j - 1], steps[j - 1]) && trace[j] == Apply(trace[j - 1], steps[j - 1]);
    }
  }

  /** One test, one insertion: between two insertions a reader tests the write list again. */
  lemma TestsBeforeEachInsert(trace: seq<State>, steps: seq<Step>, i: nat, j: nat, r: nat)
    requires Run(trace, steps) && i < j < |steps|
    requires steps[i].ReaderInsert? && steps[i].r == r && steps[j].ReaderInsert? && steps[j].r == r
    ensures exists m: nat :: i < m < j && steps[m].ReaderCheck? && steps[m].r == r
  {
    assert Enabled(trace[j], steps[j]);
    if forall m: nat | i < m < j :: !(steps[m].ReaderCheck? && steps[m].r == r) {
      assert Enabled(trace[i], steps[i]) && trace[i + 1] == Apply(trace[i], steps[i]);
      UncheckedUntilTest(trace, steps, i + 1, j, r);
    }
  }

  lemma {:induction false} UnscannedUntilScan(trace: seq<State>, steps: seq<Step>, i: nat, j: nat, w: nat)
    requires Run(trace, steps) && i <= j < |trace| && w < |trace[i].writers| && !trace[i].writers[w].Scanned?
    requires forall m: nat | i <= m < j :: steps[m] != WriterScan(w)
    ensures w < |trace[j].writers| && !trace[j].writers[w].Scanned?
  {
    if i == j {
    } else {
      UnscannedUntilScan(trace, steps, i, j - 1, w);
      assert Enabled(trace[j - 1], steps[j - 1]) && trace[j] == Apply(trace[j - 1], steps[j - 1]);
    }
  }

  /** One scan, one entry: between two pushes a writer scans the read list again. */
  lemma ScansBeforeEachPush(trace: seq<State>, steps: seq<Step>, i: nat, j: nat, w: nat)
    requires Run(trace, steps) && i < j < |steps| && steps[i] == WriterPush(w) && steps[j] == WriterPush(w)
    ensures exists m: nat :: i < m < j && steps[m] == WriterScan(w)
  {
    assert Enabled(trace[j], steps[j]);
    if forall m: nat | i < m < j :: steps[m] != WriterScan(w) {
      assert Enabled(trace[i], steps[i]) && trace[i + 1] == Apply(trace[i], steps[i]);
      UnscannedUntilScan(trace, steps, i + 1, j, w);
    }
  }

  // ----- Who can go on -----

  predicate ReaderStep(step: Step, r: nat) {
    match step
    case ReaderCheck(v, _) => v == r
    case ReaderSleep(v) => v == r
    case ReaderInsert(v, _) => v == r
    case _ => false
  }

  predicate WriterStep(step: Step, w: nat) {
    match step
    case WriterAcquire(v, _) => v == w
    case WriterScan(v) => v == w
    case WriterSleep(v) => v == w
    case WriterPush(v) => v == w
    case _ => false
  }

  /** A reader can go on by itself unless it waits; only its test needs the write-list mutex. */
  lemma ReaderGoesOnIff(s: State, r: nat)
    requires r < |s.readers|
    ensures (exists step :: ReaderStep(step, r) && Enabled(s, step)) <==>
              !s.readers[r].Waiting? && ((s.readers[r].Idle? || s.readers[r].Retrying?) ==> MutexFree(s))
  {
    var v := s.readers[r];
    if !v.Waiting? && ((v.Idle? || v.Retrying?) ==> MutexFree(s)) {
      var step := match v
        case Idle => ReaderCheck(r, [])
        case Retrying(name) => ReaderCheck(r, name)
        case Blocked(_) => ReaderSleep(r)
        case _ => ReaderInsert(r, true);
      assert ReaderStep(step, r) && Enabled(s, step);
    }
  }

  /** A writer can go on by itself unless it waits; it needs the mutex to begin and keeps it to the end. */
  lemma WriterGoesOnIff(s: State, w: nat)
    requires w < |s.writers|
    ensures (exists step :: WriterStep(step, w) && Enabled(s, step)) <==>
              !s.writers[w].Waiting? && ((s.writers[w].Resting? || s.writers[w].Retrying?) ==> MutexFree(s))
  {
    var v := s.writers[w];
    if !v.Waiting? && ((v.Resting? || v.Retrying?) ==> MutexFree(s)) {
      var step := match v
        case Resting => WriterAcquire(w, [])
        case Retrying(name) => WriterAcquire(w, name)
        case Blocked(_) => WriterSleep(w)
        case Holding(_) => WriterScan(w)
        case _ => WriterPush(w);
      assert WriterStep(step, w) && Enabled(s, step);
    }
  }

  // ----- The lists told from the history -----

  /** Step `k` read-locks the file for its reader, whether or not it adds the entry. */
  predicate ReadLocks(s: State, step: Step, name: Name) {
    && step.ReaderInsert? && step.r < |s.readers| && s.readers[step.r].Checked? && s.readers[step.r].name == name
    && (step.opens || ReadLocked(s, name))
  }

  ghost predicate ReadLockedFrom(trace: seq<State>, steps: seq<Step>, name: Name, k: nat, i: nat)
    requires i < |trace| == |steps| + 1
  {
    k < i && ReadLocks(trace[k], steps[k], name) && forall m: nat | k < m < i :: steps[m] != ReadUnlock(name)
  }

  lemma ReadLockedNext(s: State, step: Step, name: Name)
    requires Enabled(s, step) && ReadOnce(s.rlocked)
    ensures ReadLocked(Apply(s, step), name) <==>
              ReadLocks(s, step, name) || (ReadLocked(s, name) && step != ReadUnlock(name))
  {
    LockedAfter(s, step, name);
    LockedBefore(s, step, name);
    if ReadLocks(s, step, name) && !ReadLocked(s, name) {
      var s' := Apply(s, step);
      assert s'.rlocked[|s.rlocked|].name == name;
    }
  }

  lemma ReadLockedFromNext(trace: seq<State>, steps: seq<Step>, j: nat, i: nat, name: Name)
    requires |trace| == |steps| + 1 && j < |steps| && i == j + 1
    ensures (exists k: nat :: ReadLockedFrom(trace, steps, name, k, i)) <==>
              ReadLocks(trace[j], steps[j], name)
              || ((exists k: nat :: ReadLockedFrom(trace, steps, name, k, j)) && steps[j] != ReadUnlock(name))
  {
    if ReadLocks(trace[j], steps[j], name) { assert ReadLockedFrom(trace, steps, name, j, i); }
    if k: nat :| ReadLockedFrom(trace, steps, name, k, i) && k != j { assert ReadLockedFrom(trace, steps, name, k, j); }
    if k: nat :| ReadLockedFrom(trace, steps, name, k, j) && steps[j] != ReadUnlock(name) {
      assert ReadLockedFrom(trace, steps, name, k, i);
    }
  }

  /** A file is read-locked exactly if some read_lock since the last read_unlock succeeded: one read_unlock
      ends the lock for all its readers. */
  lemma {:induction false} ReadLockedIff(trace: seq<State>, steps: seq<Step>, i: nat, name: Name)
    requires Run(trace, steps) && i < |trace|
    ensures ReadLocked(trace[i], name) <==> exists k: nat :: ReadLockedFrom(trace, steps, name, k, i)
  {
    if i == 0 {
    } else {
      var j := i - 1;
      assert Enabled(trace[j], steps[j]) && trace[i] == Apply(trace[j], steps[j]);
      RunOrdered(trace, steps, j);
      ReadLockedNext(trace[j], steps[j], name);
      ReadLockedIff(trace, steps, j, name);
      ReadLockedFromNext(trace, steps, j, i, name);
    }
  }

  function EntryCount(es: seq<WriteEntry>, name: Name): nat {
    if es == [] then 0 else (if es[0].name == name then 1 else 0) + EntryCount(es[1..], name)
  }

  lemma {:induction false} EntryCountAppend(es: seq<WriteEntry>, e: WriteEntry, name: Name)
    ensures EntryCount(es + [e], name) == EntryCount(es, name) + if e.name == name then 1 else 0
  {
    if es == [] {
      assert es + [e] == [e] && [e][1..] == [];
    } else {
      assert (es + [e])[0] == es[0] && (es + [e])[1..] == es[1..] + [e];
      EntryCountAppend(es[1..], e, name);
    }
  }

  lemma {:induction false} EntryCountRemove(es: seq<WriteEntry>, x: Name, name: Name)
    ensures EntryCount(RemoveWrite(es, x), name) ==
              EntryCount(es, name) - if x == name && EntryCount(es, name) > 0 then 1 else 0
  {
    if es == [] {
    } else if es[0].name == x {
    } else {
      var w := [es[0]] + RemoveWrite(es[1..], x);
      assert RemoveWrite(es, x) == w && w[1..] == RemoveWrite(es[1..], x);
      EntryCountRemove(es[1..], x, name);
    }
  }

  lemma {:induction false} EntryCountLocked(es: seq<WriteEntry>, name: Name)
    ensures EntryCount(es, name) > 0 <==> exists i: nat :: i < |es| && es[i].name == name
  {
    if es == [] {
    } else {
      EntryCountLocked(es[1..], name);
      if i: nat :| i < |es| && es[i].name == name {
        if i > 0 { assert es[1..][i - 1].name == name; }
      }
      if i: nat :| i < |es[1..]| && es[1..][i].name == name { assert es[i + 1].name == name; }
    }
  }

  predicate Pushes(s: State, step: Step, name: Name) {
    step.WriterPush? && step.w < |s.writers| && s.writers[step.w].Scanned? && s.writers[step.w].name == name
  }

  function PushCount(trace: seq<State>, steps: seq<Step>, name: Name, n: nat): nat
    requires n <= |steps| < |trace|
  {
    if n == 0 then 0 else PushCount(trace, steps, name, n - 1) + if Pushes(trace[n - 1], steps[n - 1], name) then 1 else 0
  }

  function EraseCount(trace: seq<State>, steps: seq<Step>, name: Name, n: nat): nat
    requires n <= |steps| < |trace|
  {
    if n == 0 then 0
    else EraseCount(trace, steps, name, n - 1)
         + if steps[n - 1] == WriteUnlock(name) && WriteLocked(trace[n - 1], name) then 1 else 0
  }

  lemma EntriesNext(s: State, step: Step, name: Name)
    requires Enabled(s, step)
    ensures EntryCount(Apply(s, step).wlocked, name)
            == EntryCount(s.wlocked, name) + (if Pushes(s, step, name) then 1 else 0)
               - if step == WriteUnlock(name) && WriteLocked(s, name) then 1 else 0
  {
    EntryCountLocked(s.wlocked, name);
    match step
    case WriterPush(w) =>
      EntryCountAppend(s.wlocked, WriteEntry(s.writers[w].name, s.writers[w].at), name);
    case WriteUnlock(x) => EntryCountRemove(s.wlocked, x, name);
    case _ =>
  }

  /** Write locks are counted: each write_lock adds one entry and each write_unlock takes one away. */
  lemma {:induction false} WriteLocksCounted(trace: seq<State>, steps: seq<Step>, name: Name, n: nat)
    requires Run(trace, steps) && n < |trace|
    ensures EntryCount(trace[n].wlocked, name) + EraseCount(trace, steps, name, n) == PushCount(trace, steps, name, n)
  {
    if n == 0 {
    } else {
      WriteLocksCounted(trace, steps, name, n - 1);
      assert Enabled(trace[n - 1], steps[n - 1]) && trace[n] == Apply(trace[n - 1], steps[n - 1]);
      EntriesNext(trace[n - 1], steps[n - 1], name);
    }
  }
}
