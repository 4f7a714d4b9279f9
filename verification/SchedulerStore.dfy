/** Exactly when the stored file is right: runs compared that differ only in the uninitialised buffer. */
module SchedulerStore {
  import opened Bytes
  import opened Segments
  import opened Scheduler
  import opened SchedulerInvariants

  /** The step writes byte `p` of the buffer. */
  ghost predicate Writes(s: State, step: Step, p: nat) {
    && step.ReceiveBytes? && step.w < |s.workers| && s.workers[step.w].phase.Receiving?
    && var lo := s.workers[step.w].phase.id * SEGMENT_SIZE + s.workers[step.w].phase.got;
       lo <= p < lo + step.n
  }

  /** Byte `p` arrived from some peer before step `i`. */
  ghost predicate Arrived(trace: seq<State>, steps: seq<Step>, i: nat, p: nat)
    requires i <= |steps| < |trace|
  {
    exists j: nat :: j < i && Writes(trace[j], steps[j], p)
  }

  /** The same state but for the contents of the buffer and what was stored from it. */
  ghost predicate Alike(s: State, t: State) {
    && t.workers == s.workers && t.dups == s.dups
    && t.table == s.table.(data := t.table.data) && |t.table.data| == |s.table.data|
    && (t.service == s.service
        || (s.service.Stored? && t.service.Stored? && s.service.dupsAtPoll == t.service.dupsAtPoll))
  }

  lemma AlikeEnabled(file: seq<Byte>, s: State, t: State, step: Step)
    requires Shape(file, s) && Enabled(file, s, step) && Alike(s, t)
    ensures Shape(file, t) && Enabled(file, t, step)
  {
    assert t.table.Free() == s.table.Free();
    assert forall id: nat :: t.table.Downloadable(id) <==> s.table.Downloadable(id);
  }

  lemma AlikeTable(file: seq<Byte>, s: State, t: State, step: Step)
    requires Shape(file, s) && Enabled(file, s, step) && Shape(file, t) && Enabled(file, t, step) && Alike(s, t)
    ensures var a, b := Apply(file, s, step).table, Apply(file, t, step).table;
            b == a.(data := b.data) && |b.data| == |a.data|
  {
    TableAfter(file, s, step);
    TableAfter(file, t, step);
  }

  lemma AlikeKept(file: seq<Byte>, s: State, t: State, step: Step)
    requires Shape(file, s) && Enabled(file, s, step) && Alike(s, t)
    ensures Shape(file, t) && Enabled(file, t, step) && Alike(Apply(file, s, step), Apply(file, t, step))
  {
    AlikeEnabled(file, s, t, step);
    AlikeTable(file, s, t, step);
  }

  /** What a step does to one byte. */
  lemma ByteAfter(file: seq<Byte>, s: State, step: Step, p: nat)
    requires Shape(file, s) && Enabled(file, s, step) && p < |s.table.data|
    ensures |Apply(file, s, step).table.data| == |s.table.data| == |Padded(file)|
    ensures Apply(file, s, step).table.data[p] ==
              if Writes(s, step, p) then Padded(file)[p] else s.table.data[p]
  {
  }

  /** Two runs of the same steps by as many workers differ in the buffer only. */
  lemma {:induction false} SameStepsAlike(file: seq<Byte>, trace: seq<State>, trace': seq<State>, steps: seq<Step>, i: nat)
    requires Run(file, trace, steps) && Run(file, trace', steps) && i < |trace|
    requires |trace[0].workers| == |trace'[0].workers|
    ensures Alike(trace[i], trace'[i])
  {
    if i == 0 {
      assert trace[0].workers == trace'[0].workers;
    } else {
      SameStepsAlike(file, trace, trace', steps, i - 1);
      assert StepOf(file, trace[i - 1], steps[i - 1], trace[i]);
      assert StepOf(file, trace'[i - 1], steps[i - 1], trace'[i]);
      AlikeKept(file, trace[i - 1], trace'[i - 1], steps[i - 1]);
    }
  }

  lemma ArrivedNext(trace: seq<State>, steps: seq<Step>, i: nat, p: nat)
    requires i < |steps| < |trace|
    ensures Arrived(trace, steps, i + 1, p) <==> Arrived(trace, steps, i, p) || Writes(trace[i], steps[i], p)
  {
  }

  /** A byte holds the source if it arrived, and its initial value if it did not. */
  lemma {:induction false} ByteAt(file: seq<Byte>, trace: seq<State>, steps: seq<Step>, i: nat, p: nat)
    requires Run(file, trace, steps) && i < |trace| && p < |trace[0].table.data|
    ensures |trace[i].table.data| == |trace[0].table.data| == |Padded(file)|
    ensures trace[i].table.data[p] == if Arrived(trace, steps, i, p) then Padded(file)[p] else trace[0].table.data[p]
  {
    if i == 0 {
    } else {
      ByteAt(file, trace, steps, i - 1, p);
      assert StepOf(file, trace[i - 1], steps[i - 1], trace[i]);
      ByteAfter(file, trace[i - 1], steps[i - 1], p);
      ArrivedNext(trace, steps, i - 1, p);
    }
  }

  /** The first `i` steps of a run can be taken from any other buffer. */
  lemma {:induction false} Replay(file: seq<Byte>, trace: seq<State>, steps: seq<Step>, i: nat, data: seq<Byte>)
    returns (trace': seq<State>)
    requires |file| <= MAX_FILE_SIZE && Run(file, trace, steps) && i <= |steps| && |data| == |trace[0].table.data|
    ensures Run(file, trace', steps[..i]) && Alike(trace[i], trace'[i])
    ensures trace'[0].table.data == data && trace'[0].workers == trace[0].workers
  {
    if i == 0 {
      trace' := [trace[0].(table := trace[0].table.(data := data))];
    } else {
      var prefix := Replay(file, trace, steps, i - 1, data);
      assert StepOf(file, trace[i - 1], steps[i - 1], trace[i]);
      AlikeKept(file, trace[i - 1], prefix[i - 1], steps[i - 1]);
      var last := Apply(file, prefix[i - 1], steps[i - 1]);
      trace' := prefix + [last];
      forall j: nat | j < i ensures StepOf(file, trace'[j], steps[..i][j], trace'[j + 1]) {
        if j < i - 1 {
          assert StepOf(file, prefix[j], steps[..i - 1][j], prefix[j + 1]);
        }
      }
    }
  }

  ghost predicate SameDownload(file: seq<Byte>, trace: seq<State>, trace': seq<State>, steps: seq<Step>)
    requires |trace| == |steps| + 1
  {
    Run(file, trace', steps) && |trace'[0].workers| == |trace[0].workers|
  }

  lemma ArrivedAlike(file: seq<Byte>, trace: seq<State>, trace': seq<State>, steps: seq<Step>, i: nat, p: nat)
    requires Run(file, trace, steps) && SameDownload(file, trace, trace', steps) && i <= |steps|
    ensures Arrived(trace, steps, i, p) <==> Arrived(trace', steps, i, p)
  {
    forall j: nat | j < i ensures Writes(trace[j], steps[j], p) <==> Writes(trace'[j], steps[j], p) {
      SameStepsAlike(file, trace, trace', steps, j);
    }
  }

  lemma StoresSource(file: seq<Byte>, trace: seq<State>, trace': seq<State>, steps: seq<Step>, i: nat)
    requires |file| <= MAX_FILE_SIZE && Run(file, trace, steps) && SameDownload(file, trace, trace', steps)
    requires i + 1 == |steps| && steps[i] == Store && forall p: nat | p < |file| :: Arrived(trace, steps, i, p)
    ensures trace'[i + 1].service.Stored? && trace'[i + 1].service.bytes == file
  {
    CountBounds(|file|);
    assert StepOf(file, trace'[i], steps[i], trace'[i + 1]);
    forall p: nat | p < |file| ensures trace'[i].table.data[p] == file[p] {
      ArrivedAlike(file, trace, trace', steps, i, p);
      ByteAt(file, trace', steps, i, p);
    }
  }

  lemma StoresJunk(file: seq<Byte>, trace: seq<State>, steps: seq<Step>, i: nat, p: nat) returns (trace': seq<State>)
    requires |file| <= MAX_FILE_SIZE && Run(file, trace, steps)
    requires i + 1 == |steps| && steps[i] == Store && p < |file| && !Arrived(trace, steps, i, p)
    ensures SameDownload(file, trace, trace', steps)
    ensures trace'[i + 1].service.Stored? ==> trace'[i + 1].service.bytes != file
  {
    CountBounds(|file|);
    var data := trace[0].table.data[p := if file[p] == 0 then 1 else 0];
    trace' := Replay(file, trace, steps, i + 1, data);
    assert steps[..i + 1] == steps;
    assert StepOf(file, trace'[i], steps[i], trace'[i + 1]);
    ArrivedAlike(file, trace, trace', steps, i, p);
    ByteAt(file, trace', steps, i, p);
  }

  /** A download stores the source, whatever the uninitialised buffer held, exactly when every byte
      of the file arrived before the store. */
  lemma StoredRightIff(file: seq<Byte>, trace: seq<State>, steps: seq<Step>, i: nat)
    requires |file| <= MAX_FILE_SIZE && Run(file, trace, steps) && i + 1 == |steps| && steps[i] == Store
    ensures (forall trace': seq<State> | SameDownload(file, trace, trace', steps) ::
               trace'[i + 1].service.Stored? && trace'[i + 1].service.bytes == file)
            <==> (forall p: nat | p < |file| :: Arrived(trace, steps, i, p))
  {
    CountBounds(|file|);
    if forall p: nat | p < |file| :: Arrived(trace, steps, i, p) {
      forall trace': seq<State> | SameDownload(file, trace, trace', steps)
        ensures trace'[i + 1].service.Stored? && trace'[i + 1].service.bytes == file
      {
        StoresSource(file, trace, trace', steps, i);
      }
    } else {
      var p: nat :| p < |file| && !Arrived(trace, steps, i, p);
      var trace' := StoresJunk(file, trace, steps, i, p);
      assert SameDownload(file, trace, trace', steps);
    }
  }
}
