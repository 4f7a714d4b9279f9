/** The segment table of one download, shared by all its workers (src/CompleteResource.cpp).
    `Table` is its value; the functions on it are the effects of the critical sections, and
    the class updates its fields in place to match them. */
module CompleteResources {
  import opened Bytes
  import opened Segments

  datatype Table = Table(busy: seq<bool>, completed: seq<bool>, counter: nat, data: seq<Byte>) {
    ghost predicate Valid(n: nat) {
      && n <= NO_SEGMENT_ID
      && |busy| == |completed| == n
      && |data| == n * SEGMENT_SIZE
      && counter < UINT16_LIMIT
    }

    predicate Downloadable(id: nat)
      requires |busy| == |completed|
    {
      id < |busy| && !busy[id] && !completed[id]
    }

    predicate IsCompleted() { counter == |busy| }

    function Done(): set<nat> { set id: nat | id < |completed| && completed[id] }

    function Free(): set<nat>
      requires |busy| == |completed|
    {
      set id: nat | id < |busy| && Downloadable(id)
    }

    function Missing(): set<nat> { set id: nat | id < |completed| && !completed[id] }

    function SetBusy(id: nat): Table
      requires id < |busy|
    {
      this.(busy := busy[id := true])
    }

    /** CompleteResource::set_segment. The counter is 16 bits wide and counts every call. */
    function SetSegment(id: nat): Table
      requires id < |busy| && id < |completed|
    {
      this.(busy := busy[id := false], completed := completed[id := true], counter := (counter + 1) % UINT16_LIMIT)
    }

    /** CompleteResource::unset_busy. */
    function UnsetBusy(id: nat): Table
      requires id < |busy|
    {
      this.(busy := busy[id := false])
    }

    /** Bytes `lo..hi` of the buffer received from a peer that serves `source`. */
    function Receive(source: seq<Byte>, lo: nat, hi: nat): Table
      requires |source| == |data| && lo <= hi <= |data|
    {
      this.(data := data[..lo] + source[lo..hi] + data[hi..])
    }
  }

  /** The first free segment, or the sentinel: the scan of CompleteResource::get_segment. */
  predicate IsFirstFree(t: Table, id: nat)
    requires |t.busy| == |t.completed|
  {
    && t.Downloadable(id)
    && forall j: nat | j < id :: !t.Downloadable(j)
  }

  /** The ids below `n`. */
  function Ids(n: nat): (ids: set<nat>)
    ensures forall id: nat :: id in ids <==> id < n
    ensures |ids| == n
  {
    if n == 0 then {} else Ids(n - 1) + {n - 1}
  }

  /** Completed and missing segments partition the ids. */
  lemma DoneAndMissing(t: Table, n: nat)
    requires t.Valid(n)
    ensures |t.Done()| + |t.Missing()| == n
  {
    assert t.Done() + t.Missing() == Ids(n) && t.Done() !! t.Missing();
  }

  class CompleteResource {
    const count: nat
    var busy: seq<bool>
    var completed: seq<bool>
    var counter: nat
    const data: array<Byte>
    var waiting: set<nat> // the threads blocked on the condition variable

    ghost function Value(): Table
      reads this, data
    {
      Table(busy, completed, counter, data[..])
    }

    ghost predicate Valid()
      reads this, data
    {
      Value().Valid(count)
    }

    constructor (size: nat)
      ensures Valid() && fresh(data) && count == SegmentsCount(size) && waiting == {}
      ensures Value().Free() == Ids(count) && Value().Done() == {}
      ensures size <= MAX_FILE_SIZE ==> (IsCompleted() <==> size == 0)
    {
      var n := SegmentsCount(size);
      count := n;
      busy := seq(n, _ => false);
      completed := seq(n, _ => false);
      counter := 0;
      data := new Byte[n * SEGMENT_SIZE];
      waiting := {};
      CountZero(size);
      new;
      assert Value().Done() == {} && Value().Free() == Ids(count);
    }

    /** The lock-protected completion test at the head of get_segment and in the service's poll. */
    predicate IsCompleted()
      reads this
    {
      counter == count
    }

    /** The second critical section of get_segment: take the first free segment or go to sleep. */
    method ScanOrWait(worker: nat) returns (id: nat)
      requires Valid()
      modifies this`busy, this`waiting
      ensures Valid()
      ensures id == NO_SEGMENT_ID ==> old(Value()).Free() == {} && Value() == old(Value())
                                      && waiting == old(waiting) + {worker}
      ensures id != NO_SEGMENT_ID ==> IsFirstFree(old(Value()), id) && Value() == old(Value()).SetBusy(id)
                                      && waiting == old(waiting)
    {
      id := 0;
      while id < count
        invariant id <= count
        invariant forall j: nat | j < id :: !Value().Downloadable(j)
      {
        if !busy[id] && !completed[id] {
          busy := busy[id := true];
          return;
        }
        id := id + 1;
      }
      waiting := waiting + {worker};
      id := NO_SEGMENT_ID;
    }

    /** set_segment: when the counter reaches the count every waiting thread is notified. */
    method SetSegment(id: nat)
      requires Valid() && id < count
      modifies this`busy, this`completed, this`counter, this`waiting
      ensures Valid() && Value() == old(Value()).SetSegment(id)
      ensures waiting == if IsCompleted() then {} else old(waiting)
    {
      busy := busy[id := false];
      completed := completed[id := true];
      counter := (counter + 1) % UINT16_LIMIT;
      if counter == count {
        waiting := {};
      }
    }

    /** unset_busy: one waiting thread, if there is any, is notified. An id outside the table, which a
        timeout check can pass, is an access outside the bitset and has no defined effect. */
    method UnsetBusy(id: nat) returns (defined: bool)
      requires Valid()
      modifies this`busy, this`waiting
      ensures defined <==> id < count
      ensures Valid() && Value() == if defined then old(Value()).UnsetBusy(id) else old(Value())
      ensures if !defined || old(waiting) == {} then waiting == old(waiting)
              else exists w :: w in old(waiting) && waiting == old(waiting) - {w}
    {
      if id >= count { return false; }
      busy := busy[id := false];
      if waiting != {} {
        var w :| w in waiting;
        waiting := waiting - {w};
      }
      defined := true;
    }
  }
}
