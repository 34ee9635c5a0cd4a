/**
Rings addressed by free-running 16-bit indices.

A `Lane` is one direction of a split virtqueue: the slots in guest memory, the
writer's and the reader's index, and the logs of everything written and read since
the queue was set up. The logs are what the 16-bit indices and the slots stand for.
*/
module Rings {
  import Division


  const U16 := 0x1_0000
  const VIRTQUEUE_MAX_SIZE := 1024

  /** The position of index `k` in a ring of `n` entries, that is, `k % n` (see SlotIsMod). */
  function Slot(k: nat, n: nat): (r: nat)
    requires 0 < n
    ensures r < n
    decreases k
  {
    if k < n then k else Slot(k - n, n)
  }

  lemma {:induction false} SlotIsMod(k: nat, n: nat)
    requires 0 < n
    ensures Slot(k, n) == k % n
    decreases k
  {
    if k >= n {
      SlotIsMod(k - n, n);
      Division.Unique(k, n, (k - n) / n + 1, (k - n) % n);
    }
  }

  lemma {:induction false} SlotPeriod(k: nat, m: nat, n: nat)
    requires 0 < n && Slot(m, n) == 0
    ensures Slot(k + m, n) == Slot(k, n)
    decreases m
  {
    if m != 0 { SlotPeriod(k, m - n, n); }
  }

  /** A free-running 16-bit index selects the same slot as the unbounded count when the size divides 2^16. */
  lemma {:induction false} IndexSlot(k: nat, n: nat)
    requires 0 < n && Slot(U16, n) == 0
    ensures Slot(k % U16, n) == Slot(k, n)
    decreases k
  {
    if k >= U16 {
      IndexSlot(k - U16, n);
      RemainderPeriod(k);
      SlotPeriod(k - U16, U16, n);
    }
  }

  lemma RemainderPeriod(k: nat)
    requires k >= U16
    ensures (k - U16) % U16 == k % U16
  {}

  lemma {:induction false} DistinctSlots(j: nat, k: nat, n: nat)
    requires 0 < n && j < k < j + n
    ensures Slot(j, n) != Slot(k, n)
    decreases j
  {
    if j >= n { DistinctSlots(j - n, k - n, n); }
  }

  lemma CountNext(k: nat)
    ensures (k % U16 + 1) % U16 == (k + 1) % U16
  {}

  lemma CountsDiffer(j: nat, k: nat)
    requires j <= k < j + U16
    ensures j % U16 == k % U16 <==> j == k
  {}

  datatype Lane<T> = Lane(slots: seq<T>, writeIdx: nat, readIdx: nat, written: seq<T>, read: seq<T>) {

    function Size(): nat { |slots| }

    function Write(x: T): Lane<T>
      requires slots != []
    {
      this.(slots := slots[Slot(writeIdx, |slots|) := x],
            writeIdx := (writeIdx + 1) % U16,
            written := written + [x])
    }

    predicate CanRead() { slots != [] && readIdx != writeIdx }

    function Front(): T
      requires CanRead()
    {
      slots[Slot(readIdx, |slots|)]
    }

    function Read(): Lane<T>
      requires CanRead()
    {
      this.(readIdx := (readIdx + 1) % U16, read := read + [Front()])
    }

    predicate Indices() {
      && writeIdx == |written| % U16
      && readIdx == |read| % U16
      && |written| <= |read| + |slots|
    }

    /** The slots hold exactly the entries between the reader's and the writer's position. */
    ghost predicate Window()
      requires slots != []
    {
      forall k :: |read| <= k < |written| ==> slots[Slot(k, |slots|)] == written[k]
    }

    ghost predicate Valid() {
      && 0 < |slots| <= VIRTQUEUE_MAX_SIZE
      && Slot(U16, |slots|) == 0
      && Indices()
      && read <= written
      && Window()
    }

    /** What is written is kept, behind everything written before it. */
    lemma WriteIsAppend(x: T)
      requires Valid() && |written| < |read| + |slots|
      ensures Write(x).Valid()
    {
      var t := Write(x);
      var n, p := |slots|, |written|;
      IndexSlot(p, n);
      CountNext(p);
      forall k | |t.read| <= k < |t.written|
        ensures t.slots[Slot(k, n)] == t.written[k]
      {
        if k < p { DistinctSlots(k, p, n); }
      }
    }

    /** Reading is possible exactly while something is unread, and yields the oldest such entry. */
    lemma ReadIsOldest()
      requires Valid()
      ensures CanRead() <==> |read| < |written|
      ensures CanRead() ==> Front() == written[|read|] && Read().Valid()
    {
      CountsDiffer(|read|, |written|);
      if CanRead() {
        IndexSlot(|read|, |slots|);
        assert Front() == written[|read|];
        CountNext(|read|);
      }
    }
  }

  function EmptyLane<T>(size: nat, x: T): (lane: Lane<T>)
    ensures 0 < size <= VIRTQUEUE_MAX_SIZE && U16 % size == 0 ==> lane.Valid()
  {
    if size > 0 then SlotIsMod(U16, size); Lane(seq(size, _ => x), 0, 0, [], [])
    else Lane([], 0, 0, [], [])
  }
}

/**
The split virtqueue and the asynchronous block worker as one concurrent protocol.

The driver publishes chain heads in the available ring, the device takes them and
either submits a task to a bounded FIFO channel or completes the request on the spot,
the worker serves the channel and fills the used ring, and the driver collects used
entries. A device reset sends a drain barrier through the channel and clears the queue
once the worker has reached it. Every atomic action is a `Step`.
*/
module Virtqueue {
  import Division
  import opened Rings
  import opened Wrappers

  const TASK_CAPACITY := VIRTQUEUE_MAX_SIZE

  datatype UsedElem = UsedElem(id: nat, len: nat)

  // A work item in the channel. `epoch` counts the resets before the request was taken.
  datatype Task = Request(id: nat, epoch: nat) | DrainBarrier

  datatype State = State(
    ready: bool,
    draining: bool,
    epoch: nat,
    avail: Lane<nat>,        // driver to device: published and taken heads
    used: Lane<UsedElem>,    // device to driver: completed and received entries
    channel: seq<Task>,
    submitted: seq<nat>,     // heads sent to the worker, in order
    served: seq<nat>)        // heads the worker has finished, in order

  datatype Step =
    | SetUp(size: nat)       // driver: configure the queue and set QueueReady
    | Publish(head: nat)     // driver: add one chain to the available ring
    | Receive                // driver: collect one used entry
    | TakeAndSubmit          // device: one round of notify, request well formed
    | TakeAndReject          // device: one round of notify, no status descriptor
    | Serve(len: nat)        // worker: finish the oldest task
    | ResetBegin             // device: send the drain barrier
    | ResetEnd               // device: barrier acknowledged, clear the queue

  function Cleared(epoch: nat): State {
    State(false, false, epoch, EmptyLane(0, 0), EmptyLane(0, UsedElem(0, 0)), [], [], [])
  }

  /** When a step may happen. The driver's own obligation is the bound in `Publish`. */
  predicate Enabled(s: State, step: Step) {
    match step
    case SetUp(size) => !s.ready && !s.draining && 0 < size <= VIRTQUEUE_MAX_SIZE
    case Publish(head) =>
      s.ready && s.avail.Size() != 0 && |s.avail.written| - |s.used.read| < s.avail.Size()
    case Receive => s.ready && s.used.CanRead()
    case TakeAndSubmit => CanTake(s)
    case TakeAndReject => CanTake(s) && s.used.Size() != 0
    case Serve(len) => s.channel != [] && (s.channel[0].Request? ==> s.used.Size() != 0)
    case ResetBegin => !s.draining && |s.channel| < TASK_CAPACITY
    case ResetEnd => s.draining && DrainBarrier !in s.channel
  }

  /** A channel permit is reserved first, then the queue must be ready and the ring non-empty. */
  predicate CanTake(s: State) {
    !s.draining && |s.channel| < TASK_CAPACITY && s.ready && s.avail.CanRead()
  }

  function Apply(s: State, step: Step): State
    requires Enabled(s, step)
  {
    match step
    case SetUp(size) =>
      s.(ready := true, avail := EmptyLane(size, 0), used := EmptyLane(size, UsedElem(0, 0)),
         submitted := [], served := [])
    case Publish(head) => s.(avail := s.avail.Write(head))
    case Receive => s.(used := s.used.Read())
    case TakeAndSubmit =>
      var head := s.avail.Front();
      s.(avail := s.avail.Read(),
         channel := s.channel + [Request(head, s.epoch)],
         submitted := s.submitted + [head])
    case TakeAndReject =>
      s.(avail := s.avail.Read(), used := s.used.Write(UsedElem(s.avail.Front(), 0)))
    case Serve(len) =>
      (match s.channel[0]
       case Request(id, _) =>
         s.(used := s.used.Write(UsedElem(id, len)), channel := s.channel[1..], served := s.served + [id])
       case DrainBarrier => s.(channel := s.channel[1..]))
    case ResetBegin => s.(draining := true, channel := s.channel + [DrainBarrier])
    case ResetEnd => Cleared(s.epoch + 1).(channel := s.channel)
  }

  /** Execute steps one after another; `None` as soon as one of them is not enabled. */
  function Execute(s: State, steps: seq<Step>): Option<State>
    decreases |steps|
  {
    if steps == [] then Some(s)
    else if Enabled(s, steps[0]) then Execute(Apply(s, steps[0]), steps[1..])
    else None
  }

  // ------------------------------------------------------------------
  // The invariant
  // ------------------------------------------------------------------

  function Ids(elems: seq<UsedElem>): seq<nat> {
    seq(|elems|, i requires 0 <= i < |elems| => elems[i].id)
  }

  function ChannelIds(channel: seq<Task>): seq<nat> {
    if channel == [] then []
    else (if channel[0].Request? then [channel[0].id] else []) + ChannelIds(channel[1..])
  }

  predicate ChannelOk(s: State) {
    && |s.channel| <= TASK_CAPACITY
    && (forall i :: 0 <= i < |s.channel| && s.channel[i].Request? ==> s.channel[i].epoch == s.epoch)
    && (forall i :: 0 <= i < |s.channel| && s.channel[i].DrainBarrier? ==> s.draining && i == |s.channel| - 1)
    && (s.draining && DrainBarrier !in s.channel ==> s.channel == [])
  }

  /** Every head taken is either completed or still in the channel, with multiplicity. */
  predicate Conserved(s: State) {
    multiset(s.avail.read) == multiset(Ids(s.used.written)) + multiset(ChannelIds(s.channel))
  }

  ghost predicate LanesOk(s: State) {
    && s.avail.Valid() && s.used.Valid()
    && s.avail.Size() == s.used.Size()
    && |s.avail.written| <= |s.used.read| + s.avail.Size()
  }

  ghost predicate Inv(s: State) {
    && (s.ready ==> LanesOk(s))
    && (!s.ready ==> s == Cleared(s.epoch).(draining := s.draining, channel := s.channel))
    && ChannelOk(s)
    && s.submitted == s.served + ChannelIds(s.channel)
    && Conserved(s)
  }

  /** The driver's queue sizes divide the index range, that is, they are powers of two. */
  predicate PowerOfTwoSizes(steps: seq<Step>) {
    forall i :: 0 <= i < |steps| && steps[i].SetUp? && 0 < steps[i].size ==> U16 % steps[i].size == 0
  }

  lemma {:induction false} ChannelIdsAppend(channel: seq<Task>, task: Task)
    ensures ChannelIds(channel + [task]) == ChannelIds(channel) + (if task.Request? then [task.id] else [])
  {
    if channel != [] {
      assert (channel + [task])[1..] == channel[1..] + [task];
      ChannelIdsAppend(channel[1..], task);
    } else {
      assert channel + [task] == [task];
      assert [task][1..] == [];
    }
  }

  lemma IdsAppend(elems: seq<UsedElem>, e: UsedElem)
    ensures Ids(elems + [e]) == Ids(elems) + [e.id]
  {}

  lemma CompletedAtMostTaken(s: State)
    requires Conserved(s)
    ensures |s.used.written| + |ChannelIds(s.channel)| == |s.avail.read|
  {
    assert |multiset(s.avail.read)| == |s.avail.read|;
    assert |multiset(Ids(s.used.written))| == |s.used.written|;
    assert |multiset(ChannelIds(s.channel))| == |ChannelIds(s.channel)|;
  }

  /** Appending a request of this epoch, or the barrier that starts draining, keeps the channel in order. */
  lemma ChannelAppend(s: State, t: State, task: Task)
    requires ChannelOk(s) && !s.draining && |s.channel| < TASK_CAPACITY
    requires t.channel == s.channel + [task] && t.epoch == s.epoch
    requires if task.Request? then task.epoch == s.epoch && t.draining == s.draining else t.draining
    ensures ChannelOk(t)
  {
    assert t.channel[|s.channel|] == task;
  }

  lemma ChannelPop(s: State, t: State)
    requires ChannelOk(s) && s.channel != [] && t.channel == s.channel[1..]
    requires t.epoch == s.epoch && t.draining == s.draining
    ensures ChannelOk(t)
  {
    assert t.channel == [] || t.channel[|t.channel| - 1] == s.channel[|s.channel| - 1];
  }

  lemma SubmitConserves(s: State, t: State, head: nat)
    requires Conserved(s) && s.submitted == s.served + ChannelIds(s.channel)
    requires ChannelIds(t.channel) == ChannelIds(s.channel) + [head]
    requires t.used.written == s.used.written && t.served == s.served
    requires t.avail.read == s.avail.read + [head] && t.submitted == s.submitted + [head]
    ensures Conserved(t) && t.submitted == t.served + ChannelIds(t.channel)
  {}

  lemma SubmitKeepsInv(s: State)
    requires Inv(s) && Enabled(s, TakeAndSubmit)
    ensures Inv(Apply(s, TakeAndSubmit))
  {
    var t, task := Apply(s, TakeAndSubmit), Request(s.avail.Front(), s.epoch);
    s.avail.ReadIsOldest();
    assert LanesOk(t);
    assert ChannelOk(t) by { ChannelAppend(s, t, task); }
    assert ChannelIds(t.channel) == ChannelIds(s.channel) + [task.id] by { ChannelIdsAppend(s.channel, task); }
    SubmitConserves(s, t, task.id);
  }

  lemma RejectKeepsInv(s: State)
    requires Inv(s) && Enabled(s, TakeAndReject)
    ensures Inv(Apply(s, TakeAndReject))
  {
    hide Lane.Valid, Lane.CanRead, Conserved, ChannelOk, ChannelIds, Ids;
    var t, elem := Apply(s, TakeAndReject), UsedElem(s.avail.Front(), 0);
    s.avail.ReadIsOldest();
    CompletedAtMostTaken(s);
    InUse(s);
    s.used.WriteIsAppend(elem);
    RejectConserves(s, t, elem);
    SameChannel(s, t);
  }

  lemma SameChannel(s: State, t: State)
    requires ChannelOk(s) && t.channel == s.channel && t.epoch == s.epoch && t.draining == s.draining
    ensures ChannelOk(t)
  {}

  lemma InUse(s: State)
    requires LanesOk(s)
    ensures |s.avail.read| <= |s.avail.written| && |s.avail.written| <= |s.used.read| + |s.used.slots|
  {}

  lemma RejectConserves(s: State, t: State, elem: UsedElem)
    requires Conserved(s) && t.channel == s.channel
    requires t.avail.read == s.avail.read + [elem.id] && t.used.written == s.used.written + [elem]
    ensures Conserved(t)
  {
    IdsAppend(s.used.written, elem);
  }

  lemma ServeConserves(s: State, t: State, elem: UsedElem)
    requires Conserved(s) && s.submitted == s.served + ChannelIds(s.channel)
    requires s.channel != [] && s.channel[0].Request? && s.channel[0].id == elem.id
    requires t.channel == s.channel[1..] && t.avail.read == s.avail.read
    requires t.used.written == s.used.written + [elem]
    requires t.submitted == s.submitted && t.served == s.served + [elem.id]
    ensures Conserved(t) && t.submitted == t.served + ChannelIds(t.channel)
  {
    IdsAppend(s.used.written, elem);
    assert ChannelIds(s.channel) == [elem.id] + ChannelIds(t.channel);
  }

  lemma ServeKeepsInv(s: State, len: nat)
    requires Inv(s) && Enabled(s, Serve(len))
    ensures Inv(Apply(s, Serve(len)))
  {
    var t := Apply(s, Serve(len));
    if s.channel[0].Request? {
      var elem := UsedElem(s.channel[0].id, len);
      assert LanesOk(t) by { CompletedAtMostTaken(s); s.used.WriteIsAppend(elem); }
      ServeConserves(s, t, elem);
    }
    assert ChannelOk(t) by { ChannelPop(s, t); }
  }

  lemma ResetKeepsInv(s: State)
    requires Inv(s) && Enabled(s, ResetBegin)
    ensures Inv(Apply(s, ResetBegin))
  {
    var t := Apply(s, ResetBegin);
    assert ChannelOk(t) by { ChannelAppend(s, t, DrainBarrier); }
    assert ChannelIds(t.channel) == ChannelIds(s.channel) by { ChannelIdsAppend(s.channel, DrainBarrier); }
  }

  lemma DriverKeepsInv(s: State, step: Step)
    requires Inv(s) && Enabled(s, step) && (step.Publish? || step.Receive?)
    ensures Inv(Apply(s, step))
  {
    if step.Receive? {
      s.used.ReadIsOldest();
    } else {
      CompletedAtMostTaken(s);
      s.avail.WriteIsAppend(step.head);
    }
  }

  lemma QueueKeepsInv(s: State, step: Step)
    requires Inv(s) && Enabled(s, step) && (step.SetUp? || step.ResetEnd?)
    requires step.SetUp? ==> U16 % step.size == 0
    ensures Inv(Apply(s, step))
  {
    hide Lane.Valid;
    if step.SetUp? {
      assert s.channel == [];
    }
  }

  lemma StepKeepsInv(s: State, step: Step)
    requires Inv(s) && Enabled(s, step)
    requires step.SetUp? ==> U16 % step.size == 0
    ensures Inv(Apply(s, step))
  {
    match step
    case SetUp(_) => QueueKeepsInv(s, step);
    case Publish(_) => DriverKeepsInv(s, step);
    case Receive => DriverKeepsInv(s, step);
    case TakeAndSubmit => SubmitKeepsInv(s);
    case TakeAndReject => RejectKeepsInv(s);
    case Serve(len) => ServeKeepsInv(s, len);
    case ResetBegin => ResetKeepsInv(s);
    case ResetEnd => QueueKeepsInv(s, step);
  }

  lemma {:induction false} ExecuteKeepsInv(s: State, steps: seq<Step>)
    requires Inv(s) && PowerOfTwoSizes(steps)
    ensures Execute(s, steps).Some? ==> Inv(Execute(s, steps).value)
    decreases |steps|
  {
    if steps != [] && Enabled(s, steps[0]) {
      StepKeepsInv(s, steps[0]);
      ExecuteKeepsInv(Apply(s, steps[0]), steps[1..]);
    }
  }

  // ------------------------------------------------------------------
  // What holds of every run
  // ------------------------------------------------------------------

  /**
  Over every interleaving of driver, device, worker and reset steps whose queue sizes are powers
  of two: heads are taken once each, in the order they were published, across index wrap-around;
  each taken head has exactly one used entry or is still in the channel; the driver receives the
  used entries in order, without loss or repetition; the worker serves heads in submission order;
  and no task in the channel stems from before the last reset.
  */
  lemma EveryRun(steps: seq<Step>, s: State)
    requires PowerOfTwoSizes(steps) && Execute(Cleared(0), steps) == Some(s)
    ensures s.avail.read <= s.avail.written
    ensures s.used.read <= s.used.written
    ensures multiset(s.avail.read) == multiset(Ids(s.used.written)) + multiset(ChannelIds(s.channel))
    ensures s.used.writeIdx == |s.used.written| % U16
    ensures |s.channel| <= TASK_CAPACITY
    ensures s.submitted == s.served + ChannelIds(s.channel)
    ensures forall task :: task in s.channel && task.Request? ==> task.epoch == s.epoch
  {
    ExecuteKeepsInv(Cleared(0), steps);
  }

  /** Once the device finds the ring empty and the worker is idle, every published head was completed once. */
  lemma QuiescentRun(steps: seq<Step>, s: State)
    requires PowerOfTwoSizes(steps) && Execute(Cleared(0), steps) == Some(s)
    requires s.ready && !s.draining && s.channel == [] && !CanTake(s)
    ensures multiset(Ids(s.used.written)) == multiset(s.avail.written)
  {
    ExecuteKeepsInv(Cleared(0), steps);
    s.avail.ReadIsOldest();
    assert s.avail.read == s.avail.written;
  }

  /** When a reset clears the queue, every request taken before has already been given its used entry. */
  lemma ResetDrains(steps: seq<Step>, s: State)
    requires PowerOfTwoSizes(steps) && Execute(Cleared(0), steps) == Some(s)
    requires Enabled(s, ResetEnd)
    ensures s.channel == [] && Apply(s, ResetEnd) == Cleared(s.epoch + 1)
    ensures multiset(s.avail.read) == multiset(Ids(s.used.written))
    ensures s.served == s.submitted
  {
    ExecuteKeepsInv(Cleared(0), steps);
  }

  lemma {:induction false} ExecuteConcat(s: State, a: seq<Step>, b: seq<Step>)
    requires Execute(s, a).Some?
    ensures Execute(s, a + b) == Execute(Execute(s, a).value, b)
    decreases |a|
  {
    if a == [] {
      assert a + b == b;
    } else {
      assert (a + b)[1..] == a[1..] + b;
      ExecuteConcat(Apply(s, a[0]), a[1..], b);
    }
  }

  /** One more step at the end of a run. */
  lemma ExecuteSnoc(s: State, steps: seq<Step>, t: State, step: Step)
    requires Execute(s, steps) == Some(t) && Enabled(t, step)
    ensures Execute(s, steps + [step]) == Some(Apply(t, step))
  {
    ExecuteConcat(s, steps, [step]);
    assert [step][1..] == [];
    assert Execute(Apply(t, step), []) == Some(Apply(t, step));
  }

  ghost predicate Reachable(s: State) {
    exists steps :: PowerOfTwoSizes(steps) && Execute(Cleared(0), steps) == Some(s)
  }

  lemma ReachableInv(s: State)
    requires Reachable(s)
    ensures Inv(s)
  {
    var steps :| PowerOfTwoSizes(steps) && Execute(Cleared(0), steps) == Some(s);
    ExecuteKeepsInv(Cleared(0), steps);
  }

  lemma ReachableStep(s: State, step: Step)
    requires Reachable(s) && Enabled(s, step)
    requires step.SetUp? ==> U16 % step.size == 0
    ensures Reachable(Apply(s, step))
  {
    var steps :| PowerOfTwoSizes(steps) && Execute(Cleared(0), steps) == Some(s);
    ExecuteSnoc(Cleared(0), steps, s, step);
    assert PowerOfTwoSizes(steps + [step]);
  }

  // ------------------------------------------------------------------
  // The queue size must divide the index range
  // ------------------------------------------------------------------

  const Round := [Publish(0), TakeAndReject, Receive]

  function Rounds(k: nat): seq<Step> {
    if k == 0 then [] else Rounds(k - 1) + Round
  }

  // Everything published so far has been taken, completed and received.
  ghost predicate IdleAfter(s: State, n: nat, k: nat) {
    && s.ready && !s.draining && s.channel == []
    && s.avail.Size() == n && s.used.Size() == n
    && |s.avail.written| == |s.avail.read| == |s.used.written| == |s.used.read| == k
    && s.avail.writeIdx == s.avail.readIdx == s.used.writeIdx == s.used.readIdx == k % U16
  }

  lemma OneRound(s: State, n: nat, k: nat) returns (t: State)
    requires 0 < n && IdleAfter(s, n, k)
    ensures Execute(s, Round) == Some(t) && IdleAfter(t, n, k + 1)
  {
    var s1 := Apply(s, Publish(0));
    assert s1.avail.writeIdx != s1.avail.readIdx;
    var s2 := Apply(s1, TakeAndReject);
    t := Apply(s2, Receive);
    assert Round[1..] == [TakeAndReject, Receive] && Round[1..][1..] == [Receive];
    assert Execute(t, []) == Some(t);
    assert Execute(s2, [Receive]) == Some(t);
    assert Execute(s1, [TakeAndReject, Receive]) == Some(t);
  }

  lemma {:induction false} ManyRounds(s: State, n: nat, k: nat) returns (t: State)
    requires 0 < n && IdleAfter(s, n, 0)
    ensures Execute(s, Rounds(k)) == Some(t) && IdleAfter(t, n, k)
  {
    t := s;
    if k != 0 {
      var u := ManyRounds(s, n, k - 1);
      t := OneRound(u, n, k - 1);
      ExecuteConcat(s, Rounds(k - 1), Round);
    }
  }

  function Zeros(j: nat): seq<Step> { if j == 0 then [] else Zeros(j - 1) + [Publish(0)] }

  lemma {:induction false} PublishZeros(s: State, p: nat, j: nat) returns (t: State)
    requires s.ready && s.avail.Size() > 0
    requires |s.avail.written| == p && s.avail.writeIdx == p % U16
    requires p + j <= |s.used.read| + s.avail.Size()
    ensures Execute(s, Zeros(j)) == Some(t)
    ensures t == s.(avail := t.avail) && t.avail.read == s.avail.read && t.avail.readIdx == s.avail.readIdx
    ensures t.avail.Size() == s.avail.Size() && s.avail.written <= t.avail.written
    ensures |t.avail.written| == p + j && t.avail.writeIdx == (p + j) % U16
    ensures j > 0 ==> t.avail.slots[Slot((p + j - 1) % U16, t.avail.Size())] == 0
  {
    t := s;
    if j != 0 {
      var u := PublishZeros(s, p, j - 1);
      t := Apply(u, Publish(0));
      CountNext(p + j - 1);
      assert Execute(s, Zeros(j)) == Some(t) by {
        ExecuteConcat(s, Zeros(j - 1), [Publish(0)]);
        assert Execute(u, [Publish(0)]) == Some(t);
      }
    }
  }

  function WrapSteps(r: nat): seq<Step> { [Publish(1)] + Zeros(r) + [TakeAndReject] }

  lemma WrapSlot(k: nat, r: nat, n: nat)
    requires 0 < r < n && k + r == U16 && Slot(k, n) == 0
    ensures (k + r) % U16 == 0 && Slot((k + r) % U16, n) == 0
    ensures (k + 1 + r) % U16 == 1 && k % U16 == k
  {}

  /** From the last multiple of `n` below 2^16 on, index 0 falls on a slot that is still waiting to be taken. */
  lemma WrapOverwrites(s: State, n: nat, k: nat, r: nat) returns (t: State)
    requires 0 < r < n && k + r == U16 && Slot(k, n) == 0 && IdleAfter(s, n, k)
    ensures Execute(s, WrapSteps(r)) == Some(t)
    ensures !(t.avail.read <= t.avail.written)
  {
    WrapSlot(k, r, n);
    var s2 := Apply(s, Publish(1));
    var s3 := PublishZeros(s2, k + 1, r);
    assert s3.avail.written[k] == 1;
    assert s3.avail.CanRead() && s3.avail.Front() == 0;
    t := Apply(s3, TakeAndReject);
    assert t.avail.read[k] == 0;
    var tail := [Publish(1)] + Zeros(r);
    assert Execute(s, tail) == Some(s3) by { assert tail[1..] == Zeros(r); }
    ExecuteSnoc(s, tail, s3, TakeAndReject);
  }

  /** With a size that does not divide 2^16 the driver overwrites a head that was not taken yet. */
  lemma OverwrittenHead(n: nat) returns (steps: seq<Step>, t: State)
    requires 0 < n <= VIRTQUEUE_MAX_SIZE && U16 % n != 0
    ensures Execute(Cleared(0), steps) == Some(t)
    ensures OnlySize(steps, n)
    ensures !(t.avail.read <= t.avail.written)
  {
    var r := U16 % n;
    var k := U16 - r;
    assert Slot(k, n) == 0 by {
      Division.Unique(k, n, U16 / n, 0);
      SlotIsMod(k, n);
    }
    var s0 := Apply(Cleared(0), SetUp(n));
    var s1 := ManyRounds(s0, n, k);
    t := WrapOverwrites(s1, n, k, r);
    ExecuteConcat(s0, Rounds(k), WrapSteps(r));
    steps := [SetUp(n)] + (Rounds(k) + WrapSteps(r));
    assert steps[1..] == Rounds(k) + WrapSteps(r);
    NoSetUpInRounds(k);
    NoSetUpInZeros(r);
  }

  lemma {:induction false} NoSetUpInRounds(k: nat)
    ensures forall i :: 0 <= i < |Rounds(k)| ==> !Rounds(k)[i].SetUp?
  {
    if k != 0 { NoSetUpInRounds(k - 1); }
  }

  lemma {:induction false} NoSetUpInZeros(j: nat)
    ensures forall i :: 0 <= i < |Zeros(j)| ==> !Zeros(j)[i].SetUp?
  {
    if j != 0 { NoSetUpInZeros(j - 1); }
  }

  ghost predicate OrderKept(steps: seq<Step>) {
    Execute(Cleared(0), steps).Some? ==>
      var s := Execute(Cleared(0), steps).value; s.avail.read <= s.avail.written
  }

  ghost predicate OnlySize(steps: seq<Step>, n: nat) {
    forall i :: 0 <= i < |steps| && steps[i].SetUp? ==> steps[i].size == n
  }

  /**
  The device accepts every queue size from 1 to 1024. Heads are taken in publish order in all
  runs with size `n` exactly when `n` divides 2^16; otherwise a head can be lost at the wrap.
  */
  lemma OrderKeptIffSizeDivides(n: nat)
    requires 0 < n <= VIRTQUEUE_MAX_SIZE
    ensures (forall steps :: OnlySize(steps, n) ==> OrderKept(steps)) <==> U16 % n == 0
  {
    if U16 % n == 0 {
      forall steps | OnlySize(steps, n)
        ensures OrderKept(steps)
      {
        ExecuteKeepsInv(Cleared(0), steps);
      }
    } else {
      var steps, s := OverwrittenHead(n);
      assert OnlySize(steps, n) && !OrderKept(steps);
    }
  }
}
