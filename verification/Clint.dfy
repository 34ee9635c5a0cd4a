/** One-shot deadlines in a list sorted by due time, shared by all timed devices of a board. */
module Timers {
  import Sorting
  import opened Wrappers

  const U64 := 0x1_0000_0000_0000_0000
  const NEVER := U64 - 1

  datatype Task = Task(due: nat, id: nat)

  predicate SortedByDue(tasks: seq<Task>) {
    forall i, j :: 0 <= i < j < |tasks| ==> tasks[i].due <= tasks[j].due
  }

  predicate DistinctIds(tasks: seq<Task>) {
    forall i, j :: 0 <= i < j < |tasks| ==> tasks[i].id != tasks[j].id
  }

  /** Deadlines are 64-bit values and ids have been handed out. */
  predicate InRange(tasks: seq<Task>, seqNo: nat) {
    forall t :: t in tasks ==> t.due < U64 && t.id < seqNo
  }

  /** A task with this id is in the list with a deadline that has passed. */
  ghost predicate IsDue(tasks: seq<Task>, id: nat, now: nat) {
    exists t :: t in tasks && t.id == id && t.due <= now
  }

  ghost predicate Registered(tasks: seq<Task>, id: nat) { exists t :: t in tasks && t.id == id }

  /** A permutation has the same members and keeps ids distinct. */
  lemma PermutedTasks(a: seq<Task>, b: seq<Task>)
    requires multiset(a) == multiset(b) && DistinctIds(a)
    ensures forall t :: t in a <==> t in b
    ensures |a| == |b| && DistinctIds(b)
  {
    forall t ensures t in a <==> t in b { assert t in a <==> t in multiset(a); }
    assert |multiset(a)| == |a| && |multiset(b)| == |b|;
    forall i, j | 0 <= i < j < |b| ensures b[i].id != b[j].id {
      if b[i].id == b[j].id {
        MemberOnce(a, b[i], b[j]);
        TwiceInMultiset(b, i, j);
        OnceInMultiset(a, b[i]);
        assert false;
      }
    }
  }

  lemma MemberOnce(a: seq<Task>, s: Task, t: Task)
    requires DistinctIds(a) && s in a && t in a && s.id == t.id
    ensures s == t
  {}

  lemma TwiceInMultiset(b: seq<Task>, i: nat, j: nat)
    requires i < j < |b| && b[i] == b[j]
    ensures multiset(b)[b[i]] >= 2
  {
    assert b == b[..j] + [b[j]] + b[j + 1..];
    assert b[i] in b[..j];
  }

  lemma {:induction false} OnceInMultiset(a: seq<Task>, t: Task)
    requires DistinctIds(a)
    ensures multiset(a)[t] <= 1
  {
    if a != [] {
      assert a == [a[0]] + a[1..];
      OnceInMultiset(a[1..], t);
      if t == a[0] {
        assert t !in a[1..];
      }
    }
  }

  class Timer {
    var seqNo: nat
    var tasks: seq<Task>

    ghost predicate Valid()
      reads this
    {
      SortedByDue(tasks) && DistinctIds(tasks) && InRange(tasks, seqNo)
    }

    constructor ()
      ensures Valid() && tasks == []
    {
      seqNo, tasks := 0, [];
    }

    /** Sort the tasks by due time; equal due times may come in any order. */
    method Build()
      modifies this`tasks
      ensures SortedByDue(tasks) && multiset(tasks) == multiset(old(tasks))
    {
      var order := (a: Task, b: Task) => a.due <= b.due;
      tasks := Sorting.Sort(order, tasks);
      forall i, j | 0 <= i < j < |tasks| ensures tasks[i].due <= tasks[j].due {
        assert order(tasks[i], tasks[j]);
      }
    }

    /** A new task without a deadline. */
    method Register() returns (id: nat)
      requires Valid()
      modifies this
      ensures Valid() && !Registered(old(tasks), id)
      ensures forall t :: t in tasks <==> t in old(tasks) || t == Task(NEVER, id)
    {
      id := seqNo;
      tasks := tasks + [Task(NEVER, id)];
      seqNo := seqNo + 1;
    }

    /** Give one task a new deadline; all others keep theirs. */
    method SetDue(id: nat, due: nat)
      requires Valid() && due < U64
      modifies this`tasks
      ensures Valid()
      ensures forall t :: t in tasks <==>
        (t in old(tasks) && t.id != id) || (t == Task(due, id) && Registered(old(tasks), id))
    {
      var i := 0;
      while i < |tasks| && tasks[i].id != id
        invariant 0 <= i <= |tasks| && tasks == old(tasks)
        invariant forall k :: 0 <= k < i ==> tasks[k].id != id
      {
        i := i + 1;
      }
      if i < |tasks| {
        assert tasks[i] in tasks;
        tasks := tasks[i := Task(due, id)];
        Updated(old(tasks), i, Task(due, id));
      }
      ghost var unsorted := tasks;
      Build();
      PermutedTasks(unsorted, tasks);
    }

    /** Fire exactly the tasks whose deadline has passed and disarm them. */
    method Tick(now: nat) returns (fired: seq<nat>)
      requires Valid() && now < NEVER
      modifies this`tasks
      ensures Valid()
      ensures forall id :: id in fired <==> IsDue(old(tasks), id, now)
      ensures forall t :: t in tasks <==> (t in old(tasks) && t.due > now) || (t.due == NEVER && t.id in fired)
    {
      ghost var was := tasks;
      fired := FireDue(now);
      ghost var unsorted := tasks;
      FiredPrefix(was, unsorted, fired, |fired|, now, seqNo);
      Build();
      PermutedTasks(unsorted, tasks);
    }

    /** Run the callbacks from the front of the list while they are due. */
    method FireDue(now: nat) returns (fired: seq<nat>)
      modifies this`tasks
      ensures |fired| <= |tasks| == |old(tasks)|
      ensures forall k :: 0 <= k < |fired| ==>
        old(tasks)[k].due <= now && fired[k] == old(tasks)[k].id && tasks[k] == Task(NEVER, fired[k])
      ensures forall k :: |fired| <= k < |tasks| ==> tasks[k] == old(tasks)[k]
      ensures |fired| < |tasks| ==> tasks[|fired|].due > now
    {
      fired := [];
      while |fired| < |tasks| && tasks[|fired|].due <= now
        invariant |fired| <= |tasks| == |old(tasks)|
        invariant forall k :: 0 <= k < |fired| ==>
          old(tasks)[k].due <= now && fired[k] == old(tasks)[k].id && tasks[k] == Task(NEVER, fired[k])
        invariant forall k :: |fired| <= k < |tasks| ==> tasks[k] == old(tasks)[k]
        decreases |tasks| - |fired|
      {
        var i := |fired|;
        fired := fired + [tasks[i].id];
        tasks := tasks[i := Task(NEVER, tasks[i].id)];
      }
    }
  }

  lemma Updated(tasks: seq<Task>, i: nat, t: Task)
    requires DistinctIds(tasks) && i < |tasks| && tasks[i].id == t.id
    ensures DistinctIds(tasks[i := t])
    ensures forall u :: u in tasks[i := t] <==> (u in tasks && u.id != t.id) || u == t
  {
    forall u ensures u in tasks[i := t] <==> (u in tasks && u.id != t.id) || u == t {
      if u in tasks && u.id != t.id {
        var k :| 0 <= k < |tasks| && tasks[k] == u;
        assert tasks[i := t][k] == u;
      }
      assert tasks[i := t][i] == t;
    }
  }

  /** Because the list is sorted, the fired prefix is everything that is due. */
  lemma FiredPrefix(was: seq<Task>, tasks: seq<Task>, fired: seq<nat>, i: nat, now: nat, seqNo: nat)
    requires SortedByDue(was) && DistinctIds(was) && InRange(was, seqNo) && now < NEVER
    requires i <= |tasks| == |was| && (i < |was| ==> was[i].due > now)
    requires forall k :: 0 <= k < i ==> was[k].due <= now && tasks[k] == Task(NEVER, was[k].id)
    requires forall k :: i <= k < |was| ==> tasks[k] == was[k]
    requires |fired| == i && forall k :: 0 <= k < i ==> fired[k] == was[k].id
    ensures forall id :: id in fired <==> IsDue(was, id, now)
    ensures forall t :: t in tasks <==> (t in was && t.due > now) || (t.due == NEVER && t.id in fired)
    ensures DistinctIds(tasks) && InRange(tasks, seqNo)
  {
    FiredAreDue(was, fired, i, now);
    forall t ensures t in tasks <==> (t in was && t.due > now) || (t.due == NEVER && t.id in fired) {
      if t in tasks {
        var k :| 0 <= k < |tasks| && tasks[k] == t;
        assert k < i ==> fired[k] == t.id;
        assert k >= i ==> was[k] in was && was[i].due <= was[k].due;
      }
      if t.due == NEVER && t.id in fired {
        var k :| 0 <= k < i && fired[k] == t.id;
        assert tasks[k] in tasks;
      }
      if t in was && t.due > now {
        var k :| 0 <= k < |was| && was[k] == t;
        assert tasks[k] in tasks;
      }
    }
    forall t | t in tasks ensures t.due < U64 && t.id < seqNo {
      var k :| 0 <= k < |tasks| && tasks[k] == t;
      assert was[k] in was;
    }
  }

  lemma FiredAreDue(was: seq<Task>, fired: seq<nat>, i: nat, now: nat)
    requires SortedByDue(was) && i <= |was| && (i < |was| ==> was[i].due > now)
    requires forall k :: 0 <= k < i ==> was[k].due <= now
    requires |fired| == i && forall k :: 0 <= k < i ==> fired[k] == was[k].id
    ensures forall id :: id in fired <==> IsDue(was, id, now)
  {
    forall id ensures id in fired <==> IsDue(was, id, now) {
      if id in fired {
        var k :| 0 <= k < i && fired[k] == id;
        assert was[k] in was;
      }
      if IsDue(was, id, now) {
        var t :| t in was && t.id == id && t.due <= now;
        var k :| 0 <= k < |was| && was[k] == t;
        assert fired[k] == id;
      }
    }
  }
}

/** The core-local interruptor: mtime, mtimecmp and the timer interrupt line of one hart. */
module Clint {
  import opened Wrappers
  import opened Timers

  const U32 := 0x1_0000_0000
  /** The clock counts once per eight cycles of a 64-bit cycle counter. */
  const CLOCK_LIMIT := 0x2000_0000_0000_0000

  function Wrap(x: int): (r: nat)
    ensures r < U64
  {
    x % U64
  }

  function Join(hi: nat, lo: nat): (r: nat)
    requires hi < U32 && lo < U32
    ensures r < U64 && r / U32 == hi && r % U32 == lo
  {
    hi * U32 + lo
  }

  /** What the guest armed last: the clock and `mtime` at that moment, and the compare value. */
  datatype Armed = Armed(clock: nat, mtime: nat, cmp: nat)

  /** The clock value at which `mtime` reaches the compare value, not reduced to 64 bits. */
  function Deadline(a: Armed): int { a.clock + a.cmp - a.mtime }

  /** `mtime` once the clock shows `now`. */
  function TimeAt(a: Armed, now: nat): nat { Wrap(a.mtime + now - a.clock) }

  /** The level the device drives at a tick. */
  predicate Level(a: Armed, now: nat) {
    a.cmp <= a.mtime || Wrap(Deadline(a)) <= now
  }

  /** `mtime` overflowed since the guest last armed the timer. */
  predicate Wrapped(a: Armed, now: nat) { a.mtime + now - a.clock >= U64 }

  /**
   * The level is the architectural one, `mtime >= mtimecmp`, exactly when the deadline fits
   * the 64-bit due time or had passed already; once `mtime` has overflowed, exactly when it
   * caught up with the compare value again.
   */
  lemma LevelCorrectIff(a: Armed, now: nat)
    requires a.mtime < U64 && a.cmp < U64 && a.clock <= now < CLOCK_LIMIT
    ensures (Level(a, now) <==> a.cmp <= TimeAt(a, now)) <==>
      (if Wrapped(a, now) then a.cmp + U64 <= a.mtime + now - a.clock
       else a.cmp <= a.mtime || Deadline(a) < U64)
  {
    var m := a.mtime + now - a.clock;
    if Wrapped(a, now) {
      assert Wrap(m) == m - U64;
      assert a.cmp > a.mtime ==> Wrap(Deadline(a)) == Deadline(a);
    } else {
      assert Wrap(m) == m;
      assert Deadline(a) >= U64 ==> Wrap(Deadline(a)) == Deadline(a) - U64;
      assert 0 <= Deadline(a) < U64 ==> Wrap(Deadline(a)) == Deadline(a);
    }
  }

  /** Setting `mtime` back to zero and disarming with the largest compare value raises the line at once. */
  lemma SpuriousLevel(clock: nat)
    requires 0 < clock < CLOCK_LIMIT
    ensures var a := Armed(clock, 0, U64 - 1); Level(a, clock) && TimeAt(a, clock) < a.cmp
  {
    var a := Armed(clock, 0, U64 - 1);
    assert Deadline(a) == U64 + (clock - 1);
    assert Wrap(Deadline(a)) == clock - 1;
  }

  /** The tasks of the other devices keep their deadlines. */
  ghost predicate OthersKept(was: seq<Task>, now: seq<Task>, id: nat) {
    forall t: Task :: t.id != id ==> (t in now <==> t in was)
  }

  class Device {
    const timer: Timer
    const callback: nat
    var clock: nat
    var timeOffset: nat
    var timeCmp: nat
    var line: bool
    ghost const start: nat      // the clock when the device was made
    ghost var armed: Option<Armed>

    ghost predicate Valid()
      reads this, timer
    {
      && timer.Valid() && Registered(timer.tasks, callback)
      && clock < CLOCK_LIMIT && timeOffset < U64 && timeCmp < U64
      && (armed.None? ==>
            start <= clock && !line && timeOffset == Wrap(0 - start) && timeCmp == 0 && Task(NEVER, callback) in timer.tasks)
      && (armed.Some? ==> Tracks(armed.value))
    }

    /** The registers continue what the guest armed, and a low line has its deadline scheduled. */
    ghost predicate Tracks(a: Armed)
      reads this, timer
    {
      && a.clock <= clock && a.mtime == Wrap(a.clock + timeOffset) && a.cmp == timeCmp
      && (line ==> Level(a, clock))
      && (!line ==> a.cmp > a.mtime && Task(Wrap(Deadline(a)), callback) in timer.tasks)
    }

    constructor (shared: Timer, now: nat)
      requires shared.Valid() && now < CLOCK_LIMIT
      modifies shared
      ensures Valid() && timer == shared && armed == None && clock == start == now
    {
      timer := shared;
      var id := shared.Register();
      callback := id;
      assert Task(NEVER, id) in shared.tasks;
      clock, start, timeOffset, timeCmp, line, armed := now, now, Wrap(0 - now), 0, false, None;
    }

    method Advance(ticks: nat)
      requires Valid() && clock + ticks < CLOCK_LIMIT
      modifies this`clock
      ensures Valid() && clock == old(clock) + ticks
    {
      clock := clock + ticks;
    }

    method ReadTime() returns (time: nat)
      requires Valid()
      ensures time == Wrap(clock + timeOffset)
      ensures armed.None? ==> time == clock - start
      ensures armed.Some? ==> time == TimeAt(armed.value, clock)
    {
      time := Wrap(clock + timeOffset);
      if armed.Some? { ShiftedTime(armed.value, clock, timeOffset); }
    }

    /** Drive the line from the current time, or drop it and schedule the deadline. */
    method UpdateTimer()
      requires timer.Valid() && Registered(timer.tasks, callback)
      requires clock < CLOCK_LIMIT && timeOffset < U64 && timeCmp < U64
      modifies this`line, this`armed, timer`tasks
      ensures Valid()
      ensures armed == Some(Armed(clock, Wrap(clock + timeOffset), timeCmp))
      ensures line <==> timeCmp <= armed.value.mtime
      ensures OthersKept(old(timer.tasks), timer.tasks, callback)
    {
      var time := Wrap(clock + timeOffset);
      armed := Some(Armed(clock, time, timeCmp));
      if timeCmp <= time {
        line := true;
      } else {
        line := false;
        timer.SetDue(callback, Wrap(timeCmp - timeOffset));
        ShiftedDeadline(armed.value, timeOffset);
        assert Task(Wrap(timeCmp - timeOffset), callback) in timer.tasks;
      }
    }

    /** A store of a zero-extended value at a byte offset of `mtimecmp`: the whole register, or its high half. */
    method WriteTimeCmp(offset: nat, data: nat)
      requires Valid() && offset < 8 && data < U64
      modifies this`line, this`armed, this`timeCmp, timer`tasks
      ensures Valid()
      ensures offset == 0 ==> timeCmp == data
      ensures offset == 4 ==> timeCmp / U32 == data % U32 && timeCmp % U32 == old(timeCmp) % U32
      ensures offset != 0 && offset != 4 ==> timeCmp == old(timeCmp) && armed == old(armed) && line == old(line)
      ensures offset == 0 || offset == 4 ==>
        armed == Some(Armed(clock, Wrap(clock + timeOffset), timeCmp)) && (line <==> timeCmp <= armed.value.mtime)
      ensures OthersKept(old(timer.tasks), timer.tasks, callback)
    {
      if offset == 0 {
        timeCmp := data;
        UpdateTimer();
      } else if offset == 4 {
        timeCmp := Join(data % U32, timeCmp % U32);
        UpdateTimer();
      }
    }

    /** Storing `mtime` moves the offset so that the stored value is the time now. */
    method WriteTime(high: bool, bits: nat, data: nat)
      requires Valid() && data < U64
      modifies this`line, this`armed, this`timeOffset, timer`tasks
      ensures Valid()
      ensures armed.Some? && armed.value.clock == clock && armed.value.cmp == timeCmp && armed.value.mtime < U64
      ensures !high && bits != 32 ==> armed.value.mtime == data
      ensures !high && bits == 32 ==>
        armed.value.mtime % U32 == data % U32 && armed.value.mtime / U32 == Wrap(clock + old(timeOffset)) / U32
      ensures high ==>
        armed.value.mtime / U32 == data % U32 && armed.value.mtime % U32 == Wrap(clock + old(timeOffset)) % U32
      ensures line <==> timeCmp <= armed.value.mtime
      ensures OthersKept(old(timer.tasks), timer.tasks, callback)
    {
      hide Wrap, Join, OthersKept;
      var time := Wrap(clock + timeOffset);
      var value := if high then Join(data % U32, time % U32)
                   else if bits == 32 then Join(time / U32, data % U32)
                   else data;
      OffsetRestores(value, clock);
      timeOffset := Wrap(value - clock);
      UpdateTimer();
    }

    /** Run the shared timer: afterwards the line shows the level of what was armed last. */
    method Tick()
      requires Valid()
      modifies this`line, timer`tasks
      ensures Valid()
      ensures line <==> armed.Some? && Level(armed.value, clock)
      ensures forall t :: t in timer.tasks <==>
        (t in old(timer.tasks) && t.due > clock) || (t.due == NEVER && IsDue(old(timer.tasks), t.id, clock))
    {
      hide Wrap, Level;
      ghost var mine :| mine in timer.tasks && mine.id == callback;
      ShownLevel(mine);
      var fired := timer.Tick(clock);
      assert mine in timer.tasks || Task(NEVER, callback) in timer.tasks;
      if callback in fired {
        line := true;
      }
    }

    /** The callback is due exactly when a low line must rise. */
    lemma ShownLevel(mine: Task)
      requires Valid() && mine in timer.tasks && mine.id == callback
      ensures IsDue(timer.tasks, callback, clock) <==> mine.due <= clock
      ensures armed.None? ==> mine.due > clock
      ensures armed.Some? && line ==> Level(armed.value, clock)
      ensures armed.Some? && !line ==>
        mine == Task(Wrap(Deadline(armed.value)), callback) && (mine.due <= clock <==> Level(armed.value, clock))
    {
      DueTask(timer.tasks, callback, clock);
      forall t | t in timer.tasks && t.id == callback ensures t == mine { MemberOnce(timer.tasks, t, mine); }
    }

    /** A 64-bit store to `mtimecmp`: from then on, at every tick, the line is high exactly when `mtime` has reached it. */
    method CompareStored(data: nat, steps: seq<nat>) returns (before: nat, time: nat)
      requires Valid() && data < U64 && clock + Sum(steps) < CLOCK_LIMIT
      modifies this, timer`tasks
      ensures Valid() && timeCmp == data && clock == old(clock) + Sum(steps)
      ensures before + Sum(steps) < U64 && (data <= before || old(clock) + data - before < U64) ==>
        time == before + Sum(steps) && (line <==> time >= data)
    {
      hide Valid, Wrap, Level, OthersKept;
      before := ReadTime();
      WriteTimeCmp(0, data);
      assert armed == Some(Armed(clock, before, data));
      RunTicks(steps);
      time := ReadTime();
      LevelAt(armed.value, clock);
    }

    /** A 64-bit store to `mtime` sets the time, which runs on from there, and the line follows it. */
    method TimeStored(data: nat, steps: seq<nat>) returns (time: nat)
      requires Valid() && data < U64 && clock + Sum(steps) < CLOCK_LIMIT
      modifies this, timer`tasks
      ensures Valid() && timeCmp == old(timeCmp) && clock == old(clock) + Sum(steps)
      ensures data + Sum(steps) < U64 && (timeCmp <= data || old(clock) + timeCmp - data < U64) ==>
        time == data + Sum(steps) && (line <==> time >= timeCmp)
    {
      hide Valid, Wrap, Level, OthersKept;
      Ranges();
      WriteTime(false, 64, data);
      RunTicks(steps);
      time := ReadTime();
      LevelAt(armed.value, clock);
    }

    /** Two 32-bit stores set `mtimecmp` low half first; high half first only if the high half is zero. */
    method CompareHalves(lo: nat, hi: nat, lowFirst: bool)
      requires Valid() && lo < U32 && hi < U32
      modifies this`line, this`armed, this`timeCmp, timer`tasks
      ensures Valid()
      ensures timeCmp == hi * U32 + lo <==> lowFirst || hi == 0
    {
      hide Valid, Wrap, OthersKept;
      if lowFirst {
        WriteTimeCmp(0, lo);
        WriteTimeCmp(4, hi);
      } else {
        WriteTimeCmp(4, hi);
        WriteTimeCmp(0, lo);
      }
    }

    /** Two 32-bit stores set all of `mtime` in either order. */
    method TimeHalves(lo: nat, hi: nat, lowFirst: bool) returns (time: nat)
      requires Valid() && lo < U32 && hi < U32
      modifies this`line, this`armed, this`timeOffset, timer`tasks
      ensures Valid() && time == hi * U32 + lo
    {
      hide Valid, Wrap, OthersKept;
      WriteTime(!lowFirst, 32, if lowFirst then lo else hi);
      var mid := ReadTime();
      SameInstant(armed.value);
      WriteTime(lowFirst, 32, if lowFirst then hi else lo);
      time := ReadTime();
      SameInstant(armed.value);
      FromHalves(time, lo, hi);
    }

    lemma Ranges()
      requires Valid()
      ensures timeCmp < U64 && clock < CLOCK_LIMIT
    {}

    method RunTicks(steps: seq<nat>)
      requires Valid() && armed.Some? && clock + Sum(steps) < CLOCK_LIMIT
      modifies this`clock, this`line, timer`tasks
      ensures Valid() && clock == old(clock) + Sum(steps)
      ensures if steps == [] then line == old(line) else line <==> Level(armed.value, clock)
      decreases |steps|
    {
      hide Valid, Wrap, Level, IsDue;
      if steps != [] {
        Advance(steps[0]);
        Tick();
        RunTicks(steps[1..]);
      }
    }
  }

  function Sum(steps: seq<nat>): nat { if steps == [] then 0 else steps[0] + Sum(steps[1..]) }

  lemma LevelAt(a: Armed, now: nat)
    requires a.mtime < U64 && a.cmp < U64 && a.clock <= now < CLOCK_LIMIT
    ensures a.mtime + now - a.clock < U64 && (a.cmp <= a.mtime || a.clock + a.cmp - a.mtime < U64) ==>
      TimeAt(a, now) == a.mtime + now - a.clock && (Level(a, now) <==> a.cmp <= TimeAt(a, now))
  {
    LevelCorrectIff(a, now);
  }

  lemma SameInstant(a: Armed)
    requires a.mtime < U64
    ensures TimeAt(a, a.clock) == a.mtime
  {}

  lemma FromHalves(x: nat, lo: nat, hi: nat)
    requires lo < U32 && hi < U32 && x % U32 == lo % U32 && x / U32 == hi % U32
    ensures x == hi * U32 + lo
  {}

  lemma ShiftedTime(a: Armed, now: nat, offset: nat)
    requires a.clock <= now && a.mtime == Wrap(a.clock + offset)
    ensures TimeAt(a, now) == Wrap(now + offset)
  {
    var q := (a.clock + offset) / U64;
    assert now + offset == (a.mtime + now - a.clock) + q * U64;
    WrapShift(a.mtime + now - a.clock, q);
  }

  lemma ShiftedDeadline(a: Armed, offset: nat)
    requires a.mtime == Wrap(a.clock + offset)
    ensures Wrap(Deadline(a)) == Wrap(a.cmp - offset)
  {
    var q := (a.clock + offset) / U64;
    assert Deadline(a) == (a.cmp - offset) + q * U64;
    WrapShift(a.cmp - offset, q);
  }

  lemma OffsetRestores(value: nat, clock: nat)
    requires value < U64
    ensures Wrap(clock + Wrap(value - clock)) == value
  {
    var q := (value - clock) / U64;
    assert clock + Wrap(value - clock) == value + (-q) * U64;
    WrapShift(value, -q);
  }

  lemma WrapShift(x: int, q: int)
    ensures Wrap(x + q * U64) == Wrap(x)
  {
    assert (x + q * U64) / U64 == x / U64 + q;
  }

  /** Ids are distinct, so a task is due exactly when its one deadline is. */
  lemma DueTask(tasks: seq<Task>, id: nat, now: nat)
    requires DistinctIds(tasks)
    ensures forall t :: t in tasks && t.id == id ==> (IsDue(tasks, id, now) <==> t.due <= now)
  {
    forall t | t in tasks && t.id == id ensures IsDue(tasks, id, now) <==> t.due <= now {
      forall s | s in tasks && s.id == id ensures s == t { MemberOnce(tasks, s, t); }
    }
  }
}
