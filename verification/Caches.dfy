/** The direct-mapped cache, specified by the log of its operations. */
module DirectCaches {
  import opened Wrappers

  datatype Line<T> = Line(tag: nat, data: Option<T>)

  datatype Op<T> = Put(addr: nat, data: T) | Invalidate(addr: nat) | Clear

  /** Addresses are counted in units of the smallest cached object and folded onto `n` slots. */
  function IdOf(addr: nat, unit: nat, n: nat): (r: nat)
    requires unit > 0 && n > 0
    ensures r < n
  {
    addr / unit % n
  }

  predicate Touches<T>(op: Op<T>, id: nat, unit: nat, n: nat)
    requires unit > 0 && n > 0
  {
    op.Clear? || IdOf(op.addr, unit, n) == id
  }

  /** Put number `k` was the last operation on the slot. */
  ghost predicate LastTouch<T>(log: seq<Op<T>>, k: nat, id: nat, unit: nat, n: nat)
    requires unit > 0 && n > 0
  {
    k < |log| && Touches(log[k], id, unit, n) && forall j :: k < j < |log| ==> !Touches(log[j], id, unit, n)
  }

  function SlotFor<T>(op: Op<T>): Line<T> { if op.Put? then Line(op.addr, Some(op.data)) else Line(0, None) }

  /** What a slot holds after a log of operations. */
  function Shown<T>(log: seq<Op<T>>, id: nat, unit: nat, n: nat): Line<T>
    requires unit > 0 && n > 0
  {
    if log == [] then Line(0, None)
    else if Touches(log[|log| - 1], id, unit, n) then SlotFor(log[|log| - 1])
    else Shown(log[..|log| - 1], id, unit, n)
  }

  lemma ShownAfter<T>(log: seq<Op<T>>, op: Op<T>, id: nat, unit: nat, n: nat)
    requires unit > 0 && n > 0
    ensures Shown(log + [op], id, unit, n) == if Touches(op, id, unit, n) then SlotFor(op) else Shown(log, id, unit, n)
  {
    assert (log + [op])[..|log|] == log;
  }

  /** A slot holds its last put, unless it was invalidated or cleared since. */
  lemma {:induction false} ShownIsLast<T>(log: seq<Op<T>>, k: nat, id: nat, unit: nat, n: nat)
    requires unit > 0 && n > 0 && LastTouch(log, k, id, unit, n)
    ensures Shown(log, id, unit, n) == SlotFor(log[k])
  {
    hide IdOf;
    if k < |log| - 1 {
      assert !Touches(log[|log| - 1], id, unit, n);
      ShownIsLast(log[..|log| - 1], k, id, unit, n);
    }
  }

  lemma {:induction false} FilledByPut<T>(log: seq<Op<T>>, id: nat, unit: nat, n: nat) returns (k: nat)
    requires unit > 0 && n > 0 && Shown(log, id, unit, n).data.Some?
    ensures LastTouch(log, k, id, unit, n) && log[k].Put?
  {
    hide IdOf;
    if Touches(log[|log| - 1], id, unit, n) {
      k := |log| - 1;
    } else {
      k := FilledByPut(log[..|log| - 1], id, unit, n);
    }
  }

  /** What an unbounded map would hold for the address. */
  function Ideal<T>(log: seq<Op<T>>, addr: nat): Option<T> {
    if log == [] then None
    else
      var op := log[|log| - 1];
      match op
      case Put(a, d) => if a == addr then Some(d) else Ideal(log[..|log| - 1], addr)
      case Invalidate(a) => if a == addr then None else Ideal(log[..|log| - 1], addr)
      case Clear => None
  }

  /** A hit agrees with the unbounded map: it is the last put, not invalidated or cleared since. */
  lemma {:induction false} HitIsIdeal<T>(log: seq<Op<T>>, k: nat, addr: nat, unit: nat, n: nat)
    requires unit > 0 && n > 0 && LastTouch(log, k, IdOf(addr, unit, n), unit, n)
    requires log[k].Put? && log[k].addr == addr
    ensures Ideal(log, addr) == Some(log[k].data)
  {
    hide IdOf;
    if k < |log| - 1 {
      var before := log[..|log| - 1];
      assert !Touches(log[|log| - 1], IdOf(addr, unit, n), unit, n);
      HitIsIdeal(before, k, addr, unit, n);
    }
  }

  class DirectCache<T> {
    const unit: nat
    const slots: array<Line<T>>
    ghost var log: seq<Op<T>>

    ghost predicate Valid()
      reads this, slots
    {
      && unit > 0 && slots.Length > 0
      && forall i: nat :: i < slots.Length ==> slots[i] == Shown(log, i, unit, slots.Length)
    }

    constructor (unit: nat, n: nat)
      requires unit > 0 && n > 0
      ensures Valid() && log == [] && fresh(slots) && slots.Length == n && this.unit == unit
    {
      this.unit := unit;
      slots := new Line<T>[n](_ => Line(0, None));
      log := [];
    }

    /** A hit is exactly a slot whose last operation put this address, and then gives that data. */
    method Get(addr: nat) returns (r: Option<T>)
      requires Valid()
      ensures r.Some? <==> Hits(addr)
      ensures r.Some? ==> Ideal(log, addr) == r
    {
      hide IdOf, Ideal;
      var slot := slots[IdOf(addr, unit, slots.Length)];
      r := if slot.tag == addr then slot.data else None;
      Lookup(addr);
    }

    lemma Lookup(addr: nat)
      requires Valid()
      ensures
        var id := IdOf(addr, unit, slots.Length);
        var hit := slots[id].tag == addr && slots[id].data.Some?;
        && (hit <==> Hits(addr)) && (hit ==> Ideal(log, addr) == slots[id].data)
    {
      hide IdOf, Ideal;
      var id := IdOf(addr, unit, slots.Length);
      if slots[id].tag == addr && slots[id].data.Some? {
        var k := FilledByPut(log, id, unit, slots.Length);
        ShownIsLast(log, k, id, unit, slots.Length);
        HitIsIdeal(log, k, addr, unit, slots.Length);
        AloneIsLast(addr, k);
      }
      if Hits(addr) {
        var k: nat :| k < |log| && log[k].Put? && log[k].addr == addr && Alone(addr, k);
        AloneIsLast(addr, k);
        ShownIsLast(log, k, id, unit, slots.Length);
      }
    }

    lemma AloneIsLast(addr: nat, k: nat)
      requires Valid() && k < |log| && log[k].Put? && log[k].addr == addr
      ensures Alone(addr, k) <==> LastTouch(log, k, IdOf(addr, unit, slots.Length), unit, slots.Length)
    {
      hide Shown;
      forall j | k < j < |log|
        ensures Touches(log[j], IdOf(addr, unit, slots.Length), unit, slots.Length) <==>
          log[j].Clear? || log[j].addr / unit % slots.Length == addr / unit % slots.Length
      {}
    }

    /** The address was put, and since then nothing was cleared and no address of the same slot was used. */
    ghost predicate Hits(addr: nat)
      requires unit > 0 && slots.Length > 0
      reads this
    {
      exists k: nat :: k < |log| && log[k].Put? && log[k].addr == addr && Alone(addr, k)
    }

    ghost predicate Alone(addr: nat, k: nat)
      requires unit > 0 && slots.Length > 0
      reads this
    {
      forall j :: k < j < |log| ==> !log[j].Clear? && log[j].addr / unit % slots.Length != addr / unit % slots.Length
    }

    method Put(addr: nat, data: T)
      requires Valid()
      modifies slots, this`log
      ensures Valid() && log == old(log) + [Op.Put(addr, data)]
    {
      hide IdOf, Shown;
      LogNext(Op.Put(addr, data));
      slots[IdOf(addr, unit, slots.Length)] := Line(addr, Some(data));
      log := log + [Op.Put(addr, data)];
    }

    method Invalidate(addr: nat)
      requires Valid()
      modifies slots, this`log
      ensures Valid() && log == old(log) + [Op.Invalidate(addr)]
    {
      hide IdOf, Shown;
      LogNext(Op.Invalidate(addr));
      slots[IdOf(addr, unit, slots.Length)] := Line(0, None);
      log := log + [Op.Invalidate(addr)];
    }

    method Clear()
      requires Valid()
      modifies slots, this`log
      ensures Valid() && log == old(log) + [Op.Clear]
    {
      hide Shown;
      LogNext(Op.Clear);
      forall i | 0 <= i < slots.Length { slots[i] := Line(0, None); }
      log := log + [Op.Clear];
    }

    lemma LogNext(op: Op<T>)
      requires Valid()
      ensures forall i: nat :: i < slots.Length ==>
        Shown(log + [op], i, unit, slots.Length) ==
          if Touches(op, i, unit, slots.Length) then SlotFor(op) else slots[i]
    {
      forall i: nat | i < slots.Length
        ensures Shown(log + [op], i, unit, slots.Length) ==
          if Touches(op, i, unit, slots.Length) then SlotFor(op) else slots[i]
      {
        ShownAfter(log, op, i, unit, slots.Length);
      }
    }
  }
}

/** The set-associative cache with first-in-first-out replacement. */
module SetCaches {
  import opened Rings
  import opened Wrappers
  import DirectCaches

  type Line<T> = DirectCaches.Line<T>
  type Op<T> = DirectCaches.Op<T>

  function Empty<T>(): Line<T> { DirectCaches.Line(0, None) }

  function Full<T>(addr: nat, data: T): Line<T> { DirectCaches.Line(addr, Some(data)) }

  datatype CacheSet<T> = CacheSet(idx: nat, ways: seq<Line<T>>)

  /** Way `j` is the first one with the tag; an empty way has tag zero. */
  predicate FirstAt<T>(ways: seq<Line<T>>, addr: nat, j: nat) {
    j < |ways| && ways[j].tag == addr && forall i :: 0 <= i < j ==> ways[i].tag != addr
  }

  function Find<T>(ways: seq<Line<T>>, addr: nat, from: nat): (r: Option<nat>)
    requires from <= |ways| && forall i :: 0 <= i < from ==> ways[i].tag != addr
    ensures r.Some? ==> FirstAt(ways, addr, r.value)
    ensures r.None? ==> forall i :: 0 <= i < |ways| ==> ways[i].tag != addr
    decreases |ways| - from
  {
    if from == |ways| then None
    else if ways[from].tag == addr then Some(from)
    else Find(ways, addr, from + 1)
  }

  /** What a lookup answers. */
  function Lookup<T>(set_: CacheSet<T>, addr: nat): Option<T> {
    var j := Find(set_.ways, addr, 0);
    if j.Some? then set_.ways[j.value].data else None
  }

  function Inserted<T>(set_: CacheSet<T>, addr: nat, data: T): CacheSet<T>
    requires set_.idx < |set_.ways|
  {
    CacheSet(if set_.idx + 1 == |set_.ways| then 0 else set_.idx + 1, set_.ways[set_.idx := Full(addr, data)])
  }

  /** Invalidation empties the first way with the tag. */
  function Invalidated<T>(set_: CacheSet<T>, addr: nat): CacheSet<T> {
    var j := Find(set_.ways, addr, 0);
    if j.Some? then set_.(ways := set_.ways[j.value := Empty()]) else set_
  }

  function Cleared<T>(w: nat): CacheSet<T> { CacheSet(0, seq(w, _ => Empty())) }

  // ------------------------------------------------------------------
  // The unbounded map
  // ------------------------------------------------------------------

  /** One insert into a set; it stops being live when its address is invalidated. */
  datatype Insert<T> = Insert(addr: nat, data: T, live: bool)

  /** All entries of the address stop being live. */
  function Dropped<T>(log: seq<Insert<T>>, addr: nat): (r: seq<Insert<T>>)
    ensures |r| == |log|
    ensures forall i :: 0 <= i < |log| ==>
      r[i] == if log[i].addr == addr then log[i].(live := false) else log[i]
  {
    seq(|log|, i requires 0 <= i < |log| => if log[i].addr == addr then log[i].(live := false) else log[i])
  }

  /** What an unbounded map holds: the last insert of the address among the first `n`, if not invalidated. */
  function Ideal<T>(log: seq<Insert<T>>, addr: nat, n: nat): Option<T>
    requires n <= |log|
  {
    if n == 0 then None
    else if log[n - 1].addr == addr then (if log[n - 1].live then Some(log[n - 1].data) else None)
    else Ideal(log, addr, n - 1)
  }

  lemma {:induction false} IdealIsLast<T>(log: seq<Insert<T>>, addr: nat, n: nat, i: nat)
    requires i < n <= |log| && log[i].addr == addr && log[i].live
    requires forall j :: i < j < n ==> log[j].addr != addr
    ensures Ideal(log, addr, n) == Some(log[i].data)
  {
    if i < n - 1 { IdealIsLast(log, addr, n - 1, i); }
  }

  lemma {:induction false} IdealIsNone<T>(log: seq<Insert<T>>, addr: nat, n: nat)
    requires n <= |log| && forall j :: 0 <= j < n ==> log[j].addr == addr ==> !log[j].live
    ensures Ideal(log, addr, n) == None
  {
    if n > 0 { IdealIsNone(log, addr, n - 1); }
  }

  // A set together with everything inserted into it since it was cleared.
  datatype State<T> = State(set_: CacheSet<T>, log: seq<Insert<T>>) {
    predicate Shaped() { set_.idx < |set_.ways| }
  }

  function Next<T>(s: State<T>, op: Op<T>): (r: State<T>)
    requires s.Shaped()
    ensures r.Shaped() && |r.set_.ways| == |s.set_.ways|
  {
    match op
    case Put(addr, data) => State(Inserted(s.set_, addr, data), s.log + [Insert(addr, data, true)])
    case Invalidate(addr) => State(Invalidated(s.set_, addr), Dropped(s.log, addr))
    case Clear => State(Cleared(|s.set_.ways|), [])
  }

  /** Every hit agrees with the unbounded map. */
  ghost predicate Right<T(!new)>(s: State<T>) {
    forall addr: nat :: Lookup(s.set_, addr).Some? ==> Lookup(s.set_, addr) == Ideal(s.log, addr, |s.log|)
  }

  /**
   * A put that leaves the address in one way only: the way it overwrites is the only one that may
   * hold the address already, and address zero, the tag of empty ways, goes to the first way.
   */
  ghost predicate SafePut<T>(set_: CacheSet<T>, addr: nat) {
    && (forall j :: 0 <= j < |set_.ways| && set_.ways[j].tag == addr && set_.ways[j].data.Some? ==> j == set_.idx)
    && (addr == 0 ==> set_.idx == 0)
  }

  ghost predicate Safe<T>(s: State<T>, op: Op<T>) { op.Put? ==> SafePut(s.set_, op.addr) }

  /** `t` follows from `s` by `n` safe operations. */
  ghost predicate Reaches<T(!new)>(s: State<T>, t: State<T>, n: nat)
    requires s.Shaped()
    decreases n
  {
    if n == 0 then s == t
    else exists op :: Safe(s, op) && Reaches(Next(s, op), t, n - 1)
  }

  /** However the set is used from here on, every hit is the last put, not invalidated or cleared since. */
  ghost predicate AlwaysRight<T(!new)>(s: State<T>)
    requires s.Shaped()
  {
    forall t, n: nat :: Reaches(s, t, n) ==> Right(t)
  }

  // ------------------------------------------------------------------
  // The invariant of safe use
  // ------------------------------------------------------------------

  function LineFor<T>(e: Insert<T>): Line<T> { if e.live then Full(e.addr, e.data) else Empty() }

  /** The ways hold the last inserts, oldest overwritten first, and are empty before the first round. */
  ghost predicate Tracks<T>(s: State<T>) {
    var w := |s.set_.ways|;
    && w > 0 && s.set_.idx == Slot(|s.log|, w)
    && (forall i :: 0 <= i < |s.log| && |s.log| - w <= i ==> s.set_.ways[Slot(i, w)] == LineFor(s.log[i]))
    && (forall j :: |s.log| <= j < w ==> s.set_.ways[j] == Empty())
  }

  /** Entry `i` is among the last `w`, live, and for this address. */
  predicate Resident<T>(log: seq<Insert<T>>, w: nat, i: nat, addr: nat) {
    i < |log| && |log| - w <= i && log[i].live && log[i].addr == addr
  }

  ghost predicate Cached<T>(log: seq<Insert<T>>, w: nat, addr: nat) { exists i: nat :: Resident(log, w, i, addr) }

  /** No address is resident twice, zero only in the first way, and an older live entry means all newer ones are live. */
  ghost predicate Discipline<T>(log: seq<Insert<T>>, w: nat)
    requires w > 0
  {
    && (forall i: nat, j: nat, a: nat :: Resident(log, w, i, a) && Resident(log, w, j, a) ==> i == j)
    && (forall i: nat :: Resident(log, w, i, 0) ==> Slot(i, w) == 0)
    && (forall i, j :: 0 <= i < j < |log| && log[i].addr == log[j].addr && log[i].live ==> log[j].live)
  }

  ghost predicate Inv<T>(s: State<T>) { Tracks(s) && Discipline(s.log, |s.set_.ways|) }

  /** A resident entry is the last insert of its address. */
  lemma ResidentIsLast<T>(log: seq<Insert<T>>, w: nat, i: nat, addr: nat)
    requires w > 0 && Discipline(log, w) && Resident(log, w, i, addr)
    ensures Ideal(log, addr, |log|) == Some(log[i].data)
  {
    forall j | i < j < |log| ensures log[j].addr != addr {
      assert Resident(log, w, j, addr) ==> i == j;
    }
    IdealIsLast(log, addr, |log|, i);
  }

  /** Advancing the index and wrapping at the last way follows the insert count. */
  lemma {:induction false} SlotNext(k: nat, w: nat)
    requires w > 0
    ensures Slot(k + 1, w) == if Slot(k, w) + 1 == w then 0 else Slot(k, w) + 1
    decreases k
  {
    if k >= w { SlotNext(k - w, w); }
  }

  /** Every way belongs to one of the last inserts or has never been used. */
  lemma {:induction false} WayOwner(n: nat, w: nat, j: nat) returns (i: nat)
    requires j < w && n > 0
    ensures n <= w ==> i == j
    ensures n > w ==> n - w <= i < n && Slot(i, w) == j
    decreases n
  {
    if n <= w {
      i := j;
    } else if Slot(n - 1, w) == j {
      i := n - 1;
    } else {
      i := WayOwner(n - 1, w, j);
      SamePhase(n - 1, w);
    }
  }

  lemma SamePhase(n: nat, w: nat)
    requires w > 0 && n >= w
    ensures Slot(n, w) == Slot(n - w, w)
  {}

  lemma SmallSlot(k: nat, w: nat)
    requires k < w
    ensures Slot(k, w) == k
  {}

  /** A filled way belongs to a resident entry. */
  lemma FilledIsResident<T>(s: State<T>, j: nat) returns (i: nat)
    requires Tracks(s) && j < |s.set_.ways| && s.set_.ways[j].data.Some?
    ensures Resident(s.log, |s.set_.ways|, i, s.set_.ways[j].tag) && Slot(i, |s.set_.ways|) == j
    ensures s.set_.ways[j] == Full(s.log[i].addr, s.log[i].data)
  {
    hide Slot;
    var w := |s.set_.ways|;
    if s.log == [] { assert false; }
    i := WayOwner(|s.log|, w, j);
    if |s.log| <= w { SmallSlot(j, w); }
  }

  /** An empty way has tag zero. */
  lemma EmptyHasZeroTag<T>(s: State<T>, j: nat)
    requires Tracks(s) && j < |s.set_.ways| && s.set_.ways[j].data.None?
    ensures s.set_.ways[j] == Empty()
  {
    hide Slot;
    var w := |s.set_.ways|;
    if |s.log| > j {
      var i := WayOwner(|s.log|, w, j);
      if |s.log| <= w { SmallSlot(j, w); }
    }
  }

  /** A lookup hits exactly the live entries among the last `w` inserts, and they are the last of their address. */
  lemma LookupIsCached<T>(s: State<T>, addr: nat)
    requires Inv(s)
    ensures Lookup(s.set_, addr).Some? <==> Cached(s.log, |s.set_.ways|, addr)
    ensures Lookup(s.set_, addr).Some? ==> Lookup(s.set_, addr) == Ideal(s.log, addr, |s.log|)
  {
    hide Slot, Tracks, Discipline, Ideal;
    var w := |s.set_.ways|;
    var j := Find(s.set_.ways, addr, 0);
    if Lookup(s.set_, addr).Some? {
      var i := FilledIsResident(s, j.value);
      ResidentIsLast(s.log, w, i, addr);
    }
    if Cached(s.log, w, addr) {
      var i: nat :| Resident(s.log, w, i, addr);
      ResidentFound(s, i, addr);
    }
  }

  lemma ResidentFound<T>(s: State<T>, i: nat, addr: nat)
    requires Inv(s) && Resident(s.log, |s.set_.ways|, i, addr)
    ensures FirstAt(s.set_.ways, addr, Slot(i, |s.set_.ways|)) && Lookup(s.set_, addr) == Some(s.log[i].data)
  {
    hide Slot;
    var w := |s.set_.ways|;
    forall j | 0 <= j < Slot(i, w) ensures s.set_.ways[j].tag != addr {
      if s.set_.ways[j].tag == addr {
        if s.set_.ways[j].data.Some? {
          var k := FilledIsResident(s, j);
        } else {
          EmptyHasZeroTag(s, j);
        }
        assert false;
      }
    }
  }

  /** In a tracked set a safe put finds the address resident only in the entry it replaces. */
  lemma SafeMeansOldest<T>(s: State<T>, addr: nat, i: nat)
    requires Tracks(s) && SafePut(s.set_, addr) && Resident(s.log, |s.set_.ways|, i, addr)
    ensures i + |s.set_.ways| == |s.log|
  {
    hide Slot;
    var w := |s.set_.ways|;
    assert s.set_.ways[Slot(i, w)] == Full(addr, s.log[i].data);
    if |s.log| < i + w {
      DistinctSlots(i, |s.log|, w);
      assert false;
    }
  }

  lemma PutTracks<T>(s: State<T>, addr: nat, data: T)
    requires Tracks(s)
    ensures Tracks(Next(s, DirectCaches.Put(addr, data)))
  {
    hide Slot;
    var t := Next(s, DirectCaches.Put(addr, data));
    var w := |s.set_.ways|;
    SlotNext(|s.log|, w);
    forall i | 0 <= i < |t.log| && |t.log| - w <= i ensures t.set_.ways[Slot(i, w)] == LineFor(t.log[i]) {
      if i < |s.log| { DistinctSlots(i, |s.log|, w); }
    }
    forall j | |t.log| <= j < w ensures t.set_.ways[j] == Empty() { SmallSlot(|s.log|, w); }
  }

  lemma PutDiscipline<T>(s: State<T>, addr: nat, data: T)
    requires Inv(s) && SafePut(s.set_, addr)
    ensures Discipline(Next(s, DirectCaches.Put(addr, data)).log, |s.set_.ways|)
  {
    hide Slot, Tracks;
    var w, next := |s.set_.ways|, s.log + [Insert(addr, data, true)];
    forall i: nat, a: nat | Resident(next, w, i, a) && i < |s.log| ensures Resident(s.log, w, i, a) && a != addr {
      if a == addr { SafeMeansOldest(s, addr, i); assert false; }
    }
    assert addr == 0 ==> Slot(|s.log|, w) == 0 by { IndexIsSlot(s); }
  }

  lemma IndexIsSlot<T>(s: State<T>)
    requires Tracks(s)
    ensures s.set_.idx == Slot(|s.log|, |s.set_.ways|)
  {}

  lemma DropDiscipline<T>(log: seq<Insert<T>>, w: nat, addr: nat)
    requires w > 0 && Discipline(log, w)
    ensures Discipline(Dropped(log, addr), w)
  {
    hide Slot;
    var next := Dropped(log, addr);
    forall i: nat, a: nat | Resident(next, w, i, a) ensures Resident(log, w, i, a) {}
  }

  /** Emptying the first way with the tag drops the one resident entry of the address, if there is one. */
  lemma DropTracks<T>(s: State<T>, addr: nat)
    requires Inv(s)
    ensures Tracks(Next(s, DirectCaches.Invalidate(addr)))
  {
    hide Slot, Discipline;
    var w, t := |s.set_.ways|, Next(s, DirectCaches.Invalidate(addr));
    forall i | 0 <= i < |t.log| && |t.log| - w <= i ensures t.set_.ways[Slot(i, w)] == LineFor(t.log[i]) {
      DroppedWay(s, addr, i);
    }
  }

  lemma DroppedWay<T>(s: State<T>, addr: nat, i: nat)
    requires Inv(s) && i < |s.log| && |s.log| - |s.set_.ways| <= i
    ensures Invalidated(s.set_, addr).ways[Slot(i, |s.set_.ways|)] == LineFor(Dropped(s.log, addr)[i])
  {
    hide Slot, Discipline;
    var w := |s.set_.ways|;
    if s.log[i].live && s.log[i].addr == addr {
      ResidentFound(s, i, addr);
      FirstIsUnique(s.set_.ways, addr, Slot(i, w));
    }
  }

  lemma FirstIsUnique<T>(ways: seq<Line<T>>, addr: nat, j: nat)
    requires FirstAt(ways, addr, j)
    ensures Find(ways, addr, 0) == Some(j)
  {}

  /** Every safe operation keeps the invariant. */
  lemma SafeKeepsInv<T>(s: State<T>, op: Op<T>)
    requires s.Shaped() && Inv(s) && Safe(s, op)
    ensures Inv(Next(s, op))
  {
    match op
    case Put(addr, data) =>
      PutTracks(s, addr, data);
      PutDiscipline(s, addr, data);
    case Invalidate(addr) =>
      DropTracks(s, addr);
      DropDiscipline(s.log, |s.set_.ways|, addr);
    case Clear =>
  }

  lemma {:induction false} ReachesInv<T(!new)>(s: State<T>, t: State<T>, n: nat)
    requires s.Shaped() && Inv(s) && Reaches(s, t, n)
    ensures Inv(t)
    decreases n
  {
    hide Inv;
    if n > 0 {
      var op :| Safe(s, op) && Reaches(Next(s, op), t, n - 1);
      SafeKeepsInv(s, op);
      ReachesInv(Next(s, op), t, n - 1);
    }
  }

  lemma InvAlwaysRight<T(!new)>(s: State<T>)
    requires s.Shaped() && Inv(s)
    ensures AlwaysRight(s)
  {
    hide Inv, Lookup, Ideal, Cached;
    forall t, n: nat | Reaches(s, t, n) ensures Right(t) {
      ReachesInv(s, t, n);
      forall addr: nat ensures Lookup(t.set_, addr).Some? ==> Lookup(t.set_, addr) == Ideal(t.log, addr, |t.log|) {
        LookupIsCached(t, addr);
      }
    }
  }

  // ------------------------------------------------------------------
  // Unsafe puts go wrong
  // ------------------------------------------------------------------

  /** One more safe step keeps what is reached reachable. */
  lemma ReachesFirst<T(!new)>(s: State<T>, op: Op<T>, t: State<T>, n: nat)
    requires s.Shaped() && Safe(s, op) && Reaches(Next(s, op), t, n)
    ensures Reaches(s, t, n + 1)
  {}

  /** With the address in two ways, invalidating it empties one way and leaves the other to be found. */
  lemma TwiceHeldGoesWrong<T(!new)>(s: State<T>, addr: nat, i: nat, j: nat)
    requires s.Shaped() && addr != 0 && i < j < |s.set_.ways|
    requires s.set_.ways[i].tag == addr && s.set_.ways[j].tag == addr
    requires s.set_.ways[i].data.Some? && s.set_.ways[j].data.Some?
    requires forall k :: 0 <= k < |s.set_.ways| && s.set_.ways[k].tag == addr ==> k == i || k == j
    ensures !AlwaysRight(s)
  {
    var t := Next(s, DirectCaches.Invalidate(addr));
    FirstIsUnique(s.set_.ways, addr, i);
    assert t.set_.ways == s.set_.ways[i := Empty()];
    FirstIsUnique(t.set_.ways, addr, j);
    IdealIsNone(t.log, addr, |t.log|);
    assert !Right(t);
    assert Reaches(t, t, 0);
    ReachesFirst(s, DirectCaches.Invalidate(addr), t, 0);
  }

  /** Way `i` holds the invalidated address zero, the `k` ways after it are refilled, and tags are below `f`. */
  ghost predicate Refilling<T>(s: State<T>, i: nat, d: T, k: nat, f: nat) {
    var w := |s.set_.ways|;
    && i < w && k < w && s.set_.idx == Slot(i + 1 + k, w) && s.set_.ways[i] == Full(0, d) && f > 0
    && (forall p: nat :: i < p <= i + k ==> s.set_.ways[Slot(p, w)].tag != 0)
    && (forall j :: 0 <= j < w ==> s.set_.ways[j].tag < f)
    && (forall m :: 0 <= m < |s.log| && s.log[m].addr == 0 ==> !s.log[m].live)
  }

  /** Once every other way is refilled, a lookup of zero finds the invalidated data. */
  lemma {:induction false} RefilledGoesWrong<T(!new)>(s: State<T>, i: nat, d: T, k: nat, f: nat)
    requires s.Shaped() && Refilling(s, i, d, k, f)
    ensures !AlwaysRight(s)
    decreases |s.set_.ways| - k
  {
    hide Slot, AlwaysRight;
    if k == |s.set_.ways| - 1 {
      ZeroFound(s, i, d, k, f);
      assert Reaches(s, s, 0);
      NotAlwaysRight(s, s, 0);
    } else {
      var t := Next(s, DirectCaches.Put(f, d));
      RefillNext(s, i, d, k, f);
      RefilledGoesWrong(t, i, d, k + 1, f + 1);
      WrongLater(s, DirectCaches.Put(f, d));
    }
  }

  lemma ZeroFound<T>(s: State<T>, i: nat, d: T, k: nat, f: nat)
    requires Refilling(s, i, d, k, f) && k == |s.set_.ways| - 1
    ensures Lookup(s.set_, 0) == Some(d) && Ideal(s.log, 0, |s.log|) == None
  {
    hide Slot;
    var w := |s.set_.ways|;
    forall j | 0 <= j < i ensures s.set_.ways[j].tag != 0 {
      SamePhase(j + w, w);
      SmallSlot(j, w);
      assert s.set_.ways[Slot(j + w, w)].tag != 0;
    }
    FirstIsUnique(s.set_.ways, 0, i);
    IdealIsNone(s.log, 0, |s.log|);
  }

  lemma RefillNext<T>(s: State<T>, i: nat, d: T, k: nat, f: nat)
    requires s.Shaped() && Refilling(s, i, d, k, f) && k < |s.set_.ways| - 1
    ensures SafePut(s.set_, f) && Refilling(Next(s, DirectCaches.Put(f, d)), i, d, k + 1, f + 1)
  {
    hide Slot;
    var w := |s.set_.ways|;
    SmallSlot(i, w);
    DistinctSlots(i, i + 1 + k, w);
    SlotNext(i + 1 + k, w);
  }

  lemma NotAlwaysRight<T(!new)>(s: State<T>, t: State<T>, n: nat)
    requires s.Shaped() && Reaches(s, t, n) && !Right(t)
    ensures !AlwaysRight(s)
  {}

  lemma WrongLater<T(!new)>(s: State<T>, op: Op<T>)
    requires s.Shaped() && Safe(s, op) && !AlwaysRight(Next(s, op))
    ensures !AlwaysRight(s)
  {
    hide Right;
    var t, n: nat :| Reaches(Next(s, op), t, n) && !Right(t);
    ReachesFirst(s, op, t, n);
  }

  function Max<T>(ways: seq<Line<T>>, n: nat): (m: nat)
    requires n <= |ways|
    ensures forall j :: 0 <= j < n ==> ways[j].tag <= m
  {
    if n == 0 then 0
    else
      var m := Max(ways, n - 1);
      if ways[n - 1].tag > m then ways[n - 1].tag else m
  }

  /** Address zero behind the first way: an emptied first way shields it from its invalidation. */
  lemma ZeroGoesWrong<T(!new)>(s: State<T>, i: nat, d: T)
    requires s.Shaped() && 0 < i < |s.set_.ways| && s.set_.ways[i] == Full(0, d)
    requires s.set_.idx == Slot(i + 1, |s.set_.ways|)
    ensures !AlwaysRight(s)
  {
    hide Slot, AlwaysRight, Reaches;
    var first, zero := DirectCaches.Invalidate(s.set_.ways[0].tag), DirectCaches.Invalidate(0);
    FirstIsUnique(s.set_.ways, s.set_.ways[0].tag, 0);
    var a := Next(s, first);
    FirstIsUnique(a.set_.ways, 0, 0);
    var b := Next(a, zero);
    assert b.set_ == s.set_.(ways := s.set_.ways[0 := Empty()]);
    RefilledGoesWrong(b, i, d, 0, Max(b.set_.ways, |b.set_.ways|) + 1);
    WrongLater(a, zero);
    WrongLater(s, first);
  }

  /**
   * A put into any set used safely so far keeps every later hit right, whatever safe operations
   * follow, if and only if it is safe: a held address may be put again exactly when the put
   * overwrites the entry that holds it.
   */
  lemma PutRightIff<T(!new)>(w: nat, n: nat, s: State<T>, addr: nat, data: T)
    requires w > 0 && Reaches(State(Cleared(w), []), s, n)
    ensures s.Shaped()
    ensures AlwaysRight(Next(s, DirectCaches.Put(addr, data))) <==> SafePut(s.set_, addr)
  {
    hide AlwaysRight, Reaches, SafePut;
    ReachesInv(State(Cleared(w), []), s, n);
    PutRightFrom(s, addr, data);
  }

  lemma PutRightFrom<T(!new)>(s: State<T>, addr: nat, data: T)
    requires s.Shaped() && Inv(s)
    ensures AlwaysRight(Next(s, DirectCaches.Put(addr, data))) <==> SafePut(s.set_, addr)
  {
    hide AlwaysRight, Tracks, Discipline, Slot;
    var op := DirectCaches.Put(addr, data);
    if SafePut(s.set_, addr) {
      SafeKeepsInv(s, op);
      InvAlwaysRight(Next(s, op));
    } else if addr == 0 {
      ZeroUnsafe(s);
      IndexNext(s);
      ZeroGoesWrong(Next(s, op), s.set_.idx, data);
    } else {
      var j :| 0 <= j < |s.set_.ways| && s.set_.ways[j].tag == addr && s.set_.ways[j].data.Some? && j != s.set_.idx;
      HeldElsewhereGoesWrong(s, addr, data, j);
    }
  }

  lemma HeldElsewhereGoesWrong<T(!new)>(s: State<T>, addr: nat, data: T, j: nat)
    requires s.Shaped() && Inv(s) && addr != 0 && j < |s.set_.ways| && j != s.set_.idx
    requires s.set_.ways[j].tag == addr && s.set_.ways[j].data.Some?
    ensures !AlwaysRight(Next(s, DirectCaches.Put(addr, data)))
  {
    hide AlwaysRight, Slot;
    var t := Next(s, DirectCaches.Put(addr, data));
    forall k | 0 <= k < |t.set_.ways| && t.set_.ways[k].tag == addr ensures k == j || k == s.set_.idx {
      if k != s.set_.idx { OnlyWay(s, addr, j, k); }
    }
    if j < s.set_.idx {
      TwiceHeldGoesWrong(t, addr, j, s.set_.idx);
    } else {
      TwiceHeldGoesWrong(t, addr, s.set_.idx, j);
    }
  }

  lemma OnlyWay<T>(s: State<T>, addr: nat, j: nat, k: nat)
    requires Inv(s) && addr != 0 && j < |s.set_.ways| && k < |s.set_.ways|
    requires s.set_.ways[j].tag == addr && s.set_.ways[k].tag == addr
    ensures j == k && s.set_.ways[j].data.Some?
  {
    hide Slot;
    if s.set_.ways[j].data.None? { EmptyHasZeroTag(s, j); assert false; }
    if s.set_.ways[k].data.None? { EmptyHasZeroTag(s, k); assert false; }
    var a := FilledIsResident(s, j);
    var b := FilledIsResident(s, k);
  }

  /** Zero is held in the first way at most, so putting it is unsafe only away from there. */
  lemma ZeroUnsafe<T>(s: State<T>)
    requires Inv(s)
    ensures SafePut(s.set_, 0) <==> s.set_.idx == 0
  {
    hide Slot;
    forall j | 0 <= j < |s.set_.ways| && s.set_.ways[j].tag == 0 && s.set_.ways[j].data.Some? ensures j == 0 {
      var i := FilledIsResident(s, j);
    }
  }

  lemma IndexNext<T>(s: State<T>)
    requires s.Shaped()
    ensures Slot(s.set_.idx + 1, |s.set_.ways|) == if s.set_.idx + 1 == |s.set_.ways| then 0 else s.set_.idx + 1
  {}

  /** Two ways: the second put of an address lands behind the first, and a lookup finds the older data. */
  lemma OlderFound<T>(addr: nat, older: T, newer: T)
    requires addr != 0
    ensures
      var s := State(CacheSet(0, [Empty(), Empty()]), []);
      var t := Next(Next(s, DirectCaches.Put(addr, older)), DirectCaches.Put(addr, newer));
      Lookup(t.set_, addr) == Some(older)
  {
    var s := State(CacheSet(0, [Empty(), Empty()]), []);
    var t := Next(Next(s, DirectCaches.Put(addr, older)), DirectCaches.Put(addr, newer));
    assert t.set_.ways == [Full(addr, older), Full(addr, newer)];
    FirstIsUnique(t.set_.ways, addr, 0);
  }

  /** Two ways: it lands before the first, and after an invalidation a lookup finds the invalidated data. */
  lemma InvalidatedFound<T>(other: nat, addr: nat, older: T, newer: T)
    requires addr != 0 && other != addr
    ensures
      var s := State(CacheSet(0, [Empty(), Empty()]), []);
      var t := Next(Next(s, DirectCaches.Put(other, older)), DirectCaches.Put(addr, older));
      var u := Next(Next(t, DirectCaches.Put(addr, newer)), DirectCaches.Invalidate(addr));
      Lookup(u.set_, addr) == Some(older)
  {
    var s := State(CacheSet(0, [Empty(), Empty()]), []);
    var t := Next(Next(s, DirectCaches.Put(other, older)), DirectCaches.Put(addr, older));
    var v := Next(t, DirectCaches.Put(addr, newer));
    assert v.set_ == CacheSet(1, [Full(addr, newer), Full(addr, older)]);
    FirstIsUnique(v.set_.ways, addr, 0);
    assert Invalidated(v.set_, addr).ways == [Empty(), Full(addr, older)];
    FirstIsUnique([Empty(), Full(addr, older)], addr, 1);
  }

  class SetCache<T(!new)> {
    const unit: nat
    const w: nat
    var sets: seq<CacheSet<T>>
    ghost var logs: seq<seq<Insert<T>>>
    /** Every put since the cache was cleared was safe. */
    ghost var safe: bool

    ghost predicate Valid()
      reads this
    {
      && unit > 0 && w > 0 && |sets| > 0 && |logs| == |sets|
      && (forall s :: 0 <= s < |sets| ==> |sets[s].ways| == w && sets[s].idx < w)
      && (safe ==> forall s :: 0 <= s < |sets| ==> Inv(State(sets[s], logs[s])))
    }

    constructor (unit: nat, n: nat, w: nat)
      requires unit > 0 && n > 0 && w > 0
      ensures Valid() && safe && |sets| == n && this.unit == unit && this.w == w
      ensures forall s :: 0 <= s < n ==> sets[s] == Cleared(w) && logs[s] == []
    {
      this.unit, this.w, safe := unit, w, true;
      sets := seq(n, _ => Cleared(w));
      logs := seq(n, _ => []);
    }

    /**
     * After safe puts a hit is exactly an entry that was not invalidated and has seen fewer than
     * `w` later inserts in its set, and it is what an unbounded map would hold.
     */
    method Get(addr: nat) returns (r: Option<T>)
      requires Valid()
      ensures r == Lookup(sets[addr / unit % |sets|], addr)
      ensures safe ==> (r.Some? <==> Cached(logs[addr / unit % |sets|], w, addr))
      ensures safe && r.Some? ==> r == Ideal(logs[addr / unit % |sets|], addr, |logs[addr / unit % |sets|]|)
    {
      hide Inv, Lookup, Find, Ideal;
      var s := addr / unit % |sets|;
      if safe { LookupIsCached(State(sets[s], logs[s]), addr); }
      var j := FindWay(sets[s].ways, addr);
      LookupIs(sets[s], addr, j);
      r := if j.Some? then sets[s].ways[j.value].data else None;
    }

    method Put(addr: nat, data: T)
      requires Valid()
      modifies this`sets, this`logs, this`safe
      ensures Valid() && |sets| == |old(sets)|
      ensures sets == old(sets)[addr / unit % |sets| := Inserted(old(sets)[addr / unit % |sets|], addr, data)]
      ensures logs == old(logs)[addr / unit % |sets| := old(logs)[addr / unit % |sets|] + [Insert(addr, data, true)]]
      ensures safe == (old(safe) && SafePut(old(sets)[addr / unit % |sets|], addr))
    {
      hide Inv, SafePut;
      var s := addr / unit % |sets|;
      ghost var op := DirectCaches.Put(addr, data);
      if safe && SafePut(sets[s], addr) { SafeKeepsInv(State(sets[s], logs[s]), op); }
      safe := safe && SafePut(sets[s], addr);
      sets := sets[s := Inserted(sets[s], addr, data)];
      logs := logs[s := logs[s] + [Insert(addr, data, true)]];
    }

    method Invalidate(addr: nat)
      requires Valid()
      modifies this`sets, this`logs
      ensures Valid() && |sets| == |old(sets)|
      ensures sets == old(sets)[addr / unit % |sets| := Invalidated(old(sets)[addr / unit % |sets|], addr)]
      ensures logs == old(logs)[addr / unit % |sets| := Dropped(old(logs)[addr / unit % |sets|], addr)]
    {
      hide Inv, Find;
      var s := addr / unit % |sets|;
      if safe { SafeKeepsInv(State(sets[s], logs[s]), DirectCaches.Invalidate(addr)); }
      var j := FindWay(sets[s].ways, addr);
      LookupIs(sets[s], addr, j);
      logs := logs[s := Dropped(logs[s], addr)];
      sets := sets[s := if j.Some? then sets[s].(ways := sets[s].ways[j.value := Empty()]) else sets[s]];
    }

    method Clear()
      requires Valid()
      modifies this`sets, this`logs, this`safe
      ensures Valid() && safe && |sets| == |old(sets)|
      ensures forall s :: 0 <= s < |sets| ==> sets[s] == Cleared(w) && logs[s] == []
    {
      sets := seq(|sets|, _ => Cleared(w));
      logs, safe := seq(|sets|, _ => []), true;
    }
  }

  /** The first way with the tag. */
  method FindWay<T>(ways: seq<Line<T>>, addr: nat) returns (r: Option<nat>)
    ensures r.Some? ==> FirstAt(ways, addr, r.value)
    ensures r.None? ==> forall j :: 0 <= j < |ways| ==> ways[j].tag != addr
  {
    for j := 0 to |ways|
      invariant forall i :: 0 <= i < j ==> ways[i].tag != addr
    {
      if ways[j].tag == addr { return Some(j); }
    }
    r := None;
  }

  lemma LookupIs<T>(set_: CacheSet<T>, addr: nat, j: Option<nat>)
    requires j.Some? ==> FirstAt(set_.ways, addr, j.value)
    requires j.None? ==> forall i :: 0 <= i < |set_.ways| ==> set_.ways[i].tag != addr
    ensures Find(set_.ways, addr, 0) == j
    ensures Lookup(set_, addr) == if j.Some? then set_.ways[j.value].data else None
  {}
}

/** Instruction decode through the direct-mapped cache. */
module CachedDecode {
  import opened DirectCaches
  import opened Wrappers

  class Core<D> {
    const icache: DirectCache<D>
    /** Fetch and decode at an address without the cache; nothing when either fails. */
    var decodeFrom: nat -> Option<D>
    /** Addresses whose fetched bytes changed since the last flush. */
    ghost var stale: iset<nat>

    ghost predicate Valid()
      reads this, icache, icache.slots
    {
      && icache.Valid()
      && forall a: nat :: a !in stale && Ideal(icache.log, a).Some? ==> Ideal(icache.log, a) == decodeFrom(a)
    }

    constructor (decodeFrom: nat -> Option<D>)
      ensures Valid() && this.decodeFrom == decodeFrom && stale == iset{}
    {
      icache := new DirectCache<D>(2, 8192);
      this.decodeFrom := decodeFrom;
      stale := iset{};
    }

    /** A cached decode is the uncached one while the fetched bytes are those of the last flush. */
    method DecodeAt(addr: nat) returns (r: Option<D>)
      requires Valid()
      modifies icache, icache.slots
      ensures Valid()
      ensures addr !in stale ==> r == decodeFrom(addr)
    {
      var hit := icache.Get(addr);
      if hit.Some? {
        return hit;
      }
      r := decodeFrom(addr);
      if r.Some? {
        ghost var log := icache.log;
        icache.Put(addr, r.value);
        forall a: nat ensures Ideal(icache.log, a) == if a == addr then r else Ideal(log, a) {
          assert icache.log[..|log|] == log;
        }
      }
    }

    /** Memory changes under the cache. */
    method ChangeCode(to: nat -> Option<D>)
      requires Valid()
      modifies this
      ensures Valid() && decodeFrom == to
      ensures stale == old(stale) + iset a: nat | to(a) != old(decodeFrom)(a)
    {
      stale := stale + iset a: nat | to(a) != decodeFrom(a);
      decodeFrom := to;
    }

    /** After a flush no address is stale. */
    method FlushIcache()
      requires Valid()
      modifies this`stale, icache, icache.slots
      ensures Valid() && stale == iset{}
    {
      icache.Clear();
      stale := iset{};
    }
  }
}
