/** Load-reserved, store-conditional and atomic read-modify-write over RAM, for one hart. */
module Reservations {
  import BlockDisk
  import opened Wrappers

  type byte = BlockDisk.byte

  const GRANULE := 8
  const PAGE := 4096

  datatype Fault = Misaligned | AccessFault | PageFault

  datatype Result<+T> = Ok(value: T) | Err(fault: Fault)

  /** What reached RAM, in order. A store is logged even when RAM then refuses its alignment. */
  datatype Event =
    | Loaded(granule: nat, bytes: seq<byte>)
    | Stored(granule: nat)
    | Attempted(granule: nat, success: bool)
    | Copied(start: nat, bytes: seq<byte>)

  function Put(ram: seq<byte>, addr: nat, bytes: seq<byte>): (r: seq<byte>)
    requires addr + |bytes| <= |ram|
    ensures |r| == |ram|
  {
    ram[..addr] + bytes + ram[addr + |bytes|..]
  }

  function GranuleOf(ram: seq<byte>, g: nat): (r: seq<byte>)
    requires g * GRANULE + GRANULE <= |ram|
    ensures |r| == GRANULE
  {
    ram[g * GRANULE..g * GRANULE + GRANULE]
  }

  predicate AccessSize(size: nat) { size == 1 || size == 2 || size == 4 || size == 8 }

  /** The low bits that the size's alignment mask selects are clear. */
  predicate Aligned(addr: nat, size: nat) {
    (size == 2 ==> addr % 2 == 0) && (size == 4 ==> addr % 4 == 0) && (size == 8 ==> addr % 8 == 0)
  }

  /** The event ends a reservation of granule `g`. */
  predicate Loses(e: Event, g: nat) {
    match e
    case Loaded(other, _) => other != g
    case Stored(other) => other == g
    case Attempted(_, _) => true
    case Copied(_, _) => false
  }

  /** Event `k` reserved `g` and nothing since has ended that. */
  ghost predicate HeldFrom(log: seq<Event>, k: nat, g: nat) {
    && k < |log| && log[k].Loaded? && log[k].granule == g
    && forall j :: k < j < |log| ==> !Loses(log[j], g)
  }

  ghost predicate Held(log: seq<Event>, g: nat) { exists k: nat :: HeldFrom(log, k, g) }

  predicate Overlaps(e: Event, g: nat) {
    e.Copied? && e.start < g * GRANULE + GRANULE && g * GRANULE < e.start + |e.bytes|
  }

  function CopiedByte(e: Event, at: nat, was: byte): byte {
    if e.Copied? && e.start <= at < e.start + |e.bytes| then e.bytes[at - e.start] else was
  }

  /** The bytes of granule `g` after an event: a device copy is laid over them. */
  function Overlay(bytes: seq<byte>, e: Event, g: nat): (r: seq<byte>)
    ensures |r| == |bytes|
    ensures !e.Copied? ==> r == bytes
  {
    seq(|bytes|, i requires 0 <= i < |bytes| => CopiedByte(e, g * GRANULE + i, bytes[i]))
  }

  /** What the load at `k` saw of `g`, overlaid with the device copies among the events before `n`. */
  function Overlaid(log: seq<Event>, k: nat, g: nat, n: nat): seq<byte>
    requires k < n <= |log| && log[k].Loaded?
  {
    if n == k + 1 then log[k].bytes else Overlay(Overlaid(log, k, g, n - 1), log[n - 1], g)
  }

  /** The granule has the bytes that the load saw, but for what devices copied over them since. */
  ghost predicate Accounted(ram: seq<byte>, log: seq<Event>, k: nat, g: nat)
    requires HeldFrom(log, k, g)
  {
    g * GRANULE + GRANULE <= |ram| && GranuleOf(ram, g) == Overlaid(log, k, g, |log|)
  }

  ghost predicate AllAccounted(ram: seq<byte>, log: seq<Event>) {
    forall k: nat, g: nat :: HeldFrom(log, k, g) ==> Accounted(ram, log, k, g)
  }

  ghost predicate Agrees(reserved: Option<nat>, log: seq<Event>) {
    forall g: nat :: reserved == Some(g) <==> Held(log, g)
  }

  /** Every successful store-conditional came while its granule was reserved. */
  ghost predicate Justified(log: seq<Event>) {
    forall j :: 0 <= j < |log| && log[j].Attempted? && log[j].success ==> Held(log[..j], log[j].granule)
  }

  /** Some load reserved `g`, and its bytes are still there, but for device copies since. */
  ghost predicate Paired(ram: seq<byte>, log: seq<Event>, g: nat) {
    exists k: nat :: HeldFrom(log, k, g) && Accounted(ram, log, k, g)
  }

  lemma HeldIsPaired(ram: seq<byte>, log: seq<Event>, g: nat)
    requires Held(log, g) && AllAccounted(ram, log)
    ensures Paired(ram, log, g)
  {}

  /** Without a copy into the granule the overlay is what the load saw. */
  lemma {:induction false} UntouchedOverlaid(log: seq<Event>, k: nat, g: nat, n: nat)
    requires k < n <= |log| && log[k].Loaded? && |log[k].bytes| <= GRANULE
    requires forall j :: k < j < n ==> !Overlaps(log[j], g)
    ensures Overlaid(log, k, g, n) == log[k].bytes
  {
    if n > k + 1 {
      UntouchedOverlaid(log, k, g, n - 1);
      assert Overlay(log[k].bytes, log[n - 1], g) == log[k].bytes;
    }
  }

  lemma {:induction false} OverlaidNext(log: seq<Event>, e: Event, k: nat, g: nat, n: nat)
    requires k < n <= |log| && log[k].Loaded?
    ensures Overlaid(log + [e], k, g, n) == Overlaid(log, k, g, n)
    ensures n == |log| ==> Overlaid(log + [e], k, g, n + 1) == Overlay(Overlaid(log, k, g, n), e, g)
  {
    if n > k + 1 { OverlaidNext(log, e, k, g, n - 1); }
  }

  lemma HeldAfter(log: seq<Event>, e: Event, k: nat, g: nat)
    ensures HeldFrom(log + [e], k, g) <==>
      (k == |log| && e.Loaded? && e.granule == g) || (k < |log| && HeldFrom(log, k, g) && !Loses(e, g))
  {
    var next := log + [e];
    if k < |log| && HeldFrom(next, k, g) {
      assert next[k] == log[k] && next[|log|] == e;
      forall j | k < j < |log| ensures !Loses(log[j], g) { assert next[j] == log[j]; }
    }
  }

  /** The reservation register after an event. */
  function After(reserved: Option<nat>, e: Event): Option<nat> {
    if e.Loaded? then Some(e.granule)
    else if reserved.Some? && Loses(e, reserved.value) then None
    else reserved
  }

  lemma AgreesAfter(reserved: Option<nat>, log: seq<Event>, e: Event)
    requires Agrees(reserved, log)
    ensures Agrees(After(reserved, e), log + [e])
  {
    forall g: nat ensures After(reserved, e) == Some(g) <==> Held(log + [e], g) {
      forall k: nat
        ensures HeldFrom(log + [e], k, g) <==>
          (k == |log| && e.Loaded? && e.granule == g) || (k < |log| && HeldFrom(log, k, g) && !Loses(e, g))
      {
        HeldAfter(log, e, k, g);
      }
      if e.Loaded? && e.granule == g { assert HeldFrom(log + [e], |log|, g); }
      if Held(log, g) && !Loses(e, g) {
        var k: nat :| HeldFrom(log, k, g);
        assert HeldFrom(log + [e], k, g);
      }
    }
  }

  lemma JustifiedAfter(log: seq<Event>, e: Event)
    requires Justified(log) && (e.Attempted? && e.success ==> Held(log, e.granule))
    ensures Justified(log + [e])
  {
    var next := log + [e];
    assert next[..|log|] == log;
    forall j | 0 <= j < |next| && next[j].Attempted? && next[j].success
      ensures Held(next[..j], next[j].granule)
    {
      if j < |log| { assert next[..j] == log[..j]; }
    }
  }

  /** Granules that stay reserved may change by device copies only. */
  lemma AccountedAfter(was: seq<byte>, ram: seq<byte>, log: seq<Event>, e: Event)
    requires AllAccounted(was, log) && |ram| == |was|
    requires e.Loaded? ==> e.granule * GRANULE + GRANULE <= |ram| && e.bytes == GranuleOf(ram, e.granule)
    requires forall g: nat :: g * GRANULE + GRANULE <= |ram| && !Loses(e, g) ==>
      GranuleOf(ram, g) == Overlay(GranuleOf(was, g), e, g)
    ensures AllAccounted(ram, log + [e])
  {
    hide Overlay;
    forall k: nat, g: nat | HeldFrom(log + [e], k, g) ensures Accounted(ram, log + [e], k, g) {
      HeldAfter(log, e, k, g);
      if k < |log| {
        assert Accounted(was, log, k, g);
        OverlaidNext(log, e, k, g, |log|);
      }
    }
  }

  /** A copy into RAM lays its bytes over every granule. */
  lemma PutOverlays(ram: seq<byte>, addr: nat, bytes: seq<byte>, g: nat)
    requires addr + |bytes| <= |ram| && g * GRANULE + GRANULE <= |ram|
    ensures GranuleOf(Put(ram, addr, bytes), g) == Overlay(GranuleOf(ram, g), Copied(addr, bytes), g)
  {
    var r := Put(ram, addr, bytes);
    forall i | g * GRANULE <= i < g * GRANULE + GRANULE
      ensures r[i] == if addr <= i < addr + |bytes| then bytes[i - addr] else ram[i]
    {}
  }

  /** Bytes outside the written range keep their granule. */
  lemma PutElsewhere(ram: seq<byte>, addr: nat, bytes: seq<byte>, g: nat)
    requires addr + |bytes| <= |ram| && g * GRANULE + GRANULE <= |ram|
    requires addr + |bytes| <= g * GRANULE || g * GRANULE + GRANULE <= addr
    ensures GranuleOf(Put(ram, addr, bytes), g) == GranuleOf(ram, g)
  {
    var r := Put(ram, addr, bytes);
    forall i | g * GRANULE <= i < g * GRANULE + GRANULE ensures r[i] == ram[i] {}
  }

  /** A naturally aligned access stays inside one granule. */
  lemma AlignedInGranule(addr: nat, size: nat)
    requires AccessSize(size) && Aligned(addr, size)
    ensures addr / GRANULE * GRANULE <= addr && addr + size <= addr / GRANULE * GRANULE + GRANULE
  {
    var q := addr / GRANULE;
    if size == 2 {
      var k := addr / 2;
      assert addr == 2 * k && 2 * k < 8 * q + 8;
    } else if size == 4 {
      var k := addr / 4;
      assert addr == 4 * k && 4 * k < 8 * q + 8;
    } else if size == 8 {
      assert addr == 8 * q;
    }
  }

  lemma PutAligned(ram: seq<byte>, addr: nat, bytes: seq<byte>)
    requires addr + |bytes| <= |ram| && AccessSize(|bytes|) && Aligned(addr, |bytes|)
    ensures forall g: nat :: g * GRANULE + GRANULE <= |ram| && g != addr / GRANULE ==>
      GranuleOf(Put(ram, addr, bytes), g) == GranuleOf(ram, g)
  {
    AlignedInGranule(addr, |bytes|);
    forall g: nat | g * GRANULE + GRANULE <= |ram| && g != addr / GRANULE
      ensures GranuleOf(Put(ram, addr, bytes), g) == GranuleOf(ram, g)
    {
      Apart(g, addr / GRANULE);
      PutElsewhere(ram, addr, bytes, g);
    }
  }

  lemma Apart(g: nat, h: nat)
    requires g != h
    ensures g * GRANULE + GRANULE <= h * GRANULE || h * GRANULE + GRANULE <= g * GRANULE
  {}

  /** One load pairs with at most one successful store-conditional: two successes have a load between them. */
  lemma OneSuccessPerLoad(log: seq<Event>, i: nat, j: nat)
    requires Justified(log) && i < j < |log|
    requires log[i].Attempted? && log[j].Attempted? && log[j].success
    ensures exists k :: i < k < j && log[k].Loaded? && log[k].granule == log[j].granule
  {
    var before := log[..j];
    var k: nat :| HeldFrom(before, k, log[j].granule);
    assert before[k] == log[k] && before[i] == log[i];
    if k < i { assert false; }
  }

  class Memory {
    const base: nat
    const data: array<byte>
    var reserved: Option<nat>
    ghost var log: seq<Event>

    ghost predicate Valid()
      reads this, data
    {
      && base % PAGE == 0 && data.Length % PAGE == 0
      && Agrees(reserved, log) && AllAccounted(data[..], log) && Justified(log)
    }

    constructor (base: nat, size: nat)
      requires base % PAGE == 0 && size % PAGE == 0
      ensures Valid() && log == [] && data.Length == size && fresh(data) && this.base == base
    {
      this.base := base;
      data := new byte[size](_ => 0);
      reserved, log := None, [];
    }

    /** The offset of an access inside RAM; RAM addresses are those from `base` on. */
    predicate InRam(paddr: nat) { base <= paddr < base + data.Length }

    method Invalidate(offset: nat)
      modifies this`reserved
      ensures reserved == After(old(reserved), Stored(offset / GRANULE))
    {
      if reserved == Some(offset / GRANULE) {
        reserved := None;
      }
    }

    method Fill(offset: nat, bytes: seq<byte>)
      requires offset + |bytes| <= data.Length
      modifies data
      ensures data[..] == Put(old(data[..]), offset, bytes)
    {
      forall i | 0 <= i < |bytes| { data[offset + i] := bytes[i]; }
    }

    /** The bookkeeping of one event: granules that stay reserved changed by a device copy at most. */
    ghost method Record(was: seq<byte>, e: Event)
      requires base % PAGE == 0 && data.Length % PAGE == 0 && |was| == data.Length
      requires AllAccounted(was, log) && Justified(log)
      requires e.Attempted? && e.success ==> Held(log, e.granule)
      requires Agrees(reserved, log + [e])
      requires e.Loaded? ==>
        e.granule * GRANULE + GRANULE <= data.Length && e.bytes == GranuleOf(data[..], e.granule)
      requires forall g: nat :: g * GRANULE + GRANULE <= data.Length && !Loses(e, g) ==>
        GranuleOf(data[..], g) == Overlay(GranuleOf(was, g), e, g)
      modifies this`log
      ensures Valid() && log == old(log) + [e]
    {
      JustifiedAfter(log, e);
      AccountedAfter(was, data[..], log, e);
      log := log + [e];
    }

    /** A store by the hart or the page walker. */
    method Store(paddr: nat, bytes: seq<byte>) returns (r: Result<()>)
      requires Valid() && base <= paddr && AccessSize(|bytes|)
      modifies this`reserved, this`log, data
      ensures Valid()
      ensures r.Ok? <==> paddr - base + |bytes| <= data.Length && Aligned(paddr - base, |bytes|)
      ensures r.Err? ==> r.fault == if paddr - base + |bytes| > data.Length then AccessFault else Misaligned
      ensures r.Ok? ==> data[..] == Put(old(data[..]), paddr - base, bytes)
      ensures r.Err? ==> data[..] == old(data[..])
      ensures log == if r == Err(AccessFault) then old(log) else old(log) + [Stored((paddr - base) / GRANULE)]
    {
      var offset := paddr - base;
      if offset + |bytes| > data.Length {
        return Err(AccessFault);
      }
      ghost var was, e := data[..], Stored(offset / GRANULE);
      AgreesAfter(reserved, log, e);
      Invalidate(offset);
      if !Aligned(offset, |bytes|) {
        Record(was, e);
        return Err(Misaligned);
      }
      Fill(offset, bytes);
      PutAligned(was, offset, bytes);
      Record(was, e);
      r := Ok(());
    }

    /** Data that a device copies into RAM through a raw pointer. */
    method DeviceCopy(paddr: nat, bytes: seq<byte>)
      requires Valid() && base <= paddr && paddr - base + |bytes| <= data.Length
      modifies this`log, data
      ensures Valid() && data[..] == Put(old(data[..]), paddr - base, bytes)
      ensures log == old(log) + [Copied(paddr - base, bytes)]
    {
      var offset := paddr - base;
      ghost var was, e := data[..], Copied(offset, bytes);
      AgreesAfter(reserved, log, e);
      Fill(offset, bytes);
      forall g: nat | g * GRANULE + GRANULE <= data.Length
        ensures GranuleOf(data[..], g) == Overlay(GranuleOf(was, g), e, g)
      {
        PutOverlays(was, offset, bytes, g);
      }
      Record(was, e);
    }

    /** Load-reserved at a virtual address that translates to `paddr`. */
    method LoadReserved(addr: nat, paddr: Option<nat>, size: nat) returns (r: Result<seq<byte>>)
      requires Valid() && AccessSize(size) && (paddr.Some? ==> paddr.value % PAGE == addr % PAGE)
      modifies this`reserved, this`log
      ensures Valid()
      ensures r.Ok? <==> Aligned(addr, size) && paddr.Some? && InRam(paddr.value)
      ensures r.Err? ==> r.fault == if !Aligned(addr, size) then Misaligned else if paddr.None? then PageFault else AccessFault
      ensures r.Err? ==> log == old(log) && reserved == old(reserved)
      ensures r.Ok? ==> var at := paddr.value - base; at + size <= data.Length && r.value == data[at..at + size]
      ensures r.Ok? ==> Reserves(old(log), (paddr.value - base) / GRANULE)
    {
      if !Aligned(addr, size) {
        return Err(Misaligned);
      }
      if paddr.None? {
        return Err(PageFault);
      }
      if !InRam(paddr.value) {
        return Err(AccessFault);
      }
      var offset := paddr.value - base;
      SamePageOffset(addr, paddr.value, base, size, data.Length);
      var g := offset / GRANULE;
      ghost var e := Loaded(g, GranuleOf(data[..], g));
      AgreesAfter(reserved, log, e);
      reserved := Some(g);
      Record(data[..], e);
      r := Ok(data[offset..offset + size]);
    }

    /** The log was extended by a load that saw the current bytes of granule `g`. */
    ghost predicate Reserves(was: seq<Event>, g: nat)
      reads this, data
    {
      g * GRANULE + GRANULE <= data.Length && log == was + [Loaded(g, GranuleOf(data[..], g))] && reserved == Some(g)
    }

    /** The condition under which a store-conditional takes effect. */
    ghost predicate Takes(addr: nat, paddr: Option<nat>, size: nat)
      reads this, data
    {
      Aligned(addr, size) && paddr.Some? && InRam(paddr.value) && Held(log, (paddr.value - base) / GRANULE)
    }

    ghost predicate StoredAt(was: seq<byte>, paddr: Option<nat>, bytes: seq<byte>)
      reads this, data
    {
      && paddr.Some? && base <= paddr.value && paddr.value - base + |bytes| <= |was|
      && data[..] == Put(was, paddr.value - base, bytes)
    }

    /**
     * Store-conditional: it takes effect exactly on a held reservation, the bytes stored are the
     * only change, and the reservation ends unless the address did not translate.
     */
    method StoreConditional(addr: nat, paddr: Option<nat>, bytes: seq<byte>) returns (r: Result<bool>)
      requires Valid() && AccessSize(|bytes|) && (paddr.Some? ==> paddr.value % PAGE == addr % PAGE)
      modifies this`reserved, this`log, data
      ensures Valid()
      ensures r == Ok(true) <==> old(Takes(addr, paddr, |bytes|))
      ensures r == Ok(true) ==>
        && paddr.Some? && InRam(paddr.value)
        && Paired(old(data[..]), old(log), (paddr.value - base) / GRANULE)
      ensures r == Ok(true) ==> StoredAt(old(data[..]), paddr, bytes)
      ensures r != Ok(true) ==> data[..] == old(data[..])
      ensures r == Err(PageFault) <==> Aligned(addr, |bytes|) && paddr.None?
      ensures r == Err(Misaligned) <==> !Aligned(addr, |bytes|)
      ensures r == Err(AccessFault) <==> Aligned(addr, |bytes|) && paddr.Some? && !InRam(paddr.value)
      ensures r == Err(PageFault) ==> reserved == old(reserved) && log == old(log)
      ensures r != Err(PageFault) ==> reserved == None
      ensures r.Ok? ==> paddr.Some? && InRam(paddr.value)
      ensures r.Ok? ==> log == old(log) + [Attempted((paddr.value - base) / GRANULE, r.value)]
    {
      hide Held, AllAccounted, Justified, Put, Paired;
      if !Aligned(addr, |bytes|) {
        Fail(0);
        return Err(Misaligned);
      }
      if paddr.None? {
        return Err(PageFault);
      }
      if !InRam(paddr.value) {
        Fail(0);
        return Err(AccessFault);
      }
      var offset := paddr.value - base;
      SamePageOffset(addr, paddr.value, base, |bytes|, data.Length);
      if reserved != Some(offset / GRANULE) {
        Fail(offset / GRANULE);
        return Ok(false);
      }
      HeldIsPaired(data[..], log, offset / GRANULE);
      Succeed(offset, bytes);
      r := Ok(true);
    }

    method Succeed(offset: nat, bytes: seq<byte>)
      requires Valid() && reserved == Some(offset / GRANULE) && offset + |bytes| <= data.Length
      modifies this`reserved, this`log, data
      ensures Valid() && reserved == None && log == old(log) + [Attempted(offset / GRANULE, true)]
      ensures data[..] == Put(old(data[..]), offset, bytes)
    {
      ghost var was, e := data[..], Attempted(offset / GRANULE, true);
      AgreesAfter(reserved, log, e);
      Fill(offset, bytes);
      reserved := None;
      Record(was, e);
    }

    /** A failed attempt drops the reservation and changes nothing else. */
    method Fail(granule: nat)
      requires Valid()
      modifies this`reserved, this`log
      ensures Valid() && reserved == None && log == old(log) + [Attempted(granule, false)]
    {
      ghost var e := Attempted(granule, false);
      AgreesAfter(reserved, log, e);
      reserved := None;
      Record(data[..], e);
    }

    /** Atomic read-modify-write: returns the bytes before and ends an overlapping reservation. */
    method FetchAndOp(paddr: Option<nat>, size: nat, op: seq<byte> -> seq<byte>) returns (r: Result<seq<byte>>)
      requires Valid() && AccessSize(size) && forall s :: |s| == size ==> |op(s)| == size
      modifies this`reserved, this`log, data
      ensures Valid()
      ensures r.Ok? <==> paddr.Some? && Aligned(paddr.value, size) && InRam(paddr.value)
      ensures r.Err? ==>
        r.fault == if paddr.None? then PageFault else if !Aligned(paddr.value, size) then Misaligned else AccessFault
      ensures r.Err? ==> data[..] == old(data[..]) && log == old(log)
      ensures r.Ok? ==>
        var at := paddr.value - base;
        && at + size <= data.Length && r.value == old(data[..])[at..at + size]
        && data[..] == Put(old(data[..]), at, op(r.value)) && log == old(log) + [Stored(at / GRANULE)]
    {
      if paddr.None? {
        return Err(PageFault);
      }
      if !Aligned(paddr.value, size) {
        return Err(Misaligned);
      }
      if !InRam(paddr.value) {
        return Err(AccessFault);
      }
      var offset := paddr.value - base;
      SamePageOffset(paddr.value, paddr.value, base, size, data.Length);
      ghost var was, e := data[..], Stored(offset / GRANULE);
      var before := data[offset..offset + size];
      Fill(offset, op(before));
      AgreesAfter(reserved, log, e);
      Invalidate(offset);
      PutAligned(was, offset, op(before));
      Record(was, e);
      r := Ok(before);
    }
  }

  /** Translation keeps the page offset, so alignment carries over and an aligned access stays in RAM. */
  lemma SamePageOffset(addr: nat, paddr: nat, base: nat, size: nat, length: nat)
    requires AccessSize(size) && Aligned(addr, size) && paddr % PAGE == addr % PAGE
    requires base % PAGE == 0 && length % PAGE == 0 && base <= paddr < base + length
    ensures Aligned(paddr - base, size) && paddr - base + size <= length
    ensures (paddr - base) / GRANULE * GRANULE + GRANULE <= length
  {
    var pages := paddr / PAGE - addr / PAGE - base / PAGE;
    assert paddr - base == addr + pages * PAGE;
    MultipleOf(paddr - base, addr, pages, size);
    MultipleOf(length, 0, length / PAGE, size);
    MultipleOf(length, 0, length / PAGE, GRANULE);
    Below(paddr - base, length, size);
    Below((paddr - base) / GRANULE * GRANULE, length, GRANULE);
  }

  lemma MultipleOf(x: nat, y: nat, pages: int, size: nat)
    requires AccessSize(size) && Aligned(y, size) && x == y + pages * PAGE
    ensures Aligned(x, size)
  {
    RestMod2(x, y, 2048 * pages);
    RestMod4(x, y, 1024 * pages);
    RestMod8(x, y, 512 * pages);
  }

  lemma RestMod2(x: nat, y: nat, k: int)
    requires x == y + 2 * k
    ensures x % 2 == y % 2
  {}

  lemma RestMod4(x: nat, y: nat, k: int)
    requires x == y + 4 * k
    ensures x % 4 == y % 4
  {}

  lemma RestMod8(x: nat, y: nat, k: int)
    requires x == y + 8 * k
    ensures x % 8 == y % 8
  {}

  /** Multiples of `size` are at least `size` apart. */
  lemma Below(x: nat, y: nat, size: nat)
    requires AccessSize(size) && Aligned(x, size) && Aligned(y, size) && x < y
    ensures x + size <= y
  {
    if size == 2 {
      var i, j := x / 2, y / 2;
      assert x == 2 * i && y == 2 * j;
    } else if size == 4 {
      var i, j := x / 4, y / 4;
      assert x == 4 * i && y == 4 * j;
    } else if size == 8 {
      var i, j := x / 8, y / 8;
      assert x == 8 * i && y == 8 * j;
    }
  }

  /** A device copy between the two halves goes unnoticed: the store succeeds over bytes the load never saw. */
  method CopyGoesUnnoticed() returns (before: seq<byte>, after: seq<byte>, r: Result<bool>)
    ensures r == Ok(true) && before != after
  {
    var m := new Memory(0, PAGE);
    var loaded := m.LoadReserved(0, Some(0), 8);
    before := m.data[0..8];
    ghost var log := m.log;
    assert HeldFrom(log, 0, 0);
    m.DeviceCopy(0, [if before[0] == 0 then 1 else 0]);
    after := m.data[0..8];
    assert after[0] != before[0];
    assert HeldFrom(m.log, 0, 0);
    r := m.StoreConditional(0, Some(0), after);
  }

  /** A store-conditional whose address does not translate leaves the reservation for a later one. */
  method PageFaultKeepsReservation() returns (first: Result<bool>, second: Result<bool>)
    ensures first == Err(PageFault) && second == Ok(true)
  {
    hide Memory.Valid, Held, HeldFrom, Put, Paired, Memory.StoredAt;
    var m := new Memory(0, PAGE);
    var loaded := m.LoadReserved(0, Some(0), 8);
    assert m.log == [Loaded(0, m.data[0..8])];
    FirstIsHeld(m.data[0..8]);
    var bytes := m.data[0..8];
    first := m.StoreConditional(0, None, bytes);
    second := m.StoreConditional(0, Some(0), bytes);
  }

  lemma FirstIsHeld(bytes: seq<byte>)
    ensures Held([Loaded(0, bytes)], 0)
  {
    assert HeldFrom([Loaded(0, bytes)], 0, 0);
  }
}
