/**
The block device front end: taking requests from the queue, turning descriptor chains
into worker tasks, notification and reset. Each method is tied to steps of the protocol
in module Virtqueue; `model` is the protocol state the object stands for.
*/
module VirtioBlockDevice {
  import opened Wrappers
  import opened Rings
  import opened Virtqueue
  import opened DescriptorChain
  import opened BlockDisk
  import opened Ram

  const HEADER_SIZE := 16

  datatype ReqType = In | Out | Flush | Other

  // The request header decoded at a guest address.
  datatype Header = Header(requestType: nat, sector: nat)

  // What the worker is asked to do.
  datatype BlockTask =
    | ReadTask(offset: nat, buffers: seq<Buffer>)
    | WriteTask(offset: nat, buffers: seq<Buffer>)
    | FlushTask
    | EarlyErr
    | UnsupportedTask

  function TypeOf(code: nat): ReqType {
    match code
    case 0 => In
    case 1 => Out
    case 4 => Flush
    case _ => Other
  }

  function BufferOf(d: Desc): Buffer
    requires d.BufferInRam()
  {
    Buffer(d.paddr - RAM_BASE, d.len)
  }

  /** The last descriptor is a status descriptor: not the header, without NEXT, at least one byte. */
  predicate HasStatus(mem: Memory, path: seq<Loc>) {
    |path| >= 2 && !At(mem, path[|path| - 1]).hasNext && At(mem, path[|path| - 1]).len >= STATUS_SIZE
  }

  /** The number of descriptors between the header and the tail. */
  function BodySize(mem: Memory, path: seq<Loc>, n: nat): nat
    requires n <= |path|
  {
    if n < 2 then 0 else if At(mem, path[n - 1]).hasNext then n - 1 else n - 2
  }

  function TaskFor(capacity: nat, reqType: ReqType, sector: nat, buffers: seq<Buffer>): (task: BlockTask)
    requires capacity * SECTOR_SIZE <= U64_MAX
    ensures task.ReadTask? || task.WriteTask? ==>
      && task.buffers == buffers && task.offset == sector * SECTOR_SIZE
      && task.offset + TotalLen(buffers) <= capacity * SECTOR_SIZE
      && TotalLen(buffers) + STATUS_SIZE <= U32_MAX
    ensures (task.ReadTask? || task.WriteTask? || task.EarlyErr?) <==> (reqType.In? || reqType.Out?)
    ensures reqType.In? || reqType.Out? ==>
      (task.EarlyErr? <==>
        sector * SECTOR_SIZE + TotalLen(buffers) > capacity * SECTOR_SIZE || TotalLen(buffers) + STATUS_SIZE > U32_MAX)
    ensures (task.ReadTask? ==> reqType.In?) && (task.WriteTask? ==> reqType.Out?)
    ensures (task.FlushTask? <==> reqType.Flush?) && (task.UnsupportedTask? <==> reqType.Other?)
  {
    var offset := RequestOffsetInBounds(capacity, sector, buffers);
    match reqType
    case In => if offset.Some? then ReadTask(offset.value, buffers) else EarlyErr
    case Out => if offset.Some? then WriteTask(offset.value, buffers) else EarlyErr
    case Flush => FlushTask
    case Other => UnsupportedTask
  }

  /** Every descriptor of a path but the last one continues. */
  lemma PathContinues(mem: Memory, start: Loc, path: seq<Loc>)
    requires IsPath(mem, start, path)
    ensures forall i :: 0 <= i < |path| - 1 ==> At(mem, path[i]).hasNext
  {
    forall i | 0 <= i < |path| - 1 ensures At(mem, path[i]).hasNext { PathSucc(mem, start, path, i); }
  }

  predicate HeaderParsed(mem: Memory, headerAt: nat -> Header, path: seq<Loc>, reqType: ReqType, sector: nat) {
    if path != [] && At(mem, path[0]).len >= HEADER_SIZE then
      var header := headerAt(At(mem, path[0]).paddr);
      reqType == TypeOf(header.requestType) && (reqType != Other ==> sector == header.sector)
    else reqType == Other
  }

  /** The buffers are those of the descriptors between header and tail, in order. */
  predicate IsBody(mem: Memory, path: seq<Loc>, buffers: seq<Buffer>)
    requires InBounds(mem, path)
  {
    && |buffers| == BodySize(mem, path, |path|)
    && forall j :: 1 <= j <= |buffers| ==> buffers[j - 1] == BufferOf(At(mem, path[j]))
  }

  /** Split a chain into header, data buffers and status descriptor. */
  method ParseChain(mem: Memory, headerAt: nat -> Header, ghost start: Loc, path: seq<Loc>)
    returns (reqType: ReqType, sector: nat, buffers: seq<Buffer>, status: Option<nat>)
    requires IsPath(mem, start, path) && InBounds(mem, path)
    ensures HeaderParsed(mem, headerAt, path, reqType, sector)
    ensures IsBody(mem, path, buffers) && InRam(RAM_SIZE, buffers)
    ensures status == if HasStatus(mem, path) then Some(At(mem, path[|path| - 1]).paddr - RAM_BASE) else None
  {
    reqType, sector, buffers, status := Other, 0, [], None;
    if path == [] { return; }
    PathContinues(mem, start, path);
    var header := At(mem, path[0]);
    if header.len >= HEADER_SIZE {
      reqType := TypeOf(headerAt(header.paddr).requestType);
      sector := if reqType == Other then 0 else headerAt(header.paddr).sector;
    }
    for i := 1 to |path|
      invariant status.Some? ==> i == |path| && HasStatus(mem, path)
      invariant i == |path| && HasStatus(mem, path) ==> status == Some(At(mem, path[|path| - 1]).paddr - RAM_BASE)
      invariant |buffers| == BodySize(mem, path, i) && InRam(RAM_SIZE, buffers)
      invariant forall j :: 1 <= j <= |buffers| ==> buffers[j - 1] == BufferOf(At(mem, path[j]))
    {
      var desc := At(mem, path[i]);
      if desc.hasNext {
        buffers := buffers + [BufferOf(desc)];
      } else if desc.len >= STATUS_SIZE {
        status := Some(desc.paddr - RAM_BASE);
      }
    }
  }

  // What the device reads from guest memory while it serves a queue.
  datatype Guest = Guest(mem: Memory, headerAt: nat -> Header, desc: Table)

  /** The work item is what the header and the body of the chain ask for. */
  ghost predicate DescribesTask(guest: Guest, capacity: nat, path: seq<Loc>, task: BlockTask)
    requires capacity * SECTOR_SIZE <= U64_MAX && InBounds(guest.mem, path)
  {
    exists reqType, sector, buffers ::
      && HeaderParsed(guest.mem, guest.headerAt, path, reqType, sector)
      && IsBody(guest.mem, path, buffers)
      && task == TaskFor(capacity, reqType, sector, buffers)
  }

  /** The walk ends for every head: no table is entered twice. */
  ghost predicate WalksEnd(guest: Guest) { forall head: nat :: Ends(guest.mem, Start(guest.desc, head)) }

  /** Drivers that obey the standard never make the walk run forever. */
  lemma StandardWalksEnd(guest: Guest)
    requires NoNestedIndirect(guest.mem, guest.desc)
    ensures WalksEnd(guest)
  {
    forall head: nat ensures Ends(guest.mem, Start(guest.desc, head)) { NoNestedEnds(guest.mem, guest.desc, head); }
  }

  /** `path` is what the device walks from `head`. */
  ghost predicate Walked(guest: Guest, head: nat, path: seq<Loc>) {
    && IsPath(guest.mem, Loc(guest.desc, head), path) && InBounds(guest.mem, path)
    && WithinBudget(guest.mem, guest.desc, head, path) && Ended(guest.mem, guest.desc, head, path)
  }

  /** The work item answers the chain: its head, its status descriptor, and what it asks for. */
  ghost predicate Answers(guest: Guest, capacity: nat, head: nat, path: seq<Loc>, work: Work)
    requires capacity * SECTOR_SIZE <= U64_MAX && InBounds(guest.mem, path)
  {
    && HasStatus(guest.mem, path) && work.Work? && work.id == head
    && work.statusAddr == At(guest.mem, path[|path| - 1]).paddr - RAM_BASE
    && DescribesTask(guest, capacity, path, work.task)
  }

  ghost predicate WorkFor(guest: Guest, capacity: nat, head: nat, work: Work)
    requires capacity * SECTOR_SIZE <= U64_MAX
  {
    exists path :: Walked(guest, head, path) && Answers(guest, capacity, head, path, work)
  }

  /** The chain has no status descriptor, so there is nothing to answer. */
  ghost predicate NoWork(guest: Guest, head: nat) {
    exists path :: Walked(guest, head, path) && !HasStatus(guest.mem, path)
  }

  lemma SameWalk(guest: Guest, head: nat, p: seq<Loc>, q: seq<Loc>)
    requires Walked(guest, head, p) && Walked(guest, head, q)
    ensures p == q
  {
    WalkUnique(guest.mem, guest.desc, head, p, q);
    WalkUnique(guest.mem, guest.desc, head, q, p);
    PathsAgree(guest.mem, Loc(guest.desc, head), p, q, |p|);
  }

  lemma SameBody(mem: Memory, path: seq<Loc>, a: seq<Buffer>, b: seq<Buffer>)
    requires InBounds(mem, path) && IsBody(mem, path, a) && IsBody(mem, path, b)
    ensures a == b
  {
    forall j | 0 <= j < |a| ensures a[j] == b[j] {
      assert a[j + 1 - 1] == BufferOf(At(mem, path[j + 1])) == b[j + 1 - 1];
    }
  }

  /** The guest's memory determines the work item. */
  lemma WorkUnique(guest: Guest, capacity: nat, head: nat, v: Work, w: Work)
    requires capacity * SECTOR_SIZE <= U64_MAX
    requires WorkFor(guest, capacity, head, v) && WorkFor(guest, capacity, head, w)
    ensures v == w && !NoWork(guest, head)
  {
    var p :| Walked(guest, head, p) && Answers(guest, capacity, head, p, v);
    var q :| Walked(guest, head, q) && Answers(guest, capacity, head, q, w);
    SameWalk(guest, head, p, q);
    SameTask(guest, capacity, p, v.task, w.task);
    forall path | Walked(guest, head, path) ensures path == p { SameWalk(guest, head, path, p); }
  }

  lemma SameTask(guest: Guest, capacity: nat, path: seq<Loc>, v: BlockTask, w: BlockTask)
    requires capacity * SECTOR_SIZE <= U64_MAX && InBounds(guest.mem, path)
    requires DescribesTask(guest, capacity, path, v) && DescribesTask(guest, capacity, path, w)
    ensures v == w
  {
    var r, s, bs :| HeaderParsed(guest.mem, guest.headerAt, path, r, s) && IsBody(guest.mem, path, bs)
      && v == TaskFor(capacity, r, s, bs);
    var r', s', bs' :| HeaderParsed(guest.mem, guest.headerAt, path, r', s') && IsBody(guest.mem, path, bs')
      && w == TaskFor(capacity, r', s', bs');
    SameBody(guest.mem, path, bs, bs');
  }

  /**
  Turn the chain at `head` into a task for the worker, or nothing if it has no status descriptor.
  */
  method BuildTask(guest: Guest, capacity: nat, head: nat) returns (work: Option<Work>)
    requires capacity * SECTOR_SIZE <= U64_MAX && WalksEnd(guest)
    ensures work.None? ==> NoWork(guest, head)
    ensures work.Some? ==>
      && WorkFor(guest, capacity, head, work.value)
      && work.value.Work? && work.value.id == head && WorkInBounds(capacity * SECTOR_SIZE, work.value)
  {
    var path := WalkChain(guest.mem, guest.desc, head);
    var reqType, sector, buffers, status := ParseChain(guest.mem, guest.headerAt, Loc(guest.desc, head), path);
    assert Walked(guest, head, path);
    if status.None? {
      return None;
    }
    var task := TaskFor(capacity, reqType, sector, buffers);
    assert DescribesTask(guest, capacity, path, task);
    assert Answers(guest, capacity, head, path, Work(head, status.value, task));
    work := Some(Work(head, status.value, task));
  }

  // ------------------------------------------------------------------
  // Requests as the driver lays them out
  // ------------------------------------------------------------------

  // A request: type code and sector of its header, its data buffers, and the address of its status byte.
  datatype Ask = Ask(code: nat, sector: nat, buffers: seq<Buffer>, status: nat)

  /** The chain of descriptors spells the request: a 16-byte header, the data buffers, one byte of status. */
  ghost predicate Spells(guest: Guest, path: seq<Loc>, a: Ask)
    requires InBounds(guest.mem, path)
  {
    && |path| == |a.buffers| + 2
    && At(guest.mem, path[0]).len >= 16 && guest.headerAt(At(guest.mem, path[0]).paddr) == Header(a.code, a.sector)
    && (forall j :: 1 <= j <= |a.buffers| ==>
          var d := At(guest.mem, path[j]);
          d.BufferInRam() && a.buffers[j - 1].start == d.paddr - RAM_BASE && a.buffers[j - 1].len == d.len)
    && (var tail := At(guest.mem, path[|path| - 1]); !tail.hasNext && tail.len >= 1 && a.status == tail.paddr - RAM_BASE)
  }

  /** Guest memory holds the request at `head`. */
  ghost predicate Asks(guest: Guest, head: nat, a: Ask) {
    exists path :: Walked(guest, head, path) && Spells(guest, path, a)
  }

  /** The usual layout: header, one data buffer and the status byte in three linked entries of the queue's table. */
  lemma DirectRequest(guest: Guest, i: nat, j: nat, k: nat)
    requires i < guest.desc.len && j < guest.desc.len && k < guest.desc.len
    requires
      var h, d, s := At(guest.mem, Loc(guest.desc, i)), At(guest.mem, Loc(guest.desc, j)), At(guest.mem, Loc(guest.desc, k));
      && !h.indirect && h.hasNext && h.next == j && h.BufferInRam() && h.len >= 16
      && !d.indirect && d.hasNext && d.next == k && d.BufferInRam()
      && !s.indirect && !s.hasNext && s.BufferInRam() && s.len >= 1
    ensures
      var h, d, s := At(guest.mem, Loc(guest.desc, i)), At(guest.mem, Loc(guest.desc, j)), At(guest.mem, Loc(guest.desc, k));
      var header := guest.headerAt(h.paddr);
      Asks(guest, i, Ask(header.requestType, header.sector, [Buffer(d.paddr - 0x8000_0000, d.len)], s.paddr - 0x8000_0000))
  {
    var t, mem := guest.desc, guest.mem;
    var h, d, s := At(mem, Loc(t, i)), At(mem, Loc(t, j)), At(mem, Loc(t, k));
    var header := guest.headerAt(h.paddr);
    var a := Ask(header.requestType, header.sector, [Buffer(d.paddr - 0x8000_0000, d.len)], s.paddr - 0x8000_0000);
    var path := [Loc(t, i), Loc(t, j), Loc(t, k)];
    DirectPath(mem, t, i, j, k);
    assert Walked(guest, i, path);
    assert Spells(guest, path, a);
  }

  lemma DirectPath(mem: Memory, t: Table, i: nat, j: nat, k: nat)
    requires i < t.len && j < t.len && k < t.len
    requires
      var h, d, s := At(mem, Loc(t, i)), At(mem, Loc(t, j)), At(mem, Loc(t, k));
      && !h.indirect && h.hasNext && h.next == j && h.BufferInRam()
      && !d.indirect && d.hasNext && d.next == k && d.BufferInRam()
      && !s.indirect && !s.hasNext && s.BufferInRam()
    ensures
      var path := [Loc(t, i), Loc(t, j), Loc(t, k)];
      && IsPath(mem, Loc(t, i), path) && InBounds(mem, path) && WithinBudget(mem, t, i, path) && Ended(mem, t, i, path)
  {
    var p1, p2, p3 := [Loc(t, i)], [Loc(t, i), Loc(t, j)], [Loc(t, i), Loc(t, j), Loc(t, k)];
    assert p1[..0] == [] && p2[..1] == p1 && p3[..2] == p2 && p3[..1] == p1 && p3[..0] == [];
    assert i != k && j != k && i != j && t.len >= 3;
    assert IsPath(mem, Loc(t, i), p1) && IsPath(mem, Loc(t, i), p2);
    assert Visits(mem, t, i, []) == 0 && Visits(mem, t, i, p1) == 1 && Visits(mem, t, i, p2) == 2;
    forall n | 0 <= n < 3 ensures !Exhausted(mem, t, i, p3[..n]) {
      assert p3[..n] == if n == 0 then [] else if n == 1 then p1 else p2;
    }
  }

  /** The data of the request lies on a disk of that many sectors, and its length fits the used ring. */
  predicate OnDisk(capacity: nat, a: Ask) {
    512 * a.sector + TotalLen(a.buffers) <= 512 * capacity && TotalLen(a.buffers) + 1 <= 0xFFFF_FFFF
  }

  /** What the device makes of a request: type 0 reads, 1 writes, 4 flushes, and no other is supported. */
  lemma WorkForAsk(guest: Guest, capacity: nat, head: nat, a: Ask, work: Work)
    requires capacity * SECTOR_SIZE <= U64_MAX && Asks(guest, head, a) && WorkFor(guest, capacity, head, work)
    ensures work.Work? && work.id == head && work.statusAddr == a.status < RAM_SIZE && InRam(RAM_SIZE, a.buffers)
    ensures a.code == 0 ==> work.task == if OnDisk(capacity, a) then ReadTask(512 * a.sector, a.buffers) else EarlyErr
    ensures a.code == 1 ==> work.task == if OnDisk(capacity, a) then WriteTask(512 * a.sector, a.buffers) else EarlyErr
    ensures a.code == 4 ==> work.task == FlushTask
    ensures a.code !in {0, 1, 4} ==> work.task == UnsupportedTask
  {
    hide LenOf, IsPath, WithinBudget, Ended, DescribesTask, OnDisk;
    var p :| Walked(guest, head, p) && Spells(guest, p, a);
    var q :| Walked(guest, head, q) && Answers(guest, capacity, head, q, work);
    SameWalk(guest, head, p, q);
    forall i | 0 <= i < |a.buffers| ensures a.buffers[i].start + a.buffers[i].len <= RAM_SIZE {
      assert At(guest.mem, p[i + 1]).BufferInRam() && a.buffers[i + 1 - 1].len == At(guest.mem, p[i + 1]).len;
    }
    TaskForAsk(guest, capacity, p, a, work.task);
  }

  lemma TaskForAsk(guest: Guest, capacity: nat, path: seq<Loc>, a: Ask, task: BlockTask)
    requires capacity * SECTOR_SIZE <= U64_MAX && InBounds(guest.mem, path) && Spells(guest, path, a)
    requires DescribesTask(guest, capacity, path, task)
    ensures a.code == 0 ==> task == if OnDisk(capacity, a) then ReadTask(512 * a.sector, a.buffers) else EarlyErr
    ensures a.code == 1 ==> task == if OnDisk(capacity, a) then WriteTask(512 * a.sector, a.buffers) else EarlyErr
    ensures a.code == 4 ==> task == FlushTask
    ensures a.code !in {0, 1, 4} ==> task == UnsupportedTask
  {
    hide LenOf;
    var r, sector, bs :| HeaderParsed(guest.mem, guest.headerAt, path, r, sector) && IsBody(guest.mem, path, bs)
      && task == TaskFor(capacity, r, sector, bs);
    assert |bs| == |a.buffers|;
    forall j | 0 <= j < |bs| ensures bs[j] == a.buffers[j] {
      assert bs[j + 1 - 1] == BufferOf(At(guest.mem, path[j + 1]));
      assert a.buffers[j + 1 - 1].start == At(guest.mem, path[j + 1]).paddr - RAM_BASE;
    }
    assert bs == a.buffers;
  }

  /** Every request that guest memory holds becomes some work item. */
  lemma AskHasWork(guest: Guest, capacity: nat, head: nat, a: Ask) returns (work: Work)
    requires capacity * SECTOR_SIZE <= U64_MAX && Asks(guest, head, a)
    ensures WorkFor(guest, capacity, head, work)
  {
    hide LenOf, WithinBudget, Ended;
    var p :| Walked(guest, head, p) && Spells(guest, p, a);
    PathContinues(guest.mem, Loc(guest.desc, head), p);
    var r, sector := TypeOf(a.code), a.sector;
    var task := TaskFor(capacity, r, sector, a.buffers);
    forall j | 1 <= j <= |a.buffers| ensures a.buffers[j - 1] == BufferOf(At(guest.mem, p[j])) {}
    assert HeaderParsed(guest.mem, guest.headerAt, p, r, sector) && IsBody(guest.mem, p, a.buffers);
    work := Work(head, a.status, task);
    assert DescribesTask(guest, capacity, p, task);
    assert Answers(guest, capacity, head, p, work);
  }

  // An item of the channel to the worker.
  datatype Work = Work(id: nat, statusAddr: nat, task: BlockTask) | Barrier

  ghost predicate WorkInBounds(size: nat, work: Work)
    requires work.Work?
  {
    && work.statusAddr < RAM_SIZE
    && (work.task.ReadTask? || work.task.WriteTask? ==>
          && work.task.offset + TotalLen(work.task.buffers) <= size
          && InRam(RAM_SIZE, work.task.buffers)
          && TotalLen(work.task.buffers) + STATUS_SIZE <= U32_MAX)
  }

  /** What the worker answers when host I/O succeeds. */
  function Answer(task: BlockTask): Status {
    match task
    case EarlyErr => IoErr
    case UnsupportedTask => Unsupported
    case _ => Ok
  }

  function UsedLen(task: BlockTask): nat {
    if task.ReadTask? then TotalLen(task.buffers) + STATUS_SIZE else STATUS_SIZE
  }

  /** Guest RAM after serving `work`: data of a read, then the status byte. */
  function RamAfter(image: seq<byte>, ram: seq<byte>, work: Work): seq<byte>
    requires work.Work? && work.statusAddr < |ram|
    requires work.task.ReadTask? ==>
      InRam(|ram|, work.task.buffers) && work.task.offset + TotalLen(work.task.buffers) <= |image|
  {
    var filled := if work.task.ReadTask?
                  then Scatter(ram, work.task.buffers, |work.task.buffers|, image[work.task.offset..])
                  else ram;
    filled[work.statusAddr := StatusCode(Answer(work.task))]
  }

  /** A status byte outside the data buffers of the request. */
  predicate StatusApart(work: Work)
    requires work.Work? && (work.task.ReadTask? || work.task.WriteTask?)
  {
    forall i :: 0 <= i < |work.task.buffers| ==> Apart(work.task.buffers[i], Buffer(work.statusAddr, STATUS_SIZE))
  }

  /** An IN request into disjoint buffers gathers the bytes of the image, whatever the status byte. */
  lemma ReadSeesImage(image: seq<byte>, ram: seq<byte>, work: Work)
    requires work.Work? && work.task.ReadTask? && work.statusAddr < |ram| && InRam(|ram|, work.task.buffers)
    requires work.task.offset + TotalLen(work.task.buffers) <= |image|
    requires Disjoint(work.task.buffers) && StatusApart(work)
    ensures
      var t := work.task;
      Gather(RamAfter(image, ram, work), t.buffers, |t.buffers|) == image[t.offset..t.offset + TotalLen(t.buffers)]
  {
    var t := work.task;
    var filled := Scatter(ram, t.buffers, |t.buffers|, image[t.offset..]);
    var code := [StatusCode(Answer(t))];
    GatherScatter(ram, t.buffers, |t.buffers|, image[t.offset..]);
    GatherAfterWrite(filled, t.buffers, |t.buffers|, Buffer(work.statusAddr, STATUS_SIZE), code);
    assert WriteAt(filled, work.statusAddr, code) == RamAfter(image, ram, work);
  }

  /** After any accepted stores, such a request finds in guest RAM the bytes stored last. */
  lemma ReadReturnsLastStored(disk: seq<byte>, log: seq<Store>, ram: seq<byte>, work: Work)
    requires Fits(|disk|, log) && |StoreAll(disk, log)| == |disk|
    requires work.Work? && work.task.ReadTask? && work.statusAddr < |ram| && InRam(|ram|, work.task.buffers)
    requires work.task.offset + TotalLen(work.task.buffers) <= |disk|
    requires Disjoint(work.task.buffers) && StatusApart(work)
    ensures
      var t := work.task;
      var data := Gather(RamAfter(StoreAll(disk, log), ram, work), t.buffers, |t.buffers|);
      forall i :: 0 <= i < TotalLen(t.buffers) ==> data[i] == LastStored(disk, log, t.offset + i)
  {
    hide RamAfter, StoreAll, LastStored, Gather, LenOf;
    DiskIsLastStored(disk, log);
    ReadSeesImage(StoreAll(disk, log), ram, work);
  }

  // ------------------------------------------------------------------
  // Serving requests one after another
  // ------------------------------------------------------------------

  // What the worker owns: the backing image and guest RAM.
  datatype Host = Host(image: seq<byte>, ram: seq<byte>)

  /** The request lies inside the image and guest RAM. */
  predicate Serveable(size: nat, ramSize: nat, work: Work) {
    work.Work? ==>
      && work.statusAddr < ramSize
      && (work.task.ReadTask? || work.task.WriteTask? ==>
            InRam(ramSize, work.task.buffers) && work.task.offset + TotalLen(work.task.buffers) <= size)
  }

  predicate AllServeable(size: nat, ramSize: nat, works: seq<Work>) {
    forall i :: 0 <= i < |works| ==> Serveable(size, ramSize, works[i])
  }

  /** Only an OUT request changes the image, and stores the data gathered from its buffers. */
  function ServedOne(h: Host, work: Work): (r: Host)
    requires Serveable(|h.image|, |h.ram|, work)
    ensures |r.image| == |h.image| && |r.ram| == |h.ram|
  {
    if work.Barrier? then h
    else
      var image := if work.task.WriteTask?
                   then WriteAt(h.image, work.task.offset, Gather(h.ram, work.task.buffers, |work.task.buffers|))
                   else h.image;
      Host(image, RamAfter(h.image, h.ram, work))
  }

  lemma BarrierServed(h: Host, work: Work)
    requires work.Barrier?
    ensures Serveable(|h.image|, |h.ram|, work) && ServedOne(h, work) == h
  {}

  /** What serving the request adds to the log of stores. */
  function StoresOf(ram: seq<byte>, work: Work): seq<Store>
    requires work.Work? && work.task.WriteTask? ==> InRam(|ram|, work.task.buffers)
  {
    if work.Work? && work.task.WriteTask?
    then [Store(work.task.offset, Gather(ram, work.task.buffers, |work.task.buffers|))] else []
  }

  /** Image and RAM after the first `n` requests. */
  function Served(h: Host, works: seq<Work>, n: nat): (r: Host)
    requires n <= |works| && AllServeable(|h.image|, |h.ram|, works)
    ensures |r.image| == |h.image| && |r.ram| == |h.ram|
  {
    if n == 0 then h else ServedOne(Served(h, works, n - 1), works[n - 1])
  }

  /** The request stores outside the byte range. */
  predicate Spares(work: Work, range: Buffer) {
    work.Work? && work.task.WriteTask? ==> Apart(Buffer(work.task.offset, TotalLen(work.task.buffers)), range)
  }

  lemma {:induction false} RangeKept(h: Host, works: seq<Work>, from: nat, to: nat, range: Buffer)
    requires from <= to <= |works| && AllServeable(|h.image|, |h.ram|, works) && range.start + range.len <= |h.image|
    requires forall k :: from <= k < to ==> Spares(works[k], range)
    ensures Served(h, works, to).image[range.start..range.start + range.len] ==
      Served(h, works, from).image[range.start..range.start + range.len]
  {
    if from < to {
      RangeKept(h, works, from, to - 1, range);
      var before, work := Served(h, works, to - 1), works[to - 1];
      if work.Work? && work.task.WriteTask? {
        WriteAtElsewhere(before.image, work.task.offset, Gather(before.ram, work.task.buffers, |work.task.buffers|), range);
      }
    }
  }

  /**
  What an OUT request stored is what a later IN request of any part of its range finds in its
  buffers, with any requests in between that do not store there.
  */
  lemma RoundTrip(h: Host, works: seq<Work>, a: nat, b: nat)
    requires a < b < |works| && AllServeable(|h.image|, |h.ram|, works)
    requires works[a].Work? && works[a].task.WriteTask? && works[b].Work? && works[b].task.ReadTask?
    requires works[a].task.offset <= works[b].task.offset
    requires works[b].task.offset + TotalLen(works[b].task.buffers) <= works[a].task.offset + TotalLen(works[a].task.buffers)
    requires Disjoint(works[b].task.buffers) && StatusApart(works[b])
    requires forall k :: a < k < b ==> Spares(works[k], Buffer(works[b].task.offset, TotalLen(works[b].task.buffers)))
    ensures
      var w, r := works[a].task, works[b].task;
      var from := r.offset - w.offset;
      Gather(Served(h, works, b + 1).ram, r.buffers, |r.buffers|) ==
        Gather(Served(h, works, a).ram, w.buffers, |w.buffers|)[from..from + TotalLen(r.buffers)]
  {
    hide ServedOne, RamAfter, Gather, WriteAt, Spares, LenOf;
    var w, r := works[a].task, works[b].task;
    var range := Buffer(r.offset, TotalLen(r.buffers));
    OutServed(Served(h, works, a), works[a]);
    InServed(Served(h, works, b), works[b]);
    RangeKept(h, works, a + 1, b, range);
    var last := Served(h, works, b);
    ReadSeesImage(last.image, last.ram, works[b]);
    var data := Gather(Served(h, works, a).ram, w.buffers, |w.buffers|);
    StoredRange(Served(h, works, a).image, w.offset, data, range);
  }

  lemma OutServed(h: Host, work: Work)
    requires Serveable(|h.image|, |h.ram|, work) && work.Work? && work.task.WriteTask?
    ensures ServedOne(h, work).image ==
      WriteAt(h.image, work.task.offset, Gather(h.ram, work.task.buffers, |work.task.buffers|))
  {}

  lemma InServed(h: Host, work: Work)
    requires Serveable(|h.image|, |h.ram|, work) && work.Work? && work.task.ReadTask?
    ensures ServedOne(h, work) == Host(h.image, RamAfter(h.image, h.ram, work))
  {}

  /** The effect of a request on the disk, by its type code alone: only an accepted write stores. */
  lemma AskServed(guest: Guest, capacity: nat, head: nat, a: Ask, work: Work, h: Host)
    requires capacity * SECTOR_SIZE <= U64_MAX && Asks(guest, head, a) && WorkFor(guest, capacity, head, work)
    requires |h.image| == 512 * capacity && |h.ram| == RAM_SIZE
    ensures Serveable(|h.image|, |h.ram|, work) && a.status < RAM_SIZE && InRam(RAM_SIZE, a.buffers)
    ensures
      var now := ServedOne(h, work);
      && now.image == (if a.code == 1 && OnDisk(capacity, a)
                       then WriteAt(h.image, 512 * a.sector, Gather(h.ram, a.buffers, |a.buffers|)) else h.image)
      && now.ram[a.status] == StatusOf(capacity, a)
      && (a.code != 0 || !OnDisk(capacity, a) ==> now.ram == h.ram[a.status := StatusOf(capacity, a)])
    ensures work.Work? && UsedLen(work.task) == if a.code == 0 && OnDisk(capacity, a) then TotalLen(a.buffers) + 1 else 1
  {
    hide LenOf, Gather, Scatter, WriteAt, Asks, WorkFor;
    WorkForAsk(guest, capacity, head, a, work);
  }

  /** Status 0 for success, 1 for a request outside the disk, 2 for a type that is not supported. */
  function StatusOf(capacity: nat, a: Ask): byte {
    if a.code == 4 then 0
    else if a.code == 0 || a.code == 1 then (if OnDisk(capacity, a) then 0 else 1)
    else 2
  }

  lemma StoredRange(image: seq<byte>, offset: nat, data: seq<byte>, range: Buffer)
    requires offset + |data| <= |image| && offset <= range.start && range.start + range.len <= offset + |data|
    ensures WriteAt(image, offset, data)[range.start..range.start + range.len] ==
      data[range.start - offset..range.start - offset + range.len]
  {}

  // The fields of the device and the queue memory it shares with the driver.
  datatype View = View(
    ready: bool,
    availRing: seq<nat>, availIdx: nat, lastAvailIdx: nat,
    usedRing: seq<UsedElem>, usedIdx: nat,
    channel: seq<Work>)

  ghost predicate Stands(size: nat, work: Work, task: Task) {
    match task
    case Request(id, _) => work.Work? && work.id == id && WorkInBounds(size, work)
    case DrainBarrier => work.Barrier?
  }

  ghost predicate ChannelStands(size: nat, channel: seq<Work>, tasks: seq<Task>) {
    |channel| == |tasks| && forall i :: 0 <= i < |channel| ==> Stands(size, channel[i], tasks[i])
  }

  ghost predicate Refines(size: nat, v: View, m: State) {
    && m.ready == v.ready
    && m.avail.slots == v.availRing && m.avail.writeIdx == v.availIdx && m.avail.readIdx == v.lastAvailIdx
    && m.used.slots == v.usedRing && m.used.writeIdx == v.usedIdx
    && ChannelStands(size, v.channel, m.channel)
  }

  /** The device's check for a request agrees with the protocol's. */
  lemma TakeRefines(size: nat, v: View, m: State)
    requires Reachable(m) && !m.draining && Refines(size, v, m)
    ensures CanTake(m) <==> v.ready && |v.channel| < TASK_CAPACITY && v.lastAvailIdx != v.availIdx
    ensures CanTake(m) ==>
      && v.availRing != [] && v.usedRing != [] && |m.avail.read| < |m.avail.written|
      && v.availRing[v.lastAvailIdx % |v.availRing|] == m.avail.Front() == m.avail.written[|m.avail.read|]
  {
    ReachableInv(m);
    if v.ready {
      m.avail.ReadIsOldest();
      SlotIsMod(v.lastAvailIdx, |v.availRing|);
    }
  }

  lemma SubmitRefines(size: nat, v: View, m: State, work: Work)
    requires Reachable(m) && Refines(size, v, m) && CanTake(m)
    requires work.Work? && work.id == m.avail.Front() && WorkInBounds(size, work)
    ensures Reachable(Apply(m, TakeAndSubmit))
    ensures Refines(size, v.(lastAvailIdx := (v.lastAvailIdx + 1) % U16,
                             channel := v.channel + [work]),
                    Apply(m, TakeAndSubmit))
  {
    hide Reachable, Slot;
    ReachableStep(m, TakeAndSubmit);
  }

  lemma RejectRefines(size: nat, v: View, m: State)
    requires Reachable(m) && Refines(size, v, m) && CanTake(m) && v.usedRing != []
    ensures Enabled(m, TakeAndReject) && Reachable(Apply(m, TakeAndReject))
    ensures Refines(size, v.(lastAvailIdx := (v.lastAvailIdx + 1) % U16,
                             usedRing := v.usedRing[v.usedIdx % |v.usedRing| := UsedElem(m.avail.Front(), 0)],
                             usedIdx := (v.usedIdx + 1) % U16),
                    Apply(m, TakeAndReject))
  {
    hide Reachable, ChannelStands, Slot;
    ReachableStep(m, TakeAndReject);
    SlotIsMod(v.usedIdx, |v.usedRing|);
  }

  lemma ServeEnabled(size: nat, v: View, m: State, len: nat)
    requires Reachable(m) && Refines(size, v, m) && v.channel != []
    ensures Enabled(m, Serve(len)) && Reachable(Apply(m, Serve(len)))
    ensures v.channel[0].Work? ==> v.usedRing != []
    ensures Stands(size, v.channel[0], m.channel[0])
  {
    assert Stands(size, v.channel[0], m.channel[0]);
    assert Enabled(m, Serve(len)) by { ReachableInv(m); }
    ReachableStep(m, Serve(len));
  }

  lemma ServeRefines(size: nat, v: View, m: State, len: nat)
    requires Refines(size, v, m) && Enabled(m, Serve(len)) && v.channel != [] && v.channel[0].Work?
    requires Stands(size, v.channel[0], m.channel[0]) && v.usedRing != []
    ensures Refines(size, v.(usedRing := v.usedRing[v.usedIdx % |v.usedRing| := UsedElem(v.channel[0].id, len)],
                             usedIdx := (v.usedIdx + 1) % U16,
                             channel := v.channel[1..]),
                    Apply(m, Serve(len)))
  {
    SlotIsMod(v.usedIdx, |v.usedRing|);
  }

  lemma ChannelLengths(size: nat, v: View, m: State)
    requires Refines(size, v, m)
    ensures |v.channel| == |m.channel|
  {}

  lemma RingSizes(size: nat, v: View, m: State)
    requires Refines(size, v, m)
    ensures v.ready == m.ready && |v.availRing| == m.avail.Size()
  {}

  lemma PublishedOne(m: State, head: nat)
    requires Enabled(m, Publish(head))
    ensures
      var t := Apply(m, Publish(head));
      && t.avail.read == m.avail.read && t.avail.written == m.avail.written + [head] && |t.avail.slots| == |m.avail.slots|
      && t.used == m.used && t.draining == m.draining && t.ready == m.ready && t.channel == m.channel
  {}

  lemma {:induction false} CollectedAtMost(guest: Guest, capacity: nat, heads: seq<nat>, works: seq<Work>)
    requires capacity * SECTOR_SIZE <= U64_MAX && Collected(guest, capacity, heads, works)
    ensures |works| <= |heads|
  {
    hide NoWork, WorkFor;
    if heads != [] {
      var k: nat :| k <= |works| && Collected(guest, capacity, heads[..|heads| - 1], works[..k])
        && Taken(guest, capacity, heads[|heads| - 1], works[k..]);
      CollectedAtMost(guest, capacity, heads[..|heads| - 1], works[..k]);
    }
  }

  lemma CollectedOne(guest: Guest, capacity: nat, head: nat, works: seq<Work>, work: Work)
    requires capacity * SECTOR_SIZE <= U64_MAX && Collected(guest, capacity, [head], works)
    requires WorkFor(guest, capacity, head, work)
    ensures works == [work]
  {
    hide NoWork, WorkFor;
    var k: nat :| k <= |works| && Collected(guest, capacity, [head][..0], works[..k])
      && Taken(guest, capacity, head, works[k..]);
    assert [head][..0] == [];
    assert works[..k] == [] && works[k..] == works;
    WorkUnique(guest, capacity, head, work, work);
    if works != [] { WorkUnique(guest, capacity, head, works[0], work); }
  }

  /** From a queue with nothing untaken, publishing one head and taking all there is takes that head. */
  lemma TakenAll(start: State, head: nat, m: State, heads: seq<nat>)
    requires Reachable(m) && m.ready && !m.draining && !CanTake(m) && |m.channel| <= |heads|
    requires start.avail.read == start.avail.written
    requires m.avail.written == start.avail.written + [head] && m.avail.read == start.avail.read + heads
    ensures heads == [head] && m.avail.read == m.avail.written
  {
    ReachableInv(m);
    m.avail.ReadIsOldest();
    assert m.avail.read <= m.avail.written;
    assert |heads| <= 1;
    assert |m.avail.read| == |m.avail.written|;
    assert m.avail.read == m.avail.written;
    assert heads[0] == m.avail.read[|start.avail.read|] == head;
  }

  lemma ServeKeepsQueue(m: State, len: nat)
    requires Enabled(m, Serve(len))
    ensures Apply(m, Serve(len)).avail == m.avail && Apply(m, Serve(len)).draining == m.draining
    ensures Apply(m, Serve(len)).used.read == m.used.read
  {}

  lemma ChannelServeable(size: nat, v: View, m: State)
    requires Refines(size, v, m)
    ensures AllServeable(size, RAM_SIZE, v.channel)
  {
    forall i | 0 <= i < |v.channel| ensures Serveable(size, RAM_SIZE, v.channel[i]) {
      assert Stands(size, v.channel[i], m.channel[i]);
    }
  }

  lemma BarrierRefines(size: nat, v: View, m: State, len: nat)
    requires Refines(size, v, m) && Enabled(m, Serve(len)) && v.channel != [] && v.channel[0].Barrier?
    requires Stands(size, v.channel[0], m.channel[0])
    ensures Refines(size, v.(channel := v.channel[1..]), Apply(m, Serve(len)))
  {}

  lemma PublishRefines(size: nat, v: View, m: State, head: nat)
    requires Reachable(m) && Refines(size, v, m) && Enabled(m, Publish(head)) && v.availRing != []
    ensures Reachable(Apply(m, Publish(head)))
    ensures Refines(size, v.(availRing := v.availRing[v.availIdx % |v.availRing| := head],
                             availIdx := (v.availIdx + 1) % U16),
                    Apply(m, Publish(head)))
  {
    hide Reachable, ChannelStands, Slot;
    ReachableStep(m, Publish(head));
    SlotIsMod(v.availIdx, |v.availRing|);
  }

  lemma SetUpRefines(size: nat, v: View, m: State, n: nat)
    requires Reachable(m) && Refines(size, v, m) && Enabled(m, SetUp(n)) && U16 % n == 0
    ensures Reachable(Apply(m, SetUp(n)))
    ensures Refines(size, View(true, seq(n, _ => 0), 0, 0, seq(n, _ => UsedElem(0, 0)), 0, v.channel), Apply(m, SetUp(n)))
  {
    hide Reachable, ChannelStands;
    ReachableStep(m, SetUp(n));
  }

  lemma TakeShrinks(m: State)
    requires Reachable(m) && CanTake(m)
    ensures |m.avail.read| < |m.avail.written|
  {
    ReachableInv(m);
    m.avail.ReadIsOldest();
  }

  /** What taking one head adds to the channel: its work item, or nothing without a status descriptor. */
  ghost predicate Taken(guest: Guest, capacity: nat, head: nat, added: seq<Work>)
    requires capacity * SECTOR_SIZE <= U64_MAX
  {
    if added == [] then NoWork(guest, head) else |added| == 1 && WorkFor(guest, capacity, head, added[0])
  }

  /** The work items that the device makes of the heads it takes, in order. */
  ghost predicate Collected(guest: Guest, capacity: nat, heads: seq<nat>, works: seq<Work>)
    requires capacity * SECTOR_SIZE <= U64_MAX
  {
    if heads == [] then works == []
    else
      exists k: nat | k <= |works| ::
        && Collected(guest, capacity, heads[..|heads| - 1], works[..k])
        && Taken(guest, capacity, heads[|heads| - 1], works[k..])
  }

  lemma CollectedNone(guest: Guest, capacity: nat)
    requires capacity * SECTOR_SIZE <= U64_MAX
    ensures Collected(guest, capacity, [], [])
  {}

  lemma TakesFront(m: State, step: Step)
    requires Takes(step) && Enabled(m, step)
    ensures
      var t := Apply(m, step);
      && t.avail == m.avail.(readIdx := t.avail.readIdx, read := m.avail.read + [m.avail.Front()])
      && t.draining == m.draining && t.used.read == m.used.read
  {}

  lemma CollectedNext(guest: Guest, capacity: nat, heads: seq<nat>, works: seq<Work>, head: nat, added: seq<Work>)
    requires capacity * SECTOR_SIZE <= U64_MAX && Collected(guest, capacity, heads, works)
    requires Taken(guest, capacity, head, added)
    ensures Collected(guest, capacity, heads + [head], works + added)
  {
    assert (heads + [head])[..|heads|] == heads;
    assert (works + added)[..|works|] == works && (works + added)[|works|..] == added;
  }

  predicate Takes(step: Step) { step.TakeAndSubmit? || step.TakeAndReject? }

  class BlockDevice {
    const capacity: nat
    var ready: bool
    // guest memory
    var availRing: seq<nat>
    var availIdx: nat
    var usedRing: seq<UsedElem>
    var usedIdx: nat
    // queue position and the channel to the worker
    var lastAvailIdx: nat
    var channel: seq<Work>
    ghost var model: State

    ghost function Fields(): View
      reads this
    {
      View(ready, availRing, availIdx, lastAvailIdx, usedRing, usedIdx, channel)
    }

    ghost function Size(): nat { capacity * SECTOR_SIZE }

    ghost predicate Valid()
      reads this
    {
      Size() <= U64_MAX && Reachable(model) && Refines(Size(), Fields(), model)
    }

    constructor (capacity: nat)
      requires capacity * SECTOR_SIZE <= U64_MAX
      ensures Valid() && this.capacity == capacity && model == Cleared(0)
    {
      this.capacity := capacity;
      availRing, availIdx, usedRing, usedIdx := [], 0, [], 0;
      ready, lastAvailIdx, channel := false, 0, [];
      model := Cleared(0);
      assert Execute(Cleared(0), []) == Some(Cleared(0));
    }

    method InsertUsed(elem: UsedElem)
      requires usedRing != []
      modifies this`usedRing, this`usedIdx
      ensures usedRing == old(usedRing[usedIdx % |usedRing| := elem])
      ensures usedIdx == (old(usedIdx) + 1) % U16
    {
      usedRing := usedRing[usedIdx % |usedRing| := elem];
      usedIdx := (usedIdx + 1) % U16;
    }

    /** Advance past a head whose chain has no status descriptor and complete it with length 0. */
    method RejectHead(head: nat)
      requires Valid() && CanTake(model) && head == model.avail.Front() && usedRing != []
      modifies this
      ensures Valid() && Enabled(old(model), TakeAndReject) && model == Apply(old(model), TakeAndReject)
      ensures channel == old(channel) && ready == old(ready)
    {
      hide Apply, Reachable, Refines;
      RejectRefines(Size(), Fields(), model);
      lastAvailIdx := (lastAvailIdx + 1) % U16;
      InsertUsed(UsedElem(head, 0));
      model := Apply(model, TakeAndReject);
    }

    /** Advance past a head and hand its task to the worker. */
    method SubmitHead(work: Work)
      requires Valid() && CanTake(model)
      requires work.Work? && work.id == model.avail.Front() && WorkInBounds(Size(), work)
      modifies this
      ensures Valid() && model == Apply(old(model), TakeAndSubmit)
      ensures channel == old(channel) + [work] && ready == old(ready)
    {
      hide Apply, Reachable, Refines;
      SubmitRefines(Size(), Fields(), model, work);
      lastAvailIdx := (lastAvailIdx + 1) % U16;
      channel := channel + [work];
      model := Apply(model, TakeAndSubmit);
    }

    /** One round of notification: nothing to do, one request rejected, or one request submitted. */
    method ManageOneRequest(guest: Guest) returns (more: bool, ghost step: Step, ghost added: seq<Work>)
      requires Valid() && !model.draining && ready && WalksEnd(guest)
      modifies this
      ensures Valid() && ready
      ensures more <==> old(CanTake(model))
      ensures !more ==> model == old(model) && channel == old(channel)
      ensures more ==> Takes(step) && Enabled(old(model), step) && model == Apply(old(model), step)
      ensures more ==> channel == old(channel) + added && Taken(guest, capacity, old(model).avail.Front(), added)
    {
      hide Apply, Reachable, Refines, WorkFor, NoWork;
      step, added := TakeAndReject, [];
      TakeRefines(Size(), Fields(), model);
      if |channel| >= TASK_CAPACITY { return false, step, added; }
      if lastAvailIdx == availIdx { return false, step, added; }
      var head := availRing[lastAvailIdx % |availRing|];
      var work := BuildTask(guest, capacity, head);
      if work.None? {
        RejectHead(head);
      } else {
        SubmitHead(work.value);
        step, added := TakeAndSubmit, [work.value];
      }
      return true, step, added;
    }

    /** Take requests until the ring is empty or the channel is full. */
    method Notify(guest: Guest) returns (ghost steps: seq<Step>, ghost heads: seq<nat>, ghost works: seq<Work>)
      requires Valid() && !model.draining && ready && WalksEnd(guest)
      modifies this
      ensures Valid() && ready && !CanTake(model)
      ensures forall i :: 0 <= i < |steps| ==> Takes(steps[i])
      ensures Execute(old(model), steps) == Some(model)
      ensures model.avail == old(model).avail.(readIdx := model.avail.readIdx, read := old(model).avail.read + heads)
      ensures channel == old(channel) + works && Collected(guest, capacity, heads, works)
      ensures model.draining == old(model).draining && model.used.read == old(model).used.read
    {
      hide Apply, Reachable, Refines, Collected, Taken, WalksEnd;
      steps, heads, works := [], [], [];
      var more := true;
      CollectedNone(guest, capacity);
      while more
        invariant Valid() && !model.draining && ready
        invariant forall i :: 0 <= i < |steps| ==> Takes(steps[i])
        invariant Execute(old(model), steps) == Some(model)
        invariant model.avail == old(model).avail.(readIdx := model.avail.readIdx, read := old(model).avail.read + heads)
        invariant channel == old(channel) + works && Collected(guest, capacity, heads, works)
        invariant model.used.read == old(model).used.read
        invariant !more ==> !CanTake(model)
        decreases more, |model.avail.written| - |model.avail.read|
      {
        ghost var before, step, added := model, TakeAndReject, [];
        more, step, added := ManageOneRequest(guest);
        if more {
          TakesFront(before, step);
          CollectedNext(guest, capacity, heads, works, before.avail.Front(), added);
          ExecuteSnoc(old(model), steps, before, step);
          TakeShrinks(before);
          steps, heads, works := steps + [step], heads + [before.avail.Front()], works + added;
        }
      }
    }

    /** The driver adds one chain to the available ring. */
    method Publish(head: nat)
      requires Valid() && Enabled(model, Virtqueue.Publish(head)) && availRing != []
      modifies this
      ensures Valid() && model == Apply(old(model), Virtqueue.Publish(head))
      ensures channel == old(channel) && ready == old(ready) && |availRing| == |old(availRing)|
    {
      hide Apply, Reachable, Refines;
      PublishRefines(Size(), Fields(), model, head);
      availRing := availRing[availIdx % |availRing| := head];
      availIdx := (availIdx + 1) % U16;
      model := Apply(model, Virtqueue.Publish(head));
    }

    /** The driver configures the queue and sets QueueReady. */
    method SetUpQueue(size: nat)
      requires Valid() && Enabled(model, SetUp(size)) && U16 % size == 0
      modifies this
      ensures Valid() && model == Apply(old(model), SetUp(size))
    {
      hide Apply, Reachable, Refines;
      SetUpRefines(Size(), Fields(), model, size);
      ready, availRing, usedRing := true, seq(size, _ => 0), seq(size, _ => UsedElem(0, 0));
      availIdx, lastAvailIdx, usedIdx := 0, 0, 0;
      model := Apply(model, SetUp(size));
    }

    ghost predicate Serves(worker: BlockWorker)
      reads worker
    {
      worker.Valid() && |worker.image| == Size() && |worker.ram| == RAM_SIZE
    }

    ghost function HostOf(worker: BlockWorker): Host
      reads worker
    {
      Host(worker.image, worker.ram)
    }

    /** The worker executes one request: host I/O, status byte, then the used-ring entry. */
    method RunTask(worker: BlockWorker, work: Work) returns (usedLen: nat)
      requires Serves(worker) && work.Work? && WorkInBounds(Size(), work)
      modifies worker
      ensures Serves(worker) && usedLen == UsedLen(work.task) <= U32_MAX
      ensures HostOf(worker) == ServedOne(old(HostOf(worker)), work)
      ensures worker.log == old(worker.log) + if work.task.WriteTask?
        then [Store(work.task.offset, Gather(old(worker.ram), work.task.buffers, |work.task.buffers|))] else []
    {
      var status := Ok;
      usedLen := STATUS_SIZE;
      match work.task {
        case ReadTask(offset, buffers) => status, usedLen := worker.Read(offset, buffers);
        case WriteTask(offset, buffers) => status, usedLen := worker.Write(offset, buffers);
        case FlushTask =>
        case EarlyErr => status := IoErr;
        case UnsupportedTask => status := Unsupported;
      }
      worker.WriteStatus(work.statusAddr, status);
    }

    /** Remove the oldest item from the channel; a finished request gets its used-ring entry. */
    method FinishOldest(usedLen: nat)
      requires Valid() && channel != []
      modifies this
      ensures Valid() && channel == old(channel)[1..] && ready == old(ready)
      ensures Enabled(old(model), Serve(usedLen)) && model == Apply(old(model), Serve(usedLen))
    {
      hide Apply, Reachable, Refines, Stands;
      var work := channel[0];
      ServeEnabled(Size(), Fields(), model, usedLen);
      if work.Work? {
        ServeRefines(Size(), Fields(), model, usedLen);
        InsertUsed(UsedElem(work.id, usedLen));
      } else {
        BarrierRefines(Size(), Fields(), model, usedLen);
      }
      channel := channel[1..];
      model := Apply(model, Serve(usedLen));
    }

    /** The worker takes the oldest item from the channel and finishes it. */
    method ServeOne(worker: BlockWorker) returns (usedLen: nat)
      requires Valid() && channel != [] && Serves(worker)
      modifies this, worker
      ensures Valid() && Serves(worker)
      ensures Enabled(old(model), Serve(usedLen)) && model == Apply(old(model), Serve(usedLen))
      ensures channel == old(channel)[1..] && ready == old(ready)
      ensures old(channel[0].Work?) ==> usedLen == UsedLen(old(channel[0].task))
      ensures Serveable(Size(), RAM_SIZE, old(channel[0])) && HostOf(worker) == ServedOne(old(HostOf(worker)), old(channel[0]))
      ensures worker.log == old(worker.log) + StoresOf(old(worker.ram), old(channel[0]))
    {
      hide ServedOne, RamAfter, Reachable, Apply, Refines;
      usedLen := 0;
      ServeEnabled(Size(), Fields(), model, 0);
      ghost var was := HostOf(worker);
      if channel[0].Work? { usedLen := RunTask(worker, channel[0]); } else { BarrierServed(was, channel[0]); }
      FinishOldest(usedLen);
    }

    /** Let the worker run until at most `limit` items are left in the channel. */
    method ServeDownTo(worker: BlockWorker, limit: nat) returns (ghost steps: seq<Step>)
      requires Valid() && Serves(worker)
      modifies this, worker
      ensures Valid() && Serves(worker) && |channel| <= limit
      ensures Execute(old(model), steps) == Some(model)
      ensures model.avail == old(model).avail && model.draining == old(model).draining
      ensures model.used.read == old(model).used.read
      ensures |channel| <= |old(channel)| && channel == old(channel)[|old(channel)| - |channel|..] && ready == old(ready)
      ensures AllServeable(Size(), RAM_SIZE, old(channel))
      ensures HostOf(worker) == Served(old(HostOf(worker)), old(channel), |old(channel)| - |channel|)
    {
      hide ServedOne, Reachable, Apply, Refines;
      steps := [];
      ChannelServeable(Size(), Fields(), model);
      while |channel| > limit
        invariant Valid() && Serves(worker) && ready == old(ready)
        invariant |channel| <= |old(channel)| && channel == old(channel)[|old(channel)| - |channel|..]
        invariant HostOf(worker) == Served(old(HostOf(worker)), old(channel), |old(channel)| - |channel|)
        invariant Execute(old(model), steps) == Some(model)
        invariant model.avail == old(model).avail && model.draining == old(model).draining
        invariant model.used.read == old(model).used.read
      {
        ghost var was := model;
        var usedLen := ServeOne(worker);
        ServeKeepsQueue(was, usedLen);
        ExecuteSnoc(old(model), steps, was, Serve(usedLen));
        steps := steps + [Serve(usedLen)];
      }
    }

    /** Nothing is published, taken or in the channel that is not finished. */
    ghost predicate Quiet()
      reads this
    {
      Valid() && ready && !model.draining && channel == [] && model.avail.read == model.avail.written
    }

    /** A driver publishes one chain, notifies, and the worker catches up: exactly that request is served. */
    method Perform(worker: BlockWorker, guest: Guest, head: nat, ghost work: Work)
      requires Quiet() && Serves(worker) && WalksEnd(guest) && WorkFor(guest, capacity, head, work)
      requires availRing != [] && Enabled(model, Virtqueue.Publish(head))
      modifies this, worker
      ensures Quiet() && Serves(worker) && availRing != []
      ensures model.avail.written == old(model).avail.written + [head] && model.avail.Size() == old(model).avail.Size()
      ensures model.used.read == old(model).used.read
      ensures Serveable(Size(), RAM_SIZE, work) && HostOf(worker) == ServedOne(old(HostOf(worker)), work)
    {
      hide Reachable, Refines, Collected, WalksEnd, WorkFor, ServedOne, Serveable;
      ghost var start := model;
      Publish(head);
      PublishedOne(start, head);
      ghost var steps, heads, works := Notify(guest);
      CollectedAtMost(guest, capacity, heads, works);
      ChannelLengths(Size(), Fields(), model);
      RingSizes(Size(), Fields(), model);
      TakenAll(start, head, model, heads);
      CollectedOne(guest, capacity, head, works, work);
      assert channel == [work];
      ghost var served := ServeDownTo(worker, 0);
      RingSizes(Size(), Fields(), model);
    }

    /** The same for a request as the driver lays it out in memory. */
    method PerformAsk(worker: BlockWorker, guest: Guest, head: nat, a: Ask) returns (ghost work: Work)
      requires Quiet() && Serves(worker) && WalksEnd(guest) && Asks(guest, head, a)
      requires availRing != [] && Enabled(model, Virtqueue.Publish(head))
      modifies this, worker
      ensures Quiet() && Serves(worker) && availRing != []
      ensures model.avail.written == old(model).avail.written + [head] && model.avail.Size() == old(model).avail.Size()
      ensures model.used.read == old(model).used.read
      ensures WorkFor(guest, capacity, head, work) && Serveable(Size(), RAM_SIZE, work)
      ensures HostOf(worker) == ServedOne(old(HostOf(worker)), work)
      ensures a.status < RAM_SIZE && InRam(RAM_SIZE, a.buffers)
      ensures worker.image == if a.code == 1 && OnDisk(capacity, a)
                              then WriteAt(old(worker.image), 512 * a.sector, Gather(old(worker.ram), a.buffers, |a.buffers|))
                              else old(worker.image)
      ensures worker.ram[a.status] == StatusOf(capacity, a)
    {
      hide Reachable, Refines, WalksEnd, WorkFor, Asks, ServedOne, Serveable, WriteAt, Gather, LenOf, OnDisk, StatusOf;
      work := AskHasWork(guest, capacity, head, a);
      AskServed(guest, capacity, head, a, work, HostOf(worker));
      Perform(worker, guest, head, work);
    }

    /**
    What a driver wrote with a request of type 1 comes back with a later request of type 0 for any
    part of that range, into buffers that do not overlap each other or the status byte.
    */
    method WriteThenRead(worker: BlockWorker, outGuest: Guest, outHead: nat, out: Ask, inGuest: Guest, inHead: nat, back: Ask)
      requires Quiet() && Serves(worker) && availRing != []
      requires model.avail.Size() >= |model.avail.written| - |model.used.read| + 2
      requires WalksEnd(outGuest) && Asks(outGuest, outHead, out) && out.code == 1
      requires WalksEnd(inGuest) && Asks(inGuest, inHead, back) && back.code == 0
      requires OnDisk(capacity, out) && out.sector <= back.sector && InRam(RAM_SIZE, out.buffers)
      requires 512 * back.sector + TotalLen(back.buffers) <= 512 * out.sector + TotalLen(out.buffers)
      requires Disjoint(back.buffers)
      requires forall i :: 0 <= i < |back.buffers| ==> Apart(back.buffers[i], Buffer(back.status, 1))
      modifies this, worker
      ensures Quiet() && Serves(worker) && InRam(RAM_SIZE, back.buffers) && back.status < RAM_SIZE
      ensures worker.ram[back.status] == 0
      ensures
        var from := 512 * (back.sector - out.sector);
        Gather(worker.ram, back.buffers, |back.buffers|) ==
          old(Gather(worker.ram, out.buffers, |out.buffers|))[from..from + TotalLen(back.buffers)]
    {
      hide Reachable, Refines, WalksEnd, WorkFor, Asks, ServedOne, Gather, LenOf, WriteAt;
      ghost var h := HostOf(worker);
      RingSizes(Size(), Fields(), model);
      ghost var w := PerformAsk(worker, outGuest, outHead, out);
      WorkForAsk(outGuest, capacity, outHead, out, w);
      RingSizes(Size(), Fields(), model);
      ghost var r := PerformAsk(worker, inGuest, inHead, back);
      WorkForAsk(inGuest, capacity, inHead, back, r);
      assert Served(h, [w, r], 0) == h;
      assert Served(h, [w, r], 1) == ServedOne(h, w);
      assert Served(h, [w, r], 2) == HostOf(worker);
      RoundTrip(h, [w, r], 0, 1);
    }

    method SendBarrier()
      requires Valid() && Enabled(model, ResetBegin)
      modifies this
      ensures Valid() && model == Apply(old(model), ResetBegin)
    {
      ReachableStep(model, ResetBegin);
      channel := channel + [Barrier];
      model := Apply(model, ResetBegin);
    }

    method ClearQueue()
      requires Valid() && channel == [] && model.draining
      modifies this
      ensures Valid() && channel == [] && !ready
      ensures Enabled(old(model), ResetEnd) && model == Apply(old(model), ResetEnd) == Cleared(old(model).epoch + 1)
    {
      ReachableStep(model, ResetEnd);
      ready, availRing, usedRing := false, [], [];
      availIdx, lastAvailIdx, usedIdx := 0, 0, 0;
      model := Apply(model, ResetEnd);
    }

    /**
    Device reset: wait for room in the channel, send the drain barrier, wait until the worker has
    consumed it, then clear the queue. `before` is the state at the moment of clearing.
    */
    method Reset(worker: BlockWorker) returns (ghost steps: seq<Step>, ghost before: State)
      requires Valid() && !model.draining && Serves(worker)
      modifies this, worker
      ensures Valid() && Serves(worker) && !ready && channel == []
      ensures Execute(old(model), steps) == Some(before) && Enabled(before, ResetEnd)
      ensures model == Apply(before, ResetEnd) == Cleared(before.epoch + 1)
      ensures before.avail == old(model).avail
      ensures multiset(before.avail.read) == multiset(Ids(before.used.written))
    {
      hide Served, AllServeable, Reachable, Refines;
      steps := ServeDownTo(worker, TASK_CAPACITY - 1);
      ChannelLengths(Size(), Fields(), model);
      ExecuteSnoc(old(model), steps, model, ResetBegin);
      SendBarrier();
      ghost var rest := ServeDownTo(worker, 0);
      ExecuteConcat(old(model), steps + [ResetBegin], rest);
      steps := steps + [ResetBegin] + rest;
      before := model;
      ChannelLengths(Size(), Fields(), model);
      DrainedConserves(before);
      ClearQueue();
    }
  }

  lemma DrainedConserves(m: State)
    requires Reachable(m) && m.channel == []
    ensures multiset(m.avail.read) == multiset(Ids(m.used.written))
  {
    ReachableInv(m);
  }
}
