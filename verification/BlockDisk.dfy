/**
The data path of the block device: bounds check, scatter/gather between guest RAM and
the backing image, and the ideal disk that the accepted requests refine.
*/
module BlockDisk {
  import opened Wrappers

  const SECTOR_SIZE := 512
  const U32_MAX := 0xFFFF_FFFF
  const U64_MAX := 0xFFFF_FFFF_FFFF_FFFF
  const STATUS_SIZE := 1

  newtype byte = x: int | 0 <= x < 256

  // One data segment of a request: `len` bytes of guest RAM from `start` on.
  datatype Buffer = Buffer(start: nat, len: nat)

  datatype Status = Ok | IoErr | Unsupported

  function StatusCode(status: Status): byte {
    match status
    case Ok => 0
    case IoErr => 1
    case Unsupported => 2
  }

  /** The number of bytes in the first `n` buffers. */
  function LenOf(buffers: seq<Buffer>, n: nat): nat
    requires n <= |buffers|
  {
    if n == 0 then 0 else LenOf(buffers, n - 1) + buffers[n - 1].len
  }

  function TotalLen(buffers: seq<Buffer>): nat { LenOf(buffers, |buffers|) }

  predicate InRam(ramSize: nat, buffers: seq<Buffer>) {
    forall i :: 0 <= i < |buffers| ==> buffers[i].start + buffers[i].len <= ramSize
  }

  /** 64-bit addition and multiplication that fail on overflow. */
  function CheckedAdd(a: nat, b: nat): Option<nat> { if a + b <= U64_MAX then Some(a + b) else None }

  function CheckedMul(a: nat, b: nat): Option<nat> { if a * b <= U64_MAX then Some(a * b) else None }

  function CheckedTotal(buffers: seq<Buffer>, n: nat): (r: Option<nat>)
    requires n <= |buffers|
    ensures r == if LenOf(buffers, n) <= U64_MAX then Some(LenOf(buffers, n)) else None
  {
    if n == 0 then Some(0)
    else
      var front := CheckedTotal(buffers, n - 1);
      if front.None? then None else CheckedAdd(front.value, buffers[n - 1].len)
  }

  /**
  The byte offset of a request, provided its data lies inside the disk and the number of bytes
  written back, data and status, fits 32 bits. No overflow check rejects more than that.
  */
  function RequestOffsetInBounds(capacity: nat, sector: nat, buffers: seq<Buffer>): (r: Option<nat>)
    requires capacity * SECTOR_SIZE <= U64_MAX
    ensures r.Some? <==>
      && sector * SECTOR_SIZE + TotalLen(buffers) <= capacity * SECTOR_SIZE
      && TotalLen(buffers) + STATUS_SIZE <= U32_MAX
    ensures r.Some? ==> r.value == sector * SECTOR_SIZE
  {
    var offset := CheckedMul(sector, SECTOR_SIZE);
    var dataLen := CheckedTotal(buffers, |buffers|);
    var size := CheckedMul(capacity, SECTOR_SIZE);
    if offset.None? || dataLen.None? || size.None? then None
    else if dataLen.value > U32_MAX - STATUS_SIZE then None
    else
      var end := CheckedAdd(offset.value, dataLen.value);
      if end.None? || end.value > size.value then None else offset
  }

  // ------------------------------------------------------------------
  // Scatter and gather
  // ------------------------------------------------------------------

  /** Overwrite `data` at `offset`; a file grows when the data reaches beyond its end. */
  function WriteAt(file: seq<byte>, offset: nat, data: seq<byte>): (r: seq<byte>)
    ensures |r| == if data == [] || offset + |data| <= |file| then |file| else offset + |data|
  {
    if data == [] then file
    else if offset + |data| <= |file| then file[..offset] + data + file[offset + |data|..]
    else if offset <= |file| then file[..offset] + data
    else file + seq(offset - |file|, _ => 0) + data
  }

  /** The bytes of the first `n` buffers, one buffer after another. */
  function Gather(ram: seq<byte>, buffers: seq<Buffer>, n: nat): (data: seq<byte>)
    requires n <= |buffers| && InRam(|ram|, buffers)
    ensures |data| == LenOf(buffers, n)
  {
    if n == 0 then []
    else
      var b := buffers[n - 1];
      Gather(ram, buffers, n - 1) + ram[b.start..b.start + b.len]
  }

  /** Fill the first `n` buffers with `data`, one buffer after another. */
  function Scatter(ram: seq<byte>, buffers: seq<Buffer>, n: nat, data: seq<byte>): (r: seq<byte>)
    requires n <= |buffers| && InRam(|ram|, buffers) && LenOf(buffers, n) <= |data|
    ensures |r| == |ram|
  {
    if n == 0 then ram
    else
      WriteAt(Scatter(ram, buffers, n - 1, data), buffers[n - 1].start, data[LenOf(buffers, n - 1)..LenOf(buffers, n)])
  }

  predicate Apart(a: Buffer, b: Buffer) { a.start + a.len <= b.start || b.start + b.len <= a.start }

  predicate Disjoint(buffers: seq<Buffer>) {
    forall i, j :: 0 <= i < j < |buffers| ==> Apart(buffers[i], buffers[j])
  }

  lemma WriteAtElsewhere(file: seq<byte>, offset: nat, data: seq<byte>, c: Buffer)
    requires offset + |data| <= |file| && c.start + c.len <= |file| && Apart(c, Buffer(offset, |data|))
    ensures WriteAt(file, offset, data)[c.start..c.start + c.len] == file[c.start..c.start + c.len]
  {}

  lemma {:induction false} GatherAfterWrite(ram: seq<byte>, buffers: seq<Buffer>, n: nat, b: Buffer, data: seq<byte>)
    requires n <= |buffers| && InRam(|ram|, buffers) && |data| == b.len && b.start + b.len <= |ram|
    requires forall i :: 0 <= i < n ==> Apart(buffers[i], b)
    ensures Gather(WriteAt(ram, b.start, data), buffers, n) == Gather(ram, buffers, n)
  {
    if n != 0 {
      GatherAfterWrite(ram, buffers, n - 1, b, data);
      WriteAtElsewhere(ram, b.start, data, buffers[n - 1]);
    }
  }

  lemma WriteAtThere(file: seq<byte>, offset: nat, data: seq<byte>)
    requires offset + |data| <= |file|
    ensures WriteAt(file, offset, data)[offset..offset + |data|] == data
  {}

  /** Byte `j` of buffer `i` comes after all the bytes of the buffers before it. */
  lemma {:induction false} GatherAt(ram: seq<byte>, buffers: seq<Buffer>, n: nat, i: nat, j: nat)
    requires i < n <= |buffers| && InRam(|ram|, buffers) && j < buffers[i].len
    ensures LenOf(buffers, i) + j < LenOf(buffers, n)
    ensures Gather(ram, buffers, n)[LenOf(buffers, i) + j] == ram[buffers[i].start + j]
  {
    if i < n - 1 { GatherAt(ram, buffers, n - 1, i, j); }
  }

  /** Scattering changes nothing outside the buffers. */
  lemma {:induction false} ScatterElsewhere(ram: seq<byte>, buffers: seq<Buffer>, n: nat, data: seq<byte>, p: nat)
    requires n <= |buffers| && InRam(|ram|, buffers) && LenOf(buffers, n) <= |data| && p < |ram|
    requires forall i :: 0 <= i < n ==> Apart(buffers[i], Buffer(p, 1))
    ensures Scatter(ram, buffers, n, data)[p] == ram[p]
  {
    if n != 0 { ScatterElsewhere(ram, buffers, n - 1, data, p); }
  }

  /** Gathering disjoint buffers yields what was scattered into them. */
  lemma {:induction false} GatherScatter(ram: seq<byte>, buffers: seq<Buffer>, n: nat, data: seq<byte>)
    requires n <= |buffers| && InRam(|ram|, buffers) && LenOf(buffers, n) <= |data| && Disjoint(buffers)
    ensures Gather(Scatter(ram, buffers, n, data), buffers, n) == data[..LenOf(buffers, n)]
  {
    if n != 0 {
      var b, m := buffers[n - 1], LenOf(buffers, n - 1);
      var mid, part := Scatter(ram, buffers, n - 1, data), data[m..m + b.len];
      GatherScatter(ram, buffers, n - 1, data);
      GatherAfterWrite(mid, buffers, n - 1, b, part);
      WriteAtThere(mid, b.start, part);
      assert data[..m] + part == data[..m + b.len];
    }
  }

  // ------------------------------------------------------------------
  // The ideal disk
  // ------------------------------------------------------------------

  // A stored range: the offset and the bytes of an OUT request.
  datatype Store = Store(offset: nat, data: seq<byte>) {
    predicate Covers(p: nat) { offset <= p < offset + |data| }
  }

  function StoreAll(image: seq<byte>, log: seq<Store>): seq<byte> {
    if log == [] then image
    else var s := log[|log| - 1]; WriteAt(StoreAll(image, log[..|log| - 1]), s.offset, s.data)
  }

  lemma StoreNext(image: seq<byte>, log: seq<Store>, s: Store)
    ensures StoreAll(image, log + [s]) == WriteAt(StoreAll(image, log), s.offset, s.data)
  {
    assert (log + [s])[..|log|] == log;
  }

  predicate Fits(size: nat, log: seq<Store>) {
    forall i :: 0 <= i < |log| ==> log[i].offset + |log[i].data| <= size
  }

  lemma FitsNext(size: nat, log: seq<Store>, s: Store)
    requires Fits(size, log) && s.offset + |s.data| <= size
    ensures Fits(size, log + [s])
  {}

  /** The byte the last covering store put at `p`, or the initial byte if there is none. */
  function LastStored(image: seq<byte>, log: seq<Store>, p: nat): byte
    requires p < |image|
  {
    if log == [] then image[p]
    else
      var s := log[|log| - 1];
      if s.Covers(p) then s.data[p - s.offset] else LastStored(image, log[..|log| - 1], p)
  }

  lemma {:induction false} DiskIsLastStored(image: seq<byte>, log: seq<Store>)
    requires Fits(|image|, log)
    ensures |StoreAll(image, log)| == |image|
    ensures forall p :: 0 <= p < |image| ==> StoreAll(image, log)[p] == LastStored(image, log, p)
  {
    if log != [] { DiskIsLastStored(image, log[..|log| - 1]); }
  }

  lemma {:induction false} LenGrows(buffers: seq<Buffer>, i: nat, n: nat)
    requires i <= n <= |buffers|
    ensures LenOf(buffers, i) <= LenOf(buffers, n)
  {
    if i < n { LenGrows(buffers, i, n - 1); }
  }

  lemma WriteAtAppend(file: seq<byte>, offset: nat, a: seq<byte>, b: seq<byte>)
    requires offset + |a| + |b| <= |file|
    ensures WriteAt(WriteAt(file, offset, a), offset + |a|, b) == WriteAt(file, offset, a + b)
  {}

  lemma SliceOfRest(image: seq<byte>, offset: nat, from: nat, len: nat)
    requires offset + from + len <= |image|
    ensures image[offset + from..offset + from + len] == image[offset..][from..from + len]
  {}

  lemma WriteNothing(file: seq<byte>, offset: nat)
    ensures WriteAt(file, offset, []) == file
  {}

  /** Write the buffers one after another, each behind the one before. */
  method WriteBuffers(file: seq<byte>, ram: seq<byte>, offset: nat, buffers: seq<Buffer>) returns (r: seq<byte>)
    requires InRam(|ram|, buffers) && offset + TotalLen(buffers) <= |file|
    ensures r == WriteAt(file, offset, Gather(ram, buffers, |buffers|))
  {
    hide WriteAt;
    r := file;
    var at := offset;
    WriteNothing(file, offset);
    for i := 0 to |buffers|
      invariant at == offset + LenOf(buffers, i) && LenOf(buffers, i) <= TotalLen(buffers)
      invariant r == WriteAt(file, offset, Gather(ram, buffers, i))
    {
      LenGrows(buffers, i + 1, |buffers|);
      var b := buffers[i];
      WriteAtAppend(file, offset, Gather(ram, buffers, i), ram[b.start..b.start + b.len]);
      r := WriteAt(r, at, ram[b.start..b.start + b.len]);
      at := at + b.len;
    }
  }

  lemma ScatterNone(ram: seq<byte>, buffers: seq<Buffer>, data: seq<byte>)
    requires InRam(|ram|, buffers)
    ensures Scatter(ram, buffers, 0, data) == ram
  {}

  lemma ScatterNext(ram: seq<byte>, buffers: seq<Buffer>, i: nat, data: seq<byte>)
    requires i < |buffers| && InRam(|ram|, buffers) && LenOf(buffers, i + 1) <= |data|
    ensures LenOf(buffers, i + 1) == LenOf(buffers, i) + buffers[i].len
    ensures Scatter(ram, buffers, i + 1, data) ==
      WriteAt(Scatter(ram, buffers, i, data), buffers[i].start, data[LenOf(buffers, i)..LenOf(buffers, i + 1)])
  {}

  /** Owns the backing image and guest RAM and executes accepted requests one at a time. */
  class BlockWorker {
    var image: seq<byte>
    var ram: seq<byte>
    ghost const disk: seq<byte>     // the image when the worker started
    ghost var log: seq<Store>       // everything stored since, in order

    ghost predicate Valid()
      reads this
    {
      Fits(|disk|, log) && image == StoreAll(disk, log) && |image| == |disk|
    }

    constructor (image: seq<byte>, ram: seq<byte>)
      ensures Valid() && this.image == image && this.ram == ram && disk == image && log == []
    {
      this.image, this.ram, disk, log := image, ram, image, [];
    }

    /** Fill the buffers from the image; the used length counts the data and the status byte. */
    method Read(offset: nat, buffers: seq<Buffer>) returns (status: Status, usedLen: nat)
      requires Valid() && InRam(|ram|, buffers)
      requires offset + TotalLen(buffers) <= |image| && TotalLen(buffers) + STATUS_SIZE <= U32_MAX
      modifies this`ram
      ensures Valid() && status == Ok && usedLen == TotalLen(buffers) + STATUS_SIZE <= U32_MAX
      ensures ram == Scatter(old(ram), buffers, |buffers|, image[offset..])
    {
      hide Scatter, WriteAt;
      status := Ok;
      var at, transferred := offset, 0;
      ghost var ram0 := ram;
      ScatterNone(ram0, buffers, image[offset..]);
      for i := 0 to |buffers|
        invariant status == Ok
        invariant transferred == LenOf(buffers, i) <= TotalLen(buffers) && at == offset + transferred
        invariant ram == Scatter(ram0, buffers, i, image[offset..])
      {
        LenGrows(buffers, i + 1, |buffers|);
        var b := buffers[i];
        var len := if at >= |image| then 0 else if |image| - at < b.len then |image| - at else b.len;
        SliceOfRest(image, offset, transferred, len);
        ScatterNext(ram0, buffers, i, image[offset..]);
        ram := WriteAt(ram, b.start, image[at..at + len]);
        transferred, at := transferred + len, at + len;
        if len != b.len {
          status := IoErr;
          break;
        }
      }
      usedLen := transferred + STATUS_SIZE;
    }

    /** Store the concatenated buffers; the length of the image stays as it is. */
    method Write(offset: nat, buffers: seq<Buffer>) returns (status: Status, usedLen: nat)
      requires Valid() && InRam(|ram|, buffers) && offset + TotalLen(buffers) <= |image|
      modifies this`image, this`log
      ensures Valid() && status == Ok && usedLen == STATUS_SIZE
      ensures log == old(log) + [Store(offset, Gather(ram, buffers, |buffers|))]
      ensures image == WriteAt(old(image), offset, Gather(ram, buffers, |buffers|))
    {
      ghost var store := Store(offset, Gather(ram, buffers, |buffers|));
      StoreNext(disk, log, store);
      FitsNext(|disk|, log, store);
      image := WriteBuffers(image, ram, offset, buffers);
      log := log + [store];
      status, usedLen := Ok, STATUS_SIZE;
    }

    /** Publish the status byte of a request in guest RAM. */
    method WriteStatus(addr: nat, status: Status)
      requires Valid() && addr < |ram|
      modifies this`ram
      ensures Valid() && ram == old(ram)[addr := StatusCode(status)]
    {
      ram := ram[addr := StatusCode(status)];
    }
  }
}
