/** What the write commands of a NOR flash do to its contents. */
module FlashImage {
  import Division

  type Byte = bv8

  const ERASED: Byte := 0xff
  const PAGE := 256

  /** One completed write operation. */
  datatype Commit = Program(start: nat, data: seq<Byte>) | Erase(addr: nat, len: nat)

  predicate WellFormed(c: Commit) { c.Erase? ==> c.len > 0 }

  /** Where in the page the byte `j` of a program operation goes; the address wraps at the page end. */
  function PageOffset(start: nat, j: nat): (r: nat)
    ensures r < PAGE
  {
    (start + j) % PAGE
  }

  /** The byte streamed last, among the first `n`, to an offset of the page; erased if there is none. */
  function LastStreamed(start: nat, data: seq<Byte>, n: nat, offset: nat): Byte
    requires n <= |data|
  {
    if n == 0 then ERASED
    else if PageOffset(start, n - 1) == offset then data[n - 1]
    else LastStreamed(start, data, n - 1, offset)
  }

  /** No byte among those from `k` on goes to the offset. */
  ghost predicate NoneAfter(start: nat, k: nat, n: nat, offset: nat) {
    forall j :: k <= j < n ==> PageOffset(start, j) != offset
  }

  /** Only the last byte sent to an offset counts. */
  lemma {:induction false} LastStreamedAt(start: nat, data: seq<Byte>, n: nat, offset: nat, k: nat)
    requires k < n <= |data| && PageOffset(start, k) == offset && NoneAfter(start, k + 1, n, offset)
    ensures LastStreamed(start, data, n, offset) == data[k]
  {
    hide PageOffset;
    if k < n - 1 {
      assert PageOffset(start, n - 1) != offset;
      LastStreamedAt(start, data, n - 1, offset, k);
    }
  }

  /** An offset that gets no byte is programmed with the erased value, which changes nothing. */
  lemma {:induction false} NoneStreamed(start: nat, data: seq<Byte>, n: nat, offset: nat)
    requires n <= |data| && NoneAfter(start, 0, n, offset)
    ensures LastStreamed(start, data, n, offset) == ERASED
  {
    hide PageOffset;
    if n > 0 {
      assert PageOffset(start, n - 1) != offset;
      NoneStreamed(start, data, n - 1, offset);
    }
  }

  /** The first byte of the page, block or sector that holds an address. */
  function AlignDown(addr: nat, size: nat): (r: nat)
    requires size > 0
    ensures r <= addr < r + size
  {
    addr - addr % size
  }

  /** Programming a byte can only clear bits. */
  function Cleared(was: Byte, data: Byte): Byte { was & data }

  /** What one byte of the first `capacity` becomes. */
  function ByteAfter(old_: Byte, capacity: nat, c: Commit, i: nat): Byte
    requires WellFormed(c)
  {
    match c
    case Program(start, data) =>
      var base := AlignDown(start, PAGE);
      if base <= i < base + PAGE then Cleared(old_, LastStreamed(start, data, |data|, i - base)) else old_
    case Erase(addr, len) =>
      var base := AlignDown(addr, len);
      if addr < capacity && base <= i < base + len then ERASED else old_
  }

  /** The image after a write operation: bytes past the capacity never change. */
  ghost predicate Becomes(was: seq<Byte>, capacity: nat, c: Commit, image: seq<Byte>)
    requires WellFormed(c)
  {
    && |image| == |was|
    && forall i :: 0 <= i < |was| ==> image[i] == if i < capacity then ByteAfter(was[i], capacity, c, i) else was[i]
  }

  /** The image is the initial one changed by the commits in order. */
  ghost predicate Replays(initial: seq<Byte>, capacity: nat, commits: seq<Commit>, image: seq<Byte>) {
    if commits == [] then image == initial
    else
      var n := |commits| - 1;
      WellFormed(commits[n]) &&
      exists before ::
        Replays(initial, capacity, commits[..n], before) && Becomes(before, capacity, commits[n], image)
  }

  lemma ReplaysNext(initial: seq<Byte>, capacity: nat, commits: seq<Commit>, before: seq<Byte>,
                    c: Commit, image: seq<Byte>)
    requires WellFormed(c) && Replays(initial, capacity, commits, before) && Becomes(before, capacity, c, image)
    ensures Replays(initial, capacity, commits + [c], image)
  {
    assert (commits + [c])[..|commits|] == commits;
  }

  /** A byte that no commit covers is still the initial one. */
  lemma {:induction false} UncoveredKept(initial: seq<Byte>, capacity: nat, commits: seq<Commit>, image: seq<Byte>, i: nat)
    requires Replays(initial, capacity, commits, image) && i < |initial|
    requires forall c :: c in commits && WellFormed(c) ==> !Covers(c, i)
    ensures |image| == |initial| && image[i] == initial[i]
  {
    if commits != [] {
      var n := |commits| - 1;
      var before :|
        Replays(initial, capacity, commits[..n], before) && Becomes(before, capacity, commits[n], image);
      UncoveredKept(initial, capacity, commits[..n], before, i);
      assert commits[n] in commits;
    }
  }

  predicate Covers(c: Commit, i: nat)
    requires WellFormed(c)
  {
    match c
    case Program(start, _) => AlignDown(start, PAGE) <= i < AlignDown(start, PAGE) + PAGE
    case Erase(addr, len) => AlignDown(addr, len) <= i < AlignDown(addr, len) + len
  }

  predicate IsErased(c: Commit, capacity: nat, i: nat)
    requires WellFormed(c)
  {
    c.Erase? && c.addr < capacity && Covers(c, i)
  }

  /** Programming only clears bits: without an erase, no bit of a byte goes from 0 to 1. */
  lemma {:induction false} OnlyEraseSetsBits(initial: seq<Byte>, capacity: nat, commits: seq<Commit>, image: seq<Byte>, i: nat)
    requires Replays(initial, capacity, commits, image) && i < |initial|
    requires forall c :: c in commits && WellFormed(c) ==> !IsErased(c, capacity, i)
    ensures |image| == |initial| && image[i] & !initial[i] == 0
  {
    hide LastStreamed;
    if commits == [] {
      NoBitAdded(initial[i], initial[i], ERASED);
    } else {
      var n := |commits| - 1;
      var before :|
        Replays(initial, capacity, commits[..n], before) && Becomes(before, capacity, commits[n], image);
      OnlyEraseSetsBits(initial, capacity, commits[..n], before, i);
      var c := commits[n];
      assert c in commits;
      if c.Program? && AlignDown(c.start, PAGE) <= i {
        NoBitAdded(initial[i], before[i], LastStreamed(c.start, c.data, |c.data|, i - AlignDown(c.start, PAGE)));
      }
    }
  }

  lemma NoBitAdded(a: Byte, b: Byte, mask: Byte)
    requires a == b || b & !a == 0
    ensures Cleared(b, mask) & !a == 0 && b & !a == 0
  {}

  /** An erase sets exactly the bytes of the aligned block around its address. */
  lemma EraseMeans(was: seq<Byte>, capacity: nat, addr: nat, len: nat, now: seq<Byte>, i: nat)
    requires len > 0 && Becomes(was, capacity, Erase(addr, len), now) && i < |was|
    ensures |now| == |was|
    ensures now[i] == if addr < capacity && i < capacity && i / len == addr / len then 0xff else was[i]
  {
    SameBlock(addr, len, i);
  }

  lemma SameBlock(addr: nat, len: nat, i: nat)
    requires len > 0
    ensures AlignDown(addr, len) <= i < AlignDown(addr, len) + len <==> i / len == addr / len
  {
    var q := addr / len;
    assert AlignDown(addr, len) == q * len && i == i / len * len + i % len;
    if q * len <= i < q * len + len {
      Division.Unique(i, len, q, i - q * len);
    }
  }

  /** A page program changes nothing outside its page or past the capacity. */
  lemma ProgramOutside(was: seq<Byte>, capacity: nat, start: nat, data: seq<Byte>, now: seq<Byte>, i: nat)
    requires Becomes(was, capacity, Program(start, data), now) && i < |was|
    ensures |now| == |was| && (i >= capacity || i / 256 != start / 256 ==> now[i] == was[i])
  {
    SameBlock(start, PAGE, i);
  }

  /** In its page it clears the bits that are clear in the last byte sent to each offset. */
  lemma ProgramInside(was: seq<Byte>, capacity: nat, start: nat, data: seq<Byte>, now: seq<Byte>, i: nat, k: nat)
    requires Becomes(was, capacity, Program(start, data), now) && i < |was| && i < capacity && i / 256 == start / 256
    requires k < |data| && (start + k) % 256 == i % 256 && NoneAfter(start, k + 1, |data|, i % 256)
    ensures |now| == |was| && now[i] == was[i] & data[k]
  {
    SameBlock(start, PAGE, i);
    assert i - AlignDown(start, PAGE) == i % 256;
    LastStreamedAt(start, data, |data|, i % 256, k);
  }

  /** A page lies inside one erase block. */
  lemma PageInBlock(addr: nat, len: nat)
    requires len in {4096, 32768, 65536}
    ensures AlignDown(addr, len) <= AlignDown(addr, PAGE)
    ensures AlignDown(addr, PAGE) + PAGE <= AlignDown(addr, len) + len
  {
    var p := addr / PAGE;
    if len == 4096 {
      assert addr == 4096 * (addr / 4096) + addr % 4096;
      assert addr == 256 * p + addr % 256;
    } else if len == 32768 {
      assert addr == 32768 * (addr / 32768) + addr % 32768;
      assert addr == 256 * p + addr % 256;
    } else {
      assert addr == 65536 * (addr / 65536) + addr % 65536;
      assert addr == 256 * p + addr % 256;
    }
  }

  lemma OffsetInPage(start: nat, j: nat)
    requires start % PAGE + j < PAGE
    ensures PageOffset(start, j) == start % PAGE + j == start + j - AlignDown(start, PAGE)
  {
    assert start + j == 256 * (start / 256) + (start % 256 + j);
  }

  /** Data programmed into an erased block, without passing the page end, is stored as sent. */
  lemma ProgrammedAfterErase(was: seq<Byte>, erased: seq<Byte>, now: seq<Byte>, capacity: nat, len: nat,
                             start: nat, data: seq<Byte>, j: nat)
    requires len in {4096, 32768, 65536} && Becomes(was, capacity, Erase(start, len), erased)
    requires Becomes(erased, capacity, Program(start, data), now)
    requires start % PAGE + |data| <= PAGE && start + |data| <= capacity <= |was| && j < |data|
    ensures |now| == |was| && now[start + j] == data[j]
  {
    hide PageOffset, LastStreamed, AlignDown;
    PageInBlock(start, len);
    OffsetInPage(start, j);
    assert erased[start + j] == ERASED;
    var offset := PageOffset(start, j);
    forall i | j + 1 <= i < |data| ensures PageOffset(start, i) != offset { OffsetInPage(start, i); }
    LastStreamedAt(start, data, |data|, offset, j);
  }
}

/** A SPI NOR flash: a command is streamed byte by byte while the chip is selected. */
module SpiFlash {
  import opened FlashImage
  import opened Wrappers

  const WRITE_ENABLE: Byte := 0x06
  const WRITE_DISABLE: Byte := 0x04
  const READ_STATUS1: Byte := 0x05
  const READ_STATUS2: Byte := 0x35
  const READ_STATUS3: Byte := 0x15
  const WRITE_STATUS1_2: Byte := 0x01
  const WRITE_STATUS2: Byte := 0x31
  const WRITE_STATUS3: Byte := 0x11
  const READ_DATA: Byte := 0x03
  const READ_DATA_4B: Byte := 0x13
  const FAST_READ: Byte := 0x0b
  const FAST_READ_4B: Byte := 0x0c
  const PAGE_PROGRAM: Byte := 0x02
  const PAGE_PROGRAM_4B: Byte := 0x12
  const SECTOR_ERASE_4K: Byte := 0x20
  const SECTOR_ERASE_4K_4B: Byte := 0x21
  const BLOCK_ERASE_32K: Byte := 0x52
  const BLOCK_ERASE_64K: Byte := 0xd8
  const BLOCK_ERASE_64K_4B: Byte := 0xdc
  const CHIP_ERASE1: Byte := 0xc7
  const CHIP_ERASE2: Byte := 0x60
  const READ_JEDEC_ID: Byte := 0x9f
  const READ_SFDP: Byte := 0x5a
  const ENTER_4BYTE_ADDR: Byte := 0xb7
  const EXIT_4BYTE_ADDR: Byte := 0xe9
  const ENABLE_RESET: Byte := 0x66
  const RESET_DEVICE: Byte := 0x99

  const SECTOR_4K := 4096
  const BLOCK_32K := 32768
  const BLOCK_64K := 65536
  const CHUNK := 16384
  const U32 := 0x1_0000_0000
  const U64 := 0x1_0000_0000_0000_0000
  const JEDEC_ID: seq<Byte> := [0xef, 0x40, 0x20]

  const BUSY: Byte := 0x01
  const LATCH: Byte := 0x02
  const QUAD_ENABLE: Byte := 0x02

  datatype Action = Read(dummies: nat) | ProgramPage | EraseBlock(len: nat) | Sfdp

  datatype StatusTarget = Status1And2 | Status2 | Status3

  datatype Transaction =
    | Idle
    | Ignore
    | ReadStatus(which: nat)
    | ReadJedecId(index: nat)
    | CollectAddress(action: Action, addressLen: nat, buf: seq<Byte>)
    | Dummy(action: Action, address: nat, remaining: nat)
    | ReadData(nextAddr: nat)
    | ReadSfdp(nextAddr: nat)
    | PageProgram(start: nat, data: seq<Byte>)
    | WriteStatus(target: StatusTarget, data: seq<Byte>)

  /** The transaction can end in a change of the image or of a status register. */
  predicate Writing(t: Transaction) {
    t.PageProgram? || t.WriteStatus? || (t.CollectAddress? && (t.action.ProgramPage? || t.action.EraseBlock?))
  }

  predicate KnownSize(t: Transaction) {
    t.CollectAddress? && t.action.EraseBlock? ==> t.action.len in {SECTOR_4K, BLOCK_32K, BLOCK_64K}
  }

  predicate Latched(status1: Byte) { status1 & LATCH != 0 }

  /** All bits of the first status register but the latch. */
  function Rest(status1: Byte): Byte { status1 & 0xfd }

  predicate NotBusy(status1: Byte) { status1 & 0x01 == 0 }

  function WithLatch(status1: Byte, on: bool): (r: Byte)
    ensures Latched(r) == on && Rest(r) == Rest(status1)
    ensures NotBusy(status1) ==> NotBusy(r)
  {
    if on then status1 | LATCH else status1 & !LATCH
  }

  function WithoutBusy(status1: Byte): (r: Byte)
    ensures NotBusy(r) && (NotBusy(status1) ==> r == status1)
    ensures r & 0xfe == status1 & 0xfe
  {
    status1 & !BUSY
  }

  /** The address bytes, most significant first. */
  function AddressOf(buf: seq<Byte>): nat {
    if buf == [] then 0 else AddressOf(buf[..|buf| - 1]) * 256 + buf[|buf| - 1] as nat
  }

  function Owed(status1: Byte): nat { if Latched(status1) then 1 else 0 }

  function AddressLen(wide: bool, fourByteMode: bool): nat { if wide || fourByteMode then 4 else 3 }

  /** An operation that writes is collected only while the latch is set. */
  function IfLatched(latched: bool, t: Transaction): Transaction { if latched then t else Ignore }

  function EraseSize(opcode: Byte): nat {
    if opcode == SECTOR_ERASE_4K || opcode == SECTOR_ERASE_4K_4B then SECTOR_4K
    else if opcode == BLOCK_ERASE_32K then BLOCK_32K
    else BLOCK_64K
  }

  /** The transaction that an opcode starts. */
  function AfterOpcode(opcode: Byte, latched: bool, fourByteMode: bool): Transaction {
    var short, wide := AddressLen(false, fourByteMode), AddressLen(true, fourByteMode);
    if opcode == READ_STATUS1 then ReadStatus(1)
    else if opcode == READ_STATUS2 then ReadStatus(2)
    else if opcode == READ_STATUS3 then ReadStatus(3)
    else if opcode == READ_JEDEC_ID then ReadJedecId(0)
    else if opcode == READ_DATA then CollectAddress(Read(0), short, [])
    else if opcode == READ_DATA_4B then CollectAddress(Read(0), wide, [])
    else if opcode == FAST_READ then CollectAddress(Read(1), short, [])
    else if opcode == FAST_READ_4B then CollectAddress(Read(1), wide, [])
    else if opcode == READ_SFDP then CollectAddress(Sfdp, 3, [])
    else if opcode == PAGE_PROGRAM then IfLatched(latched, CollectAddress(ProgramPage, short, []))
    else if opcode == PAGE_PROGRAM_4B then IfLatched(latched, CollectAddress(ProgramPage, wide, []))
    else if opcode == SECTOR_ERASE_4K || opcode == BLOCK_ERASE_32K || opcode == BLOCK_ERASE_64K then
      IfLatched(latched, CollectAddress(EraseBlock(EraseSize(opcode)), short, []))
    else if opcode == SECTOR_ERASE_4K_4B || opcode == BLOCK_ERASE_64K_4B then
      IfLatched(latched, CollectAddress(EraseBlock(EraseSize(opcode)), wide, []))
    else if opcode == WRITE_STATUS1_2 then IfLatched(latched, WriteStatus(Status1And2, []))
    else if opcode == WRITE_STATUS2 then IfLatched(latched, WriteStatus(Status2, []))
    else if opcode == WRITE_STATUS3 then IfLatched(latched, WriteStatus(Status3, []))
    else Ignore
  }

  function AfterAddress(action: Action, address: nat, latched: bool): Transaction {
    match action
    case Read(dummies) => if dummies == 0 then ReadData(address) else Dummy(action, address, dummies)
    case ProgramPage => IfLatched(latched, PageProgram(address, []))
    case EraseBlock(_) => Ignore
    case Sfdp => Dummy(action, address, 1)
  }

  function AfterDummy(action: Action, address: nat): Transaction {
    match action
    case Read(_) => ReadData(address)
    case Sfdp => ReadSfdp(address % U32)
    case ProgramPage => Idle
    case EraseBlock(_) => Idle
  }

  /** The transaction after one more byte. */
  function Next(t: Transaction, mosi: Byte, latched: bool, fourByteMode: bool): Transaction {
    match t
    case Idle => AfterOpcode(mosi, latched, fourByteMode)
    case ReadJedecId(index) => ReadJedecId(index + 1)
    case CollectAddress(action, len, buf) =>
      var next := buf + [mosi];
      if |next| == len then AfterAddress(action, AddressOf(next), latched) else CollectAddress(action, len, next)
    case Dummy(action, address, remaining) =>
      if remaining > 1 then Dummy(action, address, remaining - 1) else AfterDummy(action, address)
    case ReadData(next) => ReadData((next + 1) % U64)
    case ReadSfdp(next) => ReadSfdp((next + 1) % U32)
    case PageProgram(start, data) => PageProgram(start, data + [mosi])
    case WriteStatus(target, data) => WriteStatus(target, data + [mosi])
    case _ => t
  }

  function SfdpByte(addr: nat): Byte {
    if addr < 8 then [0x53, 0x46, 0x44, 0x50, 0x06, 0x01, 0x00, 0xff][addr] else 0xff
  }

  /** The operation that a byte completes, if it completes one. */
  function ErasedBy(t: Transaction, mosi: Byte, latched: bool, capacity: nat): (r: Option<Commit>)
    ensures r.Some? ==> latched && r.value.Erase?
  {
    if !latched then None
    else if t.Idle? && (mosi == CHIP_ERASE1 || mosi == CHIP_ERASE2) then Some(Erase(0, capacity))
    else if t.CollectAddress? && t.action.EraseBlock? && |t.buf| + 1 == t.addressLen then
      Some(Erase(AddressOf(t.buf + [mosi]), t.action.len))
    else None
  }

  /** The page program that a select edge completes, if it completes one. */
  function Finishes(t: Transaction, selected: bool): (r: Option<Commit>) {
    if !selected && t.PageProgram? && t.data != [] then Some(Program(t.start, t.data)) else None
  }

  /** The write-enable latch after an opcode. */
  predicate LatchAfter(opcode: Byte, latched: bool, resetEnabled: bool) {
    if opcode == WRITE_ENABLE then true
    else if opcode == WRITE_DISABLE || opcode == CHIP_ERASE1 || opcode == CHIP_ERASE2 then false
    else latched && !(opcode == RESET_DEVICE && resetEnabled)
  }

  /** Four-byte addressing after an opcode. */
  predicate WideAfter(opcode: Byte, wide: bool, resetEnabled: bool) {
    if opcode == ENTER_4BYTE_ADDR then true
    else if opcode == EXIT_4BYTE_ADDR then false
    else wide && !(opcode == RESET_DEVICE && resetEnabled)
  }

  /** Whether the reset opcode is armed after an opcode. */
  predicate ArmedAfter(opcode: Byte, resetEnabled: bool) {
    opcode == ENABLE_RESET || (resetEnabled && opcode != RESET_DEVICE)
  }

  /** The first status register after a select edge, but for the latch. */
  function Status1After(t: Transaction, selected: bool, status1: Byte): Byte {
    if !selected && t.WriteStatus? && t.target == Status1And2 && t.data != [] then WithoutBusy(t.data[0]) else status1
  }

  /** The second status register after a select edge. */
  function Status2After(t: Transaction, selected: bool, status2: Byte): Byte {
    if selected || !t.WriteStatus? then status2
    else if t.target == Status1And2 && |t.data| > 1 then t.data[1]
    else if t.target == Status2 && t.data != [] then t.data[0]
    else status2
  }

  function Status3After(t: Transaction, selected: bool, status3: Byte): Byte {
    if !selected && t.WriteStatus? && t.target == Status3 && t.data != [] then t.data[0] else status3
  }

  predicate EnablesWrites(t: Transaction, mosi: Byte) { t.Idle? && mosi == WRITE_ENABLE }

  /** Past the capacity, or where the image cannot be read, the chip answers with the erased value. */
  function ByteAt(image: seq<Byte>, capacity: nat, addr: nat): Byte {
    if addr < capacity && addr < |image| then image[addr] else ERASED
  }

  /** At most one write operation happened, and only with the latch set, which it cleared. */
  ghost predicate Committed(was: seq<Byte>, image: seq<Byte>, capacity: nat, commits: seq<Commit>,
                            now: seq<Commit>, c: Option<Commit>)
  {
    match c
    case None => image == was && now == commits
    case Some(c) => WellFormed(c) && now == commits + [c] && Becomes(was, capacity, c, image)
  }

  /** What the chip sees of the bus. */
  datatype BusEvent = Select | Deselect | Clock(mosi: Byte)

  class Flash {
    const capacity: nat
    var image: seq<Byte>
    var transaction: Transaction
    var status1: Byte
    var status2: Byte
    var status3: Byte
    var fourByteMode: bool
    var resetEnabled: bool
    ghost const initial: seq<Byte>
    ghost var commits: seq<Commit>
    ghost var enables: nat
    ghost var trace: seq<BusEvent>

    /**
     * A write in progress has the latch set, the image is what the commits made of the initial
     * one, and every commit has used up one write-enable command.
     */
    ghost predicate Valid()
      reads this
    {
      && 0 < capacity <= |image| && KnownSize(transaction) && NotBusy(status1)
      && (Writing(transaction) ==> Latched(status1))
      && Accounts()
    }

    ghost predicate Accounts()
      reads this
    {
      Replays(initial, capacity, commits, image) && |commits| + Owed(status1) <= enables
    }

    constructor (file: seq<Byte>, capacity: nat)
      requires capacity > 0
      ensures Valid() && this.capacity == capacity && commits == [] && trace == [] && enables == 0 && !Latched(status1)
      ensures |image| == |initial| && file <= initial
      ensures forall i :: |file| <= i < |initial| ==> initial[i] == ERASED
    {
      this.capacity := capacity;
      var grown := if |file| >= capacity then file else file + seq(capacity - |file|, _ => ERASED);
      image, initial := grown, grown;
      transaction, status1, status2, status3 := Idle, 0, QUAD_ENABLE, 0;
      fourByteMode, resetEnabled := false, false;
      commits, enables, trace := [], 0, [];
    }

    /** Fill a range with the erased value, a chunk at a time. */
    method FillRange(offset: nat, len: nat)
      requires offset + len <= |image|
      modifies this`image
      ensures |image| == |old(image)|
      ensures forall i :: 0 <= i < |image| ==>
        image[i] == if offset <= i < offset + len then ERASED else old(image)[i]
    {
      var remaining := len;
      var at := offset;
      while remaining != 0
        invariant 0 <= remaining && at + remaining == offset + len && at >= offset && |image| == |old(image)|
        invariant forall i :: 0 <= i < |image| ==> image[i] == if offset <= i < at then ERASED else old(image)[i]
      {
        var part := if remaining < CHUNK then remaining else CHUNK;
        image := image[..at] + seq(part, _ => ERASED) + image[at + part..];
        at, remaining := at + part, remaining - part;
      }
    }

    method EraseRange(addr: nat, len: nat)
      requires len > 0 && capacity <= |image|
      modifies this`image
      ensures |image| == |old(image)| && Becomes(old(image), capacity, Erase(addr, len), image)
    {
      if addr >= capacity {
        return;
      }
      var start := AlignDown(addr, len);
      var part := if len < capacity - start then len else capacity - start;
      FillRange(start, part);
    }

    /** Clear the bits that are clear in the written data, up to the capacity. */
    method WriteNorBytes(addr: nat, data: seq<Byte>)
      requires capacity <= |image|
      modifies this`image
      ensures |image| == |old(image)|
      ensures forall i :: 0 <= i < |image| ==>
        image[i] == if addr <= i < addr + |data| && i < capacity then Cleared(old(image)[i], data[i - addr]) else old(image)[i]
    {
      hide Cleared;
      if addr >= capacity || data == [] {
        return;
      }
      var part := if |data| < capacity - addr then |data| else capacity - addr;
      for k := 0 to part
        invariant |image| == |old(image)|
        invariant forall i :: 0 <= i < |image| ==>
          image[i] == if addr <= i < addr + k then Cleared(old(image)[i], data[i - addr]) else old(image)[i]
      {
        image := image[addr + k := Cleared(image[addr + k], data[k])];
      }
    }

    /** Lay the streamed bytes out over one page and program it. */
    method ProgramImage(start: nat, data: seq<Byte>)
      requires capacity <= |image|
      modifies this`image
      ensures |image| == |old(image)| && Becomes(old(image), capacity, Program(start, data), image)
    {
      hide PageOffset, Cleared;
      var page: seq<Byte> := seq(PAGE, _ => ERASED);
      for k := 0 to |data|
        invariant |page| == PAGE
        invariant forall o :: 0 <= o < PAGE ==> page[o] == LastStreamed(start, data, k, o)
      {
        page := page[PageOffset(start, k) := data[k]];
      }
      WriteNorBytes(AlignDown(start, PAGE), page);
    }

    method FinishPageProgram(start: nat, data: seq<Byte>)
      requires Valid() && Latched(status1) && !Writing(transaction)
      modifies this`image, this`status1, this`commits
      ensures Valid() && !Latched(status1) && Rest(status1) == old(Rest(status1)) && |image| == |old(image)|
      ensures data == [] ==> image == old(image) && commits == old(commits)
      ensures data != [] ==>
        commits == old(commits) + [Program(start, data)] && Becomes(old(image), capacity, Program(start, data), image)
    {
      hide Latched, Rest, NotBusy, WithLatch, Replays, Becomes;
      if data != [] {
        ProgramImage(start, data);
        ReplaysNext(initial, capacity, commits, old(image), Program(start, data), image);
        commits := commits + [Program(start, data)];
      }
      status1 := WithLatch(status1, false);
    }

    /** An erase that has its address: performed and charged to the write-enable that allowed it. */
    method PerformErase(addr: nat, len: nat)
      requires Valid() && Latched(status1) && !Writing(transaction) && len > 0
      modifies this`image, this`status1, this`commits
      ensures Valid() && !Latched(status1) && Rest(status1) == old(Rest(status1)) && |image| == |old(image)|
      ensures commits == old(commits) + [Erase(addr, len)] && Becomes(old(image), capacity, Erase(addr, len), image)
    {
      hide Latched, Rest, NotBusy, WithLatch, Replays, Becomes;
      EraseRange(addr, len);
      ReplaysNext(initial, capacity, commits, old(image), Erase(addr, len), image);
      commits := commits + [Erase(addr, len)];
      status1 := WithLatch(status1, false);
    }

    method FinishStatusWrite(target: StatusTarget, data: seq<Byte>)
      requires Valid() && Latched(status1) && !Writing(transaction)
      modifies this`status1, this`status2, this`status3
      ensures Valid() && !Latched(status1)
      ensures Rest(status1) == Rest(Status1After(WriteStatus(target, data), false, old(status1)))
      ensures status2 == Status2After(WriteStatus(target, data), false, old(status2))
      ensures status3 == Status3After(WriteStatus(target, data), false, old(status3))
    {
      hide Latched, Rest, NotBusy, WithLatch, Replays, WithoutBusy;
      if data != [] {
        match target
        case Status1And2 =>
          status1 := WithoutBusy(data[0]);
          if |data| > 1 { status2 := data[1]; }
        case Status2 => status2 := data[0];
        case Status3 => status3 := data[0];
      }
      status1 := WithLatch(status1, false);
    }

    /** Commands without operands act at once; the others start a transaction. */
    method StartCommand(opcode: Byte)
      requires Valid() && transaction == Idle
      modifies this
      ensures Valid() && transaction == AfterOpcode(opcode, old(Latched(status1)), old(fourByteMode))
      ensures Committed(old(image), image, capacity, old(commits), commits,
                        ErasedBy(Idle, opcode, old(Latched(status1)), capacity))
      ensures Latched(status1) == LatchAfter(opcode, old(Latched(status1)), old(resetEnabled))
      ensures fourByteMode == WideAfter(opcode, old(fourByteMode), old(resetEnabled))
      ensures resetEnabled == ArmedAfter(opcode, old(resetEnabled))
      ensures status2 == old(status2) && status3 == old(status3) && Rest(status1) == old(Rest(status1))
      ensures enables == old(enables) + if opcode == WRITE_ENABLE then 1 else 0
      ensures trace == old(trace)
    {
      hide Latched, Rest, NotBusy, Replays, Becomes, AfterOpcode, LatchAfter, WideAfter, ArmedAfter;
      var latched, wide := Latched(status1), fourByteMode;
      OpcodeTransaction(opcode, latched, wide);
      ActAtOnce(opcode);
      LatchKept(opcode, latched, old(resetEnabled));
      transaction := AfterOpcode(opcode, latched, wide);
    }

    /** The effect that some opcodes have without an operand. */
    method ActAtOnce(opcode: Byte)
      requires Valid() && transaction == Idle
      modifies this`status1, this`enables, this`image, this`commits, this`fourByteMode, this`resetEnabled
      ensures Valid()
      ensures Committed(old(image), image, capacity, old(commits), commits,
                        ErasedBy(Idle, opcode, old(Latched(status1)), capacity))
      ensures Latched(status1) == LatchAfter(opcode, old(Latched(status1)), old(resetEnabled))
      ensures fourByteMode == WideAfter(opcode, old(fourByteMode), old(resetEnabled))
      ensures resetEnabled == ArmedAfter(opcode, old(resetEnabled)) && Rest(status1) == old(Rest(status1))
      ensures enables == old(enables) + if opcode == WRITE_ENABLE then 1 else 0
    {
      hide Latched, Rest, NotBusy, WithLatch, Replays, Becomes, WithoutBusy;
      if opcode == WRITE_ENABLE {
        status1 := WithLatch(status1, true);
        enables := enables + 1;
      } else if opcode == WRITE_DISABLE {
        status1 := WithLatch(status1, false);
      } else if opcode == CHIP_ERASE1 || opcode == CHIP_ERASE2 {
        if Latched(status1) { PerformErase(0, capacity); }
      } else if opcode == ENTER_4BYTE_ADDR {
        fourByteMode := true;
      } else if opcode == EXIT_4BYTE_ADDR {
        fourByteMode := false;
      } else if opcode == ENABLE_RESET {
        resetEnabled := true;
      } else if opcode == RESET_DEVICE && resetEnabled {
        status1 := WithLatch(WithoutBusy(status1), false);
        fourByteMode, resetEnabled := false, false;
      }
    }

    method CompleteAddress(action: Action, address: nat)
      requires Valid() && transaction == Idle
      requires (action.ProgramPage? || action.EraseBlock? ==> Latched(status1)) && (action.EraseBlock? ==> action.len > 0)
      modifies this`image, this`status1, this`commits, this`transaction
      ensures Valid() && transaction == AfterAddress(action, address, old(Latched(status1)))
      ensures Committed(old(image), image, capacity, old(commits), commits,
                        if action.EraseBlock? then Some(Erase(address, action.len)) else None)
      ensures Latched(status1) == (old(Latched(status1)) && !action.EraseBlock?) && Rest(status1) == old(Rest(status1))
    {
      hide Latched, Rest, NotBusy, WithLatch, Replays, Becomes;
      match action
      case Read(dummies) =>
        transaction := if dummies == 0 then ReadData(address) else Dummy(action, address, dummies);
      case ProgramPage => transaction := PageProgram(address, []);
      case EraseBlock(len) =>
        PerformErase(address, len);
        transaction := Ignore;
      case Sfdp => transaction := Dummy(action, address, 1);
    }

    /**
     * What a clocked byte does: the transaction moves on, at most one erase is committed, and only
     * with the latch set, and only a write-enable command sets the latch.
     */
    twostate predicate Clocked(mosi: Byte)
      reads this
    {
      var was, latched := old(transaction), old(Latched(status1));
      && transaction == Next(was, mosi, latched, old(fourByteMode))
      && Committed(old(image), image, capacity, old(commits), commits, ErasedBy(was, mosi, latched, capacity))
      && Latched(status1) == (if was.Idle? then LatchAfter(mosi, latched, old(resetEnabled))
                              else latched && ErasedBy(was, mosi, latched, capacity).None?)
      && enables == old(enables) + (if EnablesWrites(was, mosi) then 1 else 0)
      && fourByteMode == (if was.Idle? then WideAfter(mosi, old(fourByteMode), old(resetEnabled)) else old(fourByteMode))
      && resetEnabled == (if was.Idle? then ArmedAfter(mosi, old(resetEnabled)) else old(resetEnabled))
      && status2 == old(status2) && status3 == old(status3) && Rest(status1) == old(Rest(status1))
    }

    /** What a select edge does: a page program with data is committed on deselect, and clears the latch. */
    twostate predicate Edged(selected: bool)
      reads this
    {
      && transaction == Idle && enables == old(enables) && fourByteMode == old(fourByteMode)
      && Committed(old(image), image, capacity, old(commits), commits, Finishes(old(transaction), selected))
      && Latched(status1) == (old(Latched(status1)) && (selected || !(old(transaction).PageProgram? || old(transaction).WriteStatus?)))
      && Rest(status1) == Rest(Status1After(old(transaction), selected, old(status1)))
      && status2 == Status2After(old(transaction), selected, old(status2))
      && status3 == Status3After(old(transaction), selected, old(status3))
      && resetEnabled == old(resetEnabled)
    }

    /** One full-duplex byte. */
    method Transfer(mosi: Byte) returns (miso: Byte)
      requires Valid()
      modifies this
      ensures Valid() && Clocked(mosi) && trace == old(trace) + [Clock(mosi)]
      ensures miso == old(Answer(transaction))
    {
      hide Latched, Rest, NotBusy, Replays, Becomes, AfterOpcode, AddressOf, WithLatch, KnownSize;
      miso := 0;
      trace := trace + [Clock(mosi)];
      if transaction.Idle? {
        StartCommand(mosi);
      } else if transaction.CollectAddress? {
        CollectByte(mosi);
      } else {
        miso := Stream(mosi);
      }
    }

    method CollectByte(mosi: Byte)
      requires Valid() && transaction.CollectAddress?
      modifies this`image, this`status1, this`commits, this`transaction
      ensures Valid() && transaction == Next(old(transaction), mosi, old(Latched(status1)), fourByteMode)
      ensures Committed(old(image), image, capacity, old(commits), commits,
                        ErasedBy(old(transaction), mosi, old(Latched(status1)), capacity))
      ensures Latched(status1) ==
        (old(Latched(status1)) && ErasedBy(old(transaction), mosi, old(Latched(status1)), capacity).None?)
      ensures Rest(status1) == old(Rest(status1))
    {
      hide Latched, Rest, NotBusy, Replays, Becomes, AfterOpcode, AddressOf;
      var t := transaction;
      var next := t.buf + [mosi];
      if |next| == t.addressLen {
        transaction := Idle;
        CompleteAddress(t.action, AddressOf(next));
      } else {
        transaction := CollectAddress(t.action, t.addressLen, next);
      }
    }

    /** A byte inside a transaction that has its address, or needs none. */
    method Stream(mosi: Byte) returns (miso: Byte)
      requires Valid() && !transaction.Idle? && !transaction.CollectAddress?
      modifies this`transaction
      ensures Valid() && transaction == Next(old(transaction), mosi, Latched(status1), fourByteMode)
      ensures miso == old(Answer(transaction))
    {
      hide Latched, Rest, NotBusy, Replays, AfterOpcode, AddressOf, Answer;
      miso := Answer(transaction);
      transaction := Next(transaction, mosi, true, fourByteMode);
    }

    /** The byte shifted out by a transaction that only reads. */
    function Answer(t: Transaction): Byte
      reads this
    {
      match t
      case ReadStatus(which) => if which == 1 then status1 else if which == 2 then status2 else status3
      case ReadJedecId(index) => JEDEC_ID[index % 3]
      case ReadData(next) => ByteAt(image, capacity, next)
      case ReadSfdp(next) => SfdpByte(next)
      case _ => 0
    }

    /** A chip-select edge: selecting starts afresh, deselecting completes the transaction. */
    method SetSelected(selected: bool)
      requires Valid()
      modifies this
      ensures Valid() && Edged(selected) && trace == old(trace) + [if selected then Select else Deselect]
    {
      hide Latched, Rest, NotBusy, WithLatch, Replays, Becomes;
      var t := transaction;
      transaction := Idle;
      trace := trace + [if selected then Select else Deselect];
      if !selected {
        match t
        case PageProgram(start, data) => FinishPageProgram(start, data);
        case WriteStatus(target, data) => FinishStatusWrite(target, data);
        case _ =>
      }
    }
  }

  /** A command that starts a write leaves the latch as it is. */
  lemma LatchKept(opcode: Byte, latched: bool, resetEnabled: bool)
    ensures Writing(AfterOpcode(opcode, latched, true)) || Writing(AfterOpcode(opcode, latched, false)) ==>
      latched && LatchAfter(opcode, latched, resetEnabled)
  {}

  /** Write commands start only under the latch, and the immediate commands start nothing. */
  lemma OpcodeTransaction(opcode: Byte, latched: bool, fourByteMode: bool)
    ensures var t := AfterOpcode(opcode, latched, fourByteMode);
      && KnownSize(t) && (Writing(t) ==> latched)
      && (opcode in {WRITE_ENABLE, WRITE_DISABLE, CHIP_ERASE1, CHIP_ERASE2, RESET_DEVICE} ==> t == Ignore)
  {}
}
