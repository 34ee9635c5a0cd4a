/** A host that drives a flash chip through the controller's registers. */
module SpiHost {
  import opened FlashImage
  import opened SpiFlash
  import opened SpiController
  import opened Wrappers

  const OFF := 3

  /** Chip `k` is attached, reception is on and nothing is left to read. */
  ghost predicate Attached(c: Controller, k: nat)
    reads c, c.slaves
  {
    c.Valid() && k < |c.slaves| && c.slaves[k] != null && c.rxEnabled && c.rxFifo == []
  }

  ghost predicate Open(c: Controller, k: nat)
    reads c, c.slaves
  {
    Attached(c, k) && c.SelectedChip() == Some(k)
  }

  ghost predicate Closed(c: Controller, k: nat)
    reads c, c.slaves
  {
    Attached(c, k) && c.csmode != HOLD
  }

  /** All chips but `k` are as before. */
  twostate predicate OthersKept(c: Controller, k: nat)
    requires c.slaves == old(c.slaves)
    reads c, c.slaves
  {
    forall i :: 0 <= i < |c.slaves| && i != k && c.slaves[i] != null && old(allocated(c.slaves[i])) ==> unchanged(c.slaves[i])
  }

  method Select(c: Controller, k: nat)
    requires Closed(c, k)
    modifies c`csid, c`csmode, c.slaves
    ensures c.slaves == old(c.slaves) && Open(c, k) && c.slaves[k].Edged(true) && OthersKept(c, k)
  {
    hide Flash.Valid, Driven, Committed;
    c.SetCsid(k);
    c.SetCsmode(HOLD);
  }

  method Deselect(c: Controller, k: nat)
    requires Open(c, k)
    modifies c`csmode, c.slaves
    ensures c.slaves == old(c.slaves) && Closed(c, k) && c.slaves[k].Edged(false) && OthersKept(c, k)
  {
    hide Flash.Valid, Driven, Committed;
    c.SetCsmode(OFF);
  }

  /** One byte out and one byte in; the bit order of the controller cancels out. */
  method Exchange(c: Controller, k: nat, b: Byte) returns (r: Byte)
    requires Open(c, k)
    modifies c`rxFifo, c`received, c`delivered, c.slaves
    ensures c.slaves == old(c.slaves) && Open(c, k) && c.Exchanged(c.slaves[k], b, r) && OthersKept(c, k)
  {
    hide Flash.Valid, Driven, Reversed, Committed, Next, ErasedBy, Latched, Rest, Flash.Answer;
    ReversedTwice(b);
    ghost var miso := c.TransferByte(c.InOrder(b));
    assert c.Exchanged(c.slaves[k], b, miso);
    ReversedTwice(miso);
    var got := c.ReadRxData();
    assert ([got.value] + c.rxFifo)[0] == got.value;
    r := c.InOrder(got.value);
  }

  /** Nothing was written to the chip and its address width is the same. */
  twostate predicate Kept(f: Flash)
    reads f
  {
    f.image == old(f.image) && f.commits == old(f.commits) && f.fourByteMode == old(f.fourByteMode)
  }

  // The opcodes and sizes below are those of the chip's data sheet, written out for the driver's side.

  /** Read and fast read, each with the current and with a four-byte address. */
  predicate IsRead(opcode: Byte) { opcode == 0x03 || opcode == 0x13 || opcode == 0x0b || opcode == 0x0c }

  predicate IsProgram(opcode: Byte) { opcode == 0x02 || opcode == 0x12 }

  /** Erase of a 4K sector, a 32K block or a 64K block. */
  predicate IsErase(opcode: Byte) {
    opcode == 0x20 || opcode == 0x21 || opcode == 0x52 || opcode == 0xd8 || opcode == 0xdc
  }

  /** The number of address bytes a command takes. */
  function Width(opcode: Byte, fourByteMode: bool): (n: nat)
    ensures n == 3 || n == 4
  {
    if fourByteMode || opcode == 0x13 || opcode == 0x0c || opcode == 0x12 || opcode == 0x21 || opcode == 0xdc then 4 else 3
  }

  function BlockSize(opcode: Byte): nat {
    if opcode == 0x20 || opcode == 0x21 then 4096 else if opcode == 0x52 then 32768 else 65536
  }

  function ActionOf(opcode: Byte): Action {
    if IsRead(opcode) then Read(if opcode == 0x0b || opcode == 0x0c then 1 else 0)
    else if IsProgram(opcode) then ProgramPage
    else EraseBlock(BlockSize(opcode))
  }

  /** The chip understands these opcodes as the driver means them. */
  lemma OpcodeCollects(opcode: Byte, latched: bool, fourByteMode: bool)
    requires IsRead(opcode) || ((IsProgram(opcode) || IsErase(opcode)) && latched)
    ensures AfterOpcode(opcode, latched, fourByteMode) ==
      CollectAddress(ActionOf(opcode), Width(opcode, fourByteMode), [])
  {}

  /** The bytes are the address, most significant byte first. */
  predicate Spells(address: seq<Byte>, addr: nat) {
    || (|address| == 3 && addr == 0x1_0000 * address[0] as nat + 0x100 * address[1] as nat + address[2] as nat)
    || (|address| == 4 && addr == 0x100_0000 * address[0] as nat + 0x1_0000 * address[1] as nat
                                  + 0x100 * address[2] as nat + address[3] as nat)
  }

  /** The chip reads the same address from them. */
  lemma AddressSpelled(address: seq<Byte>, addr: nat)
    requires Spells(address, addr)
    ensures AddressOf(address) == addr
  {
    var a, b, c := address[0], address[1], address[2];
    assert address[..1] == [a] && address[..2] == [a, b] && address[..3] == [a, b, c];
    assert [a][..0] == [] && [a, b][..1] == [a] && [a, b, c][..2] == [a, b];
    assert AddressOf([a]) == a as nat;
    assert AddressOf([a, b]) == 0x100 * a as nat + b as nat;
    assert AddressOf([a, b, c]) == 0x1_0000 * a as nat + 0x100 * b as nat + c as nat;
    if |address| == 3 { assert address == [a, b, c]; }
  }

  /** The byte completes no write and leaves the address width alone. */
  predicate Harmless(t: Transaction, b: Byte) {
    && (t.Idle? ==> IsRead(b) || IsProgram(b) || IsErase(b) || b == 0x5a)
    && (t.CollectAddress? && t.action.EraseBlock? ==> |t.buf| + 1 != t.addressLen)
  }

  /** A byte that only moves the transaction on. */
  method Step(c: Controller, k: nat, b: Byte) returns (r: Byte)
    requires Open(c, k) && Harmless(c.slaves[k].transaction, b)
    modifies c`rxFifo, c`received, c`delivered, c.slaves
    ensures c.slaves == old(c.slaves) && Open(c, k) && OthersKept(c, k) && Kept(c.slaves[k])
    ensures
      var f := c.slaves[k];
      && f.transaction == Next(old(f.transaction), b, old(Latched(f.status1)), old(f.fourByteMode))
      && (Writing(f.transaction) ==> Latched(f.status1))
      && (old(f.transaction).ReadData? ==> r == ByteAt(f.image, f.capacity, old(f.transaction).nextAddr))
      && (old(f.transaction).ReadSfdp? ==> r == SfdpByte(old(f.transaction).nextAddr))
  {
    hide Latched, Rest, NotBusy, Replays, Becomes, Next, Driven, ByteAt;
    r := Exchange(c, k, b);
  }

  /** All address bytes but the last. */
  method SendAddress(c: Controller, k: nat, action: Action, address: seq<Byte>)
    requires Open(c, k) && |address| > 0 && c.slaves[k].transaction == CollectAddress(action, |address|, [])
    modifies c`rxFifo, c`received, c`delivered, c.slaves
    ensures c.slaves == old(c.slaves) && Open(c, k) && OthersKept(c, k) && Kept(c.slaves[k])
    ensures c.slaves[k].transaction == CollectAddress(action, |address|, address[..|address| - 1])
  {
    hide Controller.Valid, Flash.Valid, Latched, AddressOf, ByteAt, AfterAddress;
    for i := 0 to |address| - 1
      invariant c.slaves == old(c.slaves) && Open(c, k) && OthersKept(c, k) && Kept(c.slaves[k])
      invariant c.slaves[k].transaction == CollectAddress(action, |address|, address[..i])
    {
      var _ := Step(c, k, address[i]);
      assert address[..i + 1] == address[..i] + [address[i]];
    }
  }

  /** The last address byte of a command that then transfers data. */
  method FinishAddress(c: Controller, k: nat, action: Action, address: seq<Byte>)
    requires Open(c, k) && |address| > 0 && !action.EraseBlock?
    requires c.slaves[k].transaction == CollectAddress(action, |address|, address[..|address| - 1])
    modifies c`rxFifo, c`received, c`delivered, c.slaves
    ensures c.slaves == old(c.slaves) && Open(c, k) && OthersKept(c, k) && Kept(c.slaves[k])
    ensures c.slaves[k].transaction == AfterAddress(action, AddressOf(address), true)
  {
    hide Latched, AddressOf, ByteAt, Replays, Driven;
    assert address[..|address| - 1] + [address[|address| - 1]] == address;
    assert action.ProgramPage? ==> Latched(c.slaves[k].status1);
    var _ := Step(c, k, address[|address| - 1]);
  }

  /** The last address byte of an erase, which performs it. */
  method FinishErase(c: Controller, k: nat, len: nat, address: seq<Byte>)
    requires Open(c, k) && |address| > 0
    requires c.slaves[k].transaction == CollectAddress(EraseBlock(len), |address|, address[..|address| - 1])
    modifies c`rxFifo, c`received, c`delivered, c.slaves
    ensures c.slaves == old(c.slaves) && Open(c, k) && OthersKept(c, k)
    ensures c.slaves[k].transaction == Ignore && c.slaves[k].fourByteMode == old(c.slaves[k].fourByteMode)
    ensures Wrote(c.slaves[k], Erase(AddressOf(address), len))
  {
    hide Latched, AddressOf, Replays, Becomes, Driven, ByteAt;
    assert address[..|address| - 1] + [address[|address| - 1]] == address;
    assert Latched(c.slaves[k].status1);
    var _ := Exchange(c, k, address[|address| - 1]);
  }

  /** Exactly this write operation was performed on the chip. */
  twostate predicate Wrote(f: Flash, commit: Commit)
    reads f
  {
    WellFormed(commit) && f.commits == old(f.commits) + [commit] && Becomes(old(f.image), f.capacity, commit, f.image)
  }

  /** Latch, address width and armed reset after a command that is complete with its opcode. */
  datatype Mode = Mode(latched: bool, wide: bool, armed: bool) {
    /** Write enable and disable, four-byte addressing on and off, and reset in two steps. */
    function After(opcode: Byte): Mode {
      if opcode == 0x06 then this.(latched := true)
      else if opcode == 0x04 then this.(latched := false)
      else if opcode == 0xb7 then this.(wide := true)
      else if opcode == 0xe9 then this.(wide := false)
      else if opcode == 0x66 then this.(armed := true)
      else if opcode == 0x99 && armed then Mode(false, false, false)
      else this
    }
  }

  predicate IsImmediate(opcode: Byte) {
    opcode == 0x06 || opcode == 0x04 || opcode == 0xb7 || opcode == 0xe9 || opcode == 0x66 || opcode == 0x99
  }

  function ModeOf(f: Flash): Mode
    reads f
  {
    Mode(Latched(f.status1), f.fourByteMode, f.resetEnabled)
  }

  /** The two sides agree on what these opcodes do. */
  lemma ImmediateMeans(opcode: Byte, m: Mode, wide: bool, capacity: nat)
    requires IsImmediate(opcode)
    ensures m.After(opcode) ==
      Mode(LatchAfter(opcode, m.latched, m.armed), WideAfter(opcode, m.wide, m.armed), ArmedAfter(opcode, m.armed))
    ensures AfterOpcode(opcode, m.latched, wide) == Ignore && ErasedBy(Idle, opcode, m.latched, capacity) == None
  {}

  /** A command that is complete with its opcode. */
  method Immediate(c: Controller, k: nat, opcode: Byte)
    requires Closed(c, k) && IsImmediate(opcode)
    modifies c`csid, c`csmode, c`rxFifo, c`received, c`delivered, c.slaves
    ensures c.slaves == old(c.slaves) && Closed(c, k) && OthersKept(c, k)
    ensures c.slaves[k].image == old(c.slaves[k].image) && c.slaves[k].commits == old(c.slaves[k].commits)
    ensures ModeOf(c.slaves[k]) == old(ModeOf(c.slaves[k])).After(opcode)
  {
    hide Controller.Valid, Flash.Valid, Latched;
    Begin(c, k);
    SendOpcode(c, k, opcode);
    End(c, k);
  }

  method Begin(c: Controller, k: nat)
    requires Closed(c, k)
    modifies c`csid, c`csmode, c.slaves
    ensures c.slaves == old(c.slaves) && Open(c, k) && OthersKept(c, k) && Kept(c.slaves[k])
    ensures c.slaves[k].transaction == Idle && ModeOf(c.slaves[k]) == old(ModeOf(c.slaves[k]))
  {
    hide Controller.Valid, Flash.Valid, Latched;
    Select(c, k);
  }

  method SendOpcode(c: Controller, k: nat, opcode: Byte)
    requires Open(c, k) && c.slaves[k].transaction == Idle
    requires IsImmediate(opcode)
    modifies c`rxFifo, c`received, c`delivered, c.slaves
    ensures c.slaves == old(c.slaves) && Open(c, k) && OthersKept(c, k) && c.slaves[k].transaction == Ignore
    ensures c.slaves[k].image == old(c.slaves[k].image) && c.slaves[k].commits == old(c.slaves[k].commits)
    ensures ModeOf(c.slaves[k]) == old(ModeOf(c.slaves[k])).After(opcode)
  {
    hide Controller.Valid, Flash.Valid, Latched, Rest, Flash.Answer, LatchAfter, WideAfter, ArmedAfter, IsImmediate, AfterOpcode, ErasedBy;
    ImmediateMeans(opcode, ModeOf(c.slaves[k]), c.slaves[k].fourByteMode, c.slaves[k].capacity);
    var _ := Exchange(c, k, opcode);
  }

  method End(c: Controller, k: nat)
    requires Open(c, k) && c.slaves[k].transaction == Ignore
    modifies c`csmode, c.slaves
    ensures c.slaves == old(c.slaves) && Closed(c, k) && OthersKept(c, k) && Kept(c.slaves[k])
    ensures ModeOf(c.slaves[k]) == old(ModeOf(c.slaves[k]))
  {
    hide Controller.Valid, Flash.Valid, Latched;
    Deselect(c, k);
  }

  method EnableWrites(c: Controller, k: nat)
    requires Closed(c, k)
    modifies c`csid, c`csmode, c`rxFifo, c`received, c`delivered, c.slaves
    ensures c.slaves == old(c.slaves) && Closed(c, k) && OthersKept(c, k) && Kept(c.slaves[k])
    ensures Latched(c.slaves[k].status1)
  {
    hide Controller.Valid, Flash.Valid, Latched;
    Immediate(c, k, 0x06);
  }

  /** Select the chip and send the opcode of a read or, with the latch set, of a page program or an erase. */
  method Command(c: Controller, k: nat, opcode: Byte)
    requires Closed(c, k)
    requires IsRead(opcode) || ((IsProgram(opcode) || IsErase(opcode)) && Latched(c.slaves[k].status1))
    modifies c`csid, c`csmode, c`rxFifo, c`received, c`delivered, c.slaves
    ensures c.slaves == old(c.slaves) && Open(c, k) && OthersKept(c, k) && Kept(c.slaves[k])
    ensures c.slaves[k].transaction == CollectAddress(ActionOf(opcode), Width(opcode, c.slaves[k].fourByteMode), [])
  {
    hide Controller.Valid, Flash.Valid, Latched, Becomes, ByteAt, AfterOpcode, ActionOf, Width, IsRead, IsProgram, IsErase;
    Begin(c, k);
    OpcodeCollects(opcode, Latched(c.slaves[k].status1), c.slaves[k].fourByteMode);
    var _ := Step(c, k, opcode);
  }

  /** Program a page: exactly that data at that address of that chip. */
  method HostProgram(c: Controller, k: nat, opcode: Byte, address: seq<Byte>, addr: nat, data: seq<Byte>)
    requires Closed(c, k) && IsProgram(opcode) && |address| == Width(opcode, c.slaves[k].fourByteMode) && data != []
    requires Spells(address, addr)
    modifies c`csid, c`csmode, c`rxFifo, c`received, c`delivered, c.slaves
    ensures c.slaves == old(c.slaves) && Closed(c, k) && OthersKept(c, k)
    ensures Wrote(c.slaves[k], Program(addr, data))
    ensures c.slaves[k].fourByteMode == old(c.slaves[k].fourByteMode)
  {
    hide Controller.Valid, Flash.Valid, Latched, Becomes;
    StartProgram(c, k, opcode, address, addr);
    SendData(c, k, addr, data);
    Deselect(c, k);
  }

  method StartProgram(c: Controller, k: nat, opcode: Byte, address: seq<Byte>, addr: nat)
    requires Closed(c, k) && IsProgram(opcode) && |address| == Width(opcode, c.slaves[k].fourByteMode)
    requires Spells(address, addr)
    modifies c`csid, c`csmode, c`rxFifo, c`received, c`delivered, c.slaves
    ensures c.slaves == old(c.slaves) && Open(c, k) && OthersKept(c, k) && Kept(c.slaves[k])
    ensures c.slaves[k].transaction == PageProgram(addr, [])
  {
    hide Controller.Valid, Flash.Valid, Latched, AddressOf, ByteAt, Spells;
    AddressSpelled(address, addr);
    EnableWrites(c, k);
    Command(c, k, opcode);
    SendAddress(c, k, ProgramPage, address);
    FinishAddress(c, k, ProgramPage, address);
  }

  /** Erase a sector or block: exactly the aligned block around that address of that chip. */
  method HostErase(c: Controller, k: nat, opcode: Byte, address: seq<Byte>, addr: nat)
    requires Closed(c, k) && IsErase(opcode) && |address| == Width(opcode, c.slaves[k].fourByteMode)
    requires Spells(address, addr)
    modifies c`csid, c`csmode, c`rxFifo, c`received, c`delivered, c.slaves
    ensures c.slaves == old(c.slaves) && Closed(c, k) && OthersKept(c, k)
    ensures Wrote(c.slaves[k], Erase(addr, BlockSize(opcode)))
    ensures c.slaves[k].fourByteMode == old(c.slaves[k].fourByteMode)
  {
    hide Controller.Valid, Flash.Valid, Latched, Becomes, AddressOf, ByteAt, BlockSize, Spells;
    AddressSpelled(address, addr);
    EnableWrites(c, k);
    Command(c, k, opcode);
    SendAddress(c, k, ActionOf(opcode), address);
    FinishErase(c, k, BlockSize(opcode), address);
    End(c, k);
  }

  /** Switch the chip between three and four address bytes. */
  method HostSetWidth(c: Controller, k: nat, wide: bool)
    requires Closed(c, k)
    modifies c`csid, c`csmode, c`rxFifo, c`received, c`delivered, c.slaves
    ensures c.slaves == old(c.slaves) && Closed(c, k) && OthersKept(c, k) && c.slaves[k].fourByteMode == wide
    ensures c.slaves[k].image == old(c.slaves[k].image) && c.slaves[k].commits == old(c.slaves[k].commits)
  {
    hide Controller.Valid, Flash.Valid, Latched;
    Immediate(c, k, if wide then 0xb7 else 0xe9);
  }

  method SendData(c: Controller, k: nat, start: nat, data: seq<Byte>)
    requires Open(c, k) && c.slaves[k].transaction == PageProgram(start, [])
    modifies c`rxFifo, c`received, c`delivered, c.slaves
    ensures c.slaves == old(c.slaves) && Open(c, k) && OthersKept(c, k) && Kept(c.slaves[k])
    ensures c.slaves[k].transaction == PageProgram(start, data)
  {
    hide Controller.Valid, Flash.Valid, Latched, ByteAt;
    for i := 0 to |data|
      invariant c.slaves == old(c.slaves) && Open(c, k) && OthersKept(c, k) && Kept(c.slaves[k])
      invariant c.slaves[k].transaction == PageProgram(start, data[..i])
    {
      var _ := Step(c, k, data[i]);
      assert data[..i + 1] == data[..i] + [data[i]];
    }
    assert data[..|data|] == data;
  }

  /** The two-step reset ends four-byte addressing and clears the latch. */
  method HostReset(c: Controller, k: nat)
    requires Closed(c, k)
    modifies c`csid, c`csmode, c`rxFifo, c`received, c`delivered, c.slaves
    ensures c.slaves == old(c.slaves) && Closed(c, k) && OthersKept(c, k) && ModeOf(c.slaves[k]) == Mode(false, false, false)
    ensures c.slaves[k].image == old(c.slaves[k].image) && c.slaves[k].commits == old(c.slaves[k].commits)
  {
    hide Controller.Valid, Flash.Valid, Latched;
    Immediate(c, k, 0x66);
    Immediate(c, k, 0x99);
  }

  /** Erase the whole chip. */
  method HostChipErase(c: Controller, k: nat, opcode: Byte)
    requires Closed(c, k) && (opcode == 0xc7 || opcode == 0x60)
    modifies c`csid, c`csmode, c`rxFifo, c`received, c`delivered, c.slaves
    ensures c.slaves == old(c.slaves) && Closed(c, k) && OthersKept(c, k)
    ensures Wrote(c.slaves[k], Erase(0, c.slaves[k].capacity))
  {
    hide Controller.Valid, Flash.Valid, Latched, Becomes;
    EnableWrites(c, k);
    Begin(c, k);
    SendChipErase(c, k, opcode);
    End(c, k);
  }

  method SendChipErase(c: Controller, k: nat, opcode: Byte)
    requires Open(c, k) && c.slaves[k].transaction == Idle && Latched(c.slaves[k].status1)
    requires opcode == 0xc7 || opcode == 0x60
    modifies c`rxFifo, c`received, c`delivered, c.slaves
    ensures c.slaves == old(c.slaves) && Open(c, k) && OthersKept(c, k) && c.slaves[k].transaction == Ignore
    ensures Wrote(c.slaves[k], Erase(0, c.slaves[k].capacity))
  {
    hide Controller.Valid, Flash.Valid, Latched, Rest, Flash.Answer, Becomes;
    var _ := Exchange(c, k, opcode);
  }

  /** Read from an address on: the bytes of that chip's image in order, erased bytes past the end. */
  method HostRead(c: Controller, k: nat, opcode: Byte, address: seq<Byte>, addr: nat, n: nat) returns (out: seq<Byte>)
    requires Closed(c, k) && IsRead(opcode) && |address| == Width(opcode, c.slaves[k].fourByteMode)
    requires Spells(address, addr) && addr + n < U64
    modifies c`csid, c`csmode, c`rxFifo, c`received, c`delivered, c.slaves
    ensures c.slaves == old(c.slaves) && Closed(c, k) && OthersKept(c, k) && Kept(c.slaves[k])
    ensures |out| == n && forall j :: 0 <= j < n ==>
      out[j] == if addr + j < c.slaves[k].capacity then c.slaves[k].image[addr + j] else 0xff
  {
    hide Controller.Valid, Flash.Valid, Latched, Becomes, AddressOf, Spells;
    Roomy(c, k);
    AddressSpelled(address, addr);
    StartRead(c, k, opcode, address);
    out := ReceiveData(c, k, addr, n);
    Deselect(c, k);
  }

  method StartRead(c: Controller, k: nat, opcode: Byte, address: seq<Byte>)
    requires Closed(c, k) && IsRead(opcode) && |address| == Width(opcode, c.slaves[k].fourByteMode)
    modifies c`csid, c`csmode, c`rxFifo, c`received, c`delivered, c.slaves
    ensures c.slaves == old(c.slaves) && Open(c, k) && OthersKept(c, k) && Kept(c.slaves[k])
    ensures c.slaves[k].transaction == ReadData(AddressOf(address))
  {
    hide Controller.Valid, Flash.Valid, Latched, AddressOf, ByteAt;
    Command(c, k, opcode);
    var action := ActionOf(opcode);
    SendAddress(c, k, action, address);
    FinishAddress(c, k, action, address);
    if action.dummies == 1 {
      var _ := Step(c, k, 0);
    }
  }

  method ReceiveData(c: Controller, k: nat, start: nat, n: nat) returns (out: seq<Byte>)
    requires Open(c, k) && c.slaves[k].transaction == ReadData(start) && start + n < U64
    modifies c`rxFifo, c`received, c`delivered, c.slaves
    ensures c.slaves == old(c.slaves) && Open(c, k) && OthersKept(c, k) && Kept(c.slaves[k])
    ensures c.slaves[k].transaction.ReadData?
    ensures |out| == n && forall j :: 0 <= j < n ==>
      out[j] == ByteAt(c.slaves[k].image, c.slaves[k].capacity, start + j)
  {
    hide Controller.Valid, Flash.Valid, Latched, ByteAt;
    out := [];
    while |out| < n
      invariant c.slaves == old(c.slaves) && Open(c, k) && OthersKept(c, k) && Kept(c.slaves[k])
      invariant |out| <= n && c.slaves[k].transaction == ReadData(start + |out|)
      invariant forall j :: 0 <= j < |out| ==>
        out[j] == ByteAt(c.slaves[k].image, c.slaves[k].capacity, start + j)
    {
      var byte := Step(c, k, 0);
      out := out + [byte];
    }
  }

  // ------------------------------------------------------------------
  // Status registers and identification
  // ------------------------------------------------------------------

  /** The three status registers of a chip. */
  function StatusRegister(f: Flash, which: nat): Byte
    reads f
  {
    if which == 1 then f.status1 else if which == 2 then f.status2 else f.status3
  }

  /** Nothing at all was changed but the transaction. */
  twostate predicate Untouched(f: Flash)
    reads f
  {
    && Kept(f) && f.status2 == old(f.status2) && f.status3 == old(f.status3)
    && Rest(f.status1) == old(Rest(f.status1)) && Latched(f.status1) == old(Latched(f.status1))
  }

  /** Select the chip and send an opcode that only asks for something. */
  method Inquire(c: Controller, k: nat, opcode: Byte)
    requires Closed(c, k) && opcode in {0x05, 0x35, 0x15, 0x9f}
    modifies c`csid, c`csmode, c`rxFifo, c`received, c`delivered, c.slaves
    ensures c.slaves == old(c.slaves) && Open(c, k) && OthersKept(c, k) && Untouched(c.slaves[k])
    ensures c.slaves[k].transaction ==
      if opcode == 0x9f then ReadJedecId(0) else ReadStatus(if opcode == 0x05 then 1 else if opcode == 0x35 then 2 else 3)
  {
    hide Controller.Valid, Flash.Valid, Latched, Rest, Flash.Answer;
    BeginUntouched(c, k);
    SendInquiry(c, k, opcode);
  }

  method BeginUntouched(c: Controller, k: nat)
    requires Closed(c, k)
    modifies c`csid, c`csmode, c.slaves
    ensures c.slaves == old(c.slaves) && Open(c, k) && OthersKept(c, k) && Untouched(c.slaves[k])
    ensures c.slaves[k].transaction == Idle
  {
    hide Controller.Valid, Flash.Valid, Latched, Rest;
    Select(c, k);
  }

  method SendInquiry(c: Controller, k: nat, opcode: Byte)
    requires Open(c, k) && c.slaves[k].transaction == Idle && opcode in {0x05, 0x35, 0x15, 0x9f}
    modifies c`rxFifo, c`received, c`delivered, c.slaves
    ensures c.slaves == old(c.slaves) && Open(c, k) && OthersKept(c, k) && Untouched(c.slaves[k])
    ensures c.slaves[k].transaction ==
      if opcode == 0x9f then ReadJedecId(0) else ReadStatus(if opcode == 0x05 then 1 else if opcode == 0x35 then 2 else 3)
  {
    hide Controller.Valid, Flash.Valid, Latched, Rest, Flash.Answer;
    var _ := Exchange(c, k, opcode);
  }

  /** One byte of the answer. */
  method NextAnswer(c: Controller, k: nat) returns (r: Byte)
    requires Open(c, k) && (c.slaves[k].transaction.ReadStatus? || c.slaves[k].transaction.ReadJedecId?)
    modifies c`rxFifo, c`received, c`delivered, c.slaves
    ensures c.slaves == old(c.slaves) && Open(c, k) && OthersKept(c, k) && Untouched(c.slaves[k])
    ensures c.slaves[k].transaction == Next(old(c.slaves[k].transaction), 0, true, true)
    ensures old(c.slaves[k].transaction).ReadStatus? ==>
      r == old(StatusRegister(c.slaves[k], c.slaves[k].transaction.which))
    ensures old(c.slaves[k].transaction).ReadJedecId? ==>
      r == [0xef, 0x40, 0x20][old(c.slaves[k].transaction).index % 3]
  {
    hide Controller.Valid, Flash.Valid, Latched, Rest;
    r := Exchange(c, k, 0);
  }

  method EndInquiry(c: Controller, k: nat)
    requires Open(c, k) && (c.slaves[k].transaction.ReadStatus? || c.slaves[k].transaction.ReadJedecId?)
    modifies c`csmode, c.slaves
    ensures c.slaves == old(c.slaves) && Closed(c, k) && OthersKept(c, k) && Untouched(c.slaves[k])
  {
    hide Controller.Valid, Flash.Valid, Latched, Rest;
    Deselect(c, k);
  }

  /** The opcodes 05, 35 and 15 read the three status registers. */
  method HostReadStatus(c: Controller, k: nat, which: nat) returns (r: Byte)
    requires Closed(c, k) && 1 <= which <= 3
    modifies c`csid, c`csmode, c`rxFifo, c`received, c`delivered, c.slaves
    ensures c.slaves == old(c.slaves) && Closed(c, k) && OthersKept(c, k) && Untouched(c.slaves[k])
    ensures which == 1 ==> Rest(r) == old(Rest(c.slaves[k].status1)) && Latched(r) == old(Latched(c.slaves[k].status1))
    ensures which != 1 ==> r == old(StatusRegister(c.slaves[k], which))
  {
    hide Controller.Valid, Flash.Valid, Latched, Rest, Next;
    Inquire(c, k, if which == 1 then 0x05 else if which == 2 then 0x35 else 0x15);
    NextStatus(which);
    r := NextAnswer(c, k);
    EndInquiry(c, k);
  }

  lemma NextStatus(which: nat)
    ensures Next(ReadStatus(which), 0, true, true) == ReadStatus(which)
  {}

  /** The identification is the manufacturer and device code of the W25Q512JV. */
  method HostReadId(c: Controller, k: nat) returns (out: seq<Byte>)
    requires Closed(c, k)
    modifies c`csid, c`csmode, c`rxFifo, c`received, c`delivered, c.slaves
    ensures c.slaves == old(c.slaves) && Closed(c, k) && OthersKept(c, k) && Untouched(c.slaves[k])
    ensures out == [0xef, 0x40, 0x20]
  {
    hide Controller.Valid, Flash.Valid, Latched, Rest;
    Inquire(c, k, 0x9f);
    var id: seq<Byte> := [0xef, 0x40, 0x20];
    out := [];
    while |out| < 3
      invariant c.slaves == old(c.slaves) && Open(c, k) && OthersKept(c, k) && Untouched(c.slaves[k])
      invariant |out| <= 3 && c.slaves[k].transaction == ReadJedecId(|out|) && out == id[..|out|]
    {
      var byte := NextAnswer(c, k);
      out := out + [byte];
    }
    EndInquiry(c, k);
  }

  /** The parameter table starts with its signature, "SFDP". */
  method HostReadSignature(c: Controller, k: nat) returns (out: seq<Byte>)
    requires Closed(c, k)
    modifies c`csid, c`csmode, c`rxFifo, c`received, c`delivered, c.slaves
    ensures c.slaves == old(c.slaves) && Closed(c, k) && OthersKept(c, k) && Kept(c.slaves[k])
    ensures out == [0x53, 0x46, 0x44, 0x50]
  {
    hide Controller.Valid, Flash.Valid, Latched, Rest, ByteAt;
    StartSfdp(c, k);
    var signature: seq<Byte> := [0x53, 0x46, 0x44, 0x50];
    out := [];
    while |out| < 4
      invariant c.slaves == old(c.slaves) && Open(c, k) && OthersKept(c, k) && Kept(c.slaves[k])
      invariant |out| <= 4 && c.slaves[k].transaction == ReadSfdp(|out|) && out == signature[..|out|]
    {
      var byte := Step(c, k, 0);
      out := out + [byte];
    }
    Deselect(c, k);
  }

  method StartSfdp(c: Controller, k: nat)
    requires Closed(c, k)
    modifies c`csid, c`csmode, c`rxFifo, c`received, c`delivered, c.slaves
    ensures c.slaves == old(c.slaves) && Open(c, k) && OthersKept(c, k) && Kept(c.slaves[k])
    ensures c.slaves[k].transaction == ReadSfdp(0)
  {
    hide Controller.Valid, Flash.Valid, Latched, Rest, ByteAt, AddressOf;
    var zero: seq<Byte> := [0, 0, 0];
    AddressSpelled(zero, 0);
    Begin(c, k);
    var _ := Step(c, k, 0x5a);
    SendAddress(c, k, Sfdp, zero);
    FinishAddress(c, k, Sfdp, zero);
    var _ := Step(c, k, 0);
  }

  /** The opcodes 31 and 11 store one byte in the second or third status register. */
  method HostWriteStatus(c: Controller, k: nat, which: nat, b: Byte)
    requires Closed(c, k) && (which == 2 || which == 3)
    modifies c`csid, c`csmode, c`rxFifo, c`received, c`delivered, c.slaves
    ensures c.slaves == old(c.slaves) && Closed(c, k) && OthersKept(c, k) && Kept(c.slaves[k])
    ensures StatusRegister(c.slaves[k], which) == b && !Latched(c.slaves[k].status1)
  {
    hide Controller.Valid, Flash.Valid, Latched, Rest;
    EnableWrites(c, k);
    Begin(c, k);
    SendStatus(c, k, which, b);
    Deselect(c, k);
  }

  method SendStatus(c: Controller, k: nat, which: nat, b: Byte)
    requires Open(c, k) && c.slaves[k].transaction == Idle && Latched(c.slaves[k].status1) && (which == 2 || which == 3)
    modifies c`rxFifo, c`received, c`delivered, c.slaves
    ensures c.slaves == old(c.slaves) && Open(c, k) && OthersKept(c, k) && Kept(c.slaves[k])
    ensures c.slaves[k].transaction == WriteStatus(if which == 2 then Status2 else Status3, [b])
  {
    hide Controller.Valid, Flash.Valid, Latched;
    SendStatusOpcode(c, k, which);
    SendStatusByte(c, k, b);
  }

  method SendStatusOpcode(c: Controller, k: nat, which: nat)
    requires Open(c, k) && c.slaves[k].transaction == Idle && Latched(c.slaves[k].status1) && (which == 2 || which == 3)
    modifies c`rxFifo, c`received, c`delivered, c.slaves
    ensures c.slaves == old(c.slaves) && Open(c, k) && OthersKept(c, k) && Kept(c.slaves[k])
    ensures c.slaves[k].transaction == WriteStatus(if which == 2 then Status2 else Status3, [])
  {
    hide Controller.Valid, Flash.Valid, Latched, Rest, Flash.Answer;
    var _ := Exchange(c, k, if which == 2 then 0x31 else 0x11);
  }

  method SendStatusByte(c: Controller, k: nat, b: Byte)
    requires Open(c, k) && c.slaves[k].transaction.WriteStatus? && c.slaves[k].transaction.data == []
    modifies c`rxFifo, c`received, c`delivered, c.slaves
    ensures c.slaves == old(c.slaves) && Open(c, k) && OthersKept(c, k) && Kept(c.slaves[k])
    ensures c.slaves[k].transaction == WriteStatus(old(c.slaves[k].transaction).target, [b])
  {
    hide Controller.Valid, Flash.Valid, Latched, Rest, Flash.Answer, AfterOpcode;
    var _ := Exchange(c, k, b);
  }

  /** A status register reads back as written. */
  method StatusRoundTrip(c: Controller, k: nat, which: nat, b: Byte) returns (r: Byte)
    requires Closed(c, k) && (which == 2 || which == 3)
    modifies c`csid, c`csmode, c`rxFifo, c`received, c`delivered, c.slaves
    ensures c.slaves == old(c.slaves) && Closed(c, k) && OthersKept(c, k) && Kept(c.slaves[k]) && r == b
  {
    hide Controller.Valid, Flash.Valid, Latched, Rest;
    HostWriteStatus(c, k, which, b);
    r := HostReadStatus(c, k, which);
  }

  /** Erase, program and read back through the registers: the data comes out as it went in. */
  method EraseProgramRead(c: Controller, k: nat, erase: Byte, program: Byte, read: Byte,
                          address: seq<Byte>, addr: nat, data: seq<Byte>)
    returns (out: seq<Byte>)
    requires Closed(c, k) && IsErase(erase) && IsProgram(program) && IsRead(read) && data != []
    requires forall op :: op in {erase, program, read} ==> |address| == Width(op, c.slaves[k].fourByteMode)
    requires Spells(address, addr) && addr % PAGE + |data| <= PAGE && addr + |data| <= c.slaves[k].capacity < U64
    modifies c`csid, c`csmode, c`rxFifo, c`received, c`delivered, c.slaves
    ensures c.slaves == old(c.slaves) && Closed(c, k) && OthersKept(c, k) && out == data
  {
    hide Controller.Valid, Flash.Valid, Latched, Becomes, BlockSize, Width, IsErase, IsProgram, IsRead, Spells;
    var f := c.slaves[k];
    Roomy(c, k);
    ghost var was := f.image;
    HostErase(c, k, erase, address, addr);
    ghost var erased := f.image;
    HostProgram(c, k, program, address, addr, data);
    ghost var now := f.image;
    out := HostRead(c, k, read, address, addr, |data|);
    Roomy(c, k);
    ReadsBack(was, erased, now, f.capacity, erase, addr, data, out);
  }

  lemma Roomy(c: Controller, k: nat)
    requires Attached(c, k)
    ensures c.slaves[k].capacity <= |c.slaves[k].image|
  {
    hide Replays, Latched, Driven;
  }

  lemma ReadsBack(was: seq<Byte>, erased: seq<Byte>, now: seq<Byte>, capacity: nat, erase: Byte,
                  start: nat, data: seq<Byte>, out: seq<Byte>)
    requires Becomes(was, capacity, Erase(start, BlockSize(erase)), erased)
    requires Becomes(erased, capacity, Program(start, data), now)
    requires start % PAGE + |data| <= PAGE && start + |data| <= capacity <= |was|
    requires |out| == |data| && forall j :: 0 <= j < |data| ==>
      start + j < |now| && out[j] == now[start + j]
    ensures out == data
  {
    hide Becomes;
    forall j | 0 <= j < |data| ensures out[j] == data[j] {
      ProgrammedAfterErase(was, erased, now, capacity, BlockSize(erase), start, data, j);
    }
  }
}
