/** The SPI host controller: chip select, byte transfers and the receive FIFO. */
module SpiController {
  import opened FlashImage
  import opened SpiFlash
  import opened Wrappers

  const HOLD := 2
  const FIFO_DEPTH := 8
  const ENDIAN: bv32 := 0x4
  const DIR: bv32 := 0x8

  /** Whether the chip is selected after a trace; nothing if an edge repeats or an unselected chip is clocked. */
  function Driven(trace: seq<BusEvent>): Option<bool> {
    if trace == [] then Some(false)
    else
      var n := |trace| - 1;
      var before := Driven(trace[..n]);
      match trace[n]
      case Select => if before == Some(false) then Some(true) else None
      case Deselect => if before == Some(true) then Some(false) else None
      case Clock(_) => if before == Some(true) then before else None
  }

  lemma DrivenNext(trace: seq<BusEvent>, e: BusEvent)
    ensures Driven(trace + [e]) ==
      if e == Select then (if Driven(trace) == Some(false) then Some(true) else None)
      else if e == Deselect then (if Driven(trace) == Some(true) then Some(false) else None)
      else if Driven(trace) == Some(true) then Some(true) else None
  {
    assert (trace + [e])[..|trace|] == trace;
  }

  lemma {:induction false} DrivenPrefix(trace: seq<BusEvent>, n: nat)
    requires Driven(trace).Some? && n <= |trace|
    ensures Driven(trace[..n]).Some?
  {
    if n < |trace| {
      DrivenPrefix(trace[..|trace| - 1], n);
      assert trace[..|trace| - 1][..n] == trace[..n];
    } else {
      assert trace[..n] == trace;
    }
  }

  /** A selected chip was selected by an edge with only clocks since; an unselected one never or by a later edge. */
  lemma {:induction false} LastEdge(trace: seq<BusEvent>) returns (k: int)
    requires Driven(trace).Some?
    ensures -1 <= k < |trace| && forall j :: k < j < |trace| ==> trace[j].Clock?
    ensures Driven(trace) == Some(true) ==> k >= 0 && trace[k] == Select
    ensures Driven(trace) == Some(false) ==> k == |trace| - 1 && (k >= 0 ==> trace[k] == Deselect)
  {
    if trace == [] {
      k := -1;
    } else {
      var n := |trace| - 1;
      if trace[n].Clock? {
        k := LastEdge(trace[..n]);
        assert forall j :: k < j < n ==> trace[..n][j] == trace[j];
      } else {
        k := n;
      }
    }
  }

  /** Edges alternate: a chip selected twice was deselected in between. */
  lemma EdgesAlternate(trace: seq<BusEvent>, i: nat, j: nat)
    requires Driven(trace).Some? && i < j < |trace| && trace[i] == Select && trace[j] == Select
    ensures exists k :: i < k < j && trace[k] == Deselect
  {
    DrivenPrefix(trace, j + 1);
    assert trace[..j + 1][..j] == trace[..j];
    var k := LastEdge(trace[..j]);
    assert trace[..j][k] == trace[k];
  }

  /** A byte is clocked into a chip only between its select and its deselect edge. */
  lemma ClockedWhileSelected(trace: seq<BusEvent>, i: nat)
    requires Driven(trace).Some? && i < |trace| && trace[i].Clock?
    ensures exists k :: 0 <= k < i && trace[k] == Select && forall j :: k < j < i ==> trace[j].Clock?
  {
    DrivenPrefix(trace, i + 1);
    assert trace[..i + 1][..i] == trace[..i];
    var k := LastEdge(trace[..i]);
    assert trace[..i][k] == trace[k];
    assert forall j :: k < j < i ==> trace[..i][j] == trace[j];
  }

  /** The bits in the opposite order. */
  function Reversed(b: Byte): Byte {
    var x := ((b & 0xf0) >> 4) | ((b & 0x0f) << 4);
    var y := ((x & 0xcc) >> 2) | ((x & 0x33) << 2);
    ((y & 0xaa) >> 1) | ((y & 0x55) << 1)
  }

  lemma ReversedTwice(b: Byte)
    ensures Reversed(Reversed(b)) == b
  {}

  class Controller {
    var csid: nat
    var csmode: nat
    var lsbFirst: bool
    var rxEnabled: bool
    var rxFifo: seq<Byte>
    var slaves: seq<Flash?>
    ghost var received: seq<Byte>
    ghost var delivered: seq<Byte>

    ghost predicate Valid()
      reads this, slaves
    {
      && Distinct(slaves) && |rxFifo| <= FIFO_DEPTH
      && received == delivered + rxFifo
      && forall i :: 0 <= i < |slaves| && slaves[i] != null ==>
           slaves[i].Valid() && Driven(slaves[i].trace) == Some(SelectedChip() == Some(i))
    }

    constructor (chips: nat)
      ensures Valid() && slaves == seq(chips, _ => null) && rxFifo == []
    {
      csid, csmode, lsbFirst, rxEnabled := 0, 0, false, true;
      slaves := seq(chips, _ => null);
      rxFifo, received, delivered := [], [], [];
    }

    function SelectedChip(): Option<nat>
      reads this
    {
      if csmode == HOLD && csid < |slaves| then Some(csid) else None
    }

    /** The chip at a selection, if there is one. */
    function ChipAt(selected: Option<nat>): Flash?
      requires selected.Some? ==> selected.value < |slaves|
      reads this
    {
      if selected.Some? then slaves[selected.value] else null
    }

    /** Deselect the old chip, then select the new one. */
    method UpdateSelectedChip(was: Option<nat>, now: Option<nat>)
      requires Distinct(slaves) && now == SelectedChip()
      requires was.Some? ==> was.value < |slaves|
      requires forall i :: 0 <= i < |slaves| && slaves[i] != null ==>
        slaves[i].Valid() && Driven(slaves[i].trace) == Some(was == Some(i))
      modifies slaves
      ensures forall i :: 0 <= i < |slaves| && slaves[i] != null ==>
        slaves[i].Valid() && Driven(slaves[i].trace) == Some(now == Some(i))
      ensures forall i :: 0 <= i < |slaves| && slaves[i] != null && (was == now || (was != Some(i) && now != Some(i))) ==>
        unchanged(slaves[i])
      ensures was != now && ChipAt(was) != null ==> ChipAt(was).Edged(false)
      ensures was != now && ChipAt(now) != null ==> ChipAt(now).Edged(true)
    {
      hide Flash.Valid, Driven, Committed;
      if was == now {
        return;
      }
      if was.Some? && slaves[was.value] != null {
        var old_ := slaves[was.value];
        DrivenNext(old_.trace, Deselect);
        old_.SetSelected(false);
      }
      if now.Some? && slaves[now.value] != null {
        var new_ := slaves[now.value];
        DrivenNext(new_.trace, Select);
        new_.SetSelected(true);
      }
    }

    method SetCsid(value: nat)
      requires Valid()
      modifies this`csid, slaves
      ensures Valid() && csid == if value < |slaves| then value else if |slaves| == 0 then 0 else |slaves| - 1
      ensures forall i :: 0 <= i < |slaves| && slaves[i] != null && Untouched(i, old(SelectedChip())) ==> unchanged(slaves[i])
    {
      hide Flash.Valid, Driven, Committed;
      var was := SelectedChip();
      csid := if value < |slaves| then value else if |slaves| == 0 then 0 else |slaves| - 1;
      UpdateSelectedChip(was, SelectedChip());
    }

    /** The chip's selection is the same as before. */
    predicate Untouched(i: nat, was: Option<nat>)
      reads this
    {
      SelectedChip() == was || (was != Some(i) && SelectedChip() != Some(i))
    }

    method SetCsmode(value: nat)
      requires Valid()
      modifies this`csmode, slaves
      ensures Valid() && csmode == value % 4
      ensures forall i :: 0 <= i < |slaves| && slaves[i] != null && Untouched(i, old(SelectedChip())) ==> unchanged(slaves[i])
      ensures old(SelectedChip()) != SelectedChip() && old(ChipAt(SelectedChip())) != null ==>
        old(ChipAt(SelectedChip())).Edged(false)
      ensures old(SelectedChip()) != SelectedChip() && ChipAt(SelectedChip()) != null ==>
        ChipAt(SelectedChip()).Edged(true)
    {
      hide Flash.Valid, Driven, Committed;
      var was := SelectedChip();
      csmode := value % 4;
      UpdateSelectedChip(was, SelectedChip());
    }

    /** The frame format register: bit order, and whether what a chip answers is received. */
    method SetFmt(value: bv32)
      requires Valid()
      modifies this`lsbFirst, this`rxEnabled
      ensures Valid() && lsbFirst == (value & ENDIAN != 0) && rxEnabled == (value & DIR == 0)
    {
      hide Flash.Valid, Driven;
      lsbFirst, rxEnabled := value & ENDIAN != 0, value & DIR == 0;
    }

    /** A byte in the configured bit order. */
    function InOrder(b: Byte): Byte
      reads this
    {
      if lsbFirst then Reversed(b) else b
    }

    /** Clock one byte through the selected chip, and no other. */
    method Shift(k: nat, tx: Byte) returns (rx: Byte)
      requires Valid() && SelectedChip() == Some(k) && slaves[k] != null
      modifies slaves
      ensures Valid() && slaves[k].Clocked(tx) && slaves[k].trace == old(slaves[k].trace) + [Clock(tx)]
      ensures forall i :: 0 <= i < |slaves| && slaves[i] != null && i != k ==> unchanged(slaves[i])
      ensures rx == old(slaves[k].Answer(slaves[k].transaction))
    {
      hide Flash.Clocked, ByteAt, Driven;
      DrivenNext(slaves[k].trace, Clock(tx));
      rx := slaves[k].Transfer(tx);
    }

    /** A received byte is buffered unless reception is off or the FIFO is full. */
    method Receive(rx: Byte)
      requires Valid()
      modifies this`rxFifo, this`received
      ensures Valid()
      ensures rxFifo == old(rxFifo) + if rxEnabled && |old(rxFifo)| < FIFO_DEPTH then [InOrder(rx)] else []
    {
      hide Flash.Valid, Driven, Reversed;
      if rxEnabled && |rxFifo| < FIFO_DEPTH {
        rxFifo, received := rxFifo + [InOrder(rx)], received + [InOrder(rx)];
      }
    }

    /** A byte written to the transmit register: without a selected chip nothing happens. */
    method TransferByte(value: Byte) returns (ghost miso: Byte)
      requires Valid()
      modifies this`rxFifo, this`received, slaves
      ensures Valid()
      ensures forall i :: 0 <= i < |slaves| && slaves[i] != null && SelectedChip() != Some(i) ==> unchanged(slaves[i])
      ensures ChipAt(SelectedChip()) == null ==> rxFifo == old(rxFifo)
      ensures ChipAt(SelectedChip()) != null ==>
        Exchanged(ChipAt(SelectedChip()), InOrder(value), miso) &&
        rxFifo == old(rxFifo) + if rxEnabled && |old(rxFifo)| < FIFO_DEPTH then [InOrder(miso)] else []
    {
      hide Flash.Clocked, Flash.Valid, ByteAt, Driven, Reversed;
      miso := 0;
      if SelectedChip().None? || slaves[SelectedChip().value] == null {
        return;
      }
      var rx := Shift(SelectedChip().value, InOrder(value));
      miso := rx;
      Receive(rx);
    }

    /** The chip was clocked with one byte and shifted out the answer that was due. */
    twostate predicate Exchanged(chip: Flash, mosi: Byte, miso: Byte)
      reads chip
    {
      && chip.Clocked(mosi) && chip.trace == old(chip.trace) + [Clock(mosi)]
      && miso == old(chip.Answer(chip.transaction))
    }

    /** Bytes come out in the order in which they were received. */
    method ReadRxData() returns (r: Option<Byte>)
      requires Valid()
      modifies this`rxFifo, this`delivered
      ensures Valid() && (r.None? <==> old(rxFifo) == [])
      ensures r.Some? ==> old(rxFifo) == [r.value] + rxFifo
      ensures r.None? ==> rxFifo == []
      ensures delivered == if r.Some? then old(delivered) + [r.value] else old(delivered)
    {
      if rxFifo == [] {
        return None;
      }
      r := Some(rxFifo[0]);
      delivered := delivered + [rxFifo[0]];
      rxFifo := rxFifo[1..];
    }

    /** A free slot takes a new chip, which sees its select edge if the slot is the selected one. */
    method AttachSlave(chip: nat, device: Flash) returns (ok: bool)
      requires Valid() && device.Valid() && device.trace == [] && device !in slaves
      modifies this`slaves, device
      ensures Valid() && ok == (chip < |old(slaves)| && old(slaves)[chip] == null)
      ensures slaves == if ok then old(slaves)[chip := device] else old(slaves)
    {
      if chip >= |slaves| || slaves[chip] != null {
        return false;
      }
      slaves := slaves[chip := device];
      if SelectedChip() == Some(chip) {
        DrivenNext(device.trace, Select);
        device.SetSelected(true);
      }
      ok := true;
    }
  }

  predicate Distinct(slaves: seq<Flash?>) {
    forall i, j :: 0 <= i < j < |slaves| && slaves[i] != null ==> slaves[i] != slaves[j]
  }
}
