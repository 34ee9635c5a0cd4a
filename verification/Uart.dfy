/** The UART: a byte channel from the host, one receive buffer, and interrupt causes. */
module Uart {
  import opened Wrappers

  datatype Byte = Byte(bits: bv8)

  const INPUT_CAPACITY := 1024

  const RBR := 0
  const IER := 1
  const IIR := 2
  const FCR := 2
  const LCR := 3
  const MCR := 4
  const LSR := 5
  const MSR := 6
  const SCR := 7

  datatype Reason = ModemStatus | TransmitterEmpty | DataAvailable | LineStatus

  /** The interrupt identification register; without a cause its reason field reads zero. */
  datatype Identification = Identification(fifo: bool, cause: Option<Reason>)

  datatype Causes = Causes(modem: bool, transmitter: bool, data: bool, line: bool)

  predicate Set(r: Byte, mask: bv8) { r.bits & mask != 0 }

  /** Data-ready is bit 0 of the line status, its error bits are 1 to 4 and 7. */
  predicate Ready(lsr: Byte) { Set(lsr, 0x01) }

  function WithReady(lsr: Byte, on: bool): (r: Byte)
    ensures Ready(r) == on
  {
    Byte(if on then lsr.bits | 0x01 else lsr.bits & 0xfe)
  }

  function WithoutErrors(lsr: Byte): (r: Byte)
    ensures Ready(r) == Ready(lsr)
  {
    Byte(lsr.bits & 0x61)
  }

  function WithoutDeltas(msr: Byte): Byte { Byte(msr.bits & 0xf0) }

  function WithTransmitterEmpty(lsr: Byte): (r: Byte)
    ensures Ready(r) == Ready(lsr)
  {
    Byte(lsr.bits | 0x60)
  }

  /** Which bits these changes touch: data-ready, the error bits 1 to 4 and 7, the deltas, the two transmitter bits. */
  lemma StatusBits(b: Byte, on: bool)
    ensures WithReady(b, on).bits & 0xfe == b.bits & 0xfe
    ensures WithoutErrors(b).bits & 0x61 == b.bits & 0x61 && WithoutErrors(b).bits & 0x9e == 0
    ensures WithoutDeltas(b).bits & 0xf0 == b.bits & 0xf0 && WithoutDeltas(b).bits & 0x0f == 0
    ensures WithTransmitterEmpty(b).bits & 0x9f == b.bits & 0x9f && WithTransmitterEmpty(b).bits & 0x60 == 0x60
  {}

  /** The interrupt state: line status, modem status and the pending events. */
  datatype Status = Status(lsr: Byte, msr: Byte, ip: Causes) {
    predicate Present(r: Reason) {
      match r
      case ModemStatus => ip.modem || Set(msr, 0x0f)
      case TransmitterEmpty => ip.transmitter
      case DataAvailable => ip.data
      case LineStatus => ip.line || Set(lsr, 0x1e)
    }

    /** What reading the register that acknowledges a cause leaves. */
    function Without(r: Reason): Status {
      match r
      case ModemStatus => Status(lsr, WithoutDeltas(msr), ip.(modem := false))
      case TransmitterEmpty => Status(lsr, msr, ip.(transmitter := false))
      case DataAvailable => Status(WithReady(lsr, false), msr, ip.(data := false))
      case LineStatus => Status(WithoutErrors(lsr), msr, ip.(line := false))
    }

    /** What a store to the FIFO control register leaves: bit 1 resets the receiver, bit 2 the transmitter. */
    function AfterControl(control: Byte): Status {
      var received := if Set(control, 0x02) then WithoutErrors(WithReady(lsr, false)) else lsr;
      Status(if Set(control, 0x04) then WithTransmitterEmpty(received) else received, msr,
             Causes(ip.modem, ip.transmitter || Set(control, 0x04), ip.data && !Set(control, 0x02), ip.line && !Set(control, 0x02)))
    }
  }

  predicate Enabled(ier: Byte, r: Reason) {
    match r
    case ModemStatus => Set(ier, 0x08)
    case TransmitterEmpty => Set(ier, 0x02)
    case DataAvailable => Set(ier, 0x01)
    case LineStatus => Set(ier, 0x04)
  }

  /** The 16550 priority of a cause, which is also its code in the identification register. */
  function Rank(r: Reason): nat {
    match r
    case ModemStatus => 0
    case TransmitterEmpty => 1
    case DataAvailable => 2
    case LineStatus => 3
  }

  /** `c` is the enabled and present cause of the highest rank, or there is none. */
  ghost predicate Highest(ier: Byte, s: Status, c: Option<Reason>) {
    match c
    case None => forall r: Reason :: Enabled(ier, r) ==> !s.Present(r)
    case Some(top) =>
      && Enabled(ier, top) && s.Present(top)
      && forall r: Reason :: Enabled(ier, r) && s.Present(r) ==> Rank(r) <= Rank(top)
  }

  function Identify(ier: Byte, s: Status): Option<Reason> {
    if Set(ier, 0x04) && (s.ip.line || Set(s.lsr, 0x1e)) then Some(LineStatus)
    else if Set(ier, 0x01) && s.ip.data then Some(DataAvailable)
    else if Set(ier, 0x02) && s.ip.transmitter then Some(TransmitterEmpty)
    else if Set(ier, 0x08) && (s.ip.modem || Set(s.msr, 0x0f)) then Some(ModemStatus)
    else None
  }

  /** The chain of tests finds the highest cause and nothing else. */
  lemma IdentifyIff(ier: Byte, s: Status, c: Option<Reason>)
    ensures Identify(ier, s) == c <==> Highest(ier, s, c)
  {
    hide Set;
    assert Highest(ier, s, Identify(ier, s));
    if Highest(ier, s, c) && c.Some? && Identify(ier, s).Some? {
      assert Rank(c.value) == Rank(Identify(ier, s).value);
    }
  }

  /** Acknowledging a cause removes it and no other. */
  lemma AcknowledgeOnly(s: Status, c: Reason, r: Reason)
    ensures s.Without(c).Present(r) <==> r != c && s.Present(r)
  {
    BitsApart(s.lsr);
    BitsApart(s.msr);
  }

  lemma BitsApart(b: Byte)
    ensures Set(WithReady(b, false), 0x1e) == Set(b, 0x1e)
    ensures !Set(WithoutErrors(b), 0x1e) && !Set(WithoutDeltas(b), 0x0f)
  {
    assert b.bits & 0xfe & 0x1e == b.bits & 0x1e;
    assert b.bits & 0x61 & 0x1e == 0 && b.bits & 0xf0 & 0x0f == 0;
  }

  /** The register as read: FIFO bits, the reason in bits 1 to 3, and bit 0 set when nothing is pending. */
  function IdentificationByte(i: Identification): Byte {
    var fifo: bv8 := if i.fifo then 0xc0 else 0x00;
    match i.cause
    case None => Byte(fifo | 0x01)
    case Some(ModemStatus) => Byte(fifo)
    case Some(TransmitterEmpty) => Byte(fifo | 0x02)
    case Some(DataAvailable) => Byte(fifo | 0x04)
    case Some(LineStatus) => Byte(fifo | 0x06)
  }

  /** Bit 0 says that nothing is pending, bits 1 to 3 hold the rank of the cause, and bits 6 and 7 show the FIFO. */
  lemma IdentificationBits(i: Identification)
    ensures
      var b := IdentificationByte(i).bits;
      && (b & 0x01 == if i.cause.None? then 1 else 0)
      && (b & 0xc0 == if i.fifo then 0xc0 else 0)
      && (i.cause.Some? ==> b & 0x3e == [0x00, 0x02, 0x04, 0x06][Rank(i.cause.value)])
  {}

  function Held(lsr: Byte, rbr: Byte): seq<Byte> { if Ready(lsr) then [rbr] else [] }

  /** All accepted input is what was delivered, then the held byte, then what waits in the channel. */
  predicate Conserved(accepted: seq<Byte>, delivered: seq<Byte>, lsr: Byte, rbr: Byte, input: seq<Byte>) {
    accepted == delivered + Held(lsr, rbr) + input
  }

  /** Storing the line status register keeps the books exactly when it keeps data-ready. */
  lemma LineStatusStoreIff(accepted: seq<Byte>, delivered: seq<Byte>, lsr: Byte, to: Byte, rbr: Byte, input: seq<Byte>)
    requires Conserved(accepted, delivered, lsr, rbr, input)
    ensures Conserved(accepted, delivered, to, rbr, input) <==> Ready(to) == Ready(lsr)
  {
    hide Ready;
    assert |accepted| == |delivered| + |Held(lsr, rbr)| + |input|;
  }

  /** Clearing data-ready by a store loses the held byte, and setting it invents one. */
  lemma LineStatusStoreFails(b: Byte)
    ensures Conserved([b], [], Byte(0x61), b, []) && !Conserved([b], [], Byte(0x60), b, [])
    ensures Conserved([], [], Byte(0x60), b, []) && !Conserved([], [], Byte(0x61), b, [])
  {
    LineStatusStoreIff([b], [], Byte(0x61), Byte(0x60), b, []);
    LineStatusStoreIff([], [], Byte(0x60), Byte(0x61), b, []);
  }

  /** The registers that reading or receiving never changes. */
  datatype Settings = Settings(thr: Byte, ier: Byte, fcr: Byte, lcr: Byte, mcr: Byte, scr: Byte, dll: Byte, dlh: Byte) {
    predicate Latched() { Set(lcr, 0x80) }

    /** A store of one byte: offsets 0 and 1 reach the divisor while the latch bit is set. */
    function Stored(i: nat, value: Byte): Settings {
      if i == 0 then (if Latched() then this.(dll := value) else this.(thr := value))
      else if i == 1 then (if Latched() then this.(dlh := value) else this.(ier := value))
      else if i == FCR then this.(fcr := value)
      else if i == LCR then this.(lcr := value)
      else if i == MCR then this.(mcr := value)
      else if i == SCR then this.(scr := value)
      else this
    }

    /** Stores of consecutive bytes. */
    function StoredAll(offset: nat, data: seq<Byte>, n: nat): Settings
      requires n <= |data|
    {
      if n == 0 then this else StoredAll(offset, data, n - 1).Stored(offset + n - 1, data[n - 1])
    }

    /** What an offset reads that shows a setting. */
    function Shown(i: nat): Option<Byte> {
      if i == 0 then (if Latched() then Some(dll) else None)
      else if i == 1 then Some(if Latched() then dlh else ier)
      else if i == LCR then Some(lcr)
      else if i == MCR then Some(mcr)
      else if i == SCR then Some(scr)
      else None
    }
  }

  /** A stored setting reads back as written and no other setting changes with it; storing the latch bit is apart. */
  lemma SettingReadBack(s: Settings, i: nat, j: nat, value: Byte)
    requires i < 8 && j < 8 && s.Shown(i).Some? && i != LCR
    ensures s.Stored(i, value).Shown(j) == if j == i then Some(value) else s.Shown(j)
  {}

  /** Bit 7 of the line control register sends offsets 0 and 1 to the divisor, and clearing it sends them back. */
  lemma DivisorLatch(s: Settings, lcr: Byte, b: Byte)
    ensures
      var t := s.Stored(3, lcr);
      if lcr.bits & 0x80 != 0
      then t.Stored(0, b) == t.(dll := b) && t.Stored(1, b) == t.(dlh := b)
      else t.Stored(0, b) == t.(thr := b) && t.Stored(1, b) == t.(ier := b)
  {}

  lemma StoredElsewhere(s: Settings, i: nat, value: Byte)
    ensures i != LCR ==> s.Stored(i, value).Latched() == s.Latched()
    ensures i == FCR ==> s.Stored(i, value).fcr == value
  {}

  class Device {
    var rbr: Byte
    var thr: Byte
    var ier: Byte
    var iir: Identification
    var fcr: Byte
    var lcr: Byte
    var mcr: Byte
    var lsr: Byte
    var msr: Byte
    var scr: Byte
    var dll: Byte
    var dlh: Byte
    var ip: Causes
    var input: seq<Byte>
    var output: seq<Byte>
    /** Input accepted and bytes delivered since the last receiver reset. */
    ghost var accepted: seq<Byte>
    ghost var delivered: seq<Byte>
    /** No store to the line status register has changed data-ready since the last receiver reset. */
    ghost var intact: bool

    ghost predicate Valid()
      reads this
    {
      && |input| <= INPUT_CAPACITY
      && (intact ==> Conserved(accepted, delivered, lsr, rbr, input) && ip.data == Ready(lsr))
    }

    function View(): Settings
      reads this
    {
      Settings(thr, ier, fcr, lcr, mcr, scr, dll, dlh)
    }

    function Current(): Status
      reads this
    {
      Status(lsr, msr, ip)
    }

    predicate Latched()
      reads this
    {
      View().Latched()
    }

    constructor ()
      ensures Valid() && intact && input == [] && output == [] && accepted == [] && delivered == []
      ensures View() == Settings(Byte(0), Byte(0), Byte(0xc0), Byte(0x03), Byte(0), Byte(0), Byte(1), Byte(0))
      ensures Current() == Status(Byte(0x60), Byte(0), Causes(false, true, false, false))
      ensures iir == Identification(false, None) && rbr == Byte(0)
    {
      rbr, thr, ier, iir, fcr, lcr := Byte(0), Byte(0), Byte(0), Identification(false, None), Byte(0xc0), Byte(0x03);
      mcr, lsr, msr, scr, dll, dlh := Byte(0), Byte(0x60), Byte(0), Byte(0), Byte(1), Byte(0);
      ip := Causes(false, true, false, false);
      input, output := [], [];
      accepted, delivered, intact := [], [], true;
    }

    /** The host offers bytes; the channel takes as many as fit. */
    method PushInput(bytes: seq<Byte>) returns (n: nat)
      requires Valid()
      modifies this`input, this`accepted
      ensures Valid() && n <= |bytes|
      ensures n == |bytes| || |input| == INPUT_CAPACITY
      ensures input == old(input) + bytes[..n] && accepted == old(accepted) + bytes[..n]
    {
      hide Ready;
      n := 0;
      while n < |bytes| && |input| < INPUT_CAPACITY
        invariant n <= |bytes| && Valid()
        invariant input == old(input) + bytes[..n] && accepted == old(accepted) + bytes[..n]
      {
        input, accepted := input + [bytes[n]], accepted + [bytes[n]];
        n := n + 1;
      }
    }

    method UpdateIir()
      modifies this`iir
      ensures old(Valid()) ==> Valid()
      ensures iir == Identification(Set(fcr, 0x01), Identify(ier, Current()))
    {
      hide Set;
      iir := Identification(Set(fcr, 0x01), None);
      if Set(ier, 0x04) && (ip.line || Set(lsr, 0x1e)) {
        iir := iir.(cause := Some(LineStatus));
      } else if Set(ier, 0x01) && ip.data {
        iir := iir.(cause := Some(DataAvailable));
      } else if Set(ier, 0x02) && ip.transmitter {
        iir := iir.(cause := Some(TransmitterEmpty));
      } else if Set(ier, 0x08) && (ip.modem || Set(msr, 0x0f)) {
        iir := iir.(cause := Some(ModemStatus));
      }
    }

    /** Fill an empty receive buffer from the channel: afterwards data waits only behind a ready byte. */
    method UpdateRxStatus()
      requires Valid()
      modifies this`rbr, this`lsr, this`ip, this`input
      ensures Valid() && (Ready(lsr) || input == [])
      ensures Held(lsr, rbr) + input == Held(old(lsr), old(rbr)) + old(input)
      ensures old(Ready(lsr)) || old(input) == [] ==> rbr == old(rbr) && lsr == old(lsr) && ip == old(ip) && input == old(input)
      ensures !old(Ready(lsr)) && old(input) != [] ==>
        && lsr == WithReady(old(lsr), true) && ip == old(ip).(data := true)
        && rbr == old(input)[0] && input == old(input)[1..]
    {
      hide Ready, WithReady;
      if !Ready(lsr) && input != [] {
        rbr, input := input[0], input[1..];
        lsr := WithReady(lsr, true);
        ip := ip.(data := true);
      }
    }

    /** The host channel is polled before and after an access. */
    method Poll()
      requires Valid()
      modifies this`rbr, this`lsr, this`ip, this`input, this`iir
      ensures Valid() && (Ready(lsr) || input == [])
      ensures Held(lsr, rbr) + input == Held(old(lsr), old(rbr)) + old(input)
      ensures old(Ready(lsr)) || old(input) != [] ==> Ready(lsr)
      ensures old(Ready(lsr)) || old(input) == [] ==> Current() == old(Current()) && rbr == old(rbr) && input == old(input)
      ensures !old(Ready(lsr)) && old(input) != [] ==>
        && Current() == Status(WithReady(old(lsr), true), msr, old(ip).(data := true))
        && rbr == old(input)[0] && input == old(input)[1..]
      ensures iir == Identification(Set(fcr, 0x01), Identify(ier, Current()))
    {
      hide Ready, Set, Identify, WithReady, Conserved, Held;
      UpdateRxStatus();
      UpdateIir();
    }

    /** The interrupt line: some enabled cause is present. */
    method IrqLevel() returns (level: bool)
      requires Valid()
      modifies this`rbr, this`lsr, this`ip, this`input, this`iir
      ensures Valid() && (level <==> exists r: Reason :: Enabled(ier, r) && Current().Present(r))
      ensures intact && Set(ier, 0x01) && (old(Ready(lsr)) || old(input) != []) ==> level
      ensures old(Ready(lsr)) || old(input) == [] ==> Current() == old(Current()) && rbr == old(rbr) && input == old(input)
      ensures !old(Ready(lsr)) && old(input) != [] ==>
        && Current() == Status(WithReady(old(lsr), true), msr, old(ip).(data := true))
        && rbr == old(input)[0] && input == old(input)[1..]
      ensures iir == Identification(Set(fcr, 0x01), Identify(ier, Current()))
    {
      hide Ready, Set;
      Poll();
      IdentifyIff(ier, Current(), iir.cause);
      level := iir.cause.Some?;
      if intact && Set(ier, 0x01) && Ready(lsr) { assert Enabled(ier, DataAvailable) && Current().Present(DataAvailable); }
    }

    /** The value of one register byte. */
    function Register(i: nat): Byte
      requires i < 8
      reads this
    {
      if i == 0 then (if Latched() then dll else rbr)
      else if i == 1 then (if Latched() then dlh else ier)
      else if i == 2 then IdentificationByte(iir)
      else if i == 3 then lcr
      else if i == 4 then mcr
      else if i == 5 then lsr
      else if i == 6 then msr
      else scr
    }

    lemma ShownRegister(i: nat)
      requires i < 8
      ensures View().Shown(i).Some? ==> Register(i) == View().Shown(i).value
      ensures i == RBR && !Latched() ==> Register(i) == rbr
      ensures i == LSR ==> Register(i) == lsr
    {}

    /** Reading this register takes the held byte. */
    predicate Takes(i: nat)
      reads this
    {
      i == RBR && !Latched()
    }

    /** The cause that reading a register acknowledges; the transmitter's only while it is identified. */
    function Acknowledges(i: nat): Option<Reason>
      reads this
    {
      if Takes(i) then Some(DataAvailable)
      else if i == LSR then Some(LineStatus)
      else if i == MSR then Some(ModemStatus)
      else if i == IIR && iir.cause == Some(TransmitterEmpty) then Some(TransmitterEmpty)
      else None
    }

    /** Reading one register, with what the read clears. */
    method ReadByte(i: nat) returns (value: Byte)
      requires Valid() && i < 8
      modifies this`lsr, this`msr, this`ip, this`iir, this`delivered
      ensures Valid()
      ensures value == old(Register(i))
      ensures delivered == old(delivered) + if Takes(i) then old(Held(lsr, rbr)) else []
      ensures Current() ==
        var c := old(Acknowledges(i));
        if c.Some? then old(Current()).Without(c.value) else old(Current())
      ensures iir == if old(Acknowledges(i)) == Some(TransmitterEmpty)
                     then Identification(Set(fcr, 0x01), Identify(ier, Current())) else old(iir)
    {
      hide Set, WithReady, WithoutErrors, WithoutDeltas, IdentificationByte, Identify, Ready;
      if !Latched() && i == RBR {
        delivered := delivered + Held(lsr, rbr);
        lsr := WithReady(lsr, false);
        ip := ip.(data := false);
      }
      value := Register(i);
      if i == LSR {
        lsr := WithoutErrors(lsr);
        ip := ip.(line := false);
      } else if i == MSR {
        msr := WithoutDeltas(msr);
        ip := ip.(modem := false);
      }
      if i == IIR && iir.cause == Some(TransmitterEmpty) {
        ip := ip.(transmitter := false);
        UpdateIir();
      }
    }

    /**
     * A read of `len` consecutive registers. The held byte is delivered when the receive buffer is
     * read, in arrival order, and nothing is lost.
     */
    method Read(offset: nat, len: nat) returns (data: seq<Byte>)
      requires Valid() && offset + len <= 8
      modifies this
      ensures Valid() && intact == old(intact) && accepted == old(accepted) && output == old(output)
      ensures |data| == len && (Ready(lsr) || input == []) && View() == old(View())
      ensures forall j :: 0 <= j < len && old(View()).Shown(offset + j).Some? ==> data[j] == old(View()).Shown(offset + j).value
      ensures RBR < offset <= LSR < offset + len ==> Ready(data[LSR - offset]) == old(Held(lsr, rbr) + input != [])
      ensures
        var waiting := old(Held(lsr, rbr) + input);
        if offset == RBR && len > 0 && !old(Latched()) && waiting != []
        then delivered == old(delivered) + [waiting[0]] && data[0] == waiting[0]
        else delivered == old(delivered)
    {
      hide Ready, Set, Settings.Shown, Settings.Latched, Conserved, Identify, WithReady;
      Poll();
      data := ReadBytes(offset, len);
      Poll();
    }

    method ReadBytes(offset: nat, len: nat) returns (data: seq<Byte>)
      requires Valid() && offset + len <= 8
      modifies this`lsr, this`msr, this`ip, this`iir, this`delivered
      ensures Valid() && |data| == len
      ensures forall j :: 0 <= j < len && View().Shown(offset + j).Some? ==> data[j] == View().Shown(offset + j).value
      ensures RBR < offset <= LSR < offset + len ==> Ready(data[LSR - offset]) == old(Ready(lsr))
      ensures
        if offset == RBR && len > 0 && !Latched()
        then !Ready(lsr) && data[0] == rbr && delivered == old(delivered + Held(lsr, rbr))
        else delivered == old(delivered) && Ready(lsr) == old(Ready(lsr))
    {
      hide Ready, Set, Settings.Shown, Identify, WithReady, WithoutErrors, Conserved, Register;
      data := [];
      while |data| < len
        invariant |data| <= len && Valid()
        invariant forall j :: 0 <= j < |data| && View().Shown(offset + j).Some? ==> data[j] == View().Shown(offset + j).value
        invariant RBR < offset <= LSR < offset + |data| ==> Ready(data[LSR - offset]) == old(Ready(lsr))
        invariant
          if offset == RBR && |data| > 0 && !Latched()
          then !Ready(lsr) && data[0] == rbr && delivered == old(delivered + Held(lsr, rbr))
          else delivered == old(delivered) && Ready(lsr) == old(Ready(lsr))
      {
        ShownRegister(offset + |data|);
        var value := ReadByte(offset + |data|);
        data := data + [value];
      }
    }

    /** Storing one register byte, without its effects. */
    method StoreRegister(i: nat, value: Byte)
      requires Valid() && i < 8
      modifies this`thr, this`dll, this`ier, this`dlh, this`fcr, this`lcr, this`mcr, this`lsr, this`msr, this`scr, this`intact
      ensures Valid() && View() == old(View()).Stored(i, value)
      ensures lsr == (if i == LSR then value else old(lsr)) && msr == if i == MSR then value else old(msr)
      ensures intact == (old(intact) && (i == LSR ==> Ready(value) == old(Ready(lsr))))
    {
      hide Set, Ready;
      if i == 0 {
        if Latched() { dll := value; } else { thr := value; }
      } else if i == 1 {
        if Latched() { dlh := value; } else { ier := value; }
      } else if i == FCR {
        fcr := value;
      } else if i == LCR {
        lcr := value;
      } else if i == MCR {
        mcr := value;
      } else if i == LSR {
        intact := intact && Ready(value) == Ready(lsr);
        lsr := value;
      } else if i == MSR {
        msr := value;
      } else {
        scr := value;
      }
    }

    /** The receiver reset discards all pending input and starts the books afresh. */
    method ResetFifos(control: Byte)
      requires Valid()
      modifies this`input, this`rbr, this`lsr, this`ip, this`accepted, this`delivered, this`intact
      ensures Valid()
      ensures Set(control, 0x02) ==> intact && input == [] && !Ready(lsr) && accepted == [] && delivered == []
      ensures !Set(control, 0x02) ==>
        intact == old(intact) && accepted == old(accepted) && delivered == old(delivered) &&
        input == old(input) && rbr == old(rbr)
      ensures Current() == old(Current()).AfterControl(control)
    {
      hide Set, Ready, WithReady, WithoutErrors, WithTransmitterEmpty;
      if Set(control, 0x02) {
        while input != []
          invariant lsr == old(lsr) && ip == old(ip)
          decreases |input|
        {
          input := input[1..];
        }
        rbr := Byte(0);
        lsr := WithoutErrors(WithReady(lsr, false));
        ip := ip.(data := false, line := false);
        accepted, delivered, intact := [], [], true;
      }
      if Set(control, 0x04) {
        lsr := WithTransmitterEmpty(lsr);
        ip := ip.(transmitter := true);
      }
    }

    /** Whether storing `value` at register `i` resets the receiver, or changes data-ready behind its back. */
    predicate Resets(i: nat, value: Byte) { i == FCR && Set(value, 0x02) }

    predicate Disturbs(i: nat, value: Byte)
      reads this
    {
      i == LSR && Ready(value) != Ready(lsr)
    }

    /** Storing one register byte, and the resets the FIFO control register asks for. */
    method StoreAndReset(i: nat, value: Byte)
      requires Valid() && i < 8
      modifies this`thr, this`dll, this`ier, this`dlh, this`fcr, this`lcr, this`mcr, this`lsr, this`msr, this`scr
      modifies this`input, this`rbr, this`ip, this`accepted, this`delivered, this`intact
      ensures Valid() && View() == old(View()).Stored(i, value)
      ensures !Resets(i, value) ==> accepted == old(accepted) && delivered == old(delivered) && input == old(input)
      ensures Resets(i, value) ==> intact && accepted == [] && delivered == [] && input == []
      ensures !Resets(i, value) ==> intact == (old(intact) && !old(Disturbs(i, value)))
      ensures i != FCR ==>
        && lsr == (if i == LSR then value else old(lsr)) && msr == (if i == MSR then value else old(msr))
        && ip == old(ip) && rbr == old(rbr)
      ensures i == FCR ==> Current() == old(Current()).AfterControl(value)
    {
      hide Set, Ready, Settings.Stored, Settings.Latched, Conserved, WithReady, WithoutErrors, WithTransmitterEmpty;
      StoredElsewhere(View(), i, value);
      StoreRegister(i, value);
      if i == FCR {
        ResetFifos(fcr);
      }
    }

    /** The transmitter cause is raised by a byte to send, and by enabling its interrupt while it is empty. */
    static predicate RaisesTransmitter(s: Settings, lsr: Byte, i: nat, value: Byte) {
      !s.Latched() && (i == 0 || (i == IER && !Set(s.ier, 0x02) && Set(value, 0x02) && Set(lsr, 0x20)))
    }

    method Transmit(value: Byte)
      requires Valid()
      modifies this`output, this`ip
      ensures Valid() && output == old(output) + [value] && ip == old(ip).(transmitter := true)
    {
      output := output + [value];
      ip := ip.(transmitter := true);
    }

    /** Enabling the transmitter interrupt while the transmitter is empty raises its cause. */
    method RaiseTransmitter(was: Byte, now: Byte)
      requires Valid()
      modifies this`ip
      ensures Valid() && ip == old(ip).(transmitter := old(ip).transmitter || (!Set(was, 0x02) && Set(now, 0x02) && Set(lsr, 0x20)))
    {
      hide Set;
      if !Set(was, 0x02) && Set(now, 0x02) && Set(lsr, 0x20) {
        ip := ip.(transmitter := true);
      }
    }

    /** Writing one register: a byte for the transmitter goes out at once. */
    method WriteByte(i: nat, value: Byte)
      requires Valid() && i < 8
      modifies this
      ensures Valid()
      ensures output == old(output) + if i == 0 && !old(Latched()) then [value] else []
      ensures !Resets(i, value) ==> accepted == old(accepted) && delivered == old(delivered) && input == old(input)
      ensures Resets(i, value) ==> intact && accepted == [] && delivered == [] && input == []
      ensures !Resets(i, value) ==> intact == (old(intact) && !old(Disturbs(i, value)))
      ensures View() == old(View()).Stored(i, value) && (i != FCR ==> rbr == old(rbr))
      ensures i != FCR ==>
        && lsr == (if i == LSR then value else old(lsr)) && msr == (if i == MSR then value else old(msr))
        && ip == old(ip).(transmitter := old(ip).transmitter || RaisesTransmitter(old(View()), old(lsr), i, value))
      ensures i == FCR ==> Current() == old(Current()).AfterControl(value)
      ensures iir == Identification(Set(fcr, 0x01), Identify(ier, Current()))
    {
      hide Set, Ready, Identify, Settings.Stored, Settings.Latched, Conserved, Valid, Status.AfterControl;
      StoredElsewhere(View(), i, value);
      if i == 0 && !Latched() { Transmit(value); }
      var was := ier;
      StoreAndReset(i, value);
      if i == IER && !Latched() {
        RaiseTransmitter(was, value);
      }
      UpdateIir();
    }

    /** A write of consecutive registers, byte by byte. */
    method Write(offset: nat, data: seq<Byte>)
      requires Valid() && offset + |data| <= 8
      modifies this
      ensures Valid() && View() == old(View()).StoredAll(offset, data, |data|)
      ensures output == old(output) + if offset == 0 && data != [] && !old(Latched()) then [data[0]] else []
      ensures offset > FCR || offset + |data| <= FCR ==>
        accepted == old(accepted) && delivered == old(delivered) && input == old(input)
      ensures (offset > FCR || offset + |data| <= FCR) && (offset > LSR || offset + |data| <= LSR) ==> intact == old(intact)
    {
      hide Set, Ready, Identify, Conserved;
      var n := 0;
      while n < |data|
        invariant n <= |data| && Valid() && View() == old(View()).StoredAll(offset, data, n)
        invariant output == old(output) + if offset == 0 && n > 0 && !old(Latched()) then [data[0]] else []
        invariant offset > FCR || offset + |data| <= FCR ==>
          accepted == old(accepted) && delivered == old(delivered) && input == old(input)
        invariant (offset > FCR || offset + |data| <= FCR) && (offset > LSR || offset + |data| <= LSR) ==> intact == old(intact)
      {
        WriteByte(offset + n, data[n]);
        n := n + 1;
      }
    }
  }

  /**
   * A transmitter interrupt from reset on: enabling it raises the line at once, reading the
   * identification names it and lowers the line, and sending a byte raises it again.
   */
  method TransmitterEvent(b: Byte) returns (first: bool, named: Byte, second: bool, third: bool, sent: seq<Byte>)
    ensures first && named == Byte(0x02) && !second && third && sent == [b]
  {
    hide Device.Valid, Set, Identify, Enabled, Status.Present, Status.AfterControl, IdentificationByte, Ready, WithReady;
    var d: Device;
    d, first := EnableTransmitter();
    OnlyTransmitter(true);
    OnlyTransmitter(false);
    ResetFacts();
    named := d.ReadByte(2);
    second := d.IrqLevel();
    d.WriteByte(0, b);
    third := d.IrqLevel();
    sent := d.output;
  }

  method EnableTransmitter() returns (d: Device, level: bool)
    ensures fresh(d) && d.Valid() && d.Current() == Waiting(true) && d.ier == Byte(0x02) && !d.Latched()
    ensures level && d.iir == Identification(false, Some(TransmitterEmpty)) && d.input == [] && d.output == [] && d.fcr == Byte(0xc0)
  {
    hide Device.Valid, Set, Identify, Enabled, Status.Present, Status.AfterControl, Ready, WithReady;
    d := new Device();
    ResetFacts();
    OnlyTransmitter(true);
    d.WriteByte(1, Byte(0x02));
    level := d.IrqLevel();
  }

  /**
   * Two bytes received from reset on: the line rises, the line status shows data-ready, the first
   * byte is read, the line stays high for the second, and a receiver reset discards that one.
   */
  method ReceiveEvent(a: Byte, b: Byte) returns (first: bool, status: Byte, data: Byte, second: bool, third: bool)
    ensures first && status == Byte(0x61) && data == a && second && !third
  {
    hide Device.Valid, Set, Identify, Enabled, Status.Present, Status.AfterControl, Ready, Received;
    var d := StartReceiving(a, b);
    first, status, data := ReadFirst(d, a, [b]);
    OnlyData(true);
    OnlyData(false);
    ReceiveFacts();
    ReceivedStatus();
    second := d.IrqLevel();
    d.WriteByte(2, Byte(0x02));
    third := d.IrqLevel();
  }

  method StartReceiving(a: Byte, b: Byte) returns (d: Device)
    ensures fresh(d) && d.Valid() && d.Current() == Received(false) && d.ier == Byte(0x01) && !d.Latched() && d.input == [a, b]
  {
    hide Device.Valid, Set, Identify, Ready;
    d := new Device();
    ReceiveFacts();
    var n := d.PushInput([a, b]);
    assert [a, b][..2] == [a, b];
    d.WriteByte(1, Byte(0x01));
  }

  method ReadFirst(d: Device, a: Byte, rest: seq<Byte>) returns (level: bool, status: Byte, data: Byte)
    requires d.Valid() && d.Current() == Received(false) && d.ier == Byte(0x01) && !d.Latched() && d.input == [a] + rest
    modifies d
    ensures d.Valid() && d.Current() == Received(false) && d.ier == Byte(0x01) && !d.Latched() && d.input == rest
    ensures level && status == Byte(0x61) && data == a
  {
    hide Device.Valid, Set, Identify, Enabled, Status.Present, Ready, WithReady, WithoutErrors;
    ReceiveFacts();
    OnlyData(true);
    level := d.IrqLevel();
    status := d.ReadByte(5);
    data := d.ReadByte(0);
  }

  lemma ReceivedStatus()
    ensures Received(true).AfterControl(Byte(0x02)) == Received(false)
    ensures !Ready(Received(false).lsr) && Ready(Received(true).lsr)
    ensures Status(WithReady(Received(false).lsr, true), Received(false).msr, Received(false).ip.(data := true)) == Received(true)
  {}

  function Received(data: bool): Status { Status(Byte(if data then 0x61 else 0x60), Byte(0), Causes(false, true, data, false)) }

  lemma ReceiveFacts()
    ensures !Set(Byte(0x03), 0x80) && !Set(Byte(0x01), 0x02) && Set(Byte(0x02), 0x02) && !Set(Byte(0x02), 0x04)
    ensures !Ready(Byte(0x60)) && Ready(Byte(0x61)) && WithReady(Byte(0x60), true) == Byte(0x61)
    ensures WithReady(Byte(0x61), false) == Byte(0x60)
    ensures WithoutErrors(Byte(0x60)) == Byte(0x60) && WithoutErrors(Byte(0x61)) == Byte(0x61)
  {}

  /** With the receive interrupt enabled, it is identified exactly when data is ready. */
  lemma OnlyData(on: bool)
    ensures (exists r: Reason :: Enabled(Byte(0x01), r) && Received(on).Present(r)) <==> on
  {
    if on { assert Enabled(Byte(0x01), DataAvailable) && Received(on).Present(DataAvailable); }
  }

  function Waiting(transmitter: bool): Status { Status(Byte(0x60), Byte(0), Causes(false, transmitter, false, false)) }

  lemma ResetFacts()
    ensures !Set(Byte(0x03), 0x80) && !Set(Byte(0), 0x02) && Set(Byte(0x02), 0x02) && Set(Byte(0x60), 0x20)
    ensures !Set(Byte(0xc0), 0x01) && IdentificationByte(Identification(false, Some(TransmitterEmpty))) == Byte(0x02)
  {}

  /** With the transmitter's interrupt enabled and no other cause, it is identified exactly when it waits. */
  lemma OnlyTransmitter(on: bool)
    ensures Identify(Byte(0x02), Waiting(on)) == if on then Some(TransmitterEmpty) else None
    ensures (exists r: Reason :: Enabled(Byte(0x02), r) && Waiting(on).Present(r)) <==> on
  {
    if on { assert Enabled(Byte(0x02), TransmitterEmpty) && Waiting(on).Present(TransmitterEmpty); }
  }
}
