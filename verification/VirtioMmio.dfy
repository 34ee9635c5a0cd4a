/**
The MMIO transport of the block device: feature negotiation, queue configuration and reset.

The object records every register write in a ghost log. What the registers hold is stated
by functions of that log, which look for the last relevant write and know nothing of the
order in which the object updates its fields. A 128-bit feature set is its four words.
*/
module VirtioMmio {
  import Rings
  import opened Ram
  import opened Wrappers

  const MAX_QUEUES := 8
  const DEVICE_QUEUES := 1
  const FEATURE_WORDS := 4
  const U32 := 0x1_0000_0000
  const FEATURES_OK: bv8 := 8
  const KNOWN_STATUS: bv8 := 0xCF

  type Features = f: seq<bv32> | |f| == FEATURE_WORDS witness [0, 0, 0, 0]

  const NoFeatures: Features := [0, 0, 0, 0]

  /** Feature bit 32, VIRTIO_F_VERSION_1. */
  predicate HasVersion1(f: Features) { f[1] & 1 != 0 }

  predicate SubsetOf(f: Features, offered: Features) {
    forall i :: 0 <= i < FEATURE_WORDS ==> offered[i] & f[i] == f[i]
  }

  predicate Acceptable(offered: Features, f: Features) { HasVersion1(f) && SubsetOf(f, offered) }

  // The registers the driver writes while it sets the device up.
  datatype Write =
    | DriverFeaturesSelect(select: nat)
    | DriverFeatures(word: bv32)
    | Status(bits: bv32)
    | QueueSelect(queue: nat)
    | QueueNum(num: nat)
    | QueueReady(ready: nat)
    | AddressLow(ring: Ring, low: nat)
    | AddressHigh(ring: Ring, high: nat)

  datatype Ring = DescTable | AvailRing | UsedRing

  predicate IsReset(w: Write) { w == Status(0) }

  /** A status write that asks the device to check the features. */
  predicate AsksForFeatures(w: Write) {
    w.Status? && w.bits != 0 && Asks(LowByte(w.bits))
  }

  function LowByte(bits: bv32): bv8 { (bits & 0xFF) as bv8 }

  predicate Asks(b: bv8) { b & !KNOWN_STATUS == 0 && b & FEATURES_OK != 0 }

  // ------------------------------------------------------------------
  // What the driver has written, by looking back in the log
  // ------------------------------------------------------------------

  function Last(log: seq<Write>): Write
    requires log != []
  {
    log[|log| - 1]
  }

  function Earlier(log: seq<Write>): seq<Write>
    requires log != []
  {
    log[..|log| - 1]
  }

  function SelectedWord(log: seq<Write>): nat {
    if log == [] || IsReset(Last(log)) then 0
    else if Last(log).DriverFeaturesSelect? then Last(log).select
    else SelectedWord(Earlier(log))
  }

  /** The last value written to word `i` since the last reset. */
  function WrittenWord(log: seq<Write>, i: nat): bv32 {
    if log == [] || IsReset(Last(log)) then 0
    else if Last(log).DriverFeatures? && SelectedWord(Earlier(log)) == i then Last(log).word
    else WrittenWord(Earlier(log), i)
  }

  function WrittenFeatures(log: seq<Write>): Features {
    [WrittenWord(log, 0), WrittenWord(log, 1), WrittenWord(log, 2), WrittenWord(log, 3)]
  }

  /** The features agreed on, if the last request since the last reset to check them succeeded. */
  function Agreed(offered: Features, log: seq<Write>): Option<Features> {
    if log == [] || IsReset(Last(log)) then None
    else if AsksForFeatures(Last(log)) then
      var f := WrittenFeatures(Earlier(log));
      if Acceptable(offered, f) then Some(f) else None
    else Agreed(offered, Earlier(log))
  }

  lemma AgreedIsAcceptable(offered: Features, log: seq<Write>)
    requires Agreed(offered, log).Some?
    ensures Agreed(offered, log).value[1] & 1 != 0
    ensures forall i :: 0 <= i < 4 ==> offered[i] & Agreed(offered, log).value[i] == Agreed(offered, log).value[i]
  {
    hide Acceptable;
    AgreedWasChecked(offered, log);
    SoundFeatures(offered, Agreed(offered, log).value);
  }

  lemma {:induction false} AgreedWasChecked(offered: Features, log: seq<Write>)
    requires Agreed(offered, log).Some?
    ensures Acceptable(offered, Agreed(offered, log).value)
  {
    hide Acceptable, AsksForFeatures;
    if !AsksForFeatures(Last(log)) { AgreedWasChecked(offered, Earlier(log)); }
  }

  // ------------------------------------------------------------------
  // Queue addresses
  // ------------------------------------------------------------------

  function SelectedQueue(log: seq<Write>): nat {
    if log == [] || IsReset(Last(log)) then 0
    else if Last(log).QueueSelect? then Last(log).queue
    else SelectedQueue(Earlier(log))
  }

  predicate Hits(log: seq<Write>, q: nat, ring: Ring)
    requires log != []
  {
    (Last(log).AddressLow? || Last(log).AddressHigh?) && Last(log).ring == ring && SelectedQueue(Earlier(log)) == q
  }

  /** The low and high halves the driver last wrote for a ring of queue `q`, each on its own. */
  function WrittenLow(log: seq<Write>, q: nat, ring: Ring): nat {
    if log == [] || IsReset(Last(log)) then 0
    else if Hits(log, q, ring) && Last(log).AddressLow? then Last(log).low
    else WrittenLow(Earlier(log), q, ring)
  }

  function WrittenHigh(log: seq<Write>, q: nat, ring: Ring): nat {
    if log == [] || IsReset(Last(log)) then 0
    else if Hits(log, q, ring) && Last(log).AddressHigh? then Last(log).high
    else WrittenHigh(Earlier(log), q, ring)
  }

  /** The last write to either half went to the low one. */
  predicate LowLast(log: seq<Write>, q: nat, ring: Ring) {
    if log == [] || IsReset(Last(log)) then false
    else if Hits(log, q, ring) then Last(log).AddressLow?
    else LowLast(Earlier(log), q, ring)
  }

  /** Writing the low half clears the high half: the inverted mask is widened after it is inverted. */
  function SetLow(address: nat, low: nat): nat { low }

  function SetHigh(address: nat, high: nat): nat { address % U32 + high * U32 }

  /** The address the transport holds after the writes in `log`. */
  function HeldAddress(log: seq<Write>, q: nat, ring: Ring): nat {
    if log == [] || IsReset(Last(log)) then 0
    else
      var before := HeldAddress(Earlier(log), q, ring);
      if !Hits(log, q, ring) then before
      else if Last(log).AddressLow? then SetLow(before, Last(log).low)
      else SetHigh(before, Last(log).high)
  }

  predicate WordsFit(log: seq<Write>) {
    forall i :: 0 <= i < |log| ==>
      (log[i].AddressLow? ==> log[i].low < U32) && (log[i].AddressHigh? ==> log[i].high < U32)
  }

  lemma {:induction false} HeldHalves(log: seq<Write>, q: nat, ring: Ring)
    requires WordsFit(log)
    ensures WrittenLow(log, q, ring) < U32 && WrittenHigh(log, q, ring) < U32
    ensures HeldAddress(log, q, ring) ==
      WrittenLow(log, q, ring) + (if LowLast(log, q, ring) then 0 else WrittenHigh(log, q, ring) * U32)
  {
    hide SetHigh;
    if log != [] && !IsReset(Last(log)) {
      var before := Earlier(log);
      HeldHalves(before, q, ring);
      if Last(log).AddressHigh? {
        var low, high := WrittenLow(before, q, ring), WrittenHigh(before, q, ring);
        HighReplaced(low, if LowLast(before, q, ring) then 0 else high, Last(log).high);
      }
    }
  }

  lemma HighReplaced(low: nat, high: nat, to: nat)
    requires low < U32
    ensures SetHigh(low + high * U32, to) == low + to * U32
  {}

  /**
  The transport holds the 64-bit address the driver wrote exactly when the low half was not
  written after a non-zero high half.
  */
  lemma AddressKeptIff(log: seq<Write>, q: nat, ring: Ring)
    requires WordsFit(log)
    ensures HeldAddress(log, q, ring) == WrittenLow(log, q, ring) + WrittenHigh(log, q, ring) * U32
      <==> !LowLast(log, q, ring) || WrittenHigh(log, q, ring) == 0
  {
    HeldHalves(log, q, ring);
  }

  lemma LowAfterHighLosesHigh()
    ensures var log := [AddressHigh(DescTable, 1), AddressLow(DescTable, 16)];
      HeldAddress(log, 0, DescTable) == 16 && WrittenHigh(log, 0, DescTable) == 1
  {
    var log := [AddressHigh(DescTable, 1), AddressLow(DescTable, 16)];
    assert Earlier(log) == [AddressHigh(DescTable, 1)];
    assert Earlier(Earlier(log)) == [];
  }

  // ------------------------------------------------------------------
  // The transport and the device registers it drives
  // ------------------------------------------------------------------

  datatype QueueConfig = QueueConfig(num: nat, desc: nat, avail: nat, used: nat, enable: bool) {
    function Address(ring: Ring): nat {
      match ring
      case DescTable => desc
      case AvailRing => avail
      case UsedRing => used
    }

    function WithAddress(ring: Ring, a: nat): QueueConfig {
      match ring
      case DescTable => this.(desc := a)
      case AvailRing => this.(avail := a)
      case UsedRing => this.(used := a)
    }
  }

  const NoConfig := QueueConfig(0, 0, 0, 0, false)

  function RingLen(ring: Ring, num: nat): nat {
    match ring
    case DescTable => 16 * num
    case AvailRing => 4 + 2 * num
    case UsedRing => 4 + 8 * num
  }

  predicate Aligned(ring: Ring, address: nat) {
    match ring
    case DescTable => address % 8 == 0
    case AvailRing => address % 2 == 0
    case UsedRing => address % 4 == 0
  }

  predicate RingFits(ring: Ring, num: nat, address: nat) {
    RAM_BASE <= address && Aligned(ring, address) && address - RAM_BASE + RingLen(ring, num) <= RAM_SIZE
  }

  /** The position of a ring in RAM, if it is aligned and lies inside RAM. */
  function GuestRamOffset(ring: Ring, num: nat, address: nat): Option<nat> {
    if RingFits(ring, num, address) then Some(address - RAM_BASE) else None
  }

  // The queue inside the device; a ring is absent until a valid address was set.
  datatype DeviceQueue = DeviceQueue(num: nat, desc: Option<nat>, avail: Option<nat>, used: Option<nat>) {
    predicate Ready() { num != 0 && desc.Some? && avail.Some? && used.Some? }

    predicate InsideRam() {
      && desc.Some? && desc.value + RingLen(DescTable, num) <= RAM_SIZE
      && avail.Some? && avail.value + RingLen(AvailRing, num) <= RAM_SIZE
      && used.Some? && used.value + RingLen(UsedRing, num) <= RAM_SIZE
    }
  }

  function Configured(q: QueueConfig): (dq: DeviceQueue)
    ensures dq.num == q.num
    ensures dq.Ready() <==>
      && q.num != 0
      && 0x8000_0000 <= q.desc && q.desc % 8 == 0 && q.desc + 16 * q.num <= 0xA000_0000
      && 0x8000_0000 <= q.avail && q.avail % 2 == 0 && q.avail + 4 + 2 * q.num <= 0xA000_0000
      && 0x8000_0000 <= q.used && q.used % 4 == 0 && q.used + 4 + 8 * q.num <= 0xA000_0000
    ensures dq.Ready() ==> dq.InsideRam()
    ensures dq.Ready() ==>
      && dq.desc == Some(q.desc - 0x8000_0000) && dq.avail == Some(q.avail - 0x8000_0000)
      && dq.used == Some(q.used - 0x8000_0000)
  {
    DeviceQueue(q.num,
                GuestRamOffset(DescTable, q.num, q.desc),
                GuestRamOffset(AvailRing, q.num, q.avail),
                GuestRamOffset(UsedRing, q.num, q.used))
  }

  /** The driver did not change the size of queue 0 after it last made the queue ready. */
  predicate NumStable(log: seq<Write>) {
    if log == [] || IsReset(Last(log)) then true
    else if SelectedQueue(Earlier(log)) == 0 && Last(log) == QueueReady(1) then true
    else if SelectedQueue(Earlier(log)) == 0 && Last(log).QueueNum? then false
    else NumStable(Earlier(log))
  }

  class Transport {
    const offered: Features
    var guestFeaturesSel: nat
    var guestFeatures: Features
    var queues: seq<QueueConfig>
    var queueSelect: nat
    // device registers
    var status: bv8
    var accepted: Features
    var queue: DeviceQueue
    ghost var log: seq<Write>

    ghost predicate FeaturesHold()
      reads this
    {
      && guestFeaturesSel == SelectedWord(log)
      && guestFeatures == WrittenFeatures(log)
      && (status & FEATURES_OK != 0 <==> Agreed(offered, log).Some?)
      && (status & FEATURES_OK != 0 ==> Some(accepted) == Agreed(offered, log))
    }

    ghost predicate QueuesHold()
      reads this
    {
      && queueSelect == SelectedQueue(log)
      && |queues| == MAX_QUEUES
      && (forall q, ring :: 0 <= q < MAX_QUEUES ==> queues[q].Address(ring) == HeldAddress(log, q, ring))
      && (forall q :: 0 <= q < MAX_QUEUES ==> (queues[q].enable ==> queues[q].num != 0))
      && (queues[0].enable ==> queue.Ready() && (NumStable(log) ==> queue.InsideRam()))
    }

    /**
    FEATURES_OK is set exactly when the last check since reset succeeded, and the accepted set is
    then what the driver had written; an enabled queue is ready and lies inside RAM.
    */
    ghost predicate Valid()
      reads this
    {
      FeaturesHold() && QueuesHold()
    }

    constructor (offered: Features)
      ensures Valid() && log == [] && this.offered == offered && status == 0
    {
      this.offered := offered;
      guestFeaturesSel, guestFeatures, status, accepted := 0, NoFeatures, 0, NoFeatures;
      queues, queueSelect := seq(MAX_QUEUES, _ => NoConfig), 0;
      queue := DeviceQueue(0, None, None, None);
      log := [];
    }

    /** Status 0 resets the transport and the device. */
    method Reset()
      requires Valid()
      modifies this
      ensures Valid() && log == old(log) + [Status(0)] && status == 0 && !queue.Ready()
      ensures forall q :: 0 <= q < MAX_QUEUES ==> !queues[q].enable
    {
      guestFeaturesSel, guestFeatures := 0, NoFeatures;
      queues, queueSelect := seq(MAX_QUEUES, _ => NoConfig), 0;
      status, accepted := 0, NoFeatures;
      queue := DeviceQueue(0, None, None, None);
      log := log + [Status(0)];
    }

    /** Zero clears the status, unknown bits are refused, and FEATURES_OK needs acceptable features. */
    static function StatusAfter(status: bv8, bits: bv32, acceptable: bool): bv8 {
      if bits == 0 then 0 else StatusWith(status, LowByte(bits), acceptable)
    }

    static function StatusWith(status: bv8, b: bv8, acceptable: bool): bv8 {
      if b & !KNOWN_STATUS != 0 then status
      else if b & FEATURES_OK != 0 && !acceptable then (status | b) & !FEATURES_OK
      else status | b
    }

    /** A status write adds bits; FEATURES_OK stays only if the features are acceptable. */
    method WriteStatus(bits: bv32)
      requires Valid()
      modifies this
      ensures Valid() && log == old(log) + [Status(bits)]
      ensures status == StatusAfter(old(status), bits, Acceptable(offered, old(guestFeatures)))
      ensures bits != 0 ==> guestFeatures == old(guestFeatures) && queues == old(queues) && queue == old(queue)
      ensures AsksForFeatures(Status(bits)) ==>
        if Acceptable(offered, old(guestFeatures)) then status & FEATURES_OK != 0 && accepted == old(guestFeatures)
        else status & FEATURES_OK == 0 && accepted == old(accepted)
    {
      if bits == 0 {
        Reset();
        return;
      }
      hide LowByte, Asks, StatusWith, Agreed;
      ghost var w := Status(bits);
      QueueFrame(log, w);
      FeatureStep(offered, log, w);
      AddStatus(LowByte(bits));
      log := log + [w];
    }

    method AddStatus(b: bv8)
      modifies this`status, this`accepted
      ensures status == StatusWith(old(status), b, Acceptable(offered, guestFeatures))
      ensures Asks(b) ==>
        if Acceptable(offered, guestFeatures) then status & FEATURES_OK != 0 && accepted == guestFeatures
        else status & FEATURES_OK == 0 && accepted == old(accepted)
      ensures !Asks(b) ==> status & FEATURES_OK == old(status) & FEATURES_OK && accepted == old(accepted)
    {
      StatusBits(status, b);
      if b & !KNOWN_STATUS == 0 {
        status := status | b;
        if b & FEATURES_OK != 0 { SetFeature(guestFeatures); }
      }
    }

    /** The device's check of the features the driver wrote. */
    method SetFeature(feature: Features)
      modifies this`status, this`accepted
      ensures if Acceptable(offered, feature) then status == old(status) && accepted == feature
              else status == old(status) & !FEATURES_OK && accepted == old(accepted)
    {
      if !HasVersion1(feature) || !SubsetOf(feature, offered) {
        status := status & !FEATURES_OK;
      } else {
        accepted := feature;
      }
    }

    method WriteDriverFeatures(word: bv32)
      requires Valid()
      modifies this`guestFeatures, this`log
      ensures Valid() && log == old(log) + [DriverFeatures(word)]
      ensures guestFeaturesSel < 4 ==> guestFeatures == old(guestFeatures)[guestFeaturesSel := word]
      ensures guestFeaturesSel >= 4 ==> guestFeatures == old(guestFeatures)
    {
      ghost var w := DriverFeatures(word);
      QueueFrame(log, w);
      FeatureStep(offered, log, w);
      if guestFeaturesSel < FEATURE_WORDS { guestFeatures := guestFeatures[guestFeaturesSel := word]; }
      log := log + [w];
    }

    method WriteDriverFeaturesSelect(select: nat)
      requires Valid()
      modifies this`guestFeaturesSel, this`log
      ensures Valid() && log == old(log) + [DriverFeaturesSelect(select)] && guestFeaturesSel == select
    {
      ghost var w := DriverFeaturesSelect(select);
      QueueFrame(log, w);
      FeatureStep(offered, log, w);
      guestFeaturesSel := select;
      log := log + [w];
    }

    method WriteQueueSelect(q: nat)
      requires Valid()
      modifies this`queueSelect, this`log
      ensures Valid() && log == old(log) + [QueueSelect(q)] && queueSelect == q
    {
      ghost var w := QueueSelect(q);
      AddressStep(log, w);
      FeatureStep(offered, log, w);
      queueSelect := q;
      log := log + [w];
    }

    method WriteAddress(ring: Ring, half: nat, isLow: bool)
      requires Valid()
      modifies this`queues, this`log
      ensures Valid() && log == old(log) + [if isLow then AddressLow(ring, half) else AddressHigh(ring, half)]
      ensures queueSelect < MAX_QUEUES ==>
        var q := old(queues)[queueSelect];
        queues == old(queues)[queueSelect :=
          q.WithAddress(ring, if isLow then half else q.Address(ring) % U32 + half * U32)]
      ensures queueSelect >= MAX_QUEUES ==> queues == old(queues)
    {
      hide HeldAddress, Agreed, WrittenFeatures, SelectedWord, SelectedQueue;
      ghost var w := if isLow then AddressLow(ring, half) else AddressHigh(ring, half);
      AddressStep(log, w);
      FeatureStep(offered, log, w);
      if queueSelect < MAX_QUEUES {
        var q := queues[queueSelect];
        var a := if isLow then SetLow(q.Address(ring), half) else SetHigh(q.Address(ring), half);
        queues := queues[queueSelect := q.WithAddress(ring, a)];
      }
      log := log + [w];
    }

    method WriteQueueNum(num: nat)
      requires Valid()
      modifies this`queues, this`queue, this`log
      ensures Valid() && log == old(log) + [QueueNum(num)]
      ensures queues == if 0 < num <= Rings.VIRTQUEUE_MAX_SIZE && queueSelect < MAX_QUEUES
        then old(queues)[queueSelect := old(queues)[queueSelect].(num := num)] else old(queues)
      ensures queue == if 0 < num <= Rings.VIRTQUEUE_MAX_SIZE && queueSelect < DEVICE_QUEUES
        then old(queue).(num := num) else old(queue)
    {
      hide HeldAddress, Agreed, WrittenFeatures, SelectedWord, SelectedQueue;
      ghost var w := QueueNum(num);
      AddressStep(log, w);
      FeatureStep(offered, log, w);
      if 0 < num <= Rings.VIRTQUEUE_MAX_SIZE {
        if queueSelect < MAX_QUEUES { queues := queues[queueSelect := queues[queueSelect].(num := num)]; }
        if queueSelect < DEVICE_QUEUES { queue := queue.(num := num); }
      }
      log := log + [w];
    }

    ghost predicate EnabledQueuesSized()
      reads this
    {
      |queues| == MAX_QUEUES && forall q :: 0 <= q < MAX_QUEUES ==> (queues[q].enable ==> queues[q].num != 0)
    }

    /** The store enables or disables the selected queue: one without a size cannot be enabled. */
    predicate Switches(value: nat)
      requires |queues| == MAX_QUEUES
      reads this
    {
      value <= 1 && queueSelect < MAX_QUEUES && (value == 1 ==> queues[queueSelect].num != 0)
    }

    /** The queue after such a store; a queue of the device must be ready to be enabled. */
    static function Switched(q: QueueConfig, select: nat, value: nat): QueueConfig {
      q.(enable := value == 1 && (select < DEVICE_QUEUES ==> Configured(q).Ready()))
    }

    /** Queue 0 becomes enabled only if all three rings lie inside RAM for the configured size. */
    method EnableSelected(value: nat)
      requires EnabledQueuesSized() && (queues[0].enable ==> queue.Ready())
      modifies this`queues, this`queue
      ensures EnabledQueuesSized()
      ensures forall q, ring :: 0 <= q < MAX_QUEUES ==> queues[q].Address(ring) == old(queues[q].Address(ring))
      ensures !old(Switches(value)) ==> queues == old(queues) && queue == old(queue)
      ensures old(Switches(value)) ==>
        && queues == old(queues)[queueSelect := Switched(old(queues)[queueSelect], queueSelect, value)]
        && queue == if value == 1 && queueSelect < DEVICE_QUEUES then Configured(old(queues)[queueSelect]) else old(queue)
    {
      if value > 1 || queueSelect >= MAX_QUEUES { return; }
      var q := queues[queueSelect];
      if value == 1 && q.num == 0 { return; }
      queues := queues[queueSelect := q.(enable := value != 0)];
      if value == 1 && queueSelect < DEVICE_QUEUES {
        queue := Configured(q);
        if !queue.Ready() { queues := queues[queueSelect := q.(enable := false)]; }
      }
    }

    method WriteQueueReady(value: nat)
      requires Valid()
      modifies this`queues, this`queue, this`log
      ensures Valid() && log == old(log) + [QueueReady(value)]
      ensures !old(Switches(value)) ==> queues == old(queues) && queue == old(queue)
      ensures old(Switches(value)) ==>
        && queues == old(queues)[queueSelect := Switched(old(queues)[queueSelect], queueSelect, value)]
        && queue == if value == 1 && queueSelect < DEVICE_QUEUES then Configured(old(queues)[queueSelect]) else old(queue)
      ensures queueSelect == 0 && value == 1 && old(Switches(value)) && queue.Ready() ==>
        && queue.desc == Some(HeldAddress(log, 0, DescTable) - 0x8000_0000)
        && queue.avail == Some(HeldAddress(log, 0, AvailRing) - 0x8000_0000)
        && queue.used == Some(HeldAddress(log, 0, UsedRing) - 0x8000_0000)
    {
      hide HeldAddress, Agreed, WrittenFeatures, SelectedWord, SelectedQueue, Configured;
      ghost var w := QueueReady(value);
      AddressStep(log, w);
      FeatureStep(offered, log, w);
      EnableSelected(value);
      log := log + [w];
    }
  }

  /** Unknown status bits are refused; otherwise bits are added, and FEATURES_OK only for acceptable features. */
  lemma StatusMeans(status: bv8, b: bv8, acceptable: bool)
    ensures Transport.StatusWith(status, b, acceptable) ==
      if b & 0x30 != 0 then status
      else if b & 0x08 != 0 && !acceptable then (status | b) & 0xf7
      else status | b
  {}

  /** Writing all four feature words and then FEATURES_OK: the bit stays exactly for an offered set with VERSION_1. */
  method Negotiate(t: Transport, f: Features)
    requires t.Valid()
    modifies t
    ensures t.Valid()
    ensures t.status & 0x08 != 0 <==> f[1] & 1 != 0 && forall i :: 0 <= i < 4 ==> t.offered[i] & f[i] == f[i]
    ensures t.status & 0x08 != 0 ==> t.accepted == f
  {
    hide Transport.Valid, HasVersion1, SubsetOf, LowByte, Asks;
    for i := 0 to 4
      invariant t.Valid() && t.guestFeatures[..i] == f[..i]
    {
      t.WriteDriverFeaturesSelect(i);
      t.WriteDriverFeatures(f[i]);
    }
    assert t.guestFeatures == f;
    FeaturesOkAsks();
    t.WriteStatus(0x08);
    SoundFeatures(t.offered, f);
  }

  lemma FeaturesOkAsks()
    ensures Asks(LowByte(0x08))
  {}

  lemma SoundFeatures(offered: Features, f: Features)
    ensures Acceptable(offered, f) <==> f[1] & 1 != 0 && forall i :: 0 <= i < 4 ==> offered[i] & f[i] == f[i]
  {}

  /** A 64-bit guest address as its two halves, and the position of a ring that starts there. */
  predicate Places(ring: Option<nat>, lo: nat, hi: nat) { ring == Some(hi * U32 + lo - 0x8000_0000) }

  // The ring addresses a driver writes, in halves.
  datatype Setup = Setup(num: nat, descLo: nat, descHi: nat, availLo: nat, availHi: nat, usedLo: nat, usedHi: nat) {
    predicate Fits() {
      && descLo < U32 && descHi < U32 && availLo < U32 && availHi < U32 && usedLo < U32 && usedHi < U32
    }

    /** The size is legal and the rings lie aligned in the guest's 512 MiB of RAM. */
    predicate Sound() {
      var d, a, u := descHi * U32 + descLo, availHi * U32 + availLo, usedHi * U32 + usedLo;
      && 0 < num <= 1024
      && 0x8000_0000 <= d && d % 8 == 0 && d + 16 * num <= 0xA000_0000
      && 0x8000_0000 <= a && a % 2 == 0 && a + 4 + 2 * num <= 0xA000_0000
      && 0x8000_0000 <= u && u % 4 == 0 && u + 4 + 8 * num <= 0xA000_0000
    }
  }

  /**
   * The driver's whole sequence for queue 0 of a transport after reset: size, low and then high
   * half of each ring address, ready. The queue is then ready exactly for a sound setup, with its
   * rings where the driver put them.
   */
  method SetUpQueue(t: Transport, s: Setup)
    requires t.Valid() && s.Fits() && t.queues[0] == NoConfig && !t.queue.Ready()
    modifies t
    ensures t.Valid() && (t.queues[0].enable <==> s.Sound()) && (t.queue.Ready() <==> s.Sound())
    ensures s.Sound() ==>
      && t.queue.num == s.num && Places(t.queue.desc, s.descLo, s.descHi)
      && Places(t.queue.avail, s.availLo, s.availHi) && Places(t.queue.used, s.usedLo, s.usedHi)
  {
    hide HeldAddress, Agreed, WrittenFeatures, SelectedWord, SelectedQueue, Transport.Valid;
    Eight(t);
    t.WriteQueueSelect(0);
    t.WriteQueueNum(s.num);
    SetAddress(t, DescTable, s.descLo, s.descHi);
    SetAddress(t, AvailRing, s.availLo, s.availHi);
    SetAddress(t, UsedRing, s.usedLo, s.usedHi);
    Eight(t);
    assert t.queues[0] == QueueConfig(if 0 < s.num <= 1024 then s.num else 0, s.descHi * U32 + s.descLo,
                                      s.availHi * U32 + s.availLo, s.usedHi * U32 + s.usedLo, false);
    t.WriteQueueReady(1);
  }

  lemma Eight(t: Transport)
    requires t.Valid()
    ensures |t.queues| == MAX_QUEUES
  {
    hide HeldAddress, Agreed, WrittenFeatures, SelectedWord, SelectedQueue;
  }

  method SetAddress(t: Transport, ring: Ring, lo: nat, hi: nat)
    requires t.Valid() && t.queueSelect == 0 && lo < U32 && hi < U32 && |t.queues| == MAX_QUEUES
    modifies t`queues, t`log
    ensures t.Valid() && t.queues == old(t.queues)[0 := old(t.queues)[0].WithAddress(ring, hi * U32 + lo)]
  {
    hide HeldAddress, Agreed, WrittenFeatures, SelectedWord, SelectedQueue, Transport.Valid;
    t.WriteAddress(ring, lo, true);
    t.WriteAddress(ring, hi, false);
  }

  /** What one more write, other than a reset, does to the feature functions of the log. */
  lemma FeatureStep(offered: Features, log: seq<Write>, w: Write)
    requires !IsReset(w)
    ensures SelectedWord(log + [w]) == if w.DriverFeaturesSelect? then w.select else SelectedWord(log)
    ensures WrittenFeatures(log + [w]) ==
      if w.DriverFeatures? && SelectedWord(log) < FEATURE_WORDS then WrittenFeatures(log)[SelectedWord(log) := w.word]
      else WrittenFeatures(log)
    ensures Agreed(offered, log + [w]) ==
      if !AsksForFeatures(w) then Agreed(offered, log)
      else if Acceptable(offered, WrittenFeatures(log)) then Some(WrittenFeatures(log)) else None
  {
    AppendWrite(log, w);
  }

  function AddressAfter(log: seq<Write>, w: Write, q: nat, ring: Ring): nat {
    var before := HeldAddress(log, q, ring);
    if SelectedQueue(log) == q && w.AddressLow? && w.ring == ring then SetLow(before, w.low)
    else if SelectedQueue(log) == q && w.AddressHigh? && w.ring == ring then SetHigh(before, w.high)
    else before
  }

  /** What one more write, other than a reset, does to the queue functions of the log. */
  lemma AddressStep(log: seq<Write>, w: Write)
    requires !IsReset(w)
    ensures SelectedQueue(log + [w]) == if w.QueueSelect? then w.queue else SelectedQueue(log)
    ensures NumStable(log + [w]) ==
      if SelectedQueue(log) == 0 && w == QueueReady(1) then true
      else if SelectedQueue(log) == 0 && w.QueueNum? then false
      else NumStable(log)
    ensures forall q, ring :: HeldAddress(log + [w], q, ring) == AddressAfter(log, w, q, ring)
  {
    AppendWrite(log, w);
  }

  lemma QueueFrame(log: seq<Write>, w: Write)
    requires !IsReset(w) && (w.Status? || w.DriverFeatures? || w.DriverFeaturesSelect?)
    ensures SelectedQueue(log + [w]) == SelectedQueue(log) && NumStable(log + [w]) == NumStable(log)
    ensures forall q, ring :: HeldAddress(log + [w], q, ring) == HeldAddress(log, q, ring)
  {
    AddressStep(log, w);
  }

  lemma StatusBits(status: bv8, b: bv8)
    ensures b & FEATURES_OK == 0 ==> (status | b) & FEATURES_OK == status & FEATURES_OK
    ensures b & FEATURES_OK != 0 ==> (status | b) & FEATURES_OK != 0
    ensures ((status | b) & !FEATURES_OK) & FEATURES_OK == 0
  {}

  lemma AppendWrite(log: seq<Write>, w: Write)
    ensures Last(log + [w]) == w && Earlier(log + [w]) == log
  {}
}
