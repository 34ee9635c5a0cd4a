/**
The platform-level interrupt controller: the register words, the priority order that
arbitration scans, the level gateway of every source, and the interrupt lines.
*/
module PlicTypes {

  const MAX_INTERRUPTS := 64
  const MAX_CONTEXTS := 16
  const BITS_PER_WORD := 32
  const INTERRUPT_WORDS := MAX_INTERRUPTS / BITS_PER_WORD

  // A 32-bit register word, least significant bit first.
  type Word = w: seq<bool> | |w| == BITS_PER_WORD witness seq(BITS_PER_WORD, _ => false)

  const ZeroWord: Word := seq(BITS_PER_WORD, _ => false)

  predicate ValidId(id: nat) { 0 < id < MAX_INTERRUPTS }

  datatype BitReg = BitReg(words: seq<Word>) {

    predicate Valid() { |words| == INTERRUPT_WORDS }

    predicate GetBit(id: nat)
      requires Valid() && id < MAX_INTERRUPTS
    {
      words[id / BITS_PER_WORD][id % BITS_PER_WORD]
    }

    function WithBit(id: nat, bit: bool): (r: BitReg)
      requires Valid() && id < MAX_INTERRUPTS
      ensures r.Valid()
      ensures forall j :: 0 <= j < MAX_INTERRUPTS ==> r.GetBit(j) == if j == id then bit else GetBit(j)
    {
      BitReg(words[id / BITS_PER_WORD := words[id / BITS_PER_WORD][id % BITS_PER_WORD := bit]])
    }

    function WithWord(index: nat, word: Word): (r: BitReg)
      requires Valid() && index < INTERRUPT_WORDS
      ensures r.Valid()
      ensures forall j :: 0 <= j < MAX_INTERRUPTS ==>
        r.GetBit(j) == if j / BITS_PER_WORD == index then word[j % BITS_PER_WORD] else GetBit(j)
    {
      BitReg(words[index := word])
    }
  }

  const NoBits := BitReg([ZeroWord, ZeroWord])

  datatype Context = Context(enable: BitReg, threshold: nat)
}

module PlicRegisters {
  import opened Wrappers
  import opened PlicTypes

  const REGISTER_BYTES := 4
  const PENDING_OFFSET := 0x001000
  const ENABLE_OFFSET := 0x002000
  const ENABLE_SIZE := 0x80
  const CONFIG_OFFSET := 0x200000
  const CONFIG_SIZE := 0x1000
  const PLIC_SIZE := 0x400_0000

  datatype Register =
    | Priority(id: nat)
    | Pending(word: nat)
    | Enable(context: nat, word: nat)
    | Threshold(context: nat)
    | ClaimComplete(context: nat)

  predicate Exists(r: Register) {
    match r
    case Priority(id) => ValidId(id)
    case Pending(word) => word < INTERRUPT_WORDS
    case Enable(context, word) => context < MAX_CONTEXTS && word < INTERRUPT_WORDS
    case Threshold(context) => context < MAX_CONTEXTS
    case ClaimComplete(context) => context < MAX_CONTEXTS
  }

  /** The memory map of the PLIC specification. */
  function AddressOf(r: Register): nat {
    match r
    case Priority(id) => 4 * id
    case Pending(word) => 0x1000 + 4 * word
    case Enable(context, word) => 0x2000 + 0x80 * context + 4 * word
    case Threshold(context) => 0x20_0000 + 0x1000 * context
    case ClaimComplete(context) => 0x20_0000 + 0x1000 * context + 4
  }

  /** The register at a byte offset: exactly the existing register with that address, if there is one. */
  function DecodeRegister(addr: nat): (r: Option<Register>)
    ensures r.Some? ==> Exists(r.value) && AddressOf(r.value) == addr
  {
    if addr % REGISTER_BYTES != 0 then None
    else if addr < PENDING_OFFSET then
      var id := addr / REGISTER_BYTES;
      if ValidId(id) then Some(Priority(id)) else None
    else if addr < ENABLE_OFFSET then
      var word := (addr - PENDING_OFFSET) / REGISTER_BYTES;
      if word < INTERRUPT_WORDS then Some(Pending(word)) else None
    else if addr < CONFIG_OFFSET then
      var context := (addr - ENABLE_OFFSET) / ENABLE_SIZE;
      var word := (addr - ENABLE_OFFSET) % ENABLE_SIZE / REGISTER_BYTES;
      if context < MAX_CONTEXTS && word < INTERRUPT_WORDS then Some(Enable(context, word)) else None
    else if addr < PLIC_SIZE then
      var context := (addr - CONFIG_OFFSET) / CONFIG_SIZE;
      var index := (addr - CONFIG_OFFSET) % CONFIG_SIZE / REGISTER_BYTES;
      if context >= MAX_CONTEXTS then None
      else if index == 0 then Some(Threshold(context))
      else if index == 1 then Some(ClaimComplete(context))
      else None
    else None
  }

  lemma DecodeFindsRegister(r: Register)
    requires Exists(r)
    ensures DecodeRegister(AddressOf(r)) == Some(r)
  {
    match r
    case Priority(id) => FindsPriority(id);
    case Pending(word) => FindsPending(word);
    case Enable(context, word) => FindsEnable(context, word);
    case Threshold(context) => FindsContext(context);
    case ClaimComplete(context) => FindsContext(context);
  }

  lemma FindsPriority(id: nat)
    requires ValidId(id)
    ensures DecodeRegister(4 * id) == Some(Priority(id))
  {
    assert 4 * id % 4 == 0 && 4 * id / 4 == id;
  }

  lemma FindsPending(word: nat)
    requires word < INTERRUPT_WORDS
    ensures DecodeRegister(0x1000 + 4 * word) == Some(Pending(word))
  {
    assert (0x1000 + 4 * word) % 4 == 0 && 4 * word / 4 == word;
  }

  lemma FindsEnable(context: nat, word: nat)
    requires context < MAX_CONTEXTS && word < INTERRUPT_WORDS
    ensures DecodeRegister(0x2000 + 0x80 * context + 4 * word) == Some(Enable(context, word))
  {
    var offset := 0x80 * context + 4 * word;
    assert (0x2000 + offset) % 4 == 0;
    assert offset / 0x80 == context && offset % 0x80 == 4 * word;
  }

  lemma FindsContext(context: nat)
    requires context < MAX_CONTEXTS
    ensures DecodeRegister(0x20_0000 + 0x1000 * context) == Some(Threshold(context))
    ensures DecodeRegister(0x20_0000 + 0x1000 * context + 4) == Some(ClaimComplete(context))
  {
    var offset := 0x1000 * context;
    assert (0x20_0000 + offset) % 4 == 0 && (0x20_0000 + offset + 4) % 4 == 0;
    assert offset / 0x1000 == context && offset % 0x1000 == 0;
    assert (offset + 4) / 0x1000 == context && (offset + 4) % 0x1000 == 4;
  }
}

module Plic {
  import Sorting
  import opened Wrappers
  import opened PlicTypes
  import opened PlicRegisters

  // ------------------------------------------------------------------
  // Arbitration
  // ------------------------------------------------------------------

  /** Source `a` comes before source `b`: higher priority first, lower id first among equals. */
  predicate Before(priority: seq<nat>, a: nat, b: nat)
    requires a < |priority| && b < |priority|
  {
    priority[a] > priority[b] || (priority[a] == priority[b] && a < b)
  }

  predicate InRange(order: seq<nat>, n: nat) { forall i :: 0 <= i < |order| ==> order[i] < n }

  predicate Sorted(priority: seq<nat>, order: seq<nat>) {
    && InRange(order, |priority|)
    && forall i, j :: 0 <= i < j < |order| ==> Before(priority, order[i], order[j])
  }

  /** The order lists every source exactly once. */
  ghost predicate ListsAll(order: seq<nat>, n: nat) {
    && |order| == n && InRange(order, n)
    && forall id :: 0 <= id < n ==> id in order
  }

  function Identity(n: nat): (order: seq<nat>)
    ensures ListsAll(order, n)
  {
    var order := seq(n, i => i);
    assert forall id :: 0 <= id < n ==> order[id] == id && id in order;
    order
  }

  /** Sorting by descending priority and then ascending id. */
  method SortOrder(priority: seq<nat>, order: seq<nat>) returns (r: seq<nat>)
    requires ListsAll(order, |priority|)
    ensures ListsAll(r, |priority|) && Sorted(priority, r)
    ensures forall i, j :: 0 <= i < j < |r| ==>
      priority[r[i]] > priority[r[j]] || (priority[r[i]] == priority[r[j]] && r[i] < r[j])
  {
    var key := (id: nat) => if id < |priority| then priority[id] else 0;
    var earlier := (a: nat, b: nat) => key(a) > key(b) || (key(a) == key(b) && a <= b);
    r := Sorting.Sort(earlier, order);
    forall id ensures id in r <==> id in order { assert id in multiset(r) <==> id in multiset(order); }
    assert |multiset(r)| == |r| && |multiset(order)| == |order|;
    forall i | 0 <= i < |r| ensures r[i] < |priority| { assert r[i] in r && r[i] in order; }
    ListedOnce(r, |priority|);
    forall i, j | 0 <= i < j < |r| ensures Before(priority, r[i], r[j]) {
      assert earlier(r[i], r[j]) && r[i] in r && r[j] in r;
    }
  }

  /** A list of `n` ids that mentions all of them mentions none twice. */
  lemma ListedOnce(order: seq<nat>, n: nat)
    requires ListsAll(order, n)
    ensures forall i, j :: 0 <= i < j < |order| ==> order[i] != order[j]
  {
    forall i, j | 0 <= i < j < |order|
      ensures order[i] != order[j]
    {
      if order[i] == order[j] {
        var rest := order[..j] + order[j + 1..];
        forall id | 0 <= id < n ensures id in rest {
          assert id in order;
          var k :| 0 <= k < |order| && order[k] == id;
          if k < j { assert rest[k] == id; } else if k > j { assert rest[k - 1] == id; } else { assert rest[i] == id; }
        }
        TooShort(rest, n);
        assert false;
      }
    }
  }

  lemma {:induction false} TooShort(xs: seq<nat>, n: nat)
    requires forall id :: 0 <= id < n ==> id in xs
    ensures |xs| >= n
  {
    if n > 0 {
      assert n - 1 in xs;
      var k :| 0 <= k < |xs| && xs[k] == n - 1;
      var rest := xs[..k] + xs[k + 1..];
      forall id | 0 <= id < n - 1 ensures id in rest {
        assert id in xs;
        var m :| 0 <= m < |xs| && xs[m] == id;
        if m < k { assert rest[m] == id; } else { assert rest[m - 1] == id; }
      }
      TooShort(rest, n - 1);
    }
  }

  // ------------------------------------------------------------------
  // The gateway of one source, as a history of events
  // ------------------------------------------------------------------

  datatype Event = Accepted(id: nat) | Claimed(id: nat) | Completed(id: nat)

  // Where a source stands after a history; Broken if the events came in a wrong order.
  datatype Phase = Idle | Waiting | InService | Broken

  function Advance(p: Phase, e: Event): Phase {
    match (p, e)
    case (Idle, Accepted(_)) => Waiting
    case (Waiting, Claimed(_)) => InService
    case (InService, Completed(_)) => Idle
    case _ => Broken
  }

  function PhaseOf(log: seq<Event>, id: nat): Phase {
    if log == [] then Idle
    else
      var before := PhaseOf(log[..|log| - 1], id);
      if log[|log| - 1].id == id then Advance(before, log[|log| - 1]) else before
  }

  lemma PhaseNext(log: seq<Event>, e: Event)
    ensures forall id :: PhaseOf(log + [e], id) == if e.id == id then Advance(PhaseOf(log, id), e) else PhaseOf(log, id)
  {
    assert (log + [e])[..|log|] == log;
  }

  function Count(log: seq<Event>, e: Event): nat {
    if log == [] then 0
    else Count(log[..|log| - 1], e) + if log[|log| - 1] == e then 1 else 0
  }

  /** Requests are conserved: accepted means claimed or still pending, claimed means completed or in service. */
  lemma {:induction false} RequestsConserved(log: seq<Event>, id: nat)
    requires PhaseOf(log, id) != Broken
    ensures Count(log, Accepted(id)) == Count(log, Claimed(id)) + if PhaseOf(log, id) == Waiting then 1 else 0
    ensures Count(log, Claimed(id)) == Count(log, Completed(id)) + if PhaseOf(log, id) == InService then 1 else 0
  {
    if log != [] { RequestsConserved(log[..|log| - 1], id); }
  }

  lemma {:induction false} PrefixPhase(log: seq<Event>, id: nat, n: nat)
    requires PhaseOf(log, id) != Broken && n <= |log|
    ensures PhaseOf(log[..n], id) != Broken
    decreases |log|
  {
    if n < |log| {
      PrefixPhase(log[..|log| - 1], id, n);
      assert log[..|log| - 1][..n] == log[..n];
    } else {
      assert log[..n] == log;
    }
  }

  lemma PhaseAt(log: seq<Event>, id: nat, n: nat)
    requires n < |log|
    ensures PhaseOf(log[..n + 1], id) == if log[n].id == id then Advance(PhaseOf(log[..n], id), log[n]) else PhaseOf(log[..n], id)
  {
    assert log[..n + 1][..n] == log[..n];
  }

  /** A source in service at `i` that is not in service at `j` was completed in between. */
  lemma {:induction false} CompletedBetween(log: seq<Event>, id: nat, i: nat, j: nat) returns (k: nat)
    requires PhaseOf(log, id) != Broken && i < j <= |log|
    requires PhaseOf(log[..i], id) == InService && PhaseOf(log[..j], id) != InService
    ensures i <= k < j && log[k] == Completed(id) && PhaseOf(log[..k + 1], id) == Idle
    decreases j - i
  {
    PhaseAt(log, id, i);
    PrefixPhase(log, id, i + 1);
    if PhaseOf(log[..i + 1], id) == InService {
      k := CompletedBetween(log, id, i + 1, j);
    } else {
      k := i;
    }
  }

  lemma {:induction false} AcceptedBetween(log: seq<Event>, id: nat, i: nat, j: nat) returns (k: nat)
    requires PhaseOf(log, id) != Broken && i < j <= |log|
    requires PhaseOf(log[..i], id) == Idle && PhaseOf(log[..j], id) == Waiting
    ensures i <= k < j && log[k] == Accepted(id)
    decreases j - i
  {
    PhaseAt(log, id, i);
    PrefixPhase(log, id, i + 1);
    if PhaseOf(log[..i + 1], id) == Idle {
      k := AcceptedBetween(log, id, i + 1, j);
    } else {
      k := i;
    }
  }

  /** Two claims of one source have a completion between them, and after it a new accepted request. */
  lemma BetweenClaims(log: seq<Event>, id: nat, i: nat, j: nat) returns (c: nat, a: nat)
    requires PhaseOf(log, id) != Broken
    requires i < j < |log| && log[i] == Claimed(id) && log[j] == Claimed(id)
    ensures i < c < a < j && log[c] == Completed(id) && log[a] == Accepted(id)
  {
    PhaseAt(log, id, i);
    PrefixPhase(log, id, i + 1);
    PhaseAt(log, id, j);
    PrefixPhase(log, id, j + 1);
    assert PhaseOf(log[..j], id) == Waiting;
    c := CompletedBetween(log, id, i + 1, j);
    a := AcceptedBetween(log, id, c + 1, j);
  }

  // ------------------------------------------------------------------
  // Register state
  // ------------------------------------------------------------------

  /** The bits of the gateway agree with the history, and a high level is never forgotten. */
  ghost predicate GatewayOk(log: seq<Event>, pending: BitReg, level: BitReg, busy: set<nat>) {
    && pending.Valid() && level.Valid()
    && !pending.GetBit(0)
    && (forall id :: id in busy ==> ValidId(id))
    && (forall id :: ValidId(id) ==>
          && PhaseOf(log, id) == (if pending.GetBit(id) then Waiting else if id in busy then InService else Idle)
          && !(pending.GetBit(id) && id in busy)
          && (level.GetBit(id) ==> pending.GetBit(id) || id in busy))
  }

  ghost predicate ContextsOk(contexts: seq<Context>) {
    && |contexts| == MAX_CONTEXTS
    && forall c :: 0 <= c < MAX_CONTEXTS ==> contexts[c].enable.Valid() && !contexts[c].enable.GetBit(0)
  }

  class PlicLayout {
    var priority: seq<nat>
    var priorityOrder: seq<nat>
    var pending: BitReg
    var sourceLevel: BitReg
    var contexts: seq<Context>
    var busy: set<nat>
    ghost var log: seq<Event>

    ghost predicate OrderOk()
      reads this
    {
      |priority| == MAX_INTERRUPTS && ListsAll(priorityOrder, MAX_INTERRUPTS) && Sorted(priority, priorityOrder)
    }

    ghost predicate Valid()
      reads this
    {
      OrderOk() && ContextsOk(contexts) && GatewayOk(log, pending, sourceLevel, busy)
    }

    constructor ()
      ensures Valid() && log == []
    {
      priority := seq(MAX_INTERRUPTS, _ => 0);
      priorityOrder := Identity(MAX_INTERRUPTS);
      pending, sourceLevel, busy := NoBits, NoBits, {};
      contexts := seq(MAX_CONTEXTS, _ => Context(NoBits, 0));
      log := [];
      new;
      assert priorityOrder == seq(MAX_INTERRUPTS, i => i);
    }

    /** Changing a priority re-sorts the order, keeping it a sorted listing of all sources. */
    method WritePriority(id: nat, value: nat)
      requires Valid() && ValidId(id)
      modifies this`priority, this`priorityOrder
      ensures Valid() && priority == old(priority)[id := value]
    {
      if value != priority[id] {
        priority := priority[id := value];
        priorityOrder := SortOrder(priority, priorityOrder);
      }
    }

    /** Enable bits are written word by word; source 0 does not exist. */
    method WriteEnableWord(context: nat, index: nat, word: Word)
      requires Valid() && context < MAX_CONTEXTS && index < INTERRUPT_WORDS
      modifies this`contexts
      ensures Valid() && |contexts| == |old(contexts)|
      ensures forall id: nat :: ValidId(id) ==>
        contexts[context].enable.GetBit(id) ==
          if id / BITS_PER_WORD == index then word[id % BITS_PER_WORD] else old(contexts)[context].enable.GetBit(id)
      ensures contexts[context].threshold == old(contexts)[context].threshold
      ensures forall c :: 0 <= c < MAX_CONTEXTS && c != context ==> contexts[c] == old(contexts)[c]
    {
      var value := if index == 0 then word[0 := false] else word;
      var c := contexts[context];
      contexts := contexts[context := c.(enable := c.enable.WithWord(index, value))];
    }

    method WritePriorityThreshold(context: nat, value: nat)
      requires Valid() && context < MAX_CONTEXTS
      modifies this`contexts
      ensures Valid() && contexts == old(contexts)[context := old(contexts)[context].(threshold := value)]
    {
      contexts := contexts[context := contexts[context].(threshold := value)];
    }

    /** What may be claimed by a context, and with `notify` what it is interrupted for. */
    predicate Eligible(context: nat, notify: bool, id: nat)
      reads this
      requires Valid() && context < MAX_CONTEXTS
    {
      && ValidId(id)
      && priority[id] > 0
      && (notify ==> priority[id] > contexts[context].threshold)
      && id !in busy
      && contexts[context].enable.GetBit(id)
      && pending.GetBit(id)
    }

    ghost predicate IsBest(context: nat, notify: bool, r: Option<nat>)
      reads this
      requires Valid() && context < MAX_CONTEXTS
    {
      match r
      case None => forall id :: !Eligible(context, notify, id)
      case Some(best) =>
        && Eligible(context, notify, best)
        && forall id: nat :: Eligible(context, notify, id) && id != best ==>
             priority[id] < priority[best] || (priority[id] == priority[best] && best < id)
    }

    /** The eligible source of highest priority, lowest id among equals; none exactly if none is eligible. */
    method FindPendingInterrupt(context: nat, notify: bool) returns (r: Option<nat>)
      requires Valid() && context < MAX_CONTEXTS
      ensures IsBest(context, notify, r)
    {
      var threshold := contexts[context].threshold;
      var i := 0;
      while i < |priorityOrder|
        invariant 0 <= i <= |priorityOrder|
        invariant forall k :: 0 <= k < i ==> !Eligible(context, notify, priorityOrder[k])
      {
        var id := priorityOrder[i];
        if id != 0 {
          if priority[id] == 0 { break; }
          if !(notify && priority[id] <= threshold) && id !in busy
             && contexts[context].enable.GetBit(id) && pending.GetBit(id) {
            BestAt(context, notify, i);
            return Some(id);
          }
        }
        i := i + 1;
      }
      NoneFrom(context, notify, i);
      return None;
    }

    lemma BestAt(context: nat, notify: bool, i: nat)
      requires Valid() && context < MAX_CONTEXTS && i < |priorityOrder|
      requires Eligible(context, notify, priorityOrder[i])
      requires forall k :: 0 <= k < i ==> !Eligible(context, notify, priorityOrder[k])
      ensures IsBest(context, notify, Some(priorityOrder[i]))
    {
      forall id | Eligible(context, notify, id) && id != priorityOrder[i]
        ensures Before(priority, priorityOrder[i], id)
      {
        assert id in priorityOrder;
        var k :| 0 <= k < |priorityOrder| && priorityOrder[k] == id;
        assert i < k;
      }
    }

    lemma NoneFrom(context: nat, notify: bool, i: nat)
      requires Valid() && context < MAX_CONTEXTS && i <= |priorityOrder|
      requires forall k :: 0 <= k < i ==> !Eligible(context, notify, priorityOrder[k])
      requires i < |priorityOrder| ==> priority[priorityOrder[i]] == 0
      ensures IsBest(context, notify, None)
    {
      assert forall k :: i < k < |priorityOrder| ==> Before(priority, priorityOrder[i], priorityOrder[k]);
      forall id ensures !Eligible(context, notify, id) {
        if ValidId(id) { assert id in priorityOrder; }
      }
    }

    /** A high level creates a request unless one is pending or in service; a low level retracts nothing. */
    method SetSourceLevel(id: nat, level: bool)
      requires Valid() && ValidId(id)
      modifies this`pending, this`sourceLevel, this`log
      ensures Valid()
      ensures log == old(log) + if level && PhaseOf(old(log), id) == Idle then [Accepted(id)] else []
      ensures forall j :: 0 <= j < MAX_INTERRUPTS ==> sourceLevel.GetBit(j) == if j == id then level else old(sourceLevel).GetBit(j)
    {
      if level {
        sourceLevel := sourceLevel.WithBit(id, true);
        if !pending.GetBit(id) && id !in busy {
          PhaseNext(log, Accepted(id));
          pending := pending.WithBit(id, true);
          log := log + [Accepted(id)];
        }
      } else {
        sourceLevel := sourceLevel.WithBit(id, false);
      }
    }

    /** Claim the best pending source, whatever the threshold; 0 exactly when there is none. */
    method ReadClaim(context: nat) returns (id: nat)
      requires Valid() && context < MAX_CONTEXTS
      modifies this`pending, this`busy, this`log
      ensures Valid()
      ensures old(IsBest(context, false, if id == 0 then None else Some(id)))
      ensures log == old(log) + if id == 0 then [] else [Claimed(id)]
    {
      var found := FindPendingInterrupt(context, false);
      if found.None? { return 0; }
      id := found.value;
      PhaseNext(log, Claimed(id));
      pending := pending.WithBit(id, false);
      busy := busy + {id};
      log := log + [Claimed(id)];
    }

    /** Completion counts if the source is enabled for the context and in service; a level still high is accepted anew. */
    method WriteComplete(context: nat, id: nat)
      requires Valid() && context < MAX_CONTEXTS
      modifies this`pending, this`busy, this`log
      ensures Valid()
      ensures log == old(log) +
        if ValidId(id) && contexts[context].enable.GetBit(id) && PhaseOf(old(log), id) == InService
        then [Completed(id)] + (if sourceLevel.GetBit(id) then [Accepted(id)] else []) else []
    {
      if !ValidId(id) || !contexts[context].enable.GetBit(id) { return; }
      if id in busy {
        busy := busy - {id};
        PhaseNext(log, Completed(id));
        log := log + [Completed(id)];
        if sourceLevel.GetBit(id) {
          PhaseNext(log, Accepted(id));
          pending := pending.WithBit(id, true);
          log := log + [Accepted(id)];
        }
      }
    }
  }

  // ------------------------------------------------------------------
  // Interrupt lines
  // ------------------------------------------------------------------

  /** Levels sampled from the devices; sources without a device are absent. */
  type Levels = seq<Option<bool>>

  predicate NoRepeat(driven: seq<bool>) { forall i :: 0 < i < |driven| ==> driven[i] != driven[i - 1] }

  class PlicDevice {
    const layout: PlicLayout
    var irqLevel: seq<Option<bool>>
    ghost var driven: seq<seq<bool>>    // what each context's line was driven to, in order

    ghost predicate Valid()
      reads this, layout
    {
      && layout.Valid()
      && |irqLevel| == |driven| == MAX_CONTEXTS
      && forall c :: 0 <= c < MAX_CONTEXTS ==>
           && NoRepeat(driven[c])
           && irqLevel[c] == if driven[c] == [] then None else Some(driven[c][|driven[c]| - 1])
    }

    constructor ()
      ensures Valid() && fresh(layout)
    {
      layout := new PlicLayout();
      irqLevel := seq(MAX_CONTEXTS, _ => None);
      driven := seq(MAX_CONTEXTS, _ => []);
    }

    /** Sample every registered device once. */
    method SyncPeripheralIrqLevels(levels: Levels)
      requires Valid() && |levels| == MAX_INTERRUPTS && levels[0].None?
      modifies layout`pending, layout`sourceLevel, layout`log
      ensures Valid()
      ensures forall id: nat :: ValidId(id) && levels[id].Some? ==> layout.sourceLevel.GetBit(id) == levels[id].value
      ensures forall id: nat :: ValidId(id) && levels[id].None? ==>
        layout.sourceLevel.GetBit(id) == old(layout.sourceLevel).GetBit(id)
    {
      for id := 1 to MAX_INTERRUPTS
        invariant Valid()
        invariant forall j: nat :: ValidId(j) ==>
          layout.sourceLevel.GetBit(j) ==
            if j < id && levels[j].Some? then levels[j].value else old(layout.sourceLevel).GetBit(j)
      {
        if levels[id].Some? { layout.SetSourceLevel(id, levels[id].value); }
      }
    }

    /**
    Refresh one line from a fresh sample: afterwards it is high exactly when some source above the
    threshold is pending for the context, and it is driven only when its level changes.
    */
    method UpdateContextIrqLine(context: nat, levels: Levels) returns (r: Option<nat>)
      requires Valid() && context < MAX_CONTEXTS && |levels| == MAX_INTERRUPTS && levels[0].None?
      modifies this, layout`pending, layout`sourceLevel, layout`log
      ensures Valid()
      ensures layout.IsBest(context, true, r)
      ensures irqLevel[context] == Some(exists id: nat :: layout.Eligible(context, true, id))
      ensures forall c :: 0 <= c < MAX_CONTEXTS && c != context ==> irqLevel[c] == old(irqLevel)[c]
    {
      SyncPeripheralIrqLevels(levels);
      r := layout.FindPendingInterrupt(context, true);
      assert r.Some? <==> exists id: nat :: layout.Eligible(context, true, id);
      if irqLevel[context] != Some(r.Some?) {
        irqLevel := irqLevel[context := Some(r.Some?)];
        driven := driven[context := driven[context] + [r.Some?]];
      }
    }
  }
}
