/** Control and status registers: fields, write validators and the shadow registers. */
module CsrFields {
  import opened Wrappers

  type Word = bv64

  const FFLAGS := 0x001
  const FRM := 0x002
  const FCSR := 0x003
  const VXSAT := 0x009
  const VXRM := 0x00a
  const VCSR := 0x00f
  const SSTATUS := 0x100
  const SIE := 0x104
  const SIP := 0x144
  const SATP := 0x180
  const MSTATUS := 0x300
  const MIE := 0x304
  const MTVEC := 0x305
  const MIP := 0x344

  /** Which writes a field accepts; a range looks at the bits `left` to `right` of the written word. */
  datatype Rule = Any | ReadOnly | Range(left: nat, right: nat, min: Word, max: Word)

  datatype Field = Field(start: nat, len: nat, rule: Rule)

  function Ones(width: nat): Word { if width >= 64 then 0xffff_ffff_ffff_ffff else (1 << width) - 1 }

  /** The bits `left` to `right`, both included. */
  function MakeMask(left: nat, right: nat): Word {
    if left <= right < 64 then Ones(right - left + 1) << left else 0
  }

  function Extract(w: Word, left: nat, right: nat): Word {
    if left <= right < 64 then (w >> left) & Ones(right - left + 1) else 0
  }

  function FieldMask(f: Field): Word { if f.len == 0 then 0 else MakeMask(f.start, f.start + f.len - 1) }

  /** The bits that one field lets a write of `w` change. */
  function FieldOp(f: Field, w: Word): Word {
    match f.rule
    case Any => FieldMask(f)
    case ReadOnly => 0
    case Range(left, right, min, max) =>
      if min <= Extract(w, left, right) <= max then MakeMask(left, right) else 0
  }

  function Or(a: Word, b: Word): Word { a | b }

  /** All bits of `a` are bits of `mask`. */
  predicate Within(a: Word, mask: Word) { a & !mask == 0 }

  lemma WithinOr(a: Word, b: Word, ma: Word, mb: Word)
    requires Within(a, ma) && Within(b, mb)
    ensures Within(Or(a, b), Or(ma, mb))
  {}

  lemma WithinSelf(a: Word)
    ensures Within(a, a) && Within(0, a)
  {}

  /** The bits that all fields together let a write of `w` change. */
  function WriteOp(fields: seq<Field>, w: Word): Word {
    if fields == [] then 0 else Or(FieldOp(fields[0], w), WriteOp(fields[1..], w))
  }

  /** The bits that some write to the field can change. */
  function FieldReach(f: Field): Word {
    match f.rule
    case Any => FieldMask(f)
    case ReadOnly => 0
    case Range(left, right, _, _) => MakeMask(left, right)
  }

  /** The bits that some write to the register can change. */
  function Writable(fields: seq<Field>): Word {
    if fields == [] then 0 else Or(FieldReach(fields[0]), Writable(fields[1..]))
  }

  /** The bits that a shadow register shows of its base. */
  function View(fields: seq<Field>): Word {
    if fields == [] then 0 else Or(FieldMask(fields[0]), View(fields[1..]))
  }

  predicate PlainFields(fields: seq<Field>) { forall f :: f in fields ==> !f.rule.Range? }

  lemma {:induction false} OpIsWritable(fields: seq<Field>, w: Word)
    ensures Within(WriteOp(fields, w), Writable(fields))
  {
    hide Or, Within, MakeMask, Extract, FieldMask;
    if fields == [] {
      WithinSelf(0);
    } else {
      OpIsWritable(fields[1..], w);
      WithinSelf(FieldReach(fields[0]));
      WithinOr(FieldOp(fields[0], w), WriteOp(fields[1..], w), FieldReach(fields[0]), Writable(fields[1..]));
    }
  }

  lemma {:induction false} WritableIsVisible(fields: seq<Field>)
    requires PlainFields(fields)
    ensures Within(Writable(fields), View(fields))
  {
    hide Or, Within, MakeMask, FieldMask;
    if fields == [] {
      WithinSelf(0);
    } else {
      assert PlainFields(fields[1..]);
      WritableIsVisible(fields[1..]);
      WithinSelf(FieldMask(fields[0]));
      WithinOr(FieldReach(fields[0]), Writable(fields[1..]), FieldMask(fields[0]), View(fields[1..]));
    }
  }

  function Bits(start: nat, len: nat): Field { Field(start, len, Any) }
  function Fixed(start: nat, len: nat): Field { Field(start, len, ReadOnly) }

  const STATUS_FIELDS := [Bits(1, 1), Bits(5, 1), Bits(6, 1), Bits(8, 1), Bits(9, 2), Bits(13, 2), Bits(15, 2),
                          Bits(18, 1), Bits(19, 1), Bits(23, 1), Bits(24, 1), Fixed(32, 2), Bits(63, 1)]
  const SUPERVISOR_INTERRUPTS := [Bits(0, 1), Bits(1, 1), Bits(4, 1), Bits(5, 1), Bits(8, 1), Bits(9, 1)]
  const MACHINE_INTERRUPTS := [Bits(0, 1), Bits(1, 1), Bits(2, 1), Bits(3, 1), Bits(4, 1), Bits(5, 1), Bits(6, 1),
                               Bits(7, 1), Bits(8, 1), Bits(9, 1), Bits(10, 1), Bits(11, 1), Bits(12, 1), Bits(13, 1)]
  const MACHINE_STATUS := [Bits(1, 1), Bits(3, 1), Bits(5, 1), Bits(6, 1), Bits(7, 1), Bits(8, 1), Bits(9, 2),
                           Bits(11, 2), Bits(13, 2), Fixed(15, 2), Bits(17, 1), Bits(18, 1), Bits(19, 1), Bits(20, 1),
                           Bits(21, 1), Bits(22, 1), Bits(23, 1), Bits(24, 1), Fixed(32, 2), Fixed(34, 2), Bits(36, 1),
                           Bits(37, 1), Bits(38, 1), Bits(39, 1), Bits(40, 1), Bits(41, 1), Bits(42, 1), Bits(63, 1)]
  const WHOLE := [Bits(0, 64)]
  const WHOLE_FIXED := [Fixed(0, 64)]
  const CAUSE := [Bits(0, 63), Bits(63, 1)]
  const VTYPE := [Fixed(0, 3), Fixed(3, 3), Fixed(6, 1), Fixed(7, 1), Fixed(63, 1)]
  const EXCEPTIONS := [Bits(0, 1), Bits(1, 1), Bits(2, 1), Bits(3, 1), Bits(4, 1), Bits(5, 1), Bits(6, 1), Bits(7, 1),
                       Bits(8, 1), Bits(9, 1), Bits(11, 1), Bits(12, 1), Bits(13, 1), Bits(15, 1)]
  const FLOAT_FIELDS := [Bits(0, 5), Bits(0, 1), Bits(1, 1), Bits(2, 1), Bits(3, 1), Bits(4, 1), Bits(5, 3)]
  /** The range of the mode field spans three bits and so takes in the lowest base bit. */
  const TRAP_VECTOR := [Field(0, 2, Range(0, 2, 0, 1)), Bits(2, 62)]

  const WHOLE_REGISTERS := {0x008, 0xc20, 0xc22, 0x140, 0x141, 0x143, 0x340, 0x341, 0x343, 0xB00, 0xB02}
  const FIXED_REGISTERS := {0xC00, 0xC02, 0x320, 0xF11, 0xF12, 0xF13, 0xF14}
  const FIELDED_REGISTERS := {FCSR, VCSR, SSTATUS, SIE, SIP, MSTATUS, MIE, MIP, MTVEC, SATP,
                              0x105, 0x142, 0x342, 0x301, 0x302, 0x303, 0xc21}

  predicate Implemented(addr: nat) {
    addr in FIELDED_REGISTERS || addr in WHOLE_REGISTERS || addr in FIXED_REGISTERS
  }

  function FieldList(addr: nat): seq<Field> {
    if addr == FCSR then FLOAT_FIELDS
    else if addr == VCSR then [Bits(0, 1), Bits(1, 2)]
    else if addr == SSTATUS then STATUS_FIELDS
    else if addr == SIE || addr == SIP then SUPERVISOR_INTERRUPTS
    else if addr == MSTATUS then MACHINE_STATUS
    else if addr == MIE || addr == MIP then MACHINE_INTERRUPTS
    else if addr == MTVEC then TRAP_VECTOR
    else if addr == SATP then [Bits(0, 44), Bits(44, 16), Bits(60, 4)]
    else if addr == 0x105 then [Bits(0, 2), Bits(2, 62)]
    else if addr == 0x142 || addr == 0x342 then CAUSE
    else if addr == 0x301 then [Fixed(0, 25), Fixed(62, 2)]
    else if addr == 0x302 then EXCEPTIONS
    else if addr == 0x303 then [Bits(1, 1), Bits(5, 1), Bits(9, 1)]
    else if addr == 0xc21 then VTYPE
    else if addr in WHOLE_REGISTERS then WHOLE
    else WHOLE_FIXED
  }

  /** The field table; addresses without an entry have no register. */
  function Fields(addr: nat): Option<seq<Field>> {
    if Implemented(addr) then Some(FieldList(addr)) else None
  }

  /** The register that a shadow register shows. */
  function Shadowed(addr: nat): (base: Option<nat>)
    ensures base.Some? ==> Fields(addr).Some? && Fields(base.value).Some?
  {
    if addr == SSTATUS then Some(MSTATUS)
    else if addr == SIE then Some(MIE)
    else if addr == SIP then Some(MIP)
    else if addr == 0xC00 then Some(0xB00)
    else if addr == 0xC02 then Some(0xB02)
    else None
  }

  lemma ShadowFieldsPlain(addr: nat)
    requires Shadowed(addr).Some?
    ensures PlainFields(Fields(addr).value)
  {
    if addr == SSTATUS {
      StatusFieldsPlain();
    } else if addr == SIE || addr == SIP {
      InterruptFieldsPlain();
    }
  }

  lemma StatusFieldsPlain()
    ensures PlainFields(STATUS_FIELDS)
  {}

  lemma InterruptFieldsPlain()
    ensures PlainFields(SUPERVISOR_INTERRUPTS)
  {}
}

/** The register file: reads, validated writes, and what runs of checked writes can reach. */
module CsrFile {
  import opened Wrappers
  import opened CsrFields

  const CSR_SIZE := 4096
  const READ_ONLY_FROM := 0xC00
  const TVM: Word := 0x10_0000
  const U := 0
  const S := 1
  const M := 3

  type Values = map<nat, Word>

  /** Exactly the registers of the field table exist. */
  ghost predicate Complete(values: Values) {
    (forall a: nat :: a in values <==> Fields(a).Some?) && {FCSR, VCSR, MSTATUS} <= values.Keys
  }

  /** The bits in `mask` from `new_`, all others from `was`. */
  function Merge(was: Word, new_: Word, mask: Word): Word { (was & !mask) | (new_ & mask) }

  function And(a: Word, b: Word): Word { a & b }

  /** The register file after a write, before any privilege check. */
  function Written(values: Values, addr: nat, data: Word): (r: Values)
    requires Complete(values)
    ensures r.Keys == values.Keys
  {
    if addr == FFLAGS then values[FCSR := Merge(values[FCSR], data, 0x1f)]
    else if addr == FRM then values[FCSR := Merge(values[FCSR], data << 5, 0xe0)]
    else if addr == FCSR then values[FCSR := And(data, 0xff)]
    else if addr == VXSAT then values[VCSR := Merge(values[VCSR], data, 0x1)]
    else if addr == VXRM then values[VCSR := Merge(values[VCSR], data << 1, 0x6)]
    else if Fields(addr).None? then values
    else
      var op := WriteOp(Fields(addr).value, data);
      match Shadowed(addr)
      case None => values[addr := Merge(values[addr], data, op)]
      case Some(base) =>
        values[base := Merge(values[base], data, And(WriteOp(Fields(base).value, data), op))]
  }

  function Read(values: Values, addr: nat): (r: Option<Word>)
    requires Complete(values)
  {
    if addr == FFLAGS then Some(values[FCSR] & 0x1f)
    else if addr == FRM then Some((values[FCSR] >> 5) & 0x7)
    else if addr == VXSAT then Some(values[VCSR] & 0x1)
    else if addr == VXRM then Some((values[VCSR] >> 1) & 0x3)
    else if Shadowed(addr).Some? then Some(And(values[Shadowed(addr).value], View(Fields(addr).value)))
    else if addr in values then Some(values[addr])
    else None
  }

  /** The register that a write to `addr` goes to. */
  function Target(addr: nat): nat {
    if addr == FFLAGS || addr == FRM then FCSR
    else if addr == VXSAT || addr == VXRM then VCSR
    else if Shadowed(addr).Some? then Shadowed(addr).value
    else addr
  }

  /** The bits of the target that a write to `addr` may change. */
  function Reach(addr: nat): Word {
    if addr == FFLAGS then 0x1f
    else if addr == FRM then 0xe0
    else if addr == FCSR then 0xffff_ffff_ffff_ffff
    else if addr == VXSAT then 0x1
    else if addr == VXRM then 0x6
    else if Fields(addr).None? then 0
    else if Shadowed(addr).Some? then View(Fields(addr).value)
    else Writable(Fields(addr).value)
  }

  /** The words agree outside `mask`. */
  predicate SameOutside(a: Word, b: Word, mask: Word) { a & !mask == b & !mask }

  lemma MergeOutside(was: Word, new_: Word, op: Word, mask: Word)
    requires Within(op, mask)
    ensures SameOutside(was, Merge(was, new_, op), mask)
  {}

  lemma WithinAnd(a: Word, b: Word, mask: Word)
    requires Within(b, mask)
    ensures Within(And(a, b), mask)
  {}

  lemma WithinChain(a: Word, b: Word, c: Word)
    requires Within(a, b) && Within(b, c)
    ensures Within(a, c)
  {}

  lemma SameRefl(a: Word, mask: Word)
    ensures SameOutside(a, a, mask)
  {}

  lemma SameChain(a: Word, b: Word, c: Word, mask: Word)
    requires SameOutside(a, b, mask) && SameOutside(b, c, mask)
    ensures SameOutside(a, c, mask)
  {}

  lemma SameAll(a: Word, b: Word)
    ensures SameOutside(a, b, 0xffff_ffff_ffff_ffff)
  {}

  lemma SameWord(a: Word, b: Word)
    requires SameOutside(a, b, 0)
    ensures a == b
  {}

  /** A write changes one register at most, and there only bits in reach. */
  lemma WrittenWithin(values: Values, addr: nat, data: Word)
    requires Complete(values)
    ensures forall a :: a in values && a != Target(addr) ==> Written(values, addr, data)[a] == values[a]
    ensures Target(addr) in values ==>
      SameOutside(values[Target(addr)], Written(values, addr, data)[Target(addr)], Reach(addr))
  {
    hide Merge, And, WriteOp, Writable, View, Within, SameOutside, Fields;
    if addr == FFLAGS {
      WithinSelf(0x1f);
      MergeOutside(values[FCSR], data, 0x1f, 0x1f);
    } else if addr == FRM {
      WithinSelf(0xe0);
      MergeOutside(values[FCSR], data << 5, 0xe0, 0xe0);
    } else if addr == FCSR {
      SameAll(values[FCSR], And(data, 0xff));
    } else if addr == VXSAT {
      WithinSelf(0x1);
      MergeOutside(values[VCSR], data, 0x1, 0x1);
    } else if addr == VXRM {
      WithinSelf(0x6);
      MergeOutside(values[VCSR], data << 1, 0x6, 0x6);
    } else if Fields(addr).Some? {
      RegisterWithin(values, addr, data);
    }
  }

  lemma RegisterWithin(values: Values, addr: nat, data: Word)
    requires Complete(values) && Fields(addr).Some? && addr !in {FFLAGS, FRM, FCSR, VXSAT, VXRM}
    ensures SameOutside(values[Target(addr)], Written(values, addr, data)[Target(addr)], Reach(addr))
  {
    hide Merge, And, WriteOp, Writable, View, Within, SameOutside, Fields;
    var fields := Fields(addr).value;
    var op := WriteOp(fields, data);
    OpIsWritable(fields, data);
    if Shadowed(addr).Some? {
      var base := Shadowed(addr).value;
      ShadowFieldsPlain(addr);
      WritableIsVisible(fields);
      WithinChain(op, Writable(fields), View(fields));
      var both := And(WriteOp(Fields(base).value, data), op);
      WithinAnd(WriteOp(Fields(base).value, data), op, View(fields));
      MergeOutside(values[base], data, both, View(fields));
    } else {
      MergeOutside(values[addr], data, op, Writable(fields));
    }
  }

  /** The lowest privilege level that may use an address: bits 9 and 8 of it. */
  function LevelOf(addr: nat): nat { addr / 256 % 4 }

  /** `satp` is closed to the supervisor while `mstatus.TVM` traps virtual memory management. */
  predicate Trapped(values: Values, level: nat, addr: nat)
    requires MSTATUS in values
  {
    addr == 0x180 && level == 1 && And(values[0x300], 0x10_0000) != 0
  }

  predicate ReadLegal(values: Values, level: nat, addr: nat)
    requires MSTATUS in values
  {
    level >= LevelOf(addr) && !Trapped(values, level, addr)
  }

  predicate WriteLegal(values: Values, level: nat, addr: nat)
    requires MSTATUS in values
  {
    addr < 0xC00 && ReadLegal(values, level, addr)
  }

  datatype Access = Access(level: nat, addr: nat, data: Word)

  function Checked(values: Values, x: Access): (r: Values)
    requires Complete(values)
    ensures r.Keys == values.Keys
  {
    if WriteLegal(values, x.level, x.addr) then Written(values, x.addr, x.data) else values
  }

  /** The register file after the first `n` checked writes. */
  function Run(values: Values, accesses: seq<Access>, n: nat): (r: Values)
    requires Complete(values) && n <= |accesses|
    ensures r.Keys == values.Keys && Complete(r)
  {
    if n == 0 then values else Checked(Run(values, accesses, n - 1), accesses[n - 1])
  }

  /** The bits of a machine register that a supervisor register shows. */
  function Exposed(addr: nat): Word {
    if addr == MSTATUS then View(STATUS_FIELDS)
    else if addr == MIE || addr == MIP then View(SUPERVISOR_INTERRUPTS)
    else 0
  }

  /** The exposed bits of `mstatus` leave out MIE, MPIE, MPP, MPRV, TVM, TW and TSR. */
  lemma ExposedStatus()
    ensures Exposed(MSTATUS) == 0x8000_0003_018D_E762
    ensures And(Exposed(MSTATUS), 0x0072_1888) == 0
  {
    hide View;
    StatusViewHigh();
    StatusViewMiddle();
    StatusViewLow();
    assert STATUS_FIELDS[0..] == STATUS_FIELDS;
  }

  lemma StatusViewHigh()
    ensures View(STATUS_FIELDS[8..]) == 0x8000_0003_0188_0000
  {
    var f := STATUS_FIELDS;
    ViewStep(f, 12, 0x8000_0000_0000_0000, 0);
    ViewStep(f, 11, 0x3_0000_0000, 0x8000_0000_0000_0000);
    ViewStep(f, 10, 0x100_0000, 0x8000_0003_0000_0000);
    ViewStep(f, 9, 0x80_0000, 0x8000_0003_0100_0000);
    ViewStep(f, 8, 0x8_0000, 0x8000_0003_0180_0000);
  }

  lemma StatusViewMiddle()
    requires View(STATUS_FIELDS[8..]) == 0x8000_0003_0188_0000
    ensures View(STATUS_FIELDS[4..]) == 0x8000_0003_018D_E600
  {
    hide View;
    var f := STATUS_FIELDS;
    ViewStep(f, 7, 0x4_0000, 0x8000_0003_0188_0000);
    ViewStep(f, 6, 0x1_8000, 0x8000_0003_018C_0000);
    ViewStep(f, 5, 0x6000, 0x8000_0003_018D_8000);
    ViewStep(f, 4, 0x600, 0x8000_0003_018D_E000);
  }

  lemma StatusViewLow()
    requires View(STATUS_FIELDS[4..]) == 0x8000_0003_018D_E600
    ensures View(STATUS_FIELDS[0..]) == 0x8000_0003_018D_E762
  {
    hide View;
    var f := STATUS_FIELDS;
    ViewStep(f, 3, 0x100, 0x8000_0003_018D_E600);
    ViewStep(f, 2, 0x40, 0x8000_0003_018D_E700);
    ViewStep(f, 1, 0x20, 0x8000_0003_018D_E740);
    ViewStep(f, 0, 0x2, 0x8000_0003_018D_E760);
  }

  lemma ViewStep(fields: seq<Field>, i: nat, own: Word, rest: Word)
    requires i < |fields| && FieldMask(fields[i]) == own && View(fields[i + 1..]) == rest
    ensures View(fields[i..]) == own | rest
  {
    assert fields[i..][1..] == fields[i + 1..];
  }

  /** Below machine level a write stays out of the machine registers, or comes through a shadow. */
  lemma TargetBelowMachine(addr: nat)
    requires LevelOf(addr) < M && addr < READ_ONLY_FROM
    ensures LevelOf(Target(addr)) < M || Reach(addr) == Exposed(Target(addr))
  {
    hide View, Writable;
  }

  lemma CheckedConfined(values: Values, x: Access, a: nat)
    requires Complete(values) && a in values && LevelOf(a) == M && x.level < M
    ensures SameOutside(values[a], Checked(values, x)[a], Exposed(a))
  {
    hide SameOutside, Reach, Exposed, Fields, Target, Written;
    SameRefl(values[a], Exposed(a));
    if WriteLegal(values, x.level, x.addr) {
      WrittenWithin(values, x.addr, x.data);
      TargetBelowMachine(x.addr);
    }
  }

  /**
   * No run of writes checked below machine level changes a machine register, except for the
   * bits of `mstatus`, `mie` and `mip` that `sstatus`, `sie` and `sip` show.
   */
  lemma {:induction false} MachineConfined(values: Values, accesses: seq<Access>, n: nat, a: nat)
    requires Complete(values) && n <= |accesses| && a in values && LevelOf(a) == M
    requires forall i :: 0 <= i < |accesses| ==> accesses[i].level < M
    ensures SameOutside(values[a], Run(values, accesses, n)[a], Exposed(a))
  {
    hide SameOutside, Exposed, Checked, Complete;
    if n == 0 {
      SameRefl(values[a], Exposed(a));
    } else {
      MachineConfined(values, accesses, n - 1, a);
      var before := Run(values, accesses, n - 1);
      CheckedConfined(before, accesses[n - 1], a);
      SameChain(values[a], before[a], Run(values, accesses, n)[a], Exposed(a));
    }
  }

  /** Every machine register without a supervisor view comes through such a run unchanged. */
  lemma MachineUnchanged(values: Values, accesses: seq<Access>, a: nat)
    requires Complete(values) && a in values && LevelOf(a) == M && a !in {MSTATUS, MIE, MIP}
    requires forall i :: 0 <= i < |accesses| ==> accesses[i].level < M
    ensures Run(values, accesses, |accesses|)[a] == values[a]
  {
    hide Run, Complete;
    MachineConfined(values, accesses, |accesses|, a);
    SameWord(values[a], Run(values, accesses, |accesses|)[a]);
  }

  lemma VectorFieldsWritable()
    ensures Writable(Fields(VCSR).value) == 0x7
  {
    var fields := [Bits(0, 1), Bits(1, 2)];
    assert fields[1..] == [Bits(1, 2)] && fields[1..][1..] == [];
    assert Writable([]) == 0;
    assert Writable([Bits(1, 2)]) == 0x6;
  }

  lemma FixedPointWithin()
    ensures Within(0x1, 0x7) && Within(0x6, 0x7)
  {}

  lemma AndWithin(a: Word, b: Word, mask: Word)
    requires Within(a, mask)
    ensures Within(And(a, b), mask)
  {}

  lemma WrittenFrozen(values: Values, addr: nat, data: Word)
    requires Complete(values) && Target(addr) in values && Target(addr) != FCSR
    ensures SameOutside(values[Target(addr)], Written(values, addr, data)[Target(addr)],
                        Writable(Fields(Target(addr)).value))
  {
    hide Merge, And, WriteOp, Writable, View, Within, SameOutside, Fields;
    if addr == VXSAT || addr == VXRM {
      VectorFieldsWritable();
      FixedPointWithin();
      MergeOutside(values[VCSR], data, 0x1, 0x7);
      MergeOutside(values[VCSR], data << 1, 0x6, 0x7);
    } else {
      var target := Fields(Target(addr)).value;
      var op := WriteOp(target, data);
      OpIsWritable(target, data);
      MergeOutside(values[Target(addr)], data, op, Writable(target));
      if Shadowed(addr).Some? {
        var own := WriteOp(Fields(addr).value, data);
        AndWithin(op, own, Writable(target));
        MergeOutside(values[Target(addr)], data, And(op, own), Writable(target));
      }
    }
  }

  /** The bits outside every writable field; `fcsr` instead clears all but its low byte. */
  lemma CheckedFrozen(values: Values, x: Access, a: nat)
    requires Complete(values) && a in values && a != FCSR
    ensures SameOutside(values[a], Checked(values, x)[a], Writable(Fields(a).value))
  {
    hide SameOutside, Fields, Written, Writable, LevelOf;
    SameRefl(values[a], Writable(Fields(a).value));
    if WriteLegal(values, x.level, x.addr) {
      WrittenWithin(values, x.addr, x.data);
      if a == Target(x.addr) {
        WrittenFrozen(values, x.addr, x.data);
      }
    }
  }

  /** In every run, at whatever levels, reserved and read-only bits keep their value. */
  lemma {:induction false} ReservedBitsKept(values: Values, accesses: seq<Access>, n: nat, a: nat)
    requires Complete(values) && n <= |accesses| && a in values && a != FCSR
    ensures SameOutside(values[a], Run(values, accesses, n)[a], Writable(Fields(a).value))
  {
    hide SameOutside, Checked, Writable, Fields;
    var mask := Writable(Fields(a).value);
    if n == 0 {
      SameRefl(values[a], mask);
    } else {
      ReservedBitsKept(values, accesses, n - 1, a);
      var before := Run(values, accesses, n - 1);
      CheckedFrozen(before, accesses[n - 1], a);
      SameChain(values[a], before[a], Run(values, accesses, n)[a], mask);
    }
  }

  lemma MergeInside(was: Word, data: Word, op: Word)
    ensures And(Merge(was, data, op), op) == And(data, op)
  {}

  /** Masking with a larger set of bits does not matter on the smaller one. */
  lemma MaskedInside(a: Word, b: Word, op: Word, view: Word)
    requires Within(op, view) && And(a, op) == And(b, op)
    ensures And(And(a, view), op) == And(b, op)
  {}

  lemma MaskedOutside(a: Word, b: Word, op: Word, view: Word)
    requires SameOutside(a, b, op)
    ensures SameOutside(And(a, view), And(b, view), op)
  {}

  lemma ShadowAccess(values: Values, addr: nat, data: Word)
    requires Complete(values) && Shadowed(addr).Some?
    ensures var base := Shadowed(addr).value;
      && Written(values, addr, data) == values[base :=
           Merge(values[base], data, And(WriteOp(Fields(base).value, data), WriteOp(Fields(addr).value, data)))]
      && Read(values, addr) == Some(And(values[base], View(Fields(addr).value)))
  {
    hide Merge, And, WriteOp, View, Fields;
  }

  /** Reading a shadow register back gives the written word on the bits both validators accept, the old one elsewhere. */
  lemma ShadowReadBack(values: Values, addr: nat, data: Word)
    requires Complete(values) && Shadowed(addr).Some?
    ensures
      var op := And(WriteOp(Fields(Shadowed(addr).value).value, data), WriteOp(Fields(addr).value, data));
      var before, after := Read(values, addr), Read(Written(values, addr, data), addr);
      && before.Some? && after.Some?
      && And(after.value, op) == And(data, op) && SameOutside(before.value, after.value, op)
  {
    hide Merge, And, WriteOp, Writable, View, Within, Fields, PlainFields, Read, Written, SameOutside;
    var base := Shadowed(addr).value;
    ShadowAccess(values, addr, data);
    ShadowAccess(Written(values, addr, data), addr, data);
    var own, view := WriteOp(Fields(addr).value, data), View(Fields(addr).value);
    OpIsWritable(Fields(addr).value, data);
    ShadowFieldsPlain(addr);
    WritableIsVisible(Fields(addr).value);
    WithinChain(own, Writable(Fields(addr).value), view);
    WithinAnd(WriteOp(Fields(base).value, data), own, view);
    var op := And(WriteOp(Fields(base).value, data), own);
    var merged := Merge(values[base], data, op);
    MergeInside(values[base], data, op);
    MaskedInside(merged, data, op, view);
    WithinSelf(op);
    MergeOutside(values[base], data, op, op);
    MaskedOutside(values[base], merged, op, view);
  }

  lemma FloatBits(was: Word, data: Word)
    ensures Merge(was, data, 0x1f) & 0x1f == data & 0x1f
    ensures (Merge(was, data, 0x1f) >> 5) & 0x7 == (was >> 5) & 0x7
    ensures (Merge(was, data << 5, 0xe0) >> 5) & 0x7 == data & 0x7
    ensures Merge(was, data << 5, 0xe0) & 0x1f == was & 0x1f
  {}

  /** `fflags` and `frm` are independent parts of `fcsr`. */
  lemma FloatParts(values: Values, data: Word)
    requires Complete(values)
    ensures Read(Written(values, FFLAGS, data), FFLAGS) == Some(data & 0x1f)
    ensures Read(Written(values, FFLAGS, data), FRM) == Read(values, FRM)
    ensures Read(Written(values, FRM, data), FRM) == Some(data & 0x7)
    ensures Read(Written(values, FRM, data), FFLAGS) == Read(values, FFLAGS)
  {
    hide Merge, Fields, Shadowed;
    FloatBits(values[FCSR], data);
  }

  lemma FixedPointBits(was: Word, data: Word)
    ensures Merge(was, data, 0x1) & 0x1 == data & 0x1
    ensures (Merge(was, data, 0x1) >> 1) & 0x3 == (was >> 1) & 0x3
    ensures (Merge(was, data << 1, 0x6) >> 1) & 0x3 == data & 0x3
    ensures Merge(was, data << 1, 0x6) & 0x1 == was & 0x1
  {}

  /** `vxsat` and `vxrm` are independent parts of `vcsr`. */
  lemma FixedPointParts(values: Values, data: Word)
    requires Complete(values)
    ensures Read(Written(values, VXSAT, data), VXSAT) == Some(data & 0x1)
    ensures Read(Written(values, VXSAT, data), VXRM) == Read(values, VXRM)
    ensures Read(Written(values, VXRM, data), VXRM) == Some(data & 0x3)
    ensures Read(Written(values, VXRM, data), VXSAT) == Read(values, VXSAT)
  {
    hide Merge, Fields, Shadowed;
    FixedPointBits(values[VCSR], data);
  }

  lemma TrapVectorOp(data: Word)
    ensures WriteOp(TRAP_VECTOR, data) == if data & 0x7 <= 1 then 0xffff_ffff_ffff_ffff else 0xffff_ffff_ffff_fffc
  {
    assert TRAP_VECTOR[1..] == [Bits(2, 62)] && TRAP_VECTOR[1..][1..] == [];
    assert WriteOp([], data) == 0;
    assert FieldOp(Bits(2, 62), data) == 0xffff_ffff_ffff_fffc;
    assert FieldOp(TRAP_VECTOR[0], data) == if data & 0x7 <= 1 then 0x7 else 0;
  }

  lemma TrapVectorBits(was: Word, data: Word)
    ensures Merge(was, data, 0xffff_ffff_ffff_ffff) == data
    ensures Merge(was, data, 0xffff_ffff_ffff_fffc) & 0x3 == was & 0x3
    ensures Merge(was, data, 0xffff_ffff_ffff_fffc) & !0x3 == data & !0x3
  {}

  /**
   * `mtvec` always takes the base. It takes the mode exactly when the word's low three bits are
   * 0 or 1, so a base whose lowest bit is set keeps the previous mode.
   */
  lemma TrapModeTakenIff(values: Values, data: Word)
    requires Complete(values) && MTVEC in values
    ensures
      var after := Written(values, MTVEC, data)[MTVEC];
      && after & !0x3 == data & !0x3
      && (after & 0x3 == data & 0x3 <==> data & 0x7 <= 1 || values[MTVEC] & 0x3 == data & 0x3)
  {
    hide WriteOp, Merge;
    TrapVectorOp(data);
    TrapVectorBits(values[MTVEC], data);
  }

  /** A direct-mode vector at 4 modulo 8 leaves a vectored-mode register in vectored mode. */
  lemma TrapModeLost(values: Values)
    requires Complete(values) && MTVEC in values && values[MTVEC] == 0x1
    ensures Written(values, MTVEC, 0x104)[MTVEC] == 0x105
  {
    hide WriteOp;
    TrapVectorOp(0x104);
  }

  /** Address ranges in ascending order, each with its lowest level. */
  function Privileges(): (r: seq<(nat, nat)>)
    ensures |r| == 38
  {
    [
      (0x000, 0), (0x100, 1), (0x200, 2), (0x300, 3), (0x400, 0), (0x500, 1), (0x580, 1), (0x5C0, 1),
      (0x600, 2), (0x680, 2), (0x6C0, 2), (0x700, 3), (0x780, 3), (0x7A0, 3), (0x7B0, 3), (0x7C0, 3),
      (0x800, 0), (0x900, 1), (0x980, 1), (0x9C0, 1), (0xA00, 2), (0xA80, 2), (0xAC0, 2), (0xB00, 3),
      (0xB80, 3), (0xBC0, 3), (0xC00, 0), (0xC80, 0), (0xCC0, 0), (0xD00, 1), (0xD80, 1), (0xDC0, 1),
      (0xE00, 2), (0xE80, 2), (0xEC0, 2), (0xF00, 3), (0xF80, 3), (0xFC0, 3)]
  }

  lemma FirstKey()
    ensures Privileges()[0].0 == 0
  {}

  lemma AscendingKeys()
    ensures forall i :: 0 <= i < 37 ==> Privileges()[i].0 < Privileges()[i + 1].0
  {}

  lemma {:induction false} KeysSorted(i: nat, j: nat)
    requires i < j < |Privileges()|
    ensures Privileges()[i].0 < Privileges()[j].0
    decreases j
  {
    hide Privileges;
    AscendingKeys();
    if i < j - 1 { KeysSorted(i, j - 1); }
  }

  /** Every entry carries the level that its address encodes. */
  lemma KeyLevels()
    ensures forall i :: 0 <= i < |Privileges()| ==> Privileges()[i].1 == LevelOf(Privileges()[i].0)
  {}

  /** Every block of 256 addresses starts an entry. */
  lemma BlockStart(b: nat) returns (i: nat)
    requires b < 16
    ensures i < |Privileges()| && Privileges()[i].0 == 256 * b
  {
    i := [0, 1, 2, 3, 4, 5, 8, 11, 16, 17, 20, 23, 26, 29, 32, 35][b];
  }

  /** The last entry at or below an address has the address's level. */
  lemma LastEntryLevel(addr: nat, i: nat)
    requires addr < CSR_SIZE && i < |Privileges()| && Privileges()[i].0 <= addr
    requires i + 1 < |Privileges()| ==> addr < Privileges()[i + 1].0
    ensures Privileges()[i].1 == LevelOf(addr)
  {
    hide LevelOf, Privileges;
    var start := BlockStart(addr / 256);
    KeyLevels();
    if i + 1 < |Privileges()| && i < start {
      if i + 1 < start { KeysSorted(i + 1, start); }
      assert false;
    }
    if start < i { KeysSorted(start, i); }
    SameBlock(Privileges()[i].0, addr);
  }

  lemma SameBlock(key: nat, addr: nat)
    requires addr / 256 * 256 <= key <= addr
    ensures LevelOf(key) == LevelOf(addr)
  {}

  class CsrRegFile {
    var values: Values
    var level: nat

    ghost predicate Valid()
      reads this
    {
      Complete(values) && level <= M
    }

    constructor ()
      ensures Valid() && level == M && forall a :: a in values ==> values[a] == 0
    {
      values := map a: nat | 0 <= a < CSR_SIZE && Fields(a).Some? :: 0;
      level := M;
    }

    method SetLevel(to: nat)
      requires Valid() && to <= M
      modifies this`level
      ensures Valid() && level == to
    {
      level := to;
    }

    /** Binary search for the last range that starts at or below the address. */
    method IsReadPrivLegal(addr: nat) returns (legal: bool)
      requires Valid() && addr < CSR_SIZE
      ensures legal == ReadLegal(values, level, addr)
    {
      hide And, Privileges;
      FirstKey();
      if addr == SATP && level == S && And(values[MSTATUS], TVM) != 0 {
        return false;
      }
      var lo, hi := 0, |Privileges()|;
      while hi - lo > 1
        invariant 0 <= lo < hi <= |Privileges()| && Privileges()[lo].0 <= addr
        invariant hi < |Privileges()| ==> addr < Privileges()[hi].0
      {
        var mid := (lo + hi) / 2;
        if Privileges()[mid].0 <= addr { lo := mid; } else { hi := mid; }
      }
      LastEntryLevel(addr, lo);
      legal := level >= Privileges()[lo].1;
    }

    method IsWritePrivLegal(addr: nat) returns (legal: bool)
      requires Valid() && addr < CSR_SIZE
      ensures legal == WriteLegal(values, level, addr)
    {
      if addr >= READ_ONLY_FROM {
        legal := false;
      } else {
        legal := IsReadPrivLegal(addr);
      }
    }

    method ReadChecked(addr: nat) returns (r: Option<Word>)
      requires Valid() && addr < CSR_SIZE
      ensures r == if ReadLegal(values, level, addr) then Read(values, addr) else None
    {
      var legal := IsReadPrivLegal(addr);
      r := if legal then Read(values, addr) else None;
    }

    method WriteChecked(addr: nat, data: Word) returns (ok: bool)
      requires Valid() && addr < CSR_SIZE
      modifies this`values
      ensures Valid() && values == Checked(old(values), Access(level, addr, data))
      ensures ok == WriteLegal(old(values), level, addr)
    {
      ok := IsWritePrivLegal(addr);
      if ok {
        WriteUnchecked(addr, data);
      }
    }

    method WriteUnchecked(addr: nat, data: Word)
      requires Valid() && addr < CSR_SIZE
      modifies this`values
      ensures Valid() && values == Written(old(values), addr, data)
    {
      hide Merge, And, WriteOp, Fields;
      if addr == FFLAGS {
        values := values[FCSR := Merge(values[FCSR], data, 0x1f)];
      } else if addr == FRM {
        values := values[FCSR := Merge(values[FCSR], data << 5, 0xe0)];
      } else if addr == FCSR {
        values := values[FCSR := And(data, 0xff)];
      } else if addr == VXSAT {
        values := values[VCSR := Merge(values[VCSR], data, 0x1)];
      } else if addr == VXRM {
        values := values[VCSR := Merge(values[VCSR], data << 1, 0x6)];
      } else if addr in values {
        var op := WriteOp(Fields(addr).value, data);
        var base := Shadowed(addr);
        if base.Some? {
          var both := And(WriteOp(Fields(base.value).value, data), op);
          values := values[base.value := Merge(values[base.value], data, both)];
        } else {
          values := values[addr := Merge(values[addr], data, op)];
        }
      }
    }
  }
}

/** What each register reads after a write, written out bit by bit. */
module CsrReadBack {
  import opened Wrappers
  import opened CsrFields
  import opened CsrFile

  /** The bits of each register that a write changes; `mtvec` and `fcsr` are stated on their own. */
  function WriteMask(addr: nat): Word {
    if addr == 0x300 then 0x8000_07F0_01FE_7FEA                  // mstatus
    else if addr == 0x100 then 0x8000_0000_018C_6762             // sstatus
    else if addr == 0x304 || addr == 0x344 then 0x3FFF           // mie, mip
    else if addr == 0x104 || addr == 0x144 then 0x333            // sie, sip
    else if addr == 0x302 then 0xBBFF                            // medeleg
    else if addr == 0x303 then 0x222                             // mideleg
    else if addr == 0x00f then 0x7                               // vcsr
    else if addr in {0x301, 0x320, 0xc21} then 0                 // misa, mcountinhibit, vtype
    else if addr in {0xC00, 0xC02, 0xF11, 0xF12, 0xF13, 0xF14} then 0     // cycle, instret, identification
    else 0xFFFF_FFFF_FFFF_FFFF
  }

  /** The bits that each register shows of the one it stands for. */
  function ViewMask(addr: nat): Word {
    if addr == 0x100 then 0x8000_0003_018D_E762
    else if addr == 0x104 || addr == 0x144 then 0x333
    else 0xFFFF_FFFF_FFFF_FFFF
  }

  /** The register whose bits are read: `mstatus`, `mie`, `mip`, `mcycle` and `minstret` for their shadows. */
  function Behind(addr: nat): nat {
    if addr == 0x100 then 0x300
    else if addr == 0x104 then 0x304
    else if addr == 0x144 then 0x344
    else if addr == 0xC00 then 0xB00
    else if addr == 0xC02 then 0xB02
    else addr
  }

  lemma NoFields()
    ensures Writable([]) == 0 && View([]) == 0
  {}

  lemma WritableStep(fields: seq<Field>, i: nat, own: Word, rest: Word)
    requires i < |fields| && FieldReach(fields[i]) == own && Writable(fields[i + 1..]) == rest
    ensures Writable(fields[i..]) == own | rest
  {
    assert fields[i..][1..] == fields[i + 1..];
  }

  /** Without range checks the accepted bits do not depend on the written word. */
  lemma {:induction false} PlainOp(fields: seq<Field>, w: Word)
    requires PlainFields(fields)
    ensures WriteOp(fields, w) == Writable(fields)
  {
    hide Or, MakeMask, FieldMask;
    if fields != [] {
      assert PlainFields(fields[1..]);
      PlainOp(fields[1..], w);
    }
  }

  /** A register of writable fields only shows what can be written. */
  lemma {:induction false} AllWritable(fields: seq<Field>)
    requires forall f :: f in fields ==> f.rule.Any?
    ensures View(fields) == Writable(fields)
  {
    hide Or, MakeMask, FieldMask;
    if fields != [] {
      assert forall f :: f in fields[1..] ==> f in fields;
      AllWritable(fields[1..]);
    }
  }

  lemma MachineStatusWritableFrom24()
    ensures Writable(MACHINE_STATUS[24..]) == 0x8000_0700_0000_0000
  {
    hide Writable;
    NoFields();
    assert MACHINE_STATUS[28..] == [];
    WritableStep(MACHINE_STATUS, 27, 0x8000_0000_0000_0000, 0x0);
    WritableStep(MACHINE_STATUS, 26, 0x400_0000_0000, 0x8000_0000_0000_0000);
    WritableStep(MACHINE_STATUS, 25, 0x200_0000_0000, 0x8000_0400_0000_0000);
    WritableStep(MACHINE_STATUS, 24, 0x100_0000_0000, 0x8000_0600_0000_0000);
  }

  lemma MachineStatusWritableFrom20()
    requires Writable(MACHINE_STATUS[24..]) == 0x8000_0700_0000_0000
    ensures Writable(MACHINE_STATUS[20..]) == 0x8000_07F0_0000_0000
  {
    hide Writable;
    WritableStep(MACHINE_STATUS, 23, 0x80_0000_0000, 0x8000_0700_0000_0000);
    WritableStep(MACHINE_STATUS, 22, 0x40_0000_0000, 0x8000_0780_0000_0000);
    WritableStep(MACHINE_STATUS, 21, 0x20_0000_0000, 0x8000_07C0_0000_0000);
    WritableStep(MACHINE_STATUS, 20, 0x10_0000_0000, 0x8000_07E0_0000_0000);
  }

  lemma MachineStatusWritableFrom16()
    requires Writable(MACHINE_STATUS[20..]) == 0x8000_07F0_0000_0000
    ensures Writable(MACHINE_STATUS[16..]) == 0x8000_07F0_0180_0000
  {
    hide Writable;
    WritableStep(MACHINE_STATUS, 19, 0x0, 0x8000_07F0_0000_0000);
    WritableStep(MACHINE_STATUS, 18, 0x0, 0x8000_07F0_0000_0000);
    WritableStep(MACHINE_STATUS, 17, 0x100_0000, 0x8000_07F0_0000_0000);
    WritableStep(MACHINE_STATUS, 16, 0x80_0000, 0x8000_07F0_0100_0000);
  }

  lemma MachineStatusWritableFrom12()
    requires Writable(MACHINE_STATUS[16..]) == 0x8000_07F0_0180_0000
    ensures Writable(MACHINE_STATUS[12..]) == 0x8000_07F0_01F8_0000
  {
    hide Writable;
    WritableStep(MACHINE_STATUS, 15, 0x40_0000, 0x8000_07F0_0180_0000);
    WritableStep(MACHINE_STATUS, 14, 0x20_0000, 0x8000_07F0_01C0_0000);
    WritableStep(MACHINE_STATUS, 13, 0x10_0000, 0x8000_07F0_01E0_0000);
    WritableStep(MACHINE_STATUS, 12, 0x8_0000, 0x8000_07F0_01F0_0000);
  }

  lemma MachineStatusWritableFrom8()
    requires Writable(MACHINE_STATUS[12..]) == 0x8000_07F0_01F8_0000
    ensures Writable(MACHINE_STATUS[8..]) == 0x8000_07F0_01FE_6000
  {
    hide Writable;
    WritableStep(MACHINE_STATUS, 11, 0x4_0000, 0x8000_07F0_01F8_0000);
    WritableStep(MACHINE_STATUS, 10, 0x2_0000, 0x8000_07F0_01FC_0000);
    WritableStep(MACHINE_STATUS, 9, 0x0, 0x8000_07F0_01FE_0000);
    WritableStep(MACHINE_STATUS, 8, 0x6000, 0x8000_07F0_01FE_0000);
  }

  lemma MachineStatusWritableFrom4()
    requires Writable(MACHINE_STATUS[8..]) == 0x8000_07F0_01FE_6000
    ensures Writable(MACHINE_STATUS[4..]) == 0x8000_07F0_01FE_7F80
  {
    hide Writable;
    WritableStep(MACHINE_STATUS, 7, 0x1800, 0x8000_07F0_01FE_6000);
    WritableStep(MACHINE_STATUS, 6, 0x600, 0x8000_07F0_01FE_7800);
    WritableStep(MACHINE_STATUS, 5, 0x100, 0x8000_07F0_01FE_7E00);
    WritableStep(MACHINE_STATUS, 4, 0x80, 0x8000_07F0_01FE_7F00);
  }

  lemma MachineStatusWritableFrom0()
    requires Writable(MACHINE_STATUS[4..]) == 0x8000_07F0_01FE_7F80
    ensures Writable(MACHINE_STATUS[0..]) == 0x8000_07F0_01FE_7FEA
  {
    hide Writable;
    WritableStep(MACHINE_STATUS, 3, 0x40, 0x8000_07F0_01FE_7F80);
    WritableStep(MACHINE_STATUS, 2, 0x20, 0x8000_07F0_01FE_7FC0);
    WritableStep(MACHINE_STATUS, 1, 0x8, 0x8000_07F0_01FE_7FE0);
    WritableStep(MACHINE_STATUS, 0, 0x2, 0x8000_07F0_01FE_7FE8);
  }

  lemma MachineStatusWritable()
    ensures Writable(MACHINE_STATUS) == 0x8000_07F0_01FE_7FEA
  {
    hide Writable;
    MachineStatusWritableFrom24();
    MachineStatusWritableFrom20();
    MachineStatusWritableFrom16();
    MachineStatusWritableFrom12();
    MachineStatusWritableFrom8();
    MachineStatusWritableFrom4();
    MachineStatusWritableFrom0();
    assert MACHINE_STATUS[0..] == MACHINE_STATUS;
  }

  lemma StatusWritableFrom9()
    ensures Writable(STATUS_FIELDS[9..]) == 0x8000_0000_0180_0000
  {
    hide Writable;
    NoFields();
    assert STATUS_FIELDS[13..] == [];
    WritableStep(STATUS_FIELDS, 12, 0x8000_0000_0000_0000, 0x0);
    WritableStep(STATUS_FIELDS, 11, 0x0, 0x8000_0000_0000_0000);
    WritableStep(STATUS_FIELDS, 10, 0x100_0000, 0x8000_0000_0000_0000);
    WritableStep(STATUS_FIELDS, 9, 0x80_0000, 0x8000_0000_0100_0000);
  }

  lemma StatusWritableFrom5()
    requires Writable(STATUS_FIELDS[9..]) == 0x8000_0000_0180_0000
    ensures Writable(STATUS_FIELDS[5..]) == 0x8000_0000_018D_E000
  {
    hide Writable;
    WritableStep(STATUS_FIELDS, 8, 0x8_0000, 0x8000_0000_0180_0000);
    WritableStep(STATUS_FIELDS, 7, 0x4_0000, 0x8000_0000_0188_0000);
    WritableStep(STATUS_FIELDS, 6, 0x1_8000, 0x8000_0000_018C_0000);
    WritableStep(STATUS_FIELDS, 5, 0x6000, 0x8000_0000_018D_8000);
  }

  lemma StatusWritableFrom1()
    requires Writable(STATUS_FIELDS[5..]) == 0x8000_0000_018D_E000
    ensures Writable(STATUS_FIELDS[1..]) == 0x8000_0000_018D_E760
  {
    hide Writable;
    WritableStep(STATUS_FIELDS, 4, 0x600, 0x8000_0000_018D_E000);
    WritableStep(STATUS_FIELDS, 3, 0x100, 0x8000_0000_018D_E600);
    WritableStep(STATUS_FIELDS, 2, 0x40, 0x8000_0000_018D_E700);
    WritableStep(STATUS_FIELDS, 1, 0x20, 0x8000_0000_018D_E740);
  }

  lemma StatusWritableFrom0()
    requires Writable(STATUS_FIELDS[1..]) == 0x8000_0000_018D_E760
    ensures Writable(STATUS_FIELDS[0..]) == 0x8000_0000_018D_E762
  {
    hide Writable;
    WritableStep(STATUS_FIELDS, 0, 0x2, 0x8000_0000_018D_E760);
  }

  lemma StatusWritable()
    ensures Writable(STATUS_FIELDS) == 0x8000_0000_018D_E762
  {
    hide Writable;
    StatusWritableFrom9();
    StatusWritableFrom5();
    StatusWritableFrom1();
    StatusWritableFrom0();
    assert STATUS_FIELDS[0..] == STATUS_FIELDS;
  }

  lemma SupervisorWritableFrom2()
    ensures Writable(SUPERVISOR_INTERRUPTS[2..]) == 0x330
  {
    hide Writable;
    NoFields();
    assert SUPERVISOR_INTERRUPTS[6..] == [];
    WritableStep(SUPERVISOR_INTERRUPTS, 5, 0x200, 0x0);
    WritableStep(SUPERVISOR_INTERRUPTS, 4, 0x100, 0x200);
    WritableStep(SUPERVISOR_INTERRUPTS, 3, 0x20, 0x300);
    WritableStep(SUPERVISOR_INTERRUPTS, 2, 0x10, 0x320);
  }

  lemma SupervisorWritableFrom0()
    requires Writable(SUPERVISOR_INTERRUPTS[2..]) == 0x330
    ensures Writable(SUPERVISOR_INTERRUPTS[0..]) == 0x333
  {
    hide Writable;
    WritableStep(SUPERVISOR_INTERRUPTS, 1, 0x2, 0x330);
    WritableStep(SUPERVISOR_INTERRUPTS, 0, 0x1, 0x332);
  }

  lemma SupervisorWritable()
    ensures Writable(SUPERVISOR_INTERRUPTS) == 0x333
  {
    hide Writable;
    SupervisorWritableFrom2();
    SupervisorWritableFrom0();
    assert SUPERVISOR_INTERRUPTS[0..] == SUPERVISOR_INTERRUPTS;
  }

  lemma InterruptsWritableFrom10()
    ensures Writable(MACHINE_INTERRUPTS[10..]) == 0x3C00
  {
    hide Writable;
    NoFields();
    assert MACHINE_INTERRUPTS[14..] == [];
    WritableStep(MACHINE_INTERRUPTS, 13, 0x2000, 0x0);
    WritableStep(MACHINE_INTERRUPTS, 12, 0x1000, 0x2000);
    WritableStep(MACHINE_INTERRUPTS, 11, 0x800, 0x3000);
    WritableStep(MACHINE_INTERRUPTS, 10, 0x400, 0x3800);
  }

  lemma InterruptsWritableFrom6()
    requires Writable(MACHINE_INTERRUPTS[10..]) == 0x3C00
    ensures Writable(MACHINE_INTERRUPTS[6..]) == 0x3FC0
  {
    hide Writable;
    WritableStep(MACHINE_INTERRUPTS, 9, 0x200, 0x3C00);
    WritableStep(MACHINE_INTERRUPTS, 8, 0x100, 0x3E00);
    WritableStep(MACHINE_INTERRUPTS, 7, 0x80, 0x3F00);
    WritableStep(MACHINE_INTERRUPTS, 6, 0x40, 0x3F80);
  }

  lemma InterruptsWritableFrom2()
    requires Writable(MACHINE_INTERRUPTS[6..]) == 0x3FC0
    ensures Writable(MACHINE_INTERRUPTS[2..]) == 0x3FFC
  {
    hide Writable;
    WritableStep(MACHINE_INTERRUPTS, 5, 0x20, 0x3FC0);
    WritableStep(MACHINE_INTERRUPTS, 4, 0x10, 0x3FE0);
    WritableStep(MACHINE_INTERRUPTS, 3, 0x8, 0x3FF0);
    WritableStep(MACHINE_INTERRUPTS, 2, 0x4, 0x3FF8);
  }

  lemma InterruptsWritableFrom0()
    requires Writable(MACHINE_INTERRUPTS[2..]) == 0x3FFC
    ensures Writable(MACHINE_INTERRUPTS[0..]) == 0x3FFF
  {
    hide Writable;
    WritableStep(MACHINE_INTERRUPTS, 1, 0x2, 0x3FFC);
    WritableStep(MACHINE_INTERRUPTS, 0, 0x1, 0x3FFE);
  }

  lemma InterruptsWritable()
    ensures Writable(MACHINE_INTERRUPTS) == 0x3FFF
  {
    hide Writable;
    InterruptsWritableFrom10();
    InterruptsWritableFrom6();
    InterruptsWritableFrom2();
    InterruptsWritableFrom0();
    assert MACHINE_INTERRUPTS[0..] == MACHINE_INTERRUPTS;
  }

  lemma ExceptionsWritableFrom10()
    ensures Writable(EXCEPTIONS[10..]) == 0xB800
  {
    hide Writable;
    NoFields();
    assert EXCEPTIONS[14..] == [];
    WritableStep(EXCEPTIONS, 13, 0x8000, 0x0);
    WritableStep(EXCEPTIONS, 12, 0x2000, 0x8000);
    WritableStep(EXCEPTIONS, 11, 0x1000, 0xA000);
    WritableStep(EXCEPTIONS, 10, 0x800, 0xB000);
  }

  lemma ExceptionsWritableFrom6()
    requires Writable(EXCEPTIONS[10..]) == 0xB800
    ensures Writable(EXCEPTIONS[6..]) == 0xBBC0
  {
    hide Writable;
    WritableStep(EXCEPTIONS, 9, 0x200, 0xB800);
    WritableStep(EXCEPTIONS, 8, 0x100, 0xBA00);
    WritableStep(EXCEPTIONS, 7, 0x80, 0xBB00);
    WritableStep(EXCEPTIONS, 6, 0x40, 0xBB80);
  }

  lemma ExceptionsWritableFrom2()
    requires Writable(EXCEPTIONS[6..]) == 0xBBC0
    ensures Writable(EXCEPTIONS[2..]) == 0xBBFC
  {
    hide Writable;
    WritableStep(EXCEPTIONS, 5, 0x20, 0xBBC0);
    WritableStep(EXCEPTIONS, 4, 0x10, 0xBBE0);
    WritableStep(EXCEPTIONS, 3, 0x8, 0xBBF0);
    WritableStep(EXCEPTIONS, 2, 0x4, 0xBBF8);
  }

  lemma ExceptionsWritableFrom0()
    requires Writable(EXCEPTIONS[2..]) == 0xBBFC
    ensures Writable(EXCEPTIONS[0..]) == 0xBBFF
  {
    hide Writable;
    WritableStep(EXCEPTIONS, 1, 0x2, 0xBBFC);
    WritableStep(EXCEPTIONS, 0, 0x1, 0xBBFE);
  }

  lemma ExceptionsWritable()
    ensures Writable(EXCEPTIONS) == 0xBBFF
  {
    hide Writable;
    ExceptionsWritableFrom10();
    ExceptionsWritableFrom6();
    ExceptionsWritableFrom2();
    ExceptionsWritableFrom0();
    assert EXCEPTIONS[0..] == EXCEPTIONS;
  }

  lemma OneField(f: Field, own: Word)
    requires FieldReach(f) == own
    ensures Writable([f]) == own
  {
    hide FieldReach;
    NoFields();
    assert [f][1..] == [];
  }

  lemma TwoFields(f: Field, g: Field, a: Word, b: Word)
    requires FieldReach(f) == a && FieldReach(g) == b
    ensures Writable([f, g]) == a | b
  {
    hide FieldReach;
    assert [f, g][1..] == [g];
    OneField(g, b);
  }

  lemma ThreeFields(f: Field, g: Field, h: Field, a: Word, b: Word, c: Word)
    requires FieldReach(f) == a && FieldReach(g) == b && FieldReach(h) == c
    ensures Writable([f, g, h]) == a | (b | c)
  {
    hide FieldReach;
    assert [f, g, h][1..] == [g, h];
    TwoFields(g, h, b, c);
  }

  /** The registers with few fields. */
  lemma OneFieldRegisters()
    ensures Writable(WHOLE) == 0xFFFF_FFFF_FFFF_FFFF && Writable(WHOLE_FIXED) == 0
    ensures Writable(VTYPE) == 0 && Writable(FieldList(0x301)) == 0
  {
    hide Writable;
    FixedWritable(VTYPE);
    FixedWritable(FieldList(0x301));
    OneField(Bits(0, 64), 0xFFFF_FFFF_FFFF_FFFF);
    OneField(Fixed(0, 64), 0);
  }

  lemma TwoFieldRegisters()
    ensures Writable(FieldList(0x00f)) == 0x7 && Writable(CAUSE) == 0xFFFF_FFFF_FFFF_FFFF
    ensures Writable(FieldList(0x105)) == 0xFFFF_FFFF_FFFF_FFFF
  {
    hide Writable;
    TwoFields(Bits(0, 1), Bits(1, 2), 0x1, 0x6);
    TwoFields(Bits(0, 2), Bits(2, 62), 0x3, 0xFFFF_FFFF_FFFF_FFFC);
    TwoFields(Bits(0, 63), Bits(63, 1), 0x7FFF_FFFF_FFFF_FFFF, 0x8000_0000_0000_0000);
  }

  lemma ThreeFieldRegisters()
    ensures Writable(FieldList(0x180)) == 0xFFFF_FFFF_FFFF_FFFF && Writable(FieldList(0x303)) == 0x222
  {
    hide Writable;
    ThreeFields(Bits(1, 1), Bits(5, 1), Bits(9, 1), 0x2, 0x20, 0x200);
    ThreeFields(Bits(0, 44), Bits(44, 16), Bits(60, 4), 0xFFF_FFFF_FFFF, 0x0FFF_F000_0000_0000, 0xF000_0000_0000_0000);
  }

  lemma {:induction false} FixedWritable(fields: seq<Field>)
    requires forall f :: f in fields ==> f.rule.ReadOnly?
    ensures Writable(fields) == 0
  {
    if fields != [] {
      assert forall f :: f in fields[1..] ==> f in fields;
      FixedWritable(fields[1..]);
      NothingAdded();
    }
  }

  lemma NothingAdded()
    ensures Or(0, 0) == 0
  {}

  lemma MachineStatusPlain()
    ensures PlainFields(MACHINE_STATUS)
  {}

  lemma MachineInterruptsPlain()
    ensures PlainFields(MACHINE_INTERRUPTS) && PlainFields(EXCEPTIONS)
  {}

  /** The bits that the fields of every register but `mtvec` and `fcsr` accept. */
  lemma RegisterMask(addr: nat)
    requires Implemented(addr) && addr != MTVEC && addr != FCSR
    ensures PlainFields(FieldList(addr))
    ensures Writable(FieldList(addr)) == if addr == SSTATUS then 0x8000_0000_018D_E762 else WriteMask(addr)
  {
    hide Writable, PlainFields, Bits, Fixed;
    if addr == MSTATUS {
      MachineStatusPlain();
      MachineStatusWritable();
    } else if addr == SSTATUS {
      StatusFieldsPlain();
      StatusWritable();
    } else if addr == SIE || addr == SIP {
      InterruptFieldsPlain();
      SupervisorWritable();
    } else if addr == MIE || addr == MIP {
      MachineInterruptsPlain();
      InterruptsWritable();
    } else if addr == 0x302 {
      MachineInterruptsPlain();
      ExceptionsWritable();
    } else {
      SmallMask(addr);
    }
  }

  lemma SmallMask(addr: nat)
    requires Implemented(addr) && addr !in {MTVEC, FCSR, MSTATUS, SSTATUS, SIE, SIP, MIE, MIP, 0x302}
    ensures PlainFields(FieldList(addr)) && Writable(FieldList(addr)) == WriteMask(addr)
  {
    hide Writable, PlainFields, Bits, Fixed;
    SmallPlain();
    OneFieldRegisters();
    TwoFieldRegisters();
    ThreeFieldRegisters();
  }

  lemma SmallPlain()
    ensures PlainFields(FieldList(0x00f)) && PlainFields(FieldList(0x180)) && PlainFields(FieldList(0x105))
    ensures PlainFields(FieldList(0x303)) && PlainFields(CAUSE) && PlainFields(FieldList(0x301))
    ensures PlainFields(WHOLE) && PlainFields(WHOLE_FIXED) && PlainFields(VTYPE)
  {
    hide FieldMask, MakeMask;
  }

  lemma RegisterOp(addr: nat, data: Word)
    requires Implemented(addr) && addr != MTVEC && addr != FCSR
    ensures WriteOp(FieldList(addr), data) == if addr == SSTATUS then 0x8000_0000_018D_E762 else WriteMask(addr)
  {
    hide WriteOp, Writable, PlainFields, FieldList, WriteMask;
    RegisterMask(addr);
    PlainOp(FieldList(addr), data);
  }

  lemma MergeWhole(was: Word)
    ensures And(was, 0xFFFF_FFFF_FFFF_FFFF) == was
  {}

  /** A word is determined by its bits inside and outside a mask. */
  lemma MergeUnique(was: Word, data: Word, op: Word, now: Word)
    requires And(now, op) == And(data, op) && SameOutside(was, now, op)
    ensures now == Merge(was, data, op)
  {}

  lemma MasksInView()
    ensures Within(WriteMask(0x100), ViewMask(0x100)) && Within(WriteMask(0x104), ViewMask(0x104))
    ensures And(WriteMask(0x300), 0x8000_0000_018D_E762) == WriteMask(0x100)
    ensures And(WriteMask(0x304), WriteMask(0x104)) == WriteMask(0x104)
    ensures forall w: Word :: And(w, 0) == 0 && Within(0, w)
  {}

  lemma ViewMasks(addr: nat)
    requires Shadowed(addr).Some?
    ensures View(FieldList(addr)) == ViewMask(addr)
  {
    hide View, Writable;
    if addr == SSTATUS {
      ExposedStatus();
    } else if addr == SIE || addr == SIP {
      AllWritable(SUPERVISOR_INTERRUPTS);
      SupervisorWritable();
    } else {
      WholeView();
    }
  }

  lemma WholeView()
    ensures View(WHOLE_FIXED) == 0xFFFF_FFFF_FFFF_FFFF
  {
    assert WHOLE_FIXED[1..] == [];
    assert FieldMask(Fixed(0, 64)) == 0xFFFF_FFFF_FFFF_FFFF;
    NoFields();
  }

  /** A register reads the bits it shows of the register behind it. */
  lemma ReadShows(values: Values, addr: nat)
    requires Complete(values) && addr in values
    ensures Behind(addr) in values && Read(values, addr) == Some(And(values[Behind(addr)], ViewMask(addr)))
  {
    hide View, And, Merge, WriteOp, Read, Written, FieldList;
    if addr == FCSR {
      FcsrRead(values);
    } else if Shadowed(addr).Some? {
      ShadowAccess(values, addr, 0);
      ViewMasks(addr);
    } else {
      PlainAccess(values, addr, 0);
    }
    MergeWhole(values[Behind(addr)]);
  }

  /**
   * What every register but `mtvec` and `fcsr` reads after a write: the written word on the bits
   * of its mask, and what it read before on all others.
   */
  lemma ReadBack(values: Values, addr: nat, data: Word)
    requires Complete(values) && addr in values && addr != MTVEC && addr != FCSR
    ensures Read(values, addr).Some?
    ensures Read(Written(values, addr, data), addr) ==
      Some(Merge(Read(values, addr).value, data, WriteMask(addr)))
  {
    hide WriteOp, View, Merge, And, Within, SameOutside, WriteMask, ViewMask, Read, Written, FieldList;
    RegisterOp(addr, data);
    if Shadowed(addr).None? {
      PlainAccess(values, addr, data);
      PlainAccess(Written(values, addr, data), addr, data);
    } else {
      ShadowReadBack(values, addr, data);
      ShadowMask(addr, data);
      MergeUnique(Read(values, addr).value, data, WriteMask(addr), Read(Written(values, addr, data), addr).value);
    }
  }

  lemma PlainAccess(values: Values, addr: nat, data: Word)
    requires Complete(values) && addr in values && Shadowed(addr).None? && addr != FCSR
    ensures addr == Behind(addr) && Read(values, addr) == Some(values[addr])
    ensures Written(values, addr, data) == values[addr := Merge(values[addr], data, WriteOp(FieldList(addr), data))]
  {
    hide Merge, And, WriteOp, View, FieldList;
  }

  /** The two validators of a shadow register together accept its mask, and that is in view. */
  lemma ShadowMask(addr: nat, data: Word)
    requires Shadowed(addr).Some?
    ensures And(WriteOp(FieldList(Behind(addr)), data), WriteOp(FieldList(addr), data)) == WriteMask(addr)
    ensures Within(WriteMask(addr), ViewMask(addr))
  {
    hide WriteOp, And, Within;
    RegisterOp(addr, data);
    RegisterOp(Behind(addr), data);
    MasksInView();
  }

  /** `fcsr` keeps the low byte only. */
  lemma FcsrReadBack(values: Values, data: Word)
    requires Complete(values)
    ensures Read(Written(values, 0x003, data), 0x003) == Some(data & 0xff)
  {
    hide FieldList, Merge, View;
    FcsrRead(Written(values, 0x003, data));
  }

  lemma FcsrRead(values: Values)
    requires Complete(values)
    ensures Read(values, FCSR) == Some(values[FCSR])
  {
    hide FieldList, Merge, View, And;
  }

  /** Registers that take every word: scratch, exception pc, cause, value, `stvec`, `satp`. */
  lemma WholeReadBack(values: Values, addr: nat, data: Word)
    requires Complete(values) && addr in {0x105, 0x140, 0x141, 0x142, 0x143, 0x180, 0x340, 0x341, 0x342, 0x343}
    ensures Read(Written(values, addr, data), addr) == Some(data)
  {
    hide Read, Written, Merge, Complete, WriteMask;
    WholeRegister(values, addr);
    ReadBack(values, addr, data);
    MergeAll(Read(values, addr).value, data);
  }

  lemma WholeRegister(values: Values, addr: nat)
    requires Complete(values) && addr in {0x105, 0x140, 0x141, 0x142, 0x143, 0x180, 0x340, 0x341, 0x342, 0x343}
    ensures addr in values && WriteMask(addr) == 0xFFFF_FFFF_FFFF_FFFF
  {
    hide FieldList;
  }

  lemma MergeAll(was: Word, data: Word)
    ensures Merge(was, data, 0xFFFF_FFFF_FFFF_FFFF) == data
  {}
}
