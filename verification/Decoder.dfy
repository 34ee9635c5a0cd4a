/**
Instruction descriptors and the reference meaning of decoding: among all descriptors that
match a word, one with the most specific mask.
*/
module Descriptors {

  datatype Instr = Instr(code: nat, format: nat)

  predicate MatchesWord(mask: bv32, key: bv32, word: bv32) { word & mask == key }

  predicate Inside(key: bv32, mask: bv32) { key & mask == key }

  datatype Desc = Desc(instr: Instr, mask: bv32, key: bv32) {

    predicate Matches(word: bv32) { MatchesWord(mask, key, word) }

    /** The key lies inside the mask, and the mask fixes the two length bits. */
    predicate WellFormed() { Inside(key, mask) && mask & 3 == 3 }

    predicate IsCompressed() { key & 3 != 3 }
  }

  function PopCount(m: bv32): nat
    decreases m
  {
    if m == 0 then 0 else (if m & 1 == 1 then 1 else 0) + PopCount(m >> 1)
  }

  function Half(m: bv32): bv32 { m >> 1 }

  /** The mask shifted right `i` times, so that bit `i` is the lowest one. */
  function Shifted(m: bv32, i: nat): bv32 { if i == 0 then m else Half(Shifted(m, i - 1)) }

  function LowBit(m: bv32): nat { if m & 1 == 1 then 1 else 0 }

  /** The positions of the set bits below `n`. */
  function BitsBelow(m: bv32, n: nat): set<nat> { set i: nat | i < n && LowBit(Shifted(m, i)) == 1 }

  lemma CountByParts(m: bv32)
    ensures PopCount(m) == LowBit(m) + PopCount(Half(m))
  {}

  lemma {:induction false} CountBelow(m: bv32, n: nat)
    ensures PopCount(m) == |BitsBelow(m, n)| + PopCount(Shifted(m, n))
  {
    hide PopCount, LowBit, Half;
    if n == 0 {
      assert BitsBelow(m, 0) == {};
    } else {
      CountBelow(m, n - 1);
      CountByParts(Shifted(m, n - 1));
      assert BitsBelow(m, n) == BitsBelow(m, n - 1) + if LowBit(Shifted(m, n - 1)) == 1 then {n - 1} else {};
      OneOrZero(Shifted(m, n - 1));
    }
  }

  lemma OneOrZero(m: bv32)
    ensures LowBit(m) == 0 || LowBit(m) == 1
  {}

  function Nibble(m: bv32): bv32 { m >> 4 }

  lemma ShiftedFour(m: bv32, i: nat)
    ensures Shifted(m, i + 4) == Nibble(Shifted(m, i))
  {
    hide Half, Nibble;
    FourHalves(Shifted(m, i));
    assert Shifted(m, i + 2) == Half(Half(Shifted(m, i)));
    assert Shifted(m, i + 4) == Half(Half(Shifted(m, i + 2)));
  }

  lemma FourHalves(x: bv32)
    ensures Half(Half(Half(Half(x)))) == Nibble(x)
  {}

  lemma NotShifted(m: bv32)
    ensures Shifted(m, 0) == m
  {}

  lemma EightNibbles(x: bv32)
    ensures Nibble(Nibble(Nibble(Nibble(Nibble(Nibble(Nibble(Nibble(x)))))))) == 0
  {}

  /** The mask size is the number of its set bits. */
  lemma PopCountIsBits(m: bv32)
    ensures PopCount(m) == |BitsBelow(m, 32)|
  {
    assert PopCount(0) == 0;
    hide PopCount, LowBit, Half, Nibble, Shifted;
    NotShifted(m);
    ShiftedFour(m, 0); ShiftedFour(m, 4); ShiftedFour(m, 8); ShiftedFour(m, 12);
    ShiftedFour(m, 16); ShiftedFour(m, 20); ShiftedFour(m, 24); ShiftedFour(m, 28);
    EightNibbles(m);
    CountBelow(m, 32);
  }

  predicate Submask(a: bv32, b: bv32) { a & b == a }

  predicate ProperSubmask(a: bv32, b: bv32) { a & b == a && a != b }

  lemma HalfSubmask(a: bv32, b: bv32)
    requires Submask(a, b)
    ensures Submask(Half(a), Half(b))
  {}

  lemma LowBitKept(a: bv32, b: bv32)
    requires Submask(a, b)
    ensures LowBit(a) <= LowBit(b)
  {}

  lemma SameByParts(a: bv32, b: bv32)
    requires LowBit(a) == LowBit(b) && Half(a) == Half(b)
    ensures a == b
  {
    assert a == (a >> 1 << 1) | (a & 1);
  }

  lemma HalfIsLess(b: bv32)
    requires b != 0
    ensures Half(b) < b
  {}

  lemma NothingInside(a: bv32)
    requires Submask(a, 0)
    ensures a == 0
  {}

  /** A mask that fixes strictly more bits is larger. */
  lemma {:induction false} SubmaskIsSmaller(a: bv32, b: bv32)
    requires Submask(a, b)
    ensures PopCount(a) <= PopCount(b) && (a != b ==> PopCount(a) < PopCount(b))
    decreases b
  {
    hide PopCount, LowBit, Half, Submask;
    if b == 0 {
      NothingInside(a);
    } else {
      HalfIsLess(b);
      HalfSubmask(a, b);
      LowBitKept(a, b);
      CountByParts(a);
      CountByParts(b);
      SubmaskIsSmaller(Half(a), Half(b));
      if LowBit(a) == LowBit(b) && Half(a) == Half(b) { SameByParts(a, b); }
    }
  }

  function Elements(descs: seq<Desc>): set<Desc> { set d | d in descs }

  ghost predicate Overlap(d: Desc, e: Desc) { exists word: bv32 :: d.Matches(word) && e.Matches(word) }

  /** A best answer for a word: it matches, and no other match has a larger mask. */
  ghost predicate MostSpecific(descs: set<Desc>, word: bv32, d: Desc) {
    && d in descs && d.Matches(word)
    && forall e :: e in descs && e.Matches(word) ==> PopCount(e.mask) <= PopCount(d.mask)
  }

  /** No matching descriptor fixes all the bits of a best answer and more. */
  lemma NoneInside(descs: set<Desc>, word: bv32, d: Desc)
    requires MostSpecific(descs, word, d)
    ensures forall e :: e in descs && e.Matches(word) ==> !ProperSubmask(d.mask, e.mask)
  {
    hide PopCount, MatchesWord;
    forall e | e in descs && e.Matches(word) ensures !ProperSubmask(d.mask, e.mask) {
      if ProperSubmask(d.mask, e.mask) { SubmaskIsSmaller(d.mask, e.mask); }
    }
  }

  /** C.ADDI16SP fixes more bits than C.LUI and is the best answer for a word that both match. */
  lemma StackPointerBeforeLui(lui: Desc, addi16sp: Desc, d: Desc)
    requires lui.mask == 0xe003 && lui.key == 0x6001 && addi16sp.mask == 0xef83 && addi16sp.key == 0x6101
    requires MostSpecific({lui, addi16sp}, 0x717d, d)
    ensures lui.Matches(0x717d) && addi16sp.Matches(0x717d) && d == addi16sp
  {
    hide PopCount;
    NoneInside({lui, addi16sp}, 0x717d, d);
    assert ProperSubmask(lui.mask, addi16sp.mask);
  }
}

/** Field values of an instruction word, and the bit-level facts about masks and keys. */
module FieldBits {
  import opened Descriptors

  const OPCODE_BITS: bv32 := 0x7F
  const F3_BITS: bv32 := 0x7000
  const F7_BITS: bv32 := 0xFE00_0000

  function Opcode(word: bv32): bv8 { (word & 0x7F) as bv8 }

  function Funct3(word: bv32): bv8 { ((word >> 12) & 7) as bv8 }

  function Funct7(word: bv32): bv8 { (word >> 25) as bv8 }

  predicate IsField(opcode: bv8, f3: bv8, f7: bv8) { opcode <= 0x7F && f3 <= 7 && f7 <= 0x7F }

  lemma AreFields(word: bv32)
    ensures IsField(Opcode(word), Funct3(word), Funct7(word))
  {}

  /** No bit of the mask lies outside the three fields. */
  predicate InFields(mask: bv32) { mask & 0xFE00_707F == mask }

  lemma OutsideFields(mask: bv32)
    ensures mask & !(OPCODE_BITS | F3_BITS | F7_BITS) == 0 <==> InFields(mask)
  {}

  /** A descriptor, given by mask and key, matches three field values. */
  predicate At(mask: bv32, key: bv32, opcode: bv8, f3: bv8, f7: bv8) {
    && opcode & Opcode(mask) == Opcode(key)
    && f3 & Funct3(mask) == Funct3(key)
    && f7 & Funct7(mask) == Funct7(key)
  }

  lemma MatchGivesAt(mask: bv32, key: bv32, word: bv32)
    requires MatchesWord(mask, key, word)
    ensures At(mask, key, Opcode(word), Funct3(word), Funct7(word))
  {}

  lemma AtGivesMatch(mask: bv32, key: bv32, word: bv32)
    requires InFields(mask) && Inside(key, mask) && At(mask, key, Opcode(word), Funct3(word), Funct7(word))
    ensures MatchesWord(mask, key, word)
  {}

  /** A descriptor inside the three fields matches a word exactly if it matches the word's fields. */
  lemma MatchIffAt(mask: bv32, key: bv32, word: bv32)
    requires InFields(mask) && Inside(key, mask)
    ensures MatchesWord(mask, key, word) <==> At(mask, key, Opcode(word), Funct3(word), Funct7(word))
  {
    hide *;
    if MatchesWord(mask, key, word) { MatchGivesAt(mask, key, word); }
    if At(mask, key, Opcode(word), Funct3(word), Funct7(word)) { AtGivesMatch(mask, key, word); }
  }

  /** Some word has the given fields. */
  lemma WordWithFields(o: bv8, g: bv8, h: bv8) returns (w: bv32)
    requires IsField(o, g, h)
    ensures Opcode(w) == o && Funct3(w) == g && Funct7(w) == h
  {
    w := (o as bv32) | ((g as bv32) << 12) | ((h as bv32) << 25);
  }

  // The five shapes of masks the table accepts.

  predicate FixesOpcode(mask: bv32) { mask & 0x7F == 0x7F }

  predicate FixesF3(mask: bv32) { mask & 0x7000 == 0x7000 }

  /** A funct7 value has the key's bits where the mask is set. */
  predicate Agrees(h: bv8, mask: bv32, key: bv32) { h & Funct7(mask) == Funct7(key) }

  lemma AtOpcode(key: bv32, o: bv8, g: bv8, h: bv8)
    requires IsField(o, g, h) && At(OPCODE_BITS, key, o, g, h)
    ensures o == Opcode(key)
  {}

  lemma OpcodeAt(key: bv32, g: bv8, h: bv8)
    requires Inside(key, OPCODE_BITS)
    ensures At(OPCODE_BITS, key, Opcode(key), g, h)
  {}

  lemma AtOpcodeF3(key: bv32, o: bv8, g: bv8, h: bv8)
    requires IsField(o, g, h) && At(OPCODE_BITS | F3_BITS, key, o, g, h)
    ensures o == Opcode(key) && g == Funct3(key)
  {}

  lemma OpcodeF3At(key: bv32, h: bv8)
    requires Inside(key, OPCODE_BITS | F3_BITS)
    ensures At(OPCODE_BITS | F3_BITS, key, Opcode(key), Funct3(key), h)
  {}

  lemma AtOpcodeF7(key: bv32, o: bv8, g: bv8, h: bv8)
    requires IsField(o, g, h) && At(OPCODE_BITS | F7_BITS, key, o, g, h)
    ensures o == Opcode(key) && h == Funct7(key)
  {}

  lemma OpcodeF7At(key: bv32, g: bv8)
    requires Inside(key, OPCODE_BITS | F7_BITS)
    ensures At(OPCODE_BITS | F7_BITS, key, Opcode(key), g, Funct7(key))
  {}

  lemma AtOpcodeAndF3(mask: bv32, key: bv32, o: bv8, g: bv8, h: bv8)
    requires IsField(o, g, h) && FixesOpcode(mask) && FixesF3(mask) && At(mask, key, o, g, h)
    ensures o == Opcode(key) && g == Funct3(key) && Agrees(h, mask, key)
  {}

  lemma OpcodeAndF3At(mask: bv32, key: bv32, h: bv8)
    requires FixesOpcode(mask) && FixesF3(mask) && Agrees(h, mask, key)
    ensures At(mask, key, Opcode(key), Funct3(key), h)
  {}

  lemma AllFieldsFixed(h: bv8, key: bv32)
    ensures FixesOpcode(OPCODE_BITS | F3_BITS | F7_BITS) && FixesF3(OPCODE_BITS | F3_BITS | F7_BITS)
    ensures h <= 0x7F ==> (Agrees(h, OPCODE_BITS | F3_BITS | F7_BITS, key) <==> h == Funct7(key))
    ensures Funct7(key) <= 0x7F
  {}

  // ------------------------------------------------------------------
  // Enumerating submasks
  // ------------------------------------------------------------------

  // A funct7 value as a key of collections.
  datatype Field = Field(bits: bv8)

  predicate Sub(x: bv8, free: bv8) { x & free == x }

  predicate Leq(a: bv8, b: bv8) { a <= b }

  function NextSub(free: bv8, curr: bv8): bv8 { free & (curr - 1) }

  lemma NextShrinks(free: bv8, curr: bv8)
    requires curr != 0
    ensures NextSub(free, curr) < curr
  {}

  lemma NextIsSub(free: bv8, curr: bv8)
    ensures Sub(NextSub(free, curr), free) && Sub(free, free)
  {}

  lemma NextBelow(x: bv8, free: bv8, curr: bv8)
    requires Sub(curr, free) && curr != 0 && Leq(x, NextSub(free, curr))
    ensures Leq(x, curr) && x != curr
  {}

  lemma NextSkipsNone(x: bv8, free: bv8, curr: bv8)
    requires Sub(x, free) && Sub(curr, free) && Leq(x, curr) && x != curr
    ensures curr != 0 && Leq(x, NextSub(free, curr))
  {}

  lemma SubIsLeq(x: bv8, free: bv8)
    requires Sub(x, free)
    ensures Leq(x, free)
  {}

  /** `curr` and all smaller values the enumeration visits, in its order. */
  function Submasks(free: bv8, curr: bv8): seq<Field>
    decreases curr
  {
    if curr == 0 then [Field(0)]
    else
      NextShrinks(free, curr);
      [Field(curr)] + Submasks(free, NextSub(free, curr))
  }

  lemma {:induction false} SubmasksSound(x: bv8, free: bv8, curr: bv8)
    requires Sub(curr, free) && Field(x) in Submasks(free, curr)
    ensures Sub(x, free) && Leq(x, curr)
    decreases curr
  {
    hide Sub, NextSub;
    if x != curr {
      NextShrinks(free, curr);
      NextIsSub(free, curr);
      SubmasksSound(x, free, NextSub(free, curr));
      NextBelow(x, free, curr);
    }
  }

  lemma {:induction false} SubmasksFull(x: bv8, free: bv8, curr: bv8)
    requires Sub(curr, free) && Sub(x, free) && Leq(x, curr)
    ensures Field(x) in Submasks(free, curr)
    decreases curr
  {
    hide Sub, NextSub, Leq;
    if x != curr {
      NextSkipsNone(x, free, curr);
      NextShrinks(free, curr);
      NextIsSub(free, curr);
      SubmasksFull(x, free, NextSub(free, curr));
    }
  }

  /** Starting from all free bits, every submask is visited, and nothing else. */
  lemma SubmasksAll(x: bv8, free: bv8)
    ensures Field(x) in Submasks(free, free) <==> Sub(x, free)
  {
    hide *;
    NextIsSub(free, free);
    if Field(x) in Submasks(free, free) { SubmasksSound(x, free, free); }
    if Sub(x, free) {
      SubIsLeq(x, free);
      SubmasksFull(x, free, free);
    }
  }

  /** No submask is visited twice. */
  lemma {:induction false} SubmasksDistinct(free: bv8, curr: bv8)
    requires Sub(curr, free)
    ensures forall i, j :: 0 <= i < j < |Submasks(free, curr)| ==> Submasks(free, curr)[i] != Submasks(free, curr)[j]
    decreases curr
  {
    hide Sub, NextSub, Leq;
    if curr != 0 {
      NextShrinks(free, curr);
      NextIsSub(free, curr);
      SubmasksDistinct(free, NextSub(free, curr));
      if Field(curr) in Submasks(free, NextSub(free, curr)) {
        SubmasksSound(curr, free, NextSub(free, curr));
        NextBelow(curr, free, curr);
      }
    }
  }

  /** The free funct7 bits of a mask and the funct7 bits of a key, as the enumeration computes them. */
  function FreeF7(mask: bv32): bv8 { ((!(mask & F7_BITS) & F7_BITS) >> 25) as bv8 }

  function KeyF7(key: bv32): bv8 { ((key & F7_BITS) >> 25) as bv8 }

  function Join(x: bv8, k: bv8): bv8 { x | k }

  function FreePart(h: bv8, mask: bv32): bv8 { h & FreeF7(mask) }

  lemma JoinFits(mask: bv32, key: bv32, x: bv8)
    requires Inside(key, mask) && Sub(x, FreeF7(mask))
    ensures Join(x, KeyF7(key)) <= 0x7F && Agrees(Join(x, KeyF7(key)), mask, key)
  {}

  lemma FitsJoin(mask: bv32, key: bv32, h: bv8)
    requires h <= 0x7F && Agrees(h, mask, key)
    ensures Sub(FreePart(h, mask), FreeF7(mask)) && Join(FreePart(h, mask), KeyF7(key)) == h
  {}

  lemma JoinInjective(mask: bv32, key: bv32, x: bv8, y: bv8)
    requires Inside(key, mask) && Sub(x, FreeF7(mask)) && Sub(y, FreeF7(mask))
    requires Join(x, KeyF7(key)) == Join(y, KeyF7(key))
    ensures x == y
  {}
}

/** The table indexed by opcode and funct3, with sparse or dense funct7 tables behind it. */
module FunctDecoder {
  import opened Wrappers
  import opened Descriptors
  import opened FieldBits

  const MAP_LENGTH := 8

  /** The masks the table can represent. */
  predicate FunctShaped(mask: bv32) {
    && InFields(mask)
    && (mask == OPCODE_BITS || mask == OPCODE_BITS | F3_BITS || mask == OPCODE_BITS | F3_BITS | F7_BITS
        || mask == OPCODE_BITS | F7_BITS || (FixesF3(mask) && PopCount(mask & F7_BITS) >= 5))
  }

  /** The shapes as numbers: the fixed ones, and at least five bits of funct7 beside opcode and funct3. */
  lemma ShapesAsNumbers(mask: bv32)
    ensures mask in {0x7F, 0x707F, 0xFE00_707F, 0xFE00_007F} ==> FunctShaped(mask)
    ensures FunctShaped(0xFC00_707F) && FunctShaped(0xF800_707F) && !FunctShaped(0xF000_707F)
    ensures mask & 0x01FF_8F80 != 0 ==> !FunctShaped(mask)
  {
    TopByte(0xFC00_0000);
    TopByte(0xF800_0000);
    TopByte(0xF000_0000);
    NibbleGone(0xF0);
    SmallCounts();
  }

  lemma SmallCounts()
    ensures PopCount(0xF) == 4 && PopCount(0xF8) == 5 && PopCount(0xFC) == 6
  {
    assert PopCount(0x3) == 2 && PopCount(0xF) == 2 + PopCount(0x3);
    assert PopCount(0x1F) == 1 + PopCount(0xF) && PopCount(0x3F) == 2 + PopCount(0xF);
    assert PopCount(0x3E) == PopCount(0x1F) && PopCount(0xF8) == PopCount(0x3E);
    assert PopCount(0x7E) == PopCount(0x3F) && PopCount(0xFC) == PopCount(0x7E);
  }

  lemma TopByte(m: bv32)
    requires m & 0x00FF_FFFF == 0
    ensures PopCount(m) == PopCount(m >> 24)
  {
    hide PopCount;
    NibbleGone(m);
    NibbleGone(m >> 4);
    NibbleGone(m >> 8);
    NibbleGone(m >> 12);
    NibbleGone(m >> 16);
    NibbleGone(m >> 20);
  }

  lemma NibbleGone(m: bv32)
    requires m & 0xF == 0
    ensures PopCount(m) == PopCount(m >> 4)
  {
    hide PopCount;
    CountByParts(m);
    CountByParts(m >> 1);
    CountByParts(m >> 2);
    CountByParts(m >> 3);
  }

  datatype Entry = Entry(f7: Field, instr: Instr)

  datatype Slot =
    | Unknown
    | Complete(result: Instr)
    | SparseF7(sparse: seq<Entry>)
    | DenseF7(dense: map<Field, Instr>)

  /** The first entry for a key in a small map. */
  function Find(entries: seq<Entry>, f7: Field): Option<Instr> {
    if entries == [] then None
    else if entries[0].f7 == f7 then Some(entries[0].instr)
    else Find(entries[1..], f7)
  }

  function Get(slot: Slot, f7: Field): Option<Instr> {
    match slot
    case Unknown => None
    case Complete(result) => Some(result)
    case SparseF7(sparse) => Find(sparse, f7)
    case DenseF7(dense) => if f7 in dense then Some(dense[f7]) else None
  }

  lemma {:induction false} FindSnoc(entries: seq<Entry>, e: Entry, h: Field)
    ensures Find(entries + [e], h) ==
      if Find(entries, h).Some? then Find(entries, h) else if e.f7 == h then Some(e.instr) else None
  {
    if entries != [] {
      assert (entries + [e])[1..] == entries[1..] + [e];
      FindSnoc(entries[1..], e, h);
    }
  }

  predicate Distinct(entries: seq<Entry>) {
    forall i, j :: 0 <= i < j < |entries| ==> entries[i].f7 != entries[j].f7
  }

  lemma {:induction false} FindMissing(entries: seq<Entry>, h: Field)
    ensures Find(entries, h).None? <==> forall i :: 0 <= i < |entries| ==> entries[i].f7 != h
  {
    if entries != [] { FindMissing(entries[1..], h); }
  }

  datatype Index = Index(opcode: Field, f3: Field)

  // decode_table[opcode][funct3]; an absent entry is Unknown.
  type Table = map<Index, Slot>

  function SlotAt(t: Table, opcode: Field, f3: Field): Slot {
    if Index(opcode, f3) in t then t[Index(opcode, f3)] else Unknown
  }

  function Lookup(t: Table, opcode: Field, f3: Field, f7: Field): Option<Instr> { Get(SlotAt(t, opcode, f3), f7) }

  predicate TableOk(t: Table) {
    forall k :: k in t && t[k].SparseF7? ==> Distinct(t[k].sparse)
  }

  /** `t` yields `r` at the fields in the three sets, and what `was` yields elsewhere. */
  ghost predicate Sets(t: Table, was: Table, opcode: Field, f3s: iset<Field>, f7s: iset<Field>, r: Instr) {
    && TableOk(t)
    && forall o, g, h ::
         Lookup(t, o, g, h) == if o == opcode && g in f3s && h in f7s then Some(r) else Lookup(was, o, g, h)
  }

  ghost const AnyField := iset f: Field | true

  /** The funct3 values below `n`. */
  ghost function F3Below(n: bv8): iset<Field> { iset f: Field | f.bits < n }

  lemma F3Next(n: bv8)
    requires n <= 7
    ensures F3Below(n + 1) == F3Below(n) + iset{Field(n)} && Field(n) !in F3Below(n)
  {}

  /** The values a list of submasks makes with a key. */
  function Joined(subs: seq<Field>, k: bv8): (r: seq<Field>)
    ensures |r| == |subs| && forall i :: 0 <= i < |r| ==> r[i] == Field(Join(subs[i].bits, k))
  {
    seq(|subs|, i requires 0 <= i < |subs| => Field(Join(subs[i].bits, k)))
  }

  ghost function Elems(s: seq<Field>): iset<Field> { iset f | f in s }

  class Decoder {
    var table: Table

    constructor ()
      ensures TableOk(table) && forall o, g, h :: Lookup(table, o, g, h).None?
    {
      table := map[];
    }

    /** A sparse table that has grown to eight entries becomes dense. */
    static method MakeDense(sparse: seq<Entry>) returns (slot: Slot)
      requires Distinct(sparse)
      ensures slot.SparseF7? ==> slot.sparse == sparse
      ensures slot.SparseF7? || slot.DenseF7?
      ensures forall h :: Get(slot, h) == Find(sparse, h)
    {
      if |sparse| < MAP_LENGTH { return SparseF7(sparse); }
      var dense := map[];
      for i := 0 to |sparse|
        invariant forall h :: Get(DenseF7(dense), h) == Find(sparse[..i], h)
      {
        var e := sparse[i];
        ghost var was := dense;
        dense := dense[e.f7 := e.instr];
        forall h ensures Get(DenseF7(dense), h) == Find(sparse[..i + 1], h) {
          assert Get(DenseF7(was), h) == Find(sparse[..i], h);
          assert sparse[..i + 1] == sparse[..i] + [e];
          FindSnoc(sparse[..i], e, h);
          FindMissing(sparse[..i], h);
        }
      }
      assert sparse[..|sparse|] == sparse;
      return DenseF7(dense);
    }

    static method WithF7(slot: Slot, f7: Field, r: Instr) returns (slot': Slot)
      requires slot.SparseF7? ==> Distinct(slot.sparse)
      requires Get(slot, f7).None?
      ensures slot'.SparseF7? ==> Distinct(slot'.sparse)
      ensures forall h :: Get(slot', h) == if h == f7 then Some(r) else Get(slot, h)
    {
      match slot {
        case Unknown =>
          slot' := SparseF7([Entry(f7, r)]);
          forall h ensures Find([Entry(f7, r)], h) == if h == f7 then Some(r) else None {
            assert [] + [Entry(f7, r)] == [Entry(f7, r)];
            FindSnoc([], Entry(f7, r), h);
          }
        case SparseF7(sparse) =>
          FindMissing(sparse, f7);
          forall h ensures Find(sparse + [Entry(f7, r)], h) == if h == f7 then Some(r) else Find(sparse, h) {
            FindSnoc(sparse, Entry(f7, r), h);
          }
          slot' := MakeDense(sparse + [Entry(f7, r)]);
        case DenseF7(dense) =>
          slot' := DenseF7(dense[f7 := r]);
        case Complete(_) => assert false;
      }
    }

    /** Add one funct7 value to a slot that does not know it yet. */
    method InsertF3F7(opcode: Field, f3: Field, f7: Field, r: Instr)
      requires TableOk(table) && Lookup(table, opcode, f3, f7).None?
      modifies this
      ensures Sets(table, old(table), opcode, iset{f3}, iset{f7}, r)
    {
      var slot := SlotAt(table, opcode, f3);
      var slot' := WithF7(slot, f7, r);
      table := table[Index(opcode, f3) := slot'];
    }

    /** Every funct7 value of one slot. */
    method InsertF3(opcode: Field, f3: Field, r: Instr)
      requires TableOk(table)
      modifies this
      ensures Sets(table, old(table), opcode, iset{f3}, AnyField, r)
    {
      table := table[Index(opcode, f3) := Complete(r)];
    }

    /** Every funct3 value from 0 to 7, and every funct7 value. */
    method InsertOpcode(opcode: Field, r: Instr)
      requires TableOk(table)
      modifies this
      ensures Sets(table, old(table), opcode, F3Below(8), AnyField, r)
    {
      hide F3Below, Lookup, TableOk;
      var f3: bv8 := 0;
      assert F3Below(0) == iset{} by { ZeroBelow(); }
      while f3 < 8
        invariant f3 <= 8 && Sets(table, old(table), opcode, F3Below(f3), AnyField, r)
        decreases 8 - f3
      {
        F3Next(f3);
        InsertF3(opcode, Field(f3), r);
        f3 := f3 + 1;
      }
    }

    /** One funct7 value for every funct3 value from 0 to 7. */
    method InsertF7(opcode: Field, f7: Field, r: Instr)
      requires TableOk(table) && forall g :: g in F3Below(8) ==> Lookup(table, opcode, g, f7).None?
      modifies this
      ensures Sets(table, old(table), opcode, F3Below(8), iset{f7}, r)
    {
      hide F3Below, Lookup, TableOk;
      var f3: bv8 := 0;
      ZeroBelow();
      while f3 < 8
        invariant f3 <= 8 && Sets(table, old(table), opcode, F3Below(f3), iset{f7}, r)
        decreases 8 - f3
      {
        F3Next(f3);
        BelowEight(f3);
        InsertF3F7(opcode, Field(f3), f7, r);
        f3 := f3 + 1;
      }
    }

    /** One round of the submask enumeration. */
    static lemma SubmasksStep(subs: seq<Field>, i: nat, free: bv8, curr: bv8)
      requires i < |subs| && subs[i..] == Submasks(free, curr)
      ensures subs[i] == Field(curr)
      ensures if curr == 0 then i + 1 == |subs| else i + 1 < |subs| && subs[i + 1..] == Submasks(free, NextSub(free, curr))
    {
      hide NextSub;
      assert subs[i] == subs[i..][0];
      assert subs[i + 1..] == subs[i..][1..];
      if curr != 0 {
        assert subs[i + 1..] == Submasks(free, NextSub(free, curr));
        SubmasksNonempty(free, NextSub(free, curr));
      }
    }

    static lemma SubmasksNonempty(free: bv8, curr: bv8)
      ensures Submasks(free, curr) != []
    {}

    /** The key combined with every submask of the free bits, from the largest down to zero. */
    method InsertSubmasks(opcode: Field, f3: Field, free: bv8, k: bv8, r: Instr)
      requires TableOk(table)
      requires forall x :: x in Joined(Submasks(free, free), k) ==> Lookup(table, opcode, f3, x).None?
      requires forall i, j :: 0 <= i < j < |Submasks(free, free)| ==>
        Joined(Submasks(free, free), k)[i] != Joined(Submasks(free, free), k)[j]
      modifies this
      ensures Sets(table, old(table), opcode, iset{f3}, Elems(Joined(Submasks(free, free), k)), r)
    {
      hide NextSub, Join, Joined, Lookup, TableOk, Sets, Elems, Submasks;
      var curr := free;
      ghost var subs, i := Submasks(free, free), 0;
      ghost var values := Joined(subs, k);
      SubmasksNonempty(free, free);
      SetsNothing(table, opcode, f3, values, r);
      while true
        invariant i < |subs| && subs[i..] == Submasks(free, curr)
        invariant Sets(table, old(table), opcode, iset{f3}, Elems(values[..i]), r)
        decreases curr
      {
        ghost var before := table;
        SubmasksStep(subs, i, free, curr);
        assert values[i] == Field(Join(curr, k)) && values[i] in values;
        SetsMissing(table, old(table), opcode, f3, values, i, r);
        InsertF3F7(opcode, f3, Field(Join(curr, k)), r);
        SetsExtend(table, before, old(table), opcode, f3, values, i, r);
        i := i + 1;
        if curr == 0 { break; }
        NextShrinks(free, curr);
        curr := NextSub(free, curr);
      }
      assert values[..i] == values;
    }

    /**
    Insert a descriptor if its mask has one of the five shapes. The table then knows it at exactly
    the field values the descriptor matches.
    */
    method TryInsert(d: Desc) returns (ok: bool)
      requires TableOk(table) && d.WellFormed() && (FunctShaped(d.mask) ==> NotYet(table, d))
      requires InFields(d.mask) ==> FixesOpcode(d.mask)
      modifies this
      ensures ok <==> FunctShaped(d.mask)
      ensures !ok ==> table == old(table)
      ensures ok ==> Adds(table, old(table), d)
    {
      hide Sets, Adds, NotYet, TableOk, Opcode, Funct3, Funct7, FreeF7, KeyF7, FixesOpcode, FixesF3, InFields, Inside, PopCount;
      OutsideFields(d.mask);
      if d.mask & !(OPCODE_BITS | F3_BITS | F7_BITS) != 0 { return false; }
      var opcode, f3, f7 := Field(Opcode(d.key)), Field(Funct3(d.key)), Field(Funct7(d.key));
      ghost var was := table;
      if d.mask == OPCODE_BITS {
        InsertOpcode(opcode, d.instr);
        AddsOpcode(table, was, d);
        return true;
      } else if d.mask == OPCODE_BITS | F3_BITS {
        InsertF3(opcode, f3, d.instr);
        AddsF3(table, was, d);
        return true;
      } else if d.mask == OPCODE_BITS | F3_BITS | F7_BITS {
        NotYetAll(table, d);
        InsertF3F7(opcode, f3, f7, d.instr);
        AddsAll(table, was, d);
        return true;
      } else if d.mask == OPCODE_BITS | F7_BITS {
        NotYetF7(table, d);
        InsertF7(opcode, f7, d.instr);
        AddsF7(table, was, d);
        return true;
      } else if d.mask & F3_BITS == F3_BITS && PopCount(d.mask & F7_BITS) >= 5 {
        ThatIsF3(d.mask);
        NotYetPartial(table, d);
        InsertSubmasks(opcode, f3, FreeF7(d.mask), KeyF7(d.key), d.instr);
        AddsPartial(table, was, d);
        return true;
      } else {
        ThatIsF3(d.mask);
        return false;
      }
    }
  }

  lemma ThatIsF3(mask: bv32)
    ensures mask & F3_BITS == F3_BITS <==> FixesF3(mask)
  {}

  predicate Fields(o: Field, g: Field, h: Field) { IsField(o.bits, g.bits, h.bits) }

  predicate Covers(d: Desc, o: Field, g: Field, h: Field) { At(d.mask, d.key, o.bits, g.bits, h.bits) }

  /** The table knows nothing yet where the descriptor matches. */
  ghost predicate NotYet(t: Table, d: Desc) {
    forall o, g, h :: Fields(o, g, h) && Covers(d, o, g, h) ==> Lookup(t, o, g, h).None?
  }

  /** `t` is `was` with the descriptor added where it matches. */
  ghost predicate Adds(t: Table, was: Table, d: Desc) {
    && TableOk(t)
    && forall o, g, h :: Fields(o, g, h) ==>
         Lookup(t, o, g, h) == if Covers(d, o, g, h) then Some(d.instr) else Lookup(was, o, g, h)
  }

  lemma FieldsBelow(o: Field, g: Field, h: Field)
    requires Fields(o, g, h)
    ensures g in F3Below(8)
  {}

  lemma BelowFields(key: bv32, g: Field)
    requires g in F3Below(8)
    ensures Fields(Field(Opcode(key)), g, Field(Funct7(key)))
  {}

  /** If the set fields are the matching ones, the descriptor is added. */
  lemma SetsIsAdds(t: Table, was: Table, d: Desc, opcode: Field, f3s: iset<Field>, f7s: iset<Field>)
    requires Sets(t, was, opcode, f3s, f7s, d.instr)
    requires forall o, g, h :: Fields(o, g, h) ==> (Covers(d, o, g, h) <==> o == opcode && g in f3s && h in f7s)
    ensures Adds(t, was, d)
  {
    hide Lookup, TableOk, Covers, Fields;
  }

  lemma AddsOpcode(t: Table, was: Table, d: Desc)
    requires d.mask == OPCODE_BITS && Inside(d.key, d.mask)
    requires Sets(t, was, Field(Opcode(d.key)), F3Below(8), AnyField, d.instr)
    ensures Adds(t, was, d)
  {
    hide Opcode, Funct3, Funct7, At, Inside, Sets, Adds, IsField, F3Below;
    forall o, g, h | Fields(o, g, h)
      ensures Covers(d, o, g, h) <==> o == Field(Opcode(d.key)) && g in F3Below(8) && h in AnyField
    {
      FieldsBelow(o, g, h);
      if Covers(d, o, g, h) { AtOpcode(d.key, o.bits, g.bits, h.bits); }
      OpcodeAt(d.key, g.bits, h.bits);
    }
    SetsIsAdds(t, was, d, Field(Opcode(d.key)), F3Below(8), AnyField);
  }

  lemma AddsF3(t: Table, was: Table, d: Desc)
    requires d.mask == OPCODE_BITS | F3_BITS && Inside(d.key, d.mask)
    requires Sets(t, was, Field(Opcode(d.key)), iset{Field(Funct3(d.key))}, AnyField, d.instr)
    ensures Adds(t, was, d)
  {
    hide Opcode, Funct3, Funct7, At, Inside, Sets, Adds, IsField, F3Below;
    forall o, g, h | Fields(o, g, h)
      ensures Covers(d, o, g, h) <==> o == Field(Opcode(d.key)) && g in iset{Field(Funct3(d.key))} && h in AnyField
    {
      if Covers(d, o, g, h) { AtOpcodeF3(d.key, o.bits, g.bits, h.bits); }
      OpcodeF3At(d.key, h.bits);
    }
    SetsIsAdds(t, was, d, Field(Opcode(d.key)), iset{Field(Funct3(d.key))}, AnyField);
  }

  lemma AddsF7(t: Table, was: Table, d: Desc)
    requires d.mask == OPCODE_BITS | F7_BITS && Inside(d.key, d.mask)
    requires Sets(t, was, Field(Opcode(d.key)), F3Below(8), iset{Field(Funct7(d.key))}, d.instr)
    ensures Adds(t, was, d)
  {
    hide Opcode, Funct3, Funct7, At, Inside, Sets, Adds, IsField, F3Below;
    forall o, g, h | Fields(o, g, h)
      ensures Covers(d, o, g, h) <==> o == Field(Opcode(d.key)) && g in F3Below(8) && h in iset{Field(Funct7(d.key))}
    {
      FieldsBelow(o, g, h);
      if Covers(d, o, g, h) { AtOpcodeF7(d.key, o.bits, g.bits, h.bits); }
      OpcodeF7At(d.key, g.bits);
    }
    SetsIsAdds(t, was, d, Field(Opcode(d.key)), F3Below(8), iset{Field(Funct7(d.key))});
  }

  lemma NotYetF7(t: Table, d: Desc)
    requires d.mask == OPCODE_BITS | F7_BITS && Inside(d.key, d.mask) && NotYet(t, d)
    ensures forall g :: g in F3Below(8) ==> Lookup(t, Field(Opcode(d.key)), g, Field(Funct7(d.key))).None?
  {
    hide Opcode, Funct3, Funct7, At, Inside, IsField, F3Below, Lookup;
    forall g | g in F3Below(8) ensures Lookup(t, Field(Opcode(d.key)), g, Field(Funct7(d.key))).None? {
      BelowFields(d.key, g);
      OpcodeF7At(d.key, g.bits);
      assert Covers(d, Field(Opcode(d.key)), g, Field(Funct7(d.key)));
    }
  }

  lemma NotYetAll(t: Table, d: Desc)
    requires d.mask == OPCODE_BITS | F3_BITS | F7_BITS && NotYet(t, d)
    ensures Lookup(t, Field(Opcode(d.key)), Field(Funct3(d.key)), Field(Funct7(d.key))).None?
  {
    hide Opcode, Funct3, Funct7, At, Agrees, IsField, FixesOpcode, FixesF3, Lookup;
    AreFields(d.key);
    AllFieldsFixed(Funct7(d.key), d.key);
    OpcodeAndF3At(d.mask, d.key, Funct7(d.key));
    assert Covers(d, Field(Opcode(d.key)), Field(Funct3(d.key)), Field(Funct7(d.key)));
  }

  lemma AddsAll(t: Table, was: Table, d: Desc)
    requires d.mask == OPCODE_BITS | F3_BITS | F7_BITS
    requires Sets(t, was, Field(Opcode(d.key)), iset{Field(Funct3(d.key))}, iset{Field(Funct7(d.key))}, d.instr)
    ensures Adds(t, was, d)
  {
    hide Opcode, Funct3, Funct7, At, Sets, Adds, IsField, F3Below, FixesOpcode, FixesF3;
    var o0, g0, h0 := Field(Opcode(d.key)), Field(Funct3(d.key)), Field(Funct7(d.key));
    forall o, g, h | Fields(o, g, h)
      ensures Covers(d, o, g, h) <==> o == o0 && g in iset{g0} && h in iset{h0}
    {
      AllFixed(d.key, o.bits, g.bits, h.bits);
    }
    SetsIsAdds(t, was, d, o0, iset{g0}, iset{h0});
  }

  lemma AllFixed(key: bv32, o: bv8, g: bv8, h: bv8)
    requires IsField(o, g, h)
    ensures At(OPCODE_BITS | F3_BITS | F7_BITS, key, o, g, h) <==> o == Opcode(key) && g == Funct3(key) && h == Funct7(key)
  {
    hide Opcode, Funct3, Funct7, At, Agrees, FixesOpcode, FixesF3;
    var mask := OPCODE_BITS | F3_BITS | F7_BITS;
    AllFieldsFixed(h, key);
    AllFieldsFixed(Funct7(key), key);
    if At(mask, key, o, g, h) { AtOpcodeAndF3(mask, key, o, g, h); }
    OpcodeAndF3At(mask, key, Funct7(key));
  }

  lemma AddsPartial(t: Table, was: Table, d: Desc)
    requires Inside(d.key, d.mask) && FixesOpcode(d.mask) && FixesF3(d.mask)
    requires Sets(t, was, Field(Opcode(d.key)), iset{Field(Funct3(d.key))},
                  Elems(Joined(Submasks(FreeF7(d.mask), FreeF7(d.mask)), KeyF7(d.key))), d.instr)
    ensures Adds(t, was, d)
  {
    hide Opcode, Funct3, Agrees, At, Inside, Sets, Adds, IsField, FixesOpcode, FixesF3, FreeF7, KeyF7, Joined, Submasks;
    var o0, g0 := Field(Opcode(d.key)), Field(Funct3(d.key));
    var hs := Joined(Submasks(FreeF7(d.mask), FreeF7(d.mask)), KeyF7(d.key));
    forall o, g, h | Fields(o, g, h)
      ensures Covers(d, o, g, h) <==> o == o0 && g in iset{g0} && h in Elems(hs)
    {
      JoinedIs(d.mask, d.key, o, g, h);
      if Covers(d, o, g, h) { AtOpcodeAndF3(d.mask, d.key, o.bits, g.bits, h.bits); }
      if h in hs { OpcodeAndF3At(d.mask, d.key, h.bits); }
    }
    SetsIsAdds(t, was, d, o0, iset{g0}, Elems(hs));
  }

  lemma FieldF7(o: Field, g: Field, h: Field)
    requires Fields(o, g, h)
    ensures h.bits <= 0x7F
  {}

  /** The enumerated values are the funct7 values that agree with the key where the mask is set. */
  lemma JoinedIs(mask: bv32, key: bv32, o: Field, g: Field, h: Field)
    requires Inside(key, mask) && Fields(o, g, h)
    ensures h in Joined(Submasks(FreeF7(mask), FreeF7(mask)), KeyF7(key)) <==> Agrees(h.bits, mask, key)
  {
    hide Agrees, FreePart, Inside, FreeF7, KeyF7, Joined, Submasks, Sub, Join, Fields;
    FieldF7(o, g, h);
    var free, k := FreeF7(mask), KeyF7(key);
    var subs := Submasks(free, free);
    if h in Joined(subs, k) {
      var i :| 0 <= i < |subs| && h == Field(Join(subs[i].bits, k));
      assert Field(subs[i].bits) in subs;
      SubmasksAll(subs[i].bits, free);
      JoinFits(mask, key, subs[i].bits);
    }
    if Agrees(h.bits, mask, key) {
      var x := FreePart(h.bits, mask);
      FitsJoin(mask, key, h.bits);
      SubmasksAll(x, free);
      var i :| 0 <= i < |subs| && subs[i] == Field(x);
      assert Joined(subs, k)[i] == h;
    }
  }

  lemma NotYetPartial(t: Table, d: Desc)
    requires Inside(d.key, d.mask) && FixesOpcode(d.mask) && FixesF3(d.mask) && NotYet(t, d)
    ensures var subs := Submasks(FreeF7(d.mask), FreeF7(d.mask));
      && (forall x :: x in Joined(subs, KeyF7(d.key)) ==>
            Lookup(t, Field(Opcode(d.key)), Field(Funct3(d.key)), x).None?)
      && (forall i, j :: 0 <= i < j < |subs| ==> Joined(subs, KeyF7(d.key))[i] != Joined(subs, KeyF7(d.key))[j])
  {
    hide Opcode, Funct3, Agrees, At, Inside, IsField, FixesOpcode, FixesF3, FreeF7, KeyF7, Joined, Submasks, Sub, Join, Lookup;
    var free, k := FreeF7(d.mask), KeyF7(d.key);
    var subs := Submasks(free, free);
    NextIsSub(free, free);
    SubmasksDistinct(free, free);
    forall i | 0 <= i < |subs| ensures Sub(subs[i].bits, free) {
      assert Field(subs[i].bits) in subs;
      SubmasksAll(subs[i].bits, free);
    }
    forall i, j | 0 <= i < j < |subs| ensures Joined(subs, k)[i] != Joined(subs, k)[j] {
      if Joined(subs, k)[i] == Joined(subs, k)[j] { JoinInjective(d.mask, d.key, subs[i].bits, subs[j].bits); }
    }
    forall x | x in Joined(subs, k) ensures Lookup(t, Field(Opcode(d.key)), Field(Funct3(d.key)), x).None? {
      var i :| 0 <= i < |subs| && x == Field(Join(subs[i].bits, k));
      JoinFits(d.mask, d.key, subs[i].bits);
      JoinIsField(d.key, x);
      OpcodeAndF3At(d.mask, d.key, x.bits);
      assert Covers(d, Field(Opcode(d.key)), Field(Funct3(d.key)), x);
    }
  }

  lemma JoinIsField(key: bv32, x: Field)
    requires x.bits <= 0x7F
    ensures Fields(Field(Opcode(key)), Field(Funct3(key)), x)
  {}

  lemma SetsNothing(t: Table, opcode: Field, f3: Field, values: seq<Field>, r: Instr)
    requires TableOk(t)
    ensures Sets(t, t, opcode, iset{f3}, Elems(values[..0]), r)
  {}

  lemma SetsMissing(t: Table, was: Table, opcode: Field, f3: Field, values: seq<Field>, i: nat, r: Instr)
    requires i < |values| && forall j :: 0 <= j < i ==> values[j] != values[i]
    requires Sets(t, was, opcode, iset{f3}, Elems(values[..i]), r)
    ensures TableOk(t) && Lookup(t, opcode, f3, values[i]) == Lookup(was, opcode, f3, values[i])
  {
    assert values[i] !in values[..i];
  }

  lemma SetsExtend(t: Table, mid: Table, was: Table, opcode: Field, f3: Field, values: seq<Field>, i: nat, r: Instr)
    requires i < |values|
    requires Sets(mid, was, opcode, iset{f3}, Elems(values[..i]), r)
    requires Sets(t, mid, opcode, iset{f3}, iset{values[i]}, r)
    ensures Sets(t, was, opcode, iset{f3}, Elems(values[..i + 1]), r)
  {
    hide Lookup, TableOk;
    assert values[..i + 1] == values[..i] + [values[i]];
    assert Elems(values[..i + 1]) == Elems(values[..i]) + iset{values[i]};
  }

  lemma ZeroBelow()
    ensures F3Below(0) == iset{}
  {}

  lemma BelowEight(n: bv8)
    requires n < 8
    ensures Field(n) in F3Below(8)
  {}

  // ------------------------------------------------------------------
  // What the table recognizes
  // ------------------------------------------------------------------

  function Recognize(t: Table, word: bv32): Option<Instr> {
    Lookup(t, Field(Opcode(word)), Field(Funct3(word)), Field(Funct7(word)))
  }

  ghost predicate KnownAt(r: Option<Instr>, descs: set<Desc>, o: Field, g: Field, h: Field) {
    match r
    case None => forall d :: d in descs ==> !Covers(d, o, g, h)
    case Some(x) => exists d :: d in descs && Covers(d, o, g, h) && d.instr == x
  }

  /** The table stands for a set of descriptors. */
  ghost predicate Represents(t: Table, descs: set<Desc>) {
    && TableOk(t)
    && forall o, g, h :: Fields(o, g, h) ==> KnownAt(Lookup(t, o, g, h), descs, o, g, h)
  }

  ghost predicate InFieldsAll(descs: set<Desc>) {
    forall d :: d in descs ==> InFields(d.mask) && Inside(d.key, d.mask)
  }

  lemma RepresentsMore(t: Table, was: Table, descs: set<Desc>, d: Desc)
    requires Represents(was, descs) && Adds(t, was, d)
    ensures Represents(t, descs + {d})
  {
    hide Lookup, Covers, Fields, TableOk;
  }

  lemma CoversMatches(d: Desc, o: Field, g: Field, h: Field, w: bv32)
    requires InFields(d.mask) && Inside(d.key, d.mask) && Covers(d, o, g, h)
    requires Opcode(w) == o.bits && Funct3(w) == g.bits && Funct7(w) == h.bits
    ensures d.Matches(w)
  {
    hide InFields, Inside, At, Opcode, Funct3, Funct7, MatchesWord;
    AtGivesMatch(d.mask, d.key, w);
  }

  /** A descriptor that overlaps none of the others is not known yet anywhere. */
  lemma DisjointNotYet(t: Table, descs: set<Desc>, d: Desc)
    requires Represents(t, descs) && InFieldsAll(descs) && InFields(d.mask) && Inside(d.key, d.mask)
    requires forall e :: e in descs ==> !Overlap(d, e)
    ensures NotYet(t, d)
  {
    hide Lookup, Covers, Fields, TableOk, InFields, Inside;
    forall o, g, h | Fields(o, g, h) && Covers(d, o, g, h) ensures Lookup(t, o, g, h).None? {
      if Lookup(t, o, g, h).Some? {
        var e :| e in descs && Covers(e, o, g, h);
        OverlapAt(d, e, o, g, h);
      }
    }
  }

  lemma OverlapAt(d: Desc, e: Desc, o: Field, g: Field, h: Field)
    requires InFields(d.mask) && Inside(d.key, d.mask) && InFields(e.mask) && Inside(e.key, e.mask)
    requires Fields(o, g, h) && Covers(d, o, g, h) && Covers(e, o, g, h)
    ensures Overlap(d, e)
  {
    hide InFields, Inside, Covers, IsField, Opcode, Funct3, Funct7, MatchesWord;
    var w := WordWithFields(o.bits, g.bits, h.bits);
    CoversMatches(d, o, g, h, w);
    CoversMatches(e, o, g, h, w);
  }

  /** A word is recognized as `r` exactly if a descriptor for `r` matches it. */
  lemma RecognizeIs(t: Table, descs: set<Desc>, word: bv32)
    requires Represents(t, descs) && InFieldsAll(descs)
    ensures match Recognize(t, word)
      case None => forall d :: d in descs ==> !d.Matches(word)
      case Some(x) => exists d :: d in descs && d.Matches(word) && d.instr == x
  {
    hide Lookup, TableOk, InFields, Inside, At, Opcode, Funct3, Funct7, IsField, MatchesWord;
    var o, g, h := Field(Opcode(word)), Field(Funct3(word)), Field(Funct7(word));
    AreFields(word);
    assert KnownAt(Lookup(t, o, g, h), descs, o, g, h);
    forall d | d in descs ensures d.Matches(word) <==> Covers(d, o, g, h) {
      MatchIffAt(d.mask, d.key, word);
    }
  }
}

/** Descriptor lists sorted by mask size, as used for masks the table cannot hold and for compressed words. */
module MaskDecoder {
  import Sorting
  import opened Wrappers
  import opened Descriptors

  predicate BySize(descs: seq<Desc>) {
    forall i, j :: 0 <= i < j < |descs| ==> PopCount(descs[i].mask) >= PopCount(descs[j].mask)
  }

  /** Sort descriptors so that larger masks come first. */
  method FromIsa(descs: seq<Desc>) returns (masks: seq<Desc>)
    ensures multiset(masks) == multiset(descs) && BySize(masks)
  {
    hide PopCount;
    var order := (a: Desc, b: Desc) => PopCount(a.mask) >= PopCount(b.mask);
    masks := Sorting.Sort(order, descs);
    forall i, j | 0 <= i < j < |masks| ensures PopCount(masks[i].mask) >= PopCount(masks[j].mask) {
      assert order(masks[i], masks[j]);
    }
  }

  /** The first match of a sorted list is a most specific one; none exactly if nothing matches. */
  method Decode(masks: seq<Desc>, word: bv32) returns (r: Option<Desc>)
    requires BySize(masks)
    ensures r.None? ==> forall d :: d in masks ==> !d.Matches(word)
    ensures r.Some? ==> MostSpecific(Elements(masks), word, r.value)
    ensures r.Some? ==> forall d :: d in masks && d.Matches(word) ==> !ProperSubmask(r.value.mask, d.mask)
  {
    hide PopCount, MatchesWord;
    for i := 0 to |masks|
      invariant forall j :: 0 <= j < i ==> !masks[j].Matches(word)
    {
      if masks[i].Matches(word) {
        assert MostSpecific(Elements(masks), word, masks[i]);
        NoneInside(Elements(masks), word, masks[i]);
        return Some(masks[i]);
      }
    }
    return None;
  }
}

/** The whole decoder, built from an arbitrary list of descriptors. */
module InstructionDecoder {
  import opened Wrappers
  import opened Descriptors
  import opened FieldBits
  import FunctDecoder
  import MaskDecoder

  predicate Funct(d: Desc) { !d.IsCompressed() && FunctDecoder.FunctShaped(d.mask) }

  /** What the source demands of the instruction tables. */
  ghost predicate Admissible(descs: seq<Desc>) {
    && (forall i :: 0 <= i < |descs| ==> descs[i].WellFormed())
    && (forall i :: 0 <= i < |descs| && !descs[i].IsCompressed() && InFields(descs[i].mask) ==> FixesOpcode(descs[i].mask))
    && (forall i, j :: 0 <= i < j < |descs| && Funct(descs[i]) && Funct(descs[j]) ==> !Overlap(descs[i], descs[j]))
  }

  /** The match the decoder prefers: one from the table if there is one, else a most specific one. */
  ghost predicate Preferred(descs: set<Desc>, word: bv32, d: Desc) {
    && d in descs && d.Matches(word)
    && (Funct(d) || forall e :: e in descs && e.Matches(word) ==> !Funct(e) && PopCount(e.mask) <= PopCount(d.mask))
  }

  ghost predicate Answers(descs: set<Desc>, word: bv32, r: Option<Instr>) {
    match r
    case None => forall d :: d in descs ==> !d.Matches(word)
    case Some(x) => exists d :: Preferred(descs, word, d) && d.instr == x
  }

  /** What an answer means bit by bit: a match, and one whose mask no other list match strictly contains. */
  ghost predicate Settles(descs: set<Desc>, word: bv32, r: Option<Instr>) {
    match r
    case None => forall d :: d in descs ==> !d.Matches(word)
    case Some(x) => exists d :: Uncontained(descs, word, d) && d.instr == x
  }

  ghost predicate Uncontained(descs: set<Desc>, word: bv32, d: Desc) {
    && d in descs && d.Matches(word)
    && (Funct(d) || forall e :: e in descs && e.Matches(word) ==> !Funct(e) && !ProperSubmask(d.mask, e.mask))
  }

  lemma AnswerSettles(descs: set<Desc>, word: bv32, r: Option<Instr>)
    requires Answers(descs, word, r)
    ensures Settles(descs, word, r)
  {
    hide PopCount, MatchesWord, FunctDecoder.FunctShaped;
    if r.Some? {
      var d :| Preferred(descs, word, d) && d.instr == r.value;
      if !Funct(d) { NoneInside(descs, word, d); }
      assert Uncontained(descs, word, d);
    }
  }

  /** Compressed words are cut to 16 bits before decoding. */
  function RawInstr(word: bv32): bv32 { if word & 3 == 3 then word else word & 0xFFFF }

  predicate LongWord(word: bv32) { word & 3 == 3 }

  lemma LengthAgrees(mask: bv32, key: bv32, word: bv32)
    requires mask & 3 == 3 && MatchesWord(mask, key, word)
    ensures word & 3 == key & 3
  {}

  /** A descriptor matches only words of its own length. */
  lemma LengthsKeptApart(d: Desc, word: bv32)
    requires d.WellFormed() && d.Matches(word)
    ensures d.IsCompressed() <==> !LongWord(word)
  {
    hide MatchesWord, Inside;
    LengthAgrees(d.mask, d.key, word);
  }

  /** How the descriptors are split over the three decoders. */
  ghost predicate Split(functDescs: set<Desc>, masks: seq<Desc>, compressed: seq<Desc>) {
    && FunctDecoder.InFieldsAll(functDescs)
    && (forall d :: d in functDescs ==> Funct(d) && d.WellFormed())
    && MaskDecoder.BySize(masks) && (forall d :: d in masks ==> !Funct(d) && !d.IsCompressed() && d.WellFormed())
    && MaskDecoder.BySize(compressed) && (forall d :: d in compressed ==> d.IsCompressed() && d.WellFormed())
  }

  ghost function All(functDescs: set<Desc>, masks: seq<Desc>, compressed: seq<Desc>): set<Desc> {
    functDescs + Elements(masks) + Elements(compressed)
  }

  lemma AnswerFromCompressed(fs: set<Desc>, ms: seq<Desc>, cs: seq<Desc>, raw: bv32, found: Option<Desc>)
    requires Split(fs, ms, cs) && !LongWord(raw)
    requires found.None? ==> forall d :: d in cs ==> !d.Matches(raw)
    requires found.Some? ==> MostSpecific(Elements(cs), raw, found.value)
    ensures Answers(All(fs, ms, cs), raw, if found.Some? then Some(found.value.instr) else None)
  {
    hide PopCount, MatchesWord, LongWord, FunctDecoder.InFieldsAll, FunctDecoder.FunctShaped, MaskDecoder.BySize;
    forall d | d in All(fs, ms, cs) && d.Matches(raw) ensures d in cs { LengthsKeptApart(d, raw); }
    if found.Some? { assert Preferred(All(fs, ms, cs), raw, found.value); }
  }

  lemma AnswerFromTable(fs: set<Desc>, ms: seq<Desc>, cs: seq<Desc>, raw: bv32, x: Instr)
    requires Split(fs, ms, cs) && exists d :: d in fs && d.Matches(raw) && d.instr == x
    ensures Answers(All(fs, ms, cs), raw, Some(x))
  {
    hide PopCount, MatchesWord, FunctDecoder.InFieldsAll, FunctDecoder.FunctShaped, MaskDecoder.BySize;
    var d :| d in fs && d.Matches(raw) && d.instr == x;
    assert Preferred(All(fs, ms, cs), raw, d);
  }

  lemma AnswerFromMasks(fs: set<Desc>, ms: seq<Desc>, cs: seq<Desc>, raw: bv32, found: Option<Desc>)
    requires Split(fs, ms, cs) && LongWord(raw) && forall d :: d in fs ==> !d.Matches(raw)
    requires found.None? ==> forall d :: d in ms ==> !d.Matches(raw)
    requires found.Some? ==> MostSpecific(Elements(ms), raw, found.value)
    ensures Answers(All(fs, ms, cs), raw, if found.Some? then Some(found.value.instr) else None)
  {
    hide PopCount, MatchesWord, LongWord, FunctDecoder.InFieldsAll, FunctDecoder.FunctShaped, MaskDecoder.BySize;
    forall d | d in All(fs, ms, cs) && d.Matches(raw) ensures d in ms { LengthsKeptApart(d, raw); }
    if found.Some? { assert Preferred(All(fs, ms, cs), raw, found.value); }
  }

  function Compressed(descs: seq<Desc>): seq<Desc> {
    if descs == [] then []
    else (if descs[0].IsCompressed() then [descs[0]] else []) + Compressed(descs[1..])
  }

  lemma {:induction false} CompressedAre(descs: seq<Desc>)
    ensures forall d :: d in Compressed(descs) <==> d in descs && d.IsCompressed()
  {
    if descs != [] {
      CompressedAre(descs[1..]);
      assert descs == [descs[0]] + descs[1..];
    }
  }

  lemma SameElements(a: seq<Desc>, b: seq<Desc>)
    requires multiset(a) == multiset(b)
    ensures forall d :: d in a <==> d in b
  {
    forall d ensures d in a <==> d in b { assert d in a <==> d in multiset(a); }
  }

  lemma OverlapSymmetric(d: Desc, e: Desc)
    requires Overlap(d, e)
    ensures Overlap(e, d)
  {
    hide MatchesWord;
    var w :| d.Matches(w) && e.Matches(w);
    assert e.Matches(w);
  }

  /** Offer every long descriptor to the table; keep those it cannot hold. */
  method FillTable(descs: seq<Desc>) returns (funct: FunctDecoder.Decoder, remain: seq<Desc>, ghost fs: set<Desc>)
    requires Admissible(descs)
    ensures fresh(funct) && FunctDecoder.Represents(funct.table, fs) && FunctDecoder.InFieldsAll(fs)
    ensures forall d :: d in fs <==> d in descs && Funct(d)
    ensures forall d :: d in remain <==> d in descs && !Funct(d) && !d.IsCompressed()
  {
    hide PopCount, FunctDecoder.FunctShaped, FunctDecoder.Lookup, FunctDecoder.Covers, FunctDecoder.Fields, Overlap, Inside, InFields, FixesOpcode;
    funct := new FunctDecoder.Decoder();
    remain, fs := [], {};
    EmptyRepresents(funct.table);
    hide FunctDecoder.Represents;
    for i := 0 to |descs|
      invariant fresh(funct) && FunctDecoder.Represents(funct.table, fs) && FunctDecoder.InFieldsAll(fs)
      invariant forall d :: d in fs <==> d in descs[..i] && Funct(d)
      invariant forall d :: d in remain <==> d in descs[..i] && !Funct(d) && !d.IsCompressed()
    {
      var d := descs[i];
      assert descs[..i + 1] == descs[..i] + [d];
      if !d.IsCompressed() {
        if Funct(d) { MayInsert(descs, i, funct.table, fs); }
        TableIsOk(funct.table, fs);
        ghost var was := funct.table;
        var ok := funct.TryInsert(d);
        if ok {
          FunctDecoder.RepresentsMore(funct.table, was, fs, d);
          ShapedInFields(d.mask);
          fs := fs + {d};
        } else {
          remain := remain + [d];
        }
      }
    }
    assert descs[..|descs|] == descs;
  }

  lemma EmptyRepresents(t: FunctDecoder.Table)
    requires FunctDecoder.TableOk(t) && forall o, g, h :: FunctDecoder.Lookup(t, o, g, h).None?
    ensures FunctDecoder.Represents(t, {})
  {
    hide FunctDecoder.Lookup, FunctDecoder.TableOk;
  }

  lemma TableIsOk(t: FunctDecoder.Table, fs: set<Desc>)
    requires FunctDecoder.Represents(t, fs)
    ensures FunctDecoder.TableOk(t)
  {
    hide FunctDecoder.TableOk, FunctDecoder.Lookup;
  }

  lemma ShapedInFields(mask: bv32)
    requires FunctDecoder.FunctShaped(mask)
    ensures InFields(mask)
  {}

  /** The next descriptor for the table overlaps none of those inserted before. */
  lemma MayInsert(descs: seq<Desc>, i: nat, t: FunctDecoder.Table, fs: set<Desc>)
    requires Admissible(descs) && i < |descs| && Funct(descs[i])
    requires FunctDecoder.Represents(t, fs) && FunctDecoder.InFieldsAll(fs)
    requires forall d :: d in fs ==> d in descs[..i] && Funct(d)
    ensures FunctDecoder.NotYet(t, descs[i])
  {
    hide PopCount, FunctDecoder.FunctShaped, FunctDecoder.Represents, FunctDecoder.NotYet, FunctDecoder.InFieldsAll,
      Overlap, InFields, Inside, FixesOpcode;
    var d := descs[i];
    ShapedInFields(d.mask);
    forall e | e in fs ensures !Overlap(d, e) {
      var j :| 0 <= j < i && descs[j] == e;
      if Overlap(d, e) { OverlapSymmetric(d, e); }
    }
    FunctDecoder.DisjointNotYet(t, fs, d);
  }

  class Decoder {
    var funct: FunctDecoder.Decoder
    var masks: seq<Desc>
    var compressed: seq<Desc>
    ghost var functDescs: set<Desc>

    ghost predicate Valid()
      reads this, funct
    {
      FunctDecoder.Represents(funct.table, functDescs) && Split(functDescs, masks, compressed)
    }

    ghost function Descs(): set<Desc>
      reads this
    {
      All(functDescs, masks, compressed)
    }

    /** Build a decoder that knows exactly the given descriptors. */
    constructor FromIsa(descs: seq<Desc>)
      requires Admissible(descs)
      ensures Valid() && fresh(funct) && Descs() == Elements(descs)
    {
      hide PopCount, FunctDecoder.Represents, FunctDecoder.InFieldsAll, FunctDecoder.FunctShaped, MaskDecoder.BySize;
      var cs := MaskDecoder.FromIsa(Compressed(descs));
      var table, remain, fs := FillTable(descs);
      var ms := MaskDecoder.FromIsa(remain);
      SameElements(cs, Compressed(descs));
      SameElements(ms, remain);
      CompressedAre(descs);
      funct, masks, compressed, functDescs := table, ms, cs, fs;
    }

    /** Table first, then the sorted list; compressed words have a list of their own. */
    method Decode(word: bv32) returns (r: Option<Instr>)
      requires Valid()
      ensures
        var raw := if word & 3 == 3 then word else word & 0xFFFF;
        Answers(Descs(), raw, r) && Settles(Descs(), raw, r)
    {
      hide Answers, Settles, FunctDecoder.Represents, Split;
      r := DecodeRaw(RawInstr(word));
      AnswerSettles(Descs(), RawInstr(word), r);
    }

    method DecodeRaw(raw: bv32) returns (r: Option<Instr>)
      requires Valid()
      ensures Answers(Descs(), raw, r)
    {
      hide PopCount, MatchesWord, LongWord, Answers, FunctDecoder.Represents, FunctDecoder.Recognize;
      if !LongWord(raw) {
        var found := MaskDecoder.Decode(compressed, raw);
        AnswerFromCompressed(functDescs, masks, compressed, raw, found);
        return if found.Some? then Some(found.value.instr) else None;
      }
      FunctDecoder.RecognizeIs(funct.table, functDescs, raw);
      r := FunctDecoder.Recognize(funct.table, raw);
      if r.Some? {
        AnswerFromTable(functDescs, masks, compressed, raw, r.value);
      } else {
        var found := MaskDecoder.Decode(masks, raw);
        AnswerFromMasks(functDescs, masks, compressed, raw, found);
        r := if found.Some? then Some(found.value.instr) else None;
      }
    }
  }

  // ------------------------------------------------------------------
  // Order of the tables, and specificity
  // ------------------------------------------------------------------

  /** Overlapping list entries have masks of different size. */
  ghost predicate Ranked(descs: set<Desc>) {
    forall d, e :: d in descs && e in descs && d != e && !Funct(d) && !Funct(e) && Overlap(d, e) ==>
      PopCount(d.mask) != PopCount(e.mask)
  }

  ghost predicate TableDisjoint(descs: set<Desc>) {
    forall d, e :: d in descs && e in descs && d != e && Funct(d) && Funct(e) ==> !Overlap(d, e)
  }

  /** Two decoders for the same descriptors, in whatever order they were listed, give the same answer. */
  lemma OrderDoesNotMatter(descs: set<Desc>, word: bv32, r: Option<Instr>, r': Option<Instr>)
    requires TableDisjoint(descs) && Ranked(descs)
    requires Answers(descs, word, r) && Answers(descs, word, r')
    ensures r == r'
  {
    hide PopCount, MatchesWord, FunctDecoder.FunctShaped;
    if r.Some? && r'.Some? {
      var d :| Preferred(descs, word, d) && d.instr == r.value;
      var e :| Preferred(descs, word, e) && e.instr == r'.value;
      if d != e {
        assert Overlap(d, e) by { assert d.Matches(word) && e.Matches(word); }
        assert false;
      }
    }
  }

  /** A list entry never has a larger mask than a table entry it overlaps. */
  ghost predicate NoneShadowed(descs: set<Desc>) {
    forall f, m :: f in descs && m in descs && Funct(f) && !Funct(m) && Overlap(f, m) ==>
      PopCount(f.mask) >= PopCount(m.mask)
  }

  ghost predicate AlwaysMostSpecific(descs: set<Desc>) {
    forall word, d :: Preferred(descs, word, d) ==> MostSpecific(descs, word, d)
  }

  /** The answer is a most specific match for every word exactly if no table entry shadows a larger mask. */
  lemma MostSpecificIffNoneShadowed(descs: set<Desc>)
    requires TableDisjoint(descs)
    ensures AlwaysMostSpecific(descs) <==> NoneShadowed(descs)
  {
    hide PopCount, MatchesWord, FunctDecoder.FunctShaped;
    if AlwaysMostSpecific(descs) {
      forall f, m | f in descs && m in descs && Funct(f) && !Funct(m) && Overlap(f, m)
        ensures PopCount(f.mask) >= PopCount(m.mask)
      {
        var w :| f.Matches(w) && m.Matches(w);
        assert Preferred(descs, w, f);
      }
    }
    if NoneShadowed(descs) {
      forall word, d | Preferred(descs, word, d) ensures MostSpecific(descs, word, d) {
        forall e | e in descs && e.Matches(word) ensures PopCount(e.mask) <= PopCount(d.mask) {
          if Funct(d) && e != d { assert Overlap(d, e); }
        }
      }
    }
  }

  /** A table entry for one opcode hides a list entry that fixes one bit more. */
  lemma ShadowExample()
    ensures var f, m := Desc(Instr(0, 0), 0x7F, 0x33), Desc(Instr(1, 0), 0xFF, 0x33);
      f.WellFormed() && m.WellFormed() && TableDisjoint({f, m}) && !NoneShadowed({f, m})
  {
    var f, m := Desc(Instr(0, 0), 0x7F, 0x33), Desc(Instr(1, 0), 0xFF, 0x33);
    assert f.Matches(0x33) && m.Matches(0x33);
    assert PopCount(0xFF) == 1 + PopCount(0x7F);
    assert Funct(f) && !Funct(m);
  }
}
