/** Vector registers: segment data is spread over the register groups of its fields. */
module VectorRegFile {
  import BlockDisk
  import Division
  import opened Wrappers

  type byte = BlockDisk.byte

  const REGISTERS := 32

  /** The number of the segment element that lane `l`, slot `k` of field `s` receives. */
  function Index(l: nat, k: nat, s: nat, slots: nat, seg: nat): nat { (l * slots + k) * seg + s }

  /** Which register of its group, which field, which slot and which byte of the element. */
  function Lane(r: nat, idx: nat, lmul: nat): nat requires idx <= r && lmul > 0 { (r - idx) % lmul }
  function FieldOf(r: nat, idx: nat, lmul: nat): nat requires idx <= r && lmul > 0 { (r - idx) / lmul }
  function Slot(o: nat, size: nat): nat requires size > 0 { o / size }

  datatype Shape = Shape(vlen: nat, size: nat, lmul: nat, seg: nat, idx: nat) {
    predicate Valid() {
      && (lmul == 1 || lmul == 2 || lmul == 4 || lmul == 8) && seg > 0 && size > 0
      && vlen % size == 0 && idx + lmul * seg <= REGISTERS
    }

    function Slots(): nat requires Valid() { vlen / size }

    predicate Holds(r: nat) { idx <= r < idx + lmul * seg }

    /** The element that register `r` holds at byte `o`. */
    function Element(r: nat, o: nat): nat
      requires Valid() && Holds(r)
    {
      Index(Lane(r, idx, lmul), Slot(o, size), FieldOf(r, idx, lmul), Slots(), seg)
    }

    /** The cell is filled once the loops have reached lane `l`, slot `k`, field `s`. */
    predicate Filled(r: nat, o: nat, l: nat, k: nat, s: nat)
      requires Valid() && Holds(r)
    {
      || Lane(r, idx, lmul) < l
      || (Lane(r, idx, lmul) == l && Slot(o, size) < k)
      || (Lane(r, idx, lmul) == l && Slot(o, size) == k && FieldOf(r, idx, lmul) < s)
    }
  }

  lemma LaneAndField(r: nat, idx: nat, lmul: nat, seg: nat, l: nat, s: nat)
    requires idx <= r < idx + lmul * seg && l < lmul && s < seg
    ensures r == idx + l + lmul * s <==> Lane(r, idx, lmul) == l && FieldOf(r, idx, lmul) == s
  {
    var d := r - idx;
    if d == lmul * s + l {
      Division.Unique(d, lmul, s, l);
    }
  }

  lemma CoordinateBounds(r: nat, idx: nat, lmul: nat, seg: nat)
    requires idx <= r < idx + lmul * seg && lmul > 0
    ensures Lane(r, idx, lmul) < lmul && FieldOf(r, idx, lmul) < seg
  {
    var q := (r - idx) / lmul;
    if q >= seg { Division.Ordered(seg, q, lmul); }
  }

  lemma SlotBound(o: nat, vlen: nat, size: nat)
    requires size > 0 && vlen % size == 0 && o < vlen
    ensures Slot(o, size) < vlen / size
  {
    var q := o / size;
    if q >= vlen / size { Division.Ordered(vlen / size, q, size); }
  }

  lemma SlotRange(o: nat, size: nat, k: nat)
    requires size > 0
    ensures size * k <= o < size * k + size <==> Slot(o, size) == k
  {
    if size * k <= o < size * k + size {
      Division.Unique(o, size, k, o - size * k);
    }
  }

  lemma IndexSteps(l: nat, k: nat, slots: nat, seg: nat)
    ensures Index(l, k, seg, slots, seg) == Index(l, k + 1, 0, slots, seg)
    ensures Index(l, slots, 0, slots, seg) == Index(l + 1, 0, 0, slots, seg)
  {
    assert (l * slots + k) * seg + seg == (l * slots + k + 1) * seg;
    assert l * slots + slots == (l + 1) * slots;
  }

  lemma IndexBound(l: nat, k: nat, s: nat, slots: nat, lmul: nat, seg: nat)
    requires l < lmul && k < slots && s < seg
    ensures Index(l, k, s, slots, seg) < lmul * slots * seg
  {
    assert (l + 1) * slots <= lmul * slots;
    assert l * slots + k + 1 <= lmul * slots;
    assert (l * slots + k + 1) * seg <= lmul * slots * seg;
    assert (l * slots + k + 1) * seg == (l * slots + k) * seg + seg;
  }

  /** The registers of an aligned power-of-two group exist. */
  lemma GroupFits(idx: nat, registers: nat)
    requires registers in {1, 2, 4, 8} && idx < REGISTERS && idx % registers == 0
    ensures idx + registers <= REGISTERS
  {}

  /** A group that passes the alignment check at `idx` lies inside the file. */
  predicate FitsAt(idx: nat, registers: nat)
    requires registers > 0
  {
    idx < REGISTERS && idx % registers == 0 ==> idx + registers <= REGISTERS
  }

  /** The alignment check keeps every group inside the file exactly for the power-of-two group sizes. */
  lemma GroupsFitIff(registers: nat)
    requires 1 <= registers <= 8
    ensures (forall idx: nat :: FitsAt(idx, registers)) <==> registers in {1, 2, 4, 8}
  {
    if registers in {1, 2, 4, 8} {
      forall idx: nat ensures FitsAt(idx, registers) {
        if idx < REGISTERS && idx % registers == 0 { GroupFits(idx, registers); }
      }
    } else if registers == 7 {
      assert !FitsAt(28, registers);
    } else {
      assert !FitsAt(30, registers);
    }
  }

  /** One cell of the file while a write is under way. */
  function Cell(shape: Shape, data: seq<byte>, was: byte, r: nat, o: nat, l: nat, k: nat, s: nat): byte
    requires shape.Valid() && o < shape.vlen && Suffices(shape, data)
  {
    if shape.Holds(r) && shape.Filled(r, o, l, k, s) then
      assert shape.Element(r, o) * shape.size + o % shape.size < |data| by { ElementInData(shape, r, o); }
      data[shape.Element(r, o) * shape.size + o % shape.size]
    else was
  }

  lemma ElementInData(shape: Shape, r: nat, o: nat)
    requires shape.Valid() && shape.Holds(r) && o < shape.vlen
    ensures shape.Element(r, o) < shape.lmul * shape.Slots() * shape.seg
    ensures shape.Element(r, o) * shape.size + o % shape.size < shape.lmul * shape.Slots() * shape.seg * shape.size
  {
    CoordinateBounds(r, shape.idx, shape.lmul, shape.seg);
    SlotBound(o, shape.vlen, shape.size);
    IndexBound(Lane(r, shape.idx, shape.lmul), Slot(o, shape.size), FieldOf(r, shape.idx, shape.lmul),
               shape.Slots(), shape.lmul, shape.seg);
    ByteInData(shape.Element(r, o), shape.lmul * shape.Slots() * shape.seg, shape.size, o % shape.size);
  }

  lemma ByteInData(e: nat, count: nat, size: nat, j: nat)
    requires e < count && j < size
    ensures e * size + j < count * size
  {
    assert (e + 1) * size <= count * size;
    assert (e + 1) * size == e * size + size;
  }

  class RegFile {
    const vlen: nat
    const reg: array2<byte>

    ghost predicate Valid() {
      reg.Length0 == REGISTERS && reg.Length1 == vlen
    }

    constructor (vlen: nat)
      ensures Valid() && fresh(reg) && this.vlen == vlen
    {
      this.vlen := vlen;
      reg := new byte[REGISTERS, vlen]((_, _) => 0);
    }

    /** The registers as values. */
    ghost function Contents(): (r: seq<seq<byte>>)
      requires Valid()
      reads reg
      ensures Square(r, vlen) && forall i, o :: 0 <= i < REGISTERS && 0 <= o < vlen ==> r[i][o] == reg[i, o]
    {
      seq(REGISTERS, i requires 0 <= i < REGISTERS reads reg =>
        seq(vlen, o requires 0 <= o < vlen reads reg => reg[i, o]))
    }

    /** Every cell is as the loops leave it on reaching lane `l`, slot `k`, field `s`. */
    ghost predicate Reached(shape: Shape, data: seq<byte>, was: seq<seq<byte>>, l: nat, k: nat, s: nat)
      requires Valid() && shape.Valid() && shape.vlen == vlen && Square(was, vlen) && Suffices(shape, data)
      reads reg
    {
      forall r: nat, o: nat :: r < REGISTERS && o < vlen ==> reg[r, o] == Cell(shape, data, was[r][o], r, o, l, k, s)
    }

    /** Store the next element in its field's register. */
    method PutElement(shape: Shape, data: seq<byte>, ghost was: seq<seq<byte>>, l: nat, k: nat, s: nat, input: nat)
      requires Valid() && shape.Valid() && shape.vlen == vlen && Square(was, vlen) && Suffices(shape, data)
      requires l < shape.lmul && k < shape.Slots() && s < shape.seg && Reached(shape, data, was, l, k, s)
      requires input == Index(l, k, s, shape.Slots(), shape.seg)
      modifies reg
      ensures Reached(shape, data, was, l, k, s + 1)
    {
      hide Cell;
      var r0, o0, at := shape.idx + l + shape.lmul * s, shape.size * k, input * shape.size;
      StepInside(shape, data, l, k, s);
      forall o | o0 <= o < o0 + shape.size { reg[r0, o] := data[at + (o - o0)]; }
      forall r: nat, o: nat | r < REGISTERS && o < vlen
        ensures reg[r, o] == Cell(shape, data, was[r][o], r, o, l, k, s + 1)
      {
        CellStep(shape, data, was[r][o], r, o, l, k, s, r0, o0, at);
      }
    }

    /**
     * Spread the elements of `data`, field by field within each segment, over the register groups
     * of the fields: lane, slot and field are three nested loops with one running input index.
     */
    method Write(lmul: nat, idx: nat, data: seq<byte>, size: nat, seg: nat) returns (ok: bool)
      requires Valid() && vlen % 8 == 0 && idx < REGISTERS && seg > 0
      requires lmul in {1, 2, 4, 8} && size in {1, 2, 4, 8}
      requires seg * lmul <= 8 && idx % (lmul * seg) == 0 ==>
        idx + lmul * seg <= REGISTERS && |data| >= lmul * (vlen / size) * seg * size
      modifies reg
      ensures ok <==> seg * lmul <= 8 && idx % (lmul * seg) == 0
      ensures !ok ==> Contents() == old(Contents())
      ensures ok ==> Scattered(Shape(vlen, size, lmul, seg, idx), data, old(Contents()), Contents())
    {
      if seg * lmul > 8 || idx % (lmul * seg) != 0 {
        return false;
      }
      ok := true;
      WholeElements(vlen, size);
      var shape := Shape(vlen, size, lmul, seg, idx);
      ghost var was := Contents();
      var input := 0;
      assert Reached(shape, data, was, 0, 0, 0);
      for l := 0 to lmul
        invariant input == Index(l, 0, 0, shape.Slots(), seg) && Reached(shape, data, was, l, 0, 0)
      {
        input := WriteLane(shape, data, was, l, input);
      }
    }

    method WriteLane(shape: Shape, data: seq<byte>, ghost was: seq<seq<byte>>, l: nat, start: nat) returns (input: nat)
      requires Valid() && shape.Valid() && shape.vlen == vlen && Square(was, vlen) && Suffices(shape, data)
      requires l < shape.lmul && Reached(shape, data, was, l, 0, 0) && start == Index(l, 0, 0, shape.Slots(), shape.seg)
      modifies reg
      ensures Reached(shape, data, was, l + 1, 0, 0) && input == Index(l + 1, 0, 0, shape.Slots(), shape.seg)
    {
      hide Cell, Index;
      input := start;
      for k := 0 to shape.Slots()
        invariant Reached(shape, data, was, l, k, 0) && input == Index(l, k, 0, shape.Slots(), shape.seg)
      {
        input := WriteSlot(shape, data, was, l, k, input);
      }
      IndexSteps(l, shape.Slots(), shape.Slots(), shape.seg);
      forall r: nat, o: nat | r < REGISTERS && o < vlen
        ensures Cell(shape, data, was[r][o], r, o, l, shape.Slots(), 0) == Cell(shape, data, was[r][o], r, o, l + 1, 0, 0)
      {
        NextLane(shape, data, was[r][o], r, o, l);
      }
    }

    method WriteSlot(shape: Shape, data: seq<byte>, ghost was: seq<seq<byte>>, l: nat, k: nat, start: nat) returns (input: nat)
      requires Valid() && shape.Valid() && shape.vlen == vlen && Square(was, vlen) && Suffices(shape, data)
      requires l < shape.lmul && k < shape.Slots() && Reached(shape, data, was, l, k, 0)
      requires start == Index(l, k, 0, shape.Slots(), shape.seg)
      modifies reg
      ensures Reached(shape, data, was, l, k + 1, 0) && input == Index(l, k + 1, 0, shape.Slots(), shape.seg)
    {
      hide Cell, Index;
      input := start;
      for s := 0 to shape.seg
        invariant Reached(shape, data, was, l, k, s) && input == Index(l, k, s, shape.Slots(), shape.seg)
      {
        PutElement(shape, data, was, l, k, s, input);
        NextIndex(l, k, s, shape.Slots(), shape.seg);
        input := input + 1;
      }
      IndexSteps(l, k, shape.Slots(), shape.seg);
      forall r: nat, o: nat | r < REGISTERS && o < vlen
        ensures Cell(shape, data, was[r][o], r, o, l, k, shape.seg) == Cell(shape, data, was[r][o], r, o, l, k + 1, 0)
      {
        NextSlot(shape, data, was[r][o], r, o, l, k);
      }
    }

    /** A register group, as bytes; only aligned groups of 1, 2, 4 or 8 registers can be read. */
    method ReadGroup(count: nat, idx: nat) returns (r: Option<seq<byte>>)
      requires Valid() && idx < REGISTERS
      ensures r.Some? <==> count in {1, 2, 4, 8} && idx % count == 0
      ensures r.Some? ==> idx + count <= REGISTERS && r.value == GroupBytes(Contents(), vlen, idx, count)
    {
      if !(count == 1 || count == 2 || count == 4 || count == 8) {
        return None;
      }
      if idx % count != 0 {
        return None;
      }
      GroupFits(idx, count);
      var bytes: seq<byte> := [];
      for i := 0 to count
        invariant bytes == GroupBytes(Contents(), vlen, idx, i)
      {
        ghost var before := bytes;
        for o := 0 to vlen
          invariant bytes == before + Contents()[idx + i][..o]
        {
          bytes := bytes + [reg[idx + i, o]];
        }
        assert Contents()[idx + i][..vlen] == Contents()[idx + i];
      }
      r := Some(bytes);
    }
  }

  predicate Square(contents: seq<seq<byte>>, vlen: nat) {
    |contents| == REGISTERS && forall r :: 0 <= r < REGISTERS ==> |contents[r]| == vlen
  }

  predicate Suffices(shape: Shape, data: seq<byte>)
    requires shape.Valid()
  {
    |data| >= shape.lmul * shape.Slots() * shape.seg * shape.size
  }

  /** The element to store next and the bytes it goes to are in range. */
  lemma StepInside(shape: Shape, data: seq<byte>, l: nat, k: nat, s: nat)
    requires shape.Valid() && Suffices(shape, data) && l < shape.lmul && k < shape.Slots() && s < shape.seg
    ensures shape.Holds(shape.idx + l + shape.lmul * s)
    ensures shape.size * k + shape.size <= shape.vlen
    ensures Index(l, k, s, shape.Slots(), shape.seg) * shape.size + shape.size <= |data|
  {
    var n, slots := shape.lmul * shape.Slots() * shape.seg, shape.Slots();
    RegisterInside(l, s, shape.lmul, shape.seg);
    SlotInside(k, shape.size, shape.vlen);
    IndexBound(l, k, s, slots, shape.lmul, shape.seg);
    ElementInside(Index(l, k, s, slots, shape.seg), n, shape.size, |data|);
  }

  lemma RegisterInside(l: nat, s: nat, lmul: nat, seg: nat)
    requires l < lmul && s < seg
    ensures 0 <= lmul * s && l + lmul * s < lmul * seg
  {
    Division.Ordered(s + 1, seg, lmul);
  }

  lemma SlotInside(k: nat, size: nat, vlen: nat)
    requires size > 0 && vlen % size == 0 && k < vlen / size
    ensures size * k + size <= vlen
  {
    Division.Ordered(k + 1, vlen / size, size);
  }

  lemma ElementInside(e: nat, count: nat, size: nat, length: nat)
    requires e < count && length >= count * size
    ensures e * size + size <= length
  {
    Division.Ordered(e + 1, count, size);
  }

  /** Storing one element fills exactly the cells of its bytes. */
  lemma CellStep(shape: Shape, data: seq<byte>, was: byte, r: nat, o: nat, l: nat, k: nat, s: nat,
                 r0: nat, o0: nat, at: nat)
    requires shape.Valid() && Suffices(shape, data) && o < shape.vlen
    requires l < shape.lmul && k < shape.Slots() && s < shape.seg
    requires r0 == shape.idx + l + shape.lmul * s && o0 == shape.size * k
    requires at == Index(l, k, s, shape.Slots(), shape.seg) * shape.size && at + shape.size <= |data|
    ensures Cell(shape, data, was, r, o, l, k, s + 1) ==
      if r == r0 && o0 <= o < o0 + shape.size then data[at + (o - o0)] else Cell(shape, data, was, r, o, l, k, s)
  {
    hide Index, Lane, FieldOf, Slot;
    StepInside(shape, data, l, k, s);
    if shape.Holds(r) {
      LaneAndField(r, shape.idx, shape.lmul, shape.seg, l, s);
      SlotRange(o, shape.size, k);
      if Slot(o, shape.size) == k {
        Division.Unique(o, shape.size, k, o - shape.size * k);
      }
    }
  }

  lemma WholeElements(vlen: nat, size: nat)
    requires vlen % 8 == 0 && size in {1, 2, 4, 8}
    ensures vlen % size == 0
  {
    var q := vlen / 8;
    if size == 2 {
      assert vlen == 2 * (4 * q);
    } else if size == 4 {
      assert vlen == 4 * (2 * q);
    }
  }

  lemma NextIndex(l: nat, k: nat, s: nat, slots: nat, seg: nat)
    ensures Index(l, k, s, slots, seg) + 1 == Index(l, k, s + 1, slots, seg)
  {}

  lemma NextSlot(shape: Shape, data: seq<byte>, was: byte, r: nat, o: nat, l: nat, k: nat)
    requires shape.Valid() && Suffices(shape, data) && o < shape.vlen
    ensures Cell(shape, data, was, r, o, l, k, shape.seg) == Cell(shape, data, was, r, o, l, k + 1, 0)
  {
    hide Lane, FieldOf, Slot, Index;
    if shape.Holds(r) { CoordinateBounds(r, shape.idx, shape.lmul, shape.seg); }
  }

  lemma NextLane(shape: Shape, data: seq<byte>, was: byte, r: nat, o: nat, l: nat)
    requires shape.Valid() && Suffices(shape, data) && o < shape.vlen
    ensures Cell(shape, data, was, r, o, l, shape.Slots(), 0) == Cell(shape, data, was, r, o, l + 1, 0, 0)
  {
    hide Lane, FieldOf, Slot, Index;
    SlotBound(o, shape.vlen, shape.size);
  }

  /** Every byte of the groups is the matching byte of its element; all other registers are as before. */
  ghost predicate Scattered(shape: Shape, data: seq<byte>, was: seq<seq<byte>>, now: seq<seq<byte>>)
    requires shape.Valid() && Suffices(shape, data) && Square(was, shape.vlen) && Square(now, shape.vlen)
  {
    forall r: nat, o: nat :: r < REGISTERS && o < shape.vlen ==>
      now[r][o] == Cell(shape, data, was[r][o], r, o, shape.lmul, 0, 0)
  }

  /** The bytes of `count` registers one after the other. */
  ghost function GroupBytes(contents: seq<seq<byte>>, vlen: nat, idx: nat, count: nat): (r: seq<byte>)
    requires Square(contents, vlen) && idx + count <= REGISTERS
    ensures |r| == count * vlen
  {
    if count == 0 then [] else GroupBytes(contents, vlen, idx, count - 1) + contents[idx + count - 1]
  }

  lemma {:induction false} GroupByteAt(contents: seq<seq<byte>>, vlen: nat, idx: nat, count: nat, lane: nat, o: nat)
    requires Square(contents, vlen) && idx + count <= REGISTERS && lane < count && o < vlen
    ensures lane * vlen + o < count * vlen
    ensures GroupBytes(contents, vlen, idx, count)[lane * vlen + o] == contents[idx + lane][o]
  {
    ByteInData(lane, count, vlen, o);
    if lane < count - 1 {
      GroupByteAt(contents, vlen, idx, count - 1, lane, o);
    } else {
      assert (count - 1) * vlen == lane * vlen;
    }
  }

  /** Where element `e` of a field lies among the bytes of its group. */
  lemma ElementPlace(vlen: nat, size: nat, slots: nat, e: nat, l: nat, k: nat, j: nat)
    requires vlen == size * slots && e == l * slots + k && k < slots && j < size
    ensures size * k + j < vlen
    ensures e * size + j == l * vlen + (size * k + j)
  {
    Division.Ordered(k + 1, slots, size);
    assert e * size == l * slots * size + k * size;
    assert l * slots * size == l * vlen;
  }

  /** The register of field `f` in lane `l` has at slot `k` the element with that index. */
  lemma SegmentCell(shape: Shape, data: seq<byte>, was: seq<seq<byte>>, now: seq<seq<byte>>, f: nat, l: nat, k: nat, j: nat,
                    r: nat, o: nat)
    requires shape.Valid() && Suffices(shape, data) && Square(was, shape.vlen) && Square(now, shape.vlen)
    requires Scattered(shape, data, was, now)
    requires f < shape.seg && l < shape.lmul && k < shape.Slots() && j < shape.size
    requires r == shape.idx + l + shape.lmul * f && o == shape.size * k + j && o < shape.vlen
    ensures r < REGISTERS && Index(l, k, f, shape.Slots(), shape.seg) * shape.size + j < |data|
    ensures now[r][o] == data[Index(l, k, f, shape.Slots(), shape.seg) * shape.size + j]
  {
    hide Index, Lane, FieldOf, Slot;
    StepInside(shape, data, l, k, f);
    LaneAndField(r, shape.idx, shape.lmul, shape.seg, l, f);
    SlotRange(o, shape.size, k);
    Division.Unique(o, shape.size, k, j);
  }

  /** The segment write is a transposition: element `e` of field `f` is element `e * seg + f` of the data. */
  lemma SegmentRead(shape: Shape, data: seq<byte>, was: seq<seq<byte>>, now: seq<seq<byte>>, f: nat, e: nat, j: nat,
                    place: nat, from: nat)
    requires shape.Valid() && Suffices(shape, data) && Square(was, shape.vlen) && Square(now, shape.vlen)
    requires Scattered(shape, data, was, now)
    requires f < shape.seg && e < shape.lmul * shape.Slots() && j < shape.size
    requires place == e * shape.size + j && from == (e * shape.seg + f) * shape.size + j
    ensures shape.idx + shape.lmul * f + shape.lmul <= REGISTERS && from < |data|
    ensures
      var field := GroupBytes(now, shape.vlen, shape.idx + shape.lmul * f, shape.lmul);
      place < |field| && field[place] == data[from]
  {
    hide Index, GroupBytes, Scattered, Suffices, Shape.Slots, Shape.Valid;
    var slots := shape.Slots();
    WholeSlots(shape);
    var l, k := SplitElement(e, slots, shape.lmul);
    IndexOfElement(e, l, k, f, slots, shape.seg);
    ElementPlace(shape.vlen, shape.size, slots, e, l, k, j);
    SegmentReadAt(shape, data, was, now, f, l, k, j, place, from);
  }

  lemma SegmentReadAt(shape: Shape, data: seq<byte>, was: seq<seq<byte>>, now: seq<seq<byte>>, f: nat, l: nat, k: nat, j: nat,
                      place: nat, from: nat)
    requires shape.Valid() && Suffices(shape, data) && Square(was, shape.vlen) && Square(now, shape.vlen)
    requires Scattered(shape, data, was, now)
    requires f < shape.seg && l < shape.lmul && k < shape.Slots() && j < shape.size
    requires shape.size * k + j < shape.vlen && place == l * shape.vlen + (shape.size * k + j)
    requires from == Index(l, k, f, shape.Slots(), shape.seg) * shape.size + j
    ensures shape.idx + shape.lmul * f + shape.lmul <= REGISTERS && from < |data|
    ensures
      var field := GroupBytes(now, shape.vlen, shape.idx + shape.lmul * f, shape.lmul);
      place < |field| && field[place] == data[from]
  {
    hide Index, GroupBytes, Scattered, Suffices, Shape.Slots;
    Division.Ordered(f + 1, shape.seg, shape.lmul);
    var first := shape.idx + shape.lmul * f;
    GroupByteAt(now, shape.vlen, first, shape.lmul, l, shape.size * k + j);
    SegmentCell(shape, data, was, now, f, l, k, j, first + l, shape.size * k + j);
  }

  lemma WholeSlots(shape: Shape)
    requires shape.Valid()
    ensures shape.vlen == shape.size * shape.Slots()
  {}

  /** The lane and the slot of an element. */
  lemma SplitElement(e: nat, slots: nat, lmul: nat) returns (l: nat, k: nat)
    requires e < lmul * slots
    ensures l < lmul && k < slots && e == l * slots + k
  {
    assert slots > 0;
    l, k := e / slots, e % slots;
    if l >= lmul { Division.Ordered(lmul, l, slots); }
  }

  lemma IndexOfElement(e: nat, l: nat, k: nat, f: nat, slots: nat, seg: nat)
    requires e == l * slots + k
    ensures Index(l, k, f, slots, seg) == e * seg + f
  {}
}
