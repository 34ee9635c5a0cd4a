/**
Walking a descriptor chain in guest memory.

A chain is followed by a cursor with a budget: the main table gives as many steps as it
has entries, and an INDIRECT entry moves the cursor to the table it points to and refills
the budget with the length of that table. The specification is a path of locations linked
by successor steps, without cursor or budget.
*/
module DescriptorChain {
  import opened Ram
  import opened Wrappers

  const DESC_SIZE := 16
  const DESC_ALIGN := 8

  datatype Desc = Desc(paddr: nat, len: nat, hasNext: bool, indirect: bool, next: nat) {

    /** The buffer lies in the guest's 512 MiB of RAM. */
    predicate BufferInRam() { 0x8000_0000 <= paddr && paddr + len <= 0xA000_0000 }

    /** The descriptor refers to a non-empty, aligned table of descriptors that lies inside RAM. */
    predicate RefersToTable() {
      && len % 16 == 0 && len >= 16
      && paddr % 8 == 0
      && BufferInRam()
    }
  }

  // The descriptor decoded at a guest physical address.
  type Memory = nat -> Desc

  datatype Table = Table(base: nat, len: nat)

  datatype Loc = Loc(table: Table, idx: nat)

  /** Entries of a table are 16 bytes apart. */
  function At(mem: Memory, loc: Loc): Desc { mem(loc.table.base + 16 * loc.idx) }

  function IndirectTable(d: Desc): Table { Table(d.paddr, d.len / 16) }

  /** The location whose buffer stands for `loc`: itself, or the first entry of the table it refers to. */
  function Resolve(mem: Memory, loc: Loc): Option<Loc> {
    if loc.idx >= loc.table.len then None
    else
      var d := At(mem, loc);
      if !d.indirect then Some(loc)
      else if d.RefersToTable() then Some(Loc(IndirectTable(d), 0))
      else None
  }

  function Succ(mem: Memory, loc: Loc): Option<Loc> {
    if At(mem, loc).hasNext then Resolve(mem, Loc(loc.table, At(mem, loc).next)) else None
  }

  /** The location after the whole path, or the first one when the path is empty. */
  function Following(mem: Memory, start: Loc, path: seq<Loc>): Option<Loc> {
    if path == [] then Resolve(mem, start) else Succ(mem, path[|path| - 1])
  }

  predicate IsPath(mem: Memory, start: Loc, path: seq<Loc>) {
    path == [] ||
    var front := path[..|path| - 1];
    IsPath(mem, start, front) && Following(mem, start, front) == Some(path[|path| - 1])
  }

  predicate InBounds(mem: Memory, path: seq<Loc>) {
    forall i :: 0 <= i < |path| ==> path[i].idx < path[i].table.len && At(mem, path[i]).BufferInRam()
  }

  /** Section 2.7.5.3.1 of VirtIO 1.2: a table referred to by an INDIRECT entry has no INDIRECT entry itself. */
  ghost predicate NoNestedIndirect(mem: Memory, main: Table) {
    forall i, j | 0 <= i < main.len && At(mem, Loc(main, i)).indirect && At(mem, Loc(main, i)).RefersToTable()
      && 0 <= j < IndirectTable(At(mem, Loc(main, i))).len ::
      !At(mem, Loc(IndirectTable(At(mem, Loc(main, i))), j)).indirect
  }

  ghost predicate FlatTable(mem: Memory, t: Table) {
    forall j :: 0 <= j < t.len ==> !At(mem, Loc(t, j)).indirect
  }

  /** The entry that a walk looks at after the path: the head, or what the last location links to. */
  function Entry(mem: Memory, main: Table, head: nat, path: seq<Loc>): Loc {
    if path == [] then Loc(main, head)
    else
      var last := path[|path| - 1];
      Loc(last.table, NextIdx(mem, last))
  }

  function NextIdx(mem: Memory, loc: Loc): nat {
    if At(mem, loc).hasNext then At(mem, loc).next else loc.table.len
  }

  /** How many locations at the end of the path were visited since a table was entered last. */
  function Visits(mem: Memory, main: Table, head: nat, path: seq<Loc>): (n: nat)
    ensures n <= |path|
  {
    if path == [] then 0
    else
      var front := path[..|path| - 1];
      if At(mem, Entry(mem, main, head, front)).indirect then 1 else Visits(mem, main, head, front) + 1
  }

  /** Nothing is left of the budget: the current table has been visited as often as it has entries. */
  predicate Exhausted(mem: Memory, main: Table, head: nat, path: seq<Loc>) {
    Visits(mem, main, head, path) >= Entry(mem, main, head, path).table.len
  }

  /** Every location was reached with something left of the budget. */
  ghost predicate WithinBudget(mem: Memory, main: Table, head: nat, path: seq<Loc>) {
    forall n :: 0 <= n < |path| ==> !Exhausted(mem, main, head, path[..n])
  }

  /** Why a walk ends: no successor, a buffer outside RAM, or no budget. */
  predicate Ended(mem: Memory, main: Table, head: nat, path: seq<Loc>) {
    var f := Following(mem, Loc(main, head), path);
    f.None? || !At(mem, f.value).BufferInRam() || Exhausted(mem, main, head, path)
  }

  lemma PathExtend(mem: Memory, start: Loc, path: seq<Loc>, cur: Loc)
    requires IsPath(mem, start, path) && Following(mem, start, path) == Some(cur)
    ensures IsPath(mem, start, path + [cur])
  {
    assert (path + [cur])[..|path|] == path;
  }

  // The table being walked, the entry to look at next, and what is left of the budget.
  datatype Cursor = Cursor(table: Table, idx: nat, remaining: nat)

  function Start(main: Table, head: nat): Cursor { Cursor(main, head, main.len) }

  /** The cursor stands behind the last location of the path, with what is left of the budget. */
  predicate Live(mem: Memory, main: Table, head: nat, path: seq<Loc>, c: Cursor) {
    && Entry(mem, main, head, path) == Loc(c.table, c.idx)
    && c.remaining + Visits(mem, main, head, path) == c.table.len
  }

  ghost predicate Walking(mem: Memory, main: Table, head: nat, path: seq<Loc>, c: Cursor) {
    && IsPath(mem, Loc(main, head), path) && InBounds(mem, path) && WithinBudget(mem, main, head, path)
    && (Live(mem, main, head, path, c) || (c.remaining == 0 && Ended(mem, main, head, path)))
  }

  lemma CursorFollows(mem: Memory, main: Table, head: nat, path: seq<Loc>, c: Cursor)
    requires Walking(mem, main, head, path, c) && c.remaining != 0
    ensures Following(mem, Loc(main, head), path) == Resolve(mem, Loc(c.table, c.idx))
  {}

  /** One step of the cursor: the location it yields, if any, and where it stands afterwards. */
  function Step(mem: Memory, c: Cursor): (Option<Loc>, Cursor) {
    var target := if c.remaining == 0 then None else Resolve(mem, Loc(c.table, c.idx));
    if target.None? then (None, c.(remaining := 0))
    else
      var cur := target.value;
      var budget := if At(mem, Loc(c.table, c.idx)).indirect then cur.table.len else c.remaining;
      if At(mem, cur).BufferInRam() then (Some(cur), Cursor(cur.table, NextIdx(mem, cur), budget - 1))
      else (None, c.(remaining := 0))
  }

  /** A successful step appends the location it yields to the path. */
  lemma StepAdvances(mem: Memory, main: Table, head: nat, path: seq<Loc>, c: Cursor)
    requires Walking(mem, main, head, path, c) && Step(mem, c).0.Some?
    ensures Walking(mem, main, head, path + [Step(mem, c).0.value], Step(mem, c).1)
  {
    var cur := Step(mem, c).0.value;
    var next := path + [cur];
    CursorFollows(mem, main, head, path, c);
    PathExtend(mem, Loc(main, head), path, cur);
    assert next[..|path|] == path;
    forall n | 0 <= n < |next| ensures !Exhausted(mem, main, head, next[..n]) {
      if n < |path| { assert next[..n] == path[..n]; }
    }
  }

  /** A step that yields nothing leaves a path that cannot be continued. */
  lemma StepEnds(mem: Memory, main: Table, head: nat, path: seq<Loc>, c: Cursor)
    requires Walking(mem, main, head, path, c) && Step(mem, c).0.None?
    ensures Ended(mem, main, head, path)
  {
    if c.remaining != 0 { CursorFollows(mem, main, head, path, c); }
  }

  // ------------------------------------------------------------------
  // When a walk ends
  // ------------------------------------------------------------------

  /** `n` successful steps of the cursor, or `None` if it stops before that. */
  function Steps(mem: Memory, c: Cursor, n: nat): Option<Cursor>
    decreases n
  {
    if n == 0 then Some(c)
    else if Step(mem, c).0.Some? then Steps(mem, Step(mem, c).1, n - 1)
    else None
  }

  /** The table that the step after the first `n` enters through an INDIRECT entry, if it does. */
  function EntersAt(mem: Memory, c: Cursor, n: nat): Option<Table> {
    match Steps(mem, c, n)
    case None => None
    case Some(d) =>
      if Step(mem, d).0.Some? && At(mem, Loc(d.table, d.idx)).indirect then Some(Step(mem, d).1.table) else None
  }

  /** The walk enters the same table twice. */
  ghost predicate Reenters(mem: Memory, c: Cursor) {
    exists m: nat, n: nat :: m < n && EntersAt(mem, c, m).Some? && EntersAt(mem, c, m) == EntersAt(mem, c, n)
  }

  ghost predicate Ends(mem: Memory, c: Cursor) { exists n: nat :: Steps(mem, c, n).None? }

  /** The tables an INDIRECT entry can refer to: those inside RAM. */
  ghost function Tables(): set<Table> {
    set base: nat, len: nat | base <= RAM_BASE + RAM_SIZE && len <= RAM_SIZE :: Table(base, len)
  }

  lemma EnteredInTables(mem: Memory, c: Cursor, n: nat)
    requires EntersAt(mem, c, n).Some?
    ensures EntersAt(mem, c, n).value in Tables()
  {
    var d := Steps(mem, c, n).value;
    var e := At(mem, Loc(d.table, d.idx));
    assert e.len / DESC_SIZE <= e.len;
  }

  lemma {:induction false} StepsAdd(mem: Memory, c: Cursor, m: nat, n: nat)
    requires Steps(mem, c, m).Some?
    ensures Steps(mem, c, m + n) == Steps(mem, Steps(mem, c, m).value, n)
    decreases m
  {
    if m != 0 { StepsAdd(mem, Step(mem, c).1, m - 1, n); }
  }

  lemma {:induction false} StepsPrefix(mem: Memory, c: Cursor, m: nat, n: nat)
    requires m <= n && Steps(mem, c, n).Some?
    ensures Steps(mem, c, m).Some?
    decreases m
  {
    if m != 0 { StepsPrefix(mem, Step(mem, c).1, m - 1, n - 1); }
  }

  /** Entering a table puts the cursor where it depends on that table only. */
  lemma EnteringForgets(mem: Memory, c: Cursor, n: nat)
    requires EntersAt(mem, c, n).Some?
    ensures
      var t := EntersAt(mem, c, n).value;
      Steps(mem, c, n + 1) == Some(Cursor(t, NextIdx(mem, Loc(t, 0)), t.len - 1))
  {
    StepsAdd(mem, c, n, 1);
    var d := Steps(mem, c, n).value;
    assert Steps(mem, Step(mem, d).1, 0) == Some(Step(mem, d).1);
  }

  lemma {:induction false} PeriodicNeverEnds(mem: Memory, c: Cursor, period: nat, n: nat)
    requires period > 0 && Steps(mem, c, period) == Some(c)
    ensures Steps(mem, c, n).Some?
  {
    if n < period {
      StepsPrefix(mem, c, n, period);
    } else {
      PeriodicNeverEnds(mem, c, period, n - period);
      StepsAdd(mem, c, period, n - period);
    }
  }

  lemma ReentryNeverEnds(mem: Memory, c: Cursor, m: nat, n: nat)
    requires m < n && EntersAt(mem, c, m).Some? && EntersAt(mem, c, m) == EntersAt(mem, c, n)
    ensures !Ends(mem, c)
  {
    EnteringForgets(mem, c, m);
    EnteringForgets(mem, c, n);
    var d := Steps(mem, c, m + 1).value;
    StepsAdd(mem, c, m + 1, n - m);
    forall k: nat ensures Steps(mem, c, k).Some? {
      PeriodicNeverEnds(mem, d, n - m, k);
      StepsAdd(mem, c, m + 1, k);
      StepsPrefix(mem, c, k, m + 1 + k);
    }
  }

  /** No step from here enters a table in `seen`. */
  ghost predicate Avoids(mem: Memory, c: Cursor, seen: set<Table>) {
    forall n: nat :: EntersAt(mem, c, n).Some? ==> EntersAt(mem, c, n).value !in seen
  }

  lemma LaterEntry(mem: Memory, c: Cursor, n: nat)
    requires Step(mem, c).0.Some?
    ensures EntersAt(mem, c, n + 1) == EntersAt(mem, Step(mem, c).1, n)
  {}

  lemma LaterReentry(mem: Memory, c: Cursor)
    requires Step(mem, c).0.Some? && !Reenters(mem, c)
    ensures !Reenters(mem, Step(mem, c).1)
  {
    var d := Step(mem, c).1;
    forall m: nat, n: nat | m < n && EntersAt(mem, d, m).Some? ensures EntersAt(mem, d, m) != EntersAt(mem, d, n) {
      LaterEntry(mem, c, m);
      LaterEntry(mem, c, n);
      assert EntersAt(mem, c, m + 1) != EntersAt(mem, c, n + 1);
    }
  }

  /** Each step uses up budget or enters a table not seen before, of which there are finitely many. */
  lemma {:induction false} FreshTablesRunOut(mem: Memory, c: Cursor, seen: set<Table>) returns (n: nat)
    requires Avoids(mem, c, seen) && !Reenters(mem, c)
    ensures Steps(mem, c, n).None?
    decreases Tables() - seen, c.remaining
  {
    if Step(mem, c).0.None? {
      n := 1;
    } else {
      var d := Step(mem, c).1;
      var entered := EntersAt(mem, c, 0);
      assert Steps(mem, c, 0) == Some(c);
      var now := if entered.Some? then seen + {entered.value} else seen;
      if entered.Some? { EnteredInTables(mem, c, 0); }
      LaterReentry(mem, c);
      forall k: nat | EntersAt(mem, d, k).Some? ensures EntersAt(mem, d, k).value !in now {
        LaterEntry(mem, c, k);
        assert entered.Some? ==> EntersAt(mem, c, k + 1) != entered;
      }
      var rest := FreshTablesRunOut(mem, d, now);
      n := rest + 1;
    }
  }

  /** A walk ends if and only if it does not enter a table twice. */
  lemma EndsIffNoReentry(mem: Memory, c: Cursor)
    ensures Ends(mem, c) <==> !Reenters(mem, c)
  {
    if Reenters(mem, c) {
      var m: nat, n: nat :| m < n && EntersAt(mem, c, m).Some? && EntersAt(mem, c, m) == EntersAt(mem, c, n);
      ReentryNeverEnds(mem, c, m, n);
    } else {
      var n := FreshTablesRunOut(mem, c, {});
    }
  }

  class DescHandle {
    const mem: Memory
    var table: Table
    var idx: nat
    var remaining: nat

    ghost function View(): Cursor
      reads this
    {
      Cursor(table, idx, remaining)
    }

    constructor (mem: Memory, main: Table, head: nat)
      ensures this.mem == mem && View() == Cursor(main, head, main.len)
    {
      this.mem := mem;
      table, idx, remaining := main, head, main.len;
    }

    /** Move to the table the current entry refers to. */
    method GetIndirect() returns (ok: bool)
      requires idx < table.len
      modifies this
      ensures ok == old(mem(table.base + DESC_SIZE * idx)).RefersToTable()
      ensures ok ==> table == IndirectTable(old(mem(table.base + DESC_SIZE * idx))) && idx == 0 && remaining == table.len
      ensures !ok ==> View() == old(View())
    {
      var desc := mem(table.base + DESC_SIZE * idx);
      var tableLen := desc.len / DESC_SIZE;
      if desc.len % DESC_SIZE != 0 || tableLen == 0 { return false; }
      if desc.paddr < RAM_BASE { return false; }
      var offset := desc.paddr - RAM_BASE;
      if desc.paddr % DESC_ALIGN != 0 { return false; }
      if offset + desc.len > RAM_SIZE { return false; }
      table := Table(desc.paddr, tableLen);
      idx, remaining := 0, tableLen;
      return true;
    }

    method TryGet() returns (r: Option<Loc>)
      modifies this
      ensures r == Step(mem, old(View())).0
      ensures r.Some? ==> View() == Step(mem, old(View())).1
      ensures r.None? ==> remaining == 0 || View() == old(View())
    {
      if !(idx < table.len && remaining != 0) { return None; }
      if mem(table.base + DESC_SIZE * idx).indirect {
        var ok := GetIndirect();
        if !ok {
          remaining := 0;
          return None;
        }
      }
      var cur := Loc(table, idx);
      remaining := remaining - 1;
      var desc := mem(table.base + DESC_SIZE * cur.idx);
      idx := if desc.hasNext then desc.next else table.len;
      if !desc.BufferInRam() {
        remaining := 0;
        return None;
      }
      return Some(cur);
    }
  }

  /**
  Follow the chain that starts at `head` to its end. Every location is in bounds of its table
  and its buffer lies inside RAM, the walk visits a table at most as often as the table has
  entries whatever the next links are, and it ends only for one of the reasons in `Ended`.
  */
  method WalkChain(mem: Memory, main: Table, head: nat) returns (path: seq<Loc>)
    requires Ends(mem, Start(main, head))
    ensures IsPath(mem, Loc(main, head), path) && InBounds(mem, path)
    ensures WithinBudget(mem, main, head, path)
    ensures Ended(mem, main, head, path)
  {
    ghost var start, entered: set<Table> := Start(main, head), {};
    EndsIffNoReentry(mem, start);
    var handle := new DescHandle(mem, main, head);
    path := [];
    while true
      invariant handle.mem == mem
      invariant Walking(mem, main, head, path, handle.View())
      invariant Steps(mem, start, |path|) == Some(handle.View())
      invariant forall t :: t in entered ==> EnteredBefore(mem, start, |path|, t)
      decreases Tables() - entered, handle.remaining
    {
      ghost var before := handle.View();
      var loc := handle.TryGet();
      if loc.None? {
        StepEnds(mem, main, head, path, before);
        return;
      }
      StepAdvances(mem, main, head, path, before);
      StepsAdd(mem, start, |path|, 1);
      assert Steps(mem, handle.View(), 0) == Some(handle.View());
      ghost var t := EntersAt(mem, start, |path|);
      if t.Some? {
        EnteredInTables(mem, start, |path|);
        assert !EnteredBefore(mem, start, |path|, t.value);
        entered := entered + {t.value};
      }
      path := path + [loc.value];
    }
  }

  ghost predicate EnteredBefore(mem: Memory, c: Cursor, n: nat, t: Table) {
    exists m: nat :: m < n && EntersAt(mem, c, m) == Some(t)
  }

  // ------------------------------------------------------------------
  // A chain that ends is returned whole
  // ------------------------------------------------------------------

  /** A chain in the sense of the standard: linked locations in bounds, the last one without NEXT. */
  predicate IsChain(mem: Memory, start: Loc, chain: seq<Loc>) {
    && IsPath(mem, start, chain) && InBounds(mem, chain)
    && chain != [] && !At(mem, chain[|chain| - 1]).hasNext
  }

  lemma {:induction false} PathAt(mem: Memory, start: Loc, path: seq<Loc>, i: nat)
    requires IsPath(mem, start, path) && i < |path|
    ensures IsPath(mem, start, path[..i]) && Following(mem, start, path[..i]) == Some(path[i])
  {
    var front := path[..|path| - 1];
    if i < |front| {
      PathAt(mem, start, front, i);
      assert front[..i] == path[..i];
    }
  }

  lemma {:induction false} PathsAgree(mem: Memory, start: Loc, p: seq<Loc>, q: seq<Loc>, i: nat)
    requires IsPath(mem, start, p) && IsPath(mem, start, q) && i <= |p| && i <= |q|
    ensures p[..i] == q[..i]
  {
    hide IsPath, Following;
    if i != 0 {
      PathsAgree(mem, start, p, q, i - 1);
      PathAt(mem, start, p, i - 1);
      PathAt(mem, start, q, i - 1);
      assert p[..i] == p[..i - 1] + [p[i - 1]] && q[..i] == q[..i - 1] + [q[i - 1]];
    }
  }

  /** What a walk returns is determined: two complete walks from one head are the same. */
  lemma WalkUnique(mem: Memory, main: Table, head: nat, p: seq<Loc>, q: seq<Loc>)
    requires IsPath(mem, Loc(main, head), p) && Ended(mem, main, head, p)
    requires IsPath(mem, Loc(main, head), q) && InBounds(mem, q) && WithinBudget(mem, main, head, q)
    ensures |q| <= |p|
  {
    if |p| < |q| {
      PathsAgree(mem, Loc(main, head), p, q, |p|);
      assert p == q[..|p|];
      PathAt(mem, Loc(main, head), q, |p|);
      assert false;
    }
  }

  lemma PathSucc(mem: Memory, start: Loc, path: seq<Loc>, i: nat)
    requires IsPath(mem, start, path) && i + 1 < |path|
    ensures Succ(mem, path[i]) == Some(path[i + 1])
  {
    PathAt(mem, start, path, i + 1);
  }

  /** A chain never visits a location twice. */
  lemma {:induction false} ChainDistinct(mem: Memory, start: Loc, chain: seq<Loc>, i: nat, j: nat)
    requires IsChain(mem, start, chain) && i < j < |chain|
    ensures chain[i] != chain[j]
    decreases |chain| - j
  {
    if chain[i] == chain[j] {
      PathSucc(mem, start, chain, i);
      if j + 1 < |chain| {
        PathSucc(mem, start, chain, j);
        ChainDistinct(mem, start, chain, i + 1, j + 1);
      }
      assert false;
    }
  }

  lemma {:induction false} Pigeonhole(xs: seq<nat>, n: nat)
    requires forall i :: 0 <= i < |xs| ==> xs[i] < n
    requires forall i, j :: 0 <= i < j < |xs| ==> xs[i] != xs[j]
    ensures |xs| <= n
  {
    if xs != [] {
      assert xs[0] < n;
      if n - 1 in xs {
        var at :| 0 <= at < |xs| && xs[at] == n - 1;
        Pigeonhole(xs[..at] + xs[at + 1..], n - 1);
      } else {
        Pigeonhole(xs, n - 1);
      }
    }
  }

  function Indices(path: seq<Loc>): seq<nat> {
    seq(|path|, i requires 0 <= i < |path| => path[i].idx)
  }

  /** No location of the path is itself marked INDIRECT: entry 0 of an entered table may be. */
  predicate PlainPath(mem: Memory, path: seq<Loc>) {
    forall i :: 0 <= i < |path| ==> !At(mem, path[i]).indirect
  }

  lemma FollowingEntry(mem: Memory, main: Table, head: nat, path: seq<Loc>)
    ensures Following(mem, Loc(main, head), path) == Resolve(mem, Entry(mem, main, head, path))
  {}

  /** The locations visited since a table was entered lie in the table of the next entry. */
  lemma {:induction false} VisitsInTable(mem: Memory, main: Table, head: nat, path: seq<Loc>, i: nat)
    requires IsPath(mem, Loc(main, head), path) && |path| - Visits(mem, main, head, path) <= i < |path|
    ensures path[i].table == Entry(mem, main, head, path).table
  {
    var front := path[..|path| - 1];
    FollowingEntry(mem, main, head, front);
    if i < |front| {
      VisitsInTable(mem, main, head, front, i);
    }
  }

  /** The budget is never used up before the end of a chain. */
  lemma ChainFits(mem: Memory, main: Table, head: nat, chain: seq<Loc>, m: nat)
    requires IsChain(mem, Loc(main, head), chain) && PlainPath(mem, chain) && m < |chain|
    ensures !Exhausted(mem, main, head, chain[..m])
  {
    var next := NextIsFresh(mem, main, head, chain, m);
    var from := m - Visits(mem, main, head, chain[..m]);
    hide IsPath, IsChain, Resolve, Visits;
    var here := chain[from..m] + [next];
    Pigeonhole(Indices(here), next.table.len);
  }

  /** The entry that a chain continues from was not visited before; nor was anything twice in its table. */
  lemma NextIsFresh(mem: Memory, main: Table, head: nat, chain: seq<Loc>, m: nat) returns (next: Loc)
    requires IsChain(mem, Loc(main, head), chain) && PlainPath(mem, chain) && m < |chain|
    ensures next == Entry(mem, main, head, chain[..m]) && next.idx < next.table.len
    ensures forall i :: 0 <= i < m ==> chain[i] != next
    ensures forall i, j :: 0 <= i < j < |chain| ==> chain[i] != chain[j]
    ensures forall i :: 0 <= i < |chain| ==> chain[i].idx < chain[i].table.len
    ensures forall i :: m - Visits(mem, main, head, chain[..m]) <= i < m ==> chain[i].table == next.table
  {
    var start := Loc(main, head);
    forall i, j | 0 <= i < j < |chain| ensures chain[i] != chain[j] { ChainDistinct(mem, start, chain, i, j); }
    next := Entry(mem, main, head, chain[..m]);
    PathAt(mem, start, chain, m);
    FollowingEntry(mem, main, head, chain[..m]);
    forall i | m - Visits(mem, main, head, chain[..m]) <= i < m ensures chain[i].table == next.table {
      VisitsInTable(mem, main, head, chain[..m], i);
    }
  }

  /**
  Whatever the walk returns for `head`, if there is a chain starting there at all then it is
  that chain: the budget cuts off cycles only.
  */
  lemma WholeChain(mem: Memory, main: Table, head: nat, path: seq<Loc>, chain: seq<Loc>)
    requires IsPath(mem, Loc(main, head), path) && Ended(mem, main, head, path)
    requires IsChain(mem, Loc(main, head), chain) && PlainPath(mem, chain)
    ensures path == chain
  {
    var start := Loc(main, head);
    if |path| < |chain| {
      PathsAgree(mem, start, path, chain, |path|);
      PathAt(mem, start, chain, |path|);
      assert path == chain[..|path|];
      ChainFits(mem, main, head, chain, |path|);
      assert false;
    }
    PathsAgree(mem, start, path, chain, |chain|);
    if |chain| < |path| {
      PathAt(mem, start, path, |chain|);
      assert false;
    }
  }

  // ------------------------------------------------------------------
  // Tables as the standard demands them, and a table that refers to itself
  // ------------------------------------------------------------------

  /** The first `k` locations are in the main table, the others in one further table. */
  predicate SplitAt(main: Table, path: seq<Loc>, k: nat) {
    && k <= |path| && k <= main.len
    && (forall i :: 0 <= i < k ==> path[i].table == main)
    && (k < |path| ==>
          && k < main.len
          && (forall i :: k <= i < |path| ==> path[i].table == path[k].table)
          && |path| - k <= path[k].table.len)
  }

  lemma NoNestedIsFlat(mem: Memory, main: Table, i: nat)
    requires NoNestedIndirect(mem, main) && i < main.len
    requires At(mem, Loc(main, i)).indirect && At(mem, Loc(main, i)).RefersToTable()
    ensures FlatTable(mem, IndirectTable(At(mem, Loc(main, i))))
  {}

  /** Without nested tables no walk enters a second table, so every walk ends. */
  lemma NoNestedEnds(mem: Memory, main: Table, head: nat)
    requires NoNestedIndirect(mem, main)
    ensures Ends(mem, Start(main, head))
  {
    var c := Start(main, head);
    hide EntersAt, Ends, NoNestedIndirect;
    forall m: nat, n: nat | m < n && EntersAt(mem, c, m).Some? ensures EntersAt(mem, c, n).None? {
      EntersOnce(mem, main, c, m, n);
    }
    EndsIffNoReentry(mem, c);
  }

  lemma EntersOnce(mem: Memory, main: Table, c: Cursor, m: nat, n: nat)
    requires NoNestedIndirect(mem, main) && c.table == main && m < n && EntersAt(mem, c, m).Some?
    ensures EntersAt(mem, c, n).None?
  {
    var t := EntersAt(mem, c, m).value;
    EntersFlat(mem, main, c, m);
    EnteringForgets(mem, c, m);
    var e := Steps(mem, c, m + 1).value;
    StepsAdd(mem, c, m + 1, n - m - 1);
    MainOrFlat(mem, t, e, n - m - 1);
  }

  lemma EntersFlat(mem: Memory, main: Table, c: Cursor, m: nat)
    requires NoNestedIndirect(mem, main) && c.table == main && EntersAt(mem, c, m).Some?
    ensures FlatTable(mem, EntersAt(mem, c, m).value) && NoNestedIndirect(mem, EntersAt(mem, c, m).value)
  {
    MainOrFlat(mem, main, c, m);
    NoNestedIsFlat(mem, main, Steps(mem, c, m).value.idx);
  }

  /** A cursor stays in the main table until it enters a flat one, and never leaves that. */
  lemma {:induction false} MainOrFlat(mem: Memory, main: Table, c: Cursor, n: nat)
    requires NoNestedIndirect(mem, main) && (c.table == main || FlatTable(mem, c.table))
    ensures Steps(mem, c, n).Some? ==>
      var d := Steps(mem, c, n).value;
      d.table == main || FlatTable(mem, d.table)
    ensures FlatTable(mem, c.table) && Steps(mem, c, n).Some? ==> Steps(mem, c, n).value.table == c.table
    decreases n
  {
    if n != 0 && Step(mem, c).0.Some? {
      if At(mem, Loc(c.table, c.idx)).indirect { NoNestedIsFlat(mem, main, c.idx); }
      MainOrFlat(mem, main, Step(mem, c).1, n - 1);
    }
  }

  /** The path so far is split at `k`, plain throughout, and the further table is flat. */
  ghost predicate FlatSplit(mem: Memory, main: Table, head: nat, path: seq<Loc>, k: nat) {
    && SplitAt(main, path, k) && PlainPath(mem, path)
    && Visits(mem, main, head, path) == (if k < |path| then |path| - k else |path|)
    && Entry(mem, main, head, path).table == (if k < |path| then path[k].table else main)
    && (k < |path| ==> FlatTable(mem, path[k].table))
  }

  lemma FlatSplitNext(mem: Memory, main: Table, head: nat, path: seq<Loc>, k: nat, cur: Loc) returns (k': nat)
    requires NoNestedIndirect(mem, main) && FlatSplit(mem, main, head, path, k) && !Exhausted(mem, main, head, path)
    requires Resolve(mem, Entry(mem, main, head, path)) == Some(cur)
    ensures FlatSplit(mem, main, head, path + [cur], k')
  {
    var entry := Entry(mem, main, head, path);
    EntryIsPlain(mem, main, entry, cur);
    hide NoNestedIndirect, FlatTable, Resolve;
    var next := path + [cur];
    assert next[..|next| - 1] == path;
    k' := SplitNext(main, path, k, cur, At(mem, entry).indirect);
    assert Entry(mem, main, head, next).table == cur.table;
  }

  /** Such a walk yields at most the length of the main table plus that of one indirect table. */
  lemma {:induction false} NoNestedSplits(mem: Memory, main: Table, head: nat, path: seq<Loc>) returns (k: nat)
    requires NoNestedIndirect(mem, main) && IsPath(mem, Loc(main, head), path) && WithinBudget(mem, main, head, path)
    ensures SplitAt(main, path, k) && FlatSplit(mem, main, head, path, k)
  {
    hide FlatSplit, NoNestedIndirect, Exhausted;
    if path == [] {
      k := 0;
      EmptySplit(mem, main, head);
    } else {
      var front := path[..|path| - 1];
      assert forall n :: 0 <= n < |front| ==> front[..n] == path[..n];
      var before := NoNestedSplits(mem, main, head, front);
      FollowingEntry(mem, main, head, front);
      assert path == front + [path[|path| - 1]];
      k := FlatSplitNext(mem, main, head, front, before, path[|path| - 1]);
    }
    SplitOf(mem, main, head, path, k);
  }

  lemma EmptySplit(mem: Memory, main: Table, head: nat)
    ensures FlatSplit(mem, main, head, [], 0)
  {}

  lemma SplitOf(mem: Memory, main: Table, head: nat, path: seq<Loc>, k: nat)
    requires FlatSplit(mem, main, head, path, k)
    ensures SplitAt(main, path, k) && PlainPath(mem, path)
  {}

  /** From the main table or a flat one, an INDIRECT entry leads to a flat table and any other to itself. */
  lemma EntryIsPlain(mem: Memory, main: Table, entry: Loc, cur: Loc)
    requires NoNestedIndirect(mem, main) && Resolve(mem, entry) == Some(cur)
    requires entry.table == main || FlatTable(mem, entry.table)
    ensures !At(mem, cur).indirect && 0 < cur.table.len
    ensures if At(mem, entry).indirect then !FlatTable(mem, entry.table) && FlatTable(mem, cur.table) else cur == entry
  {
    if At(mem, entry).indirect { NoNestedIsFlat(mem, main, entry.idx); }
  }

  lemma SplitNext(main: Table, path: seq<Loc>, k: nat, cur: Loc, entered: bool) returns (k': nat)
    requires SplitAt(main, path, k)
    requires if k < |path| then !entered && cur.table == path[k].table && |path| - k < cur.table.len
             else |path| < main.len && 0 < cur.table.len && (!entered ==> cur.table == main)
    ensures SplitAt(main, path + [cur], k')
    ensures k' == if entered || k < |path| then k else k + 1
  {
    k' := if entered || k < |path| then k else k + 1;
  }

  // A table of two entries: a plain one, and an INDIRECT one that refers to the table itself.
  const LoopTable := Table(RAM_BASE, 2)

  function LoopMemory(a: nat): Desc {
    if a == RAM_BASE then Desc(RAM_BASE, 0, true, false, 1) else Desc(RAM_BASE, 2 * DESC_SIZE, false, true, 0)
  }

  /** A walk over a table that refers to itself does not end. */
  lemma NestedIndirectLoops()
    ensures !Ends(LoopMemory, Start(LoopTable, 0))
  {
    var c := Start(LoopTable, 0);
    assert Step(LoopMemory, c) == (Some(Loc(LoopTable, 0)), Cursor(LoopTable, 1, 1));
    var d := Cursor(LoopTable, 1, 1);
    assert IndirectTable(At(LoopMemory, Loc(LoopTable, 1))) == LoopTable;
    assert Step(LoopMemory, d) == (Some(Loc(LoopTable, 0)), d);
    assert Steps(LoopMemory, d, 0) == Some(d);
    assert Steps(LoopMemory, c, 1) == Some(d);
    StepsAdd(LoopMemory, c, 1, 1);
    assert Steps(LoopMemory, c, 2) == Steps(LoopMemory, d, 1) == Some(d);
    assert EntersAt(LoopMemory, c, 1) == EntersAt(LoopMemory, c, 2) == Some(LoopTable);
    EndsIffNoReentry(LoopMemory, c);
  }
}
