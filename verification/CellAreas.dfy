/** The report of cell areas: every accepted cell gets an entry of its own. */
module CellAreas {
  import opened Decimals
  import opened Ordering

  datatype Metrics = Metrics(
    cellarea: Option<real>, cellcount: Option<real>,
    macroarea: Option<real>, macrocount: Option<real>,
    stdcellarea: Option<real>, stdcellcount: Option<real>)

  datatype Cell = Cell(name: Option<string>, modul: Option<string>, metrics: Metrics)

  datatype Area = Area(modul: Option<string>, metrics: Metrics)

  /** What Python takes for true. */
  predicate Given(s: Option<string>) {
    s.Some? && s.value != ""
  }

  predicate Accepted(c: Cell) {
    && (Given(c.name) || Given(c.modul))
    && c.metrics != Metrics(None, None, None, None, None, None)
  }

  function BaseName(c: Cell): string
    requires Accepted(c)
  {
    if Given(c.name) then c.name.value else c.modul.value
  }

  function Record(c: Cell): Area {
    Area(c.modul, c.metrics)
  }

  // ------------------------------------------------------------- probed names

  /** The `k`-th name tried: the name itself, then the name with 0, 1, 2, … behind it. */
  function NameAt(base: string, k: nat): string {
    if k == 0 then base else base + Decimal(k - 1)
  }

  lemma NameSuffix(base: string, k: nat)
    ensures base <= NameAt(base, k)
    ensures NameAt(base, k)[|base|..] == if k == 0 then "" else Decimal(k - 1)
  {
  }

  lemma NamesDiffer(base: string, j: nat, k: nat)
    requires j < k
    ensures NameAt(base, j) != NameAt(base, k)
  {
    NameSuffix(base, j);
    NameSuffix(base, k);
    DecimalInverse(k - 1);
    if j > 0 {
      DecimalInverse(j - 1);
    }
  }

  ghost predicate AllTaken(base: string, taken: set<string>, k: nat) {
    forall j :: 0 <= j < k ==> NameAt(base, j) in taken
  }

  /** As many names cannot all be taken as there are entries plus one. */
  lemma TakenBound(base: string, taken: set<string>, k: nat)
    requires AllTaken(base, taken, k)
    ensures k <= |taken|
  {
    var names := seq(k, j requires 0 <= j < k => NameAt(base, j));
    forall i, j | 0 <= i < j < k
      ensures names[i] != names[j]
    {
      NamesDiffer(base, i, j);
    }
    DistinctFits(names, taken);
  }

  /** How many names are taken before the first free one. */
  ghost function FirstFree(base: string, taken: set<string>, from: nat): (k: nat)
    requires AllTaken(base, taken, from)
    ensures AllTaken(base, taken, k) && NameAt(base, k) !in taken
    decreases |taken| + 1 - from
  {
    TakenBound(base, taken, from);
    if NameAt(base, from) in taken then FirstFree(base, taken, from + 1) else from
  }

  ghost function FreeName(base: string, taken: set<string>): string {
    NameAt(base, FirstFree(base, taken, 0))
  }

  lemma FreeNameIs(base: string, taken: set<string>, k: nat)
    requires AllTaken(base, taken, k) && NameAt(base, k) !in taken
    ensures FreeName(base, taken) == NameAt(base, k)
  {
    var f := FirstFree(base, taken, 0);
  }

  ghost function Added(areas: map<string, Area>, c: Cell): map<string, Area> {
    if Accepted(c) then areas[FreeName(BaseName(c), areas.Keys) := Record(c)] else areas
  }

  /**
   * A call without name and module, or without any figure, changes nothing. Else the report has one more
   * entry, with what the call brought, under the name given, or the module if there is none, or under
   * the first of the names with 0, 1, 2, … behind it that is free.
   */
  ghost predicate AddsEntry(before: map<string, Area>, c: Cell, after: map<string, Area>) {
    var m := c.metrics;
    var named := c.name.Some? && c.name.value != "";
    if (!named && (c.modul.None? || c.modul.value == ""))
      || (m.cellarea.None? && m.cellcount.None? && m.macroarea.None? && m.macrocount.None? && m.stdcellarea.None?
        && m.stdcellcount.None?)
    then after == before
    else
      var base := if named then c.name.value else c.modul.value;
      exists key ::
      && IsFirstFree(base, before.Keys, key)
      && after == before[key := Area(c.modul, c.metrics)]
  }

  ghost predicate IsFirstFree(base: string, taken: set<string>, key: string) {
    && key !in taken
    && (key == base || (base in taken && exists k :: key == base + Decimal(k) && AllUsed(base, taken, k)))
  }

  ghost predicate AllUsed(base: string, taken: set<string>, k: nat) {
    forall j: nat :: j < k ==> base + Decimal(j) in taken
  }

  lemma FreeNameFirst(base: string, taken: set<string>)
    ensures IsFirstFree(base, taken, FreeName(base, taken))
  {
    var k := FirstFree(base, taken, 0);
    if k > 0 {
      assert NameAt(base, 0) in taken;
      forall j: nat | j < k - 1
        ensures base + Decimal(j) in taken
      {
        assert NameAt(base, j + 1) in taken;
      }
      assert AllUsed(base, taken, k - 1);
    }
  }

  lemma AddedIs(areas: map<string, Area>, c: Cell)
    ensures AddsEntry(areas, c, Added(areas, c))
  {
    if Accepted(c) {
      FreeNameFirst(BaseName(c), areas.Keys);
    }
    hide IsFirstFree, FreeName;
  }

  class CellArea {
    var areas: map<string, Area>

    constructor ()
      ensures areas == map[]
    {
      areas := map[];
    }

    method AddCell(c: Cell)
      modifies this
      ensures areas == Added(old(areas), c) && AddsEntry(old(areas), c, areas)
    {
      AddedIs(areas, c);
      hide AddsEntry;
      if !Given(c.name) && !Given(c.modul) {
        return;
      }
      if c.metrics == Metrics(None, None, None, None, None, None) {
        return;
      }
      var name := if Given(c.name) then c.name.value else c.modul.value;
      var checkName, idx := name, 0;
      while checkName in areas
        invariant areas == old(areas)
        invariant checkName == NameAt(name, idx) && AllTaken(name, areas.Keys, idx)
        decreases |areas.Keys| + 1 - idx
      {
        TakenBound(name, areas.Keys, idx + 1);
        checkName := name + Decimal(idx);
        idx := idx + 1;
      }
      FreeNameIs(name, areas.Keys, idx);
      areas := areas[checkName := Record(c)];
    }

    method Size() returns (n: nat)
      ensures n == |areas|
    {
      n := |areas|;
    }
  }

  // --------------------------------------------------------------------- runs

  ghost function After(areas: map<string, Area>, calls: seq<Cell>): map<string, Area>
    decreases |calls|
  {
    if calls == [] then areas else After(Added(areas, calls[0]), calls[1..])
  }

  function AcceptedCalls(calls: seq<Cell>): seq<Cell> {
    if calls == [] then []
    else (if Accepted(calls[0]) then [calls[0]] else []) + AcceptedCalls(calls[1..])
  }

  lemma AddedOne(areas: map<string, Area>, c: Cell)
    ensures |Added(areas, c)| == |areas| + if Accepted(c) then 1 else 0
    ensures forall n :: n in areas ==> n in Added(areas, c) && Added(areas, c)[n] == areas[n]
  {
    if Accepted(c) {
      assert Added(areas, c).Keys == areas.Keys + {FreeName(BaseName(c), areas.Keys)};
    }
  }

  /** Over any run each accepted call adds one entry, and no entry is ever changed or lost. */
  lemma {:induction false} RunSize(areas: map<string, Area>, calls: seq<Cell>)
    ensures |After(areas, calls)| == |areas| + |AcceptedCalls(calls)|
    ensures forall n :: n in areas ==> n in After(areas, calls) && After(areas, calls)[n] == areas[n]
    decreases |calls|
  {
    if calls != [] {
      AddedOne(areas, calls[0]);
      RunSize(Added(areas, calls[0]), calls[1..]);
    }
  }

  /** The accepted calls, in order, own distinct entries that hold exactly what they brought. */
  ghost predicate Owns(names: seq<string>, calls: seq<Cell>, areas: map<string, Area>) {
    && |names| == |calls| && Distinct(names)
    && forall i :: 0 <= i < |names| ==> names[i] in areas && areas[names[i]] == Record(calls[i])
  }

  lemma OwnsOneMore(name: string, rest: seq<string>, c: Cell, calls: seq<Cell>, areas: map<string, Area>)
    requires Owns(rest, calls, areas) && name !in rest && name in areas && areas[name] == Record(c)
    ensures Owns([name] + rest, [c] + calls, areas)
  {
  }

  lemma NextEntry(areas: map<string, Area>, c: Cell, calls: seq<Cell>)
    requires Accepted(c)
    ensures var name, next := FreeName(BaseName(c), areas.Keys), Added(areas, c);
      && name !in areas && next.Keys == areas.Keys + {name}
      && name in After(next, calls) && After(next, calls)[name] == Record(c)
  {
    var name, next := FreeName(BaseName(c), areas.Keys), Added(areas, c);
    RunSize(next, calls);
    assert name in next && next[name] == Record(c);
  }

  /** Every accepted call finds its entry at the end, and there are no entries besides. */
  lemma {:induction false} RunKeepsEveryCell(areas: map<string, Area>, calls: seq<Cell>) returns (names: seq<string>)
    ensures Owns(names, AcceptedCalls(calls), After(areas, calls))
    ensures Elements(names) !! areas.Keys && Elements(names) + areas.Keys == After(areas, calls).Keys
    decreases |calls|
  {
    if calls == [] {
      names := [];
    } else {
      var c, next := calls[0], Added(areas, calls[0]);
      var rest := RunKeepsEveryCell(next, calls[1..]);
      names := rest;
      if Accepted(c) {
        var name := FreeName(BaseName(c), areas.Keys);
        NextEntry(areas, c, calls[1..]);
        assert name !in Elements(rest);
        OwnsOneMore(name, rest, c, AcceptedCalls(calls[1..]), After(next, calls[1..]));
        names := [name] + rest;
        assert Elements(names) == {name} + Elements(rest);
      } else {
        assert AcceptedCalls(calls) == AcceptedCalls(calls[1..]);
      }
    }
  }

  lemma AfterOneMore(areas: map<string, Area>, calls: seq<Cell>, i: nat)
    requires i < |calls|
    ensures After(areas, calls[i..]) == After(Added(areas, calls[i]), calls[i + 1..])
  {
    assert calls[i..][1..] == calls[i + 1..];
  }

  /** One report, filled call by call: its size is the number of accepted calls. */
  method ReportCells(calls: seq<Cell>) returns (size: nat)
    ensures size == |AcceptedCalls(calls)|
  {
    var report := new CellArea();
    assert calls[0..] == calls;
    for i := 0 to |calls|
      invariant After(report.areas, calls[i..]) == After(map[], calls)
    {
      AfterOneMore(report.areas, calls, i);
      report.AddCell(calls[i]);
    }
    RunSize(map[], calls);
    size := report.Size();
  }
}
