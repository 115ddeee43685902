/**
 * The aggregation query `update_graph(selected_year, selected_column)`
 * (Code/app.py, lines 59-67): keep the prepared records up to the selected
 * year, count them per (year, key) pair in sorted pair order, and add the
 * running total of the counts per key over ascending years.
 */
module Aggregation {
  import opened Preparation
  import opened Ordering

  /** The two categorical columns the dropdown offers (lines 27-28). */
  datatype Column = RideableType | MemberCasual

  function KeyOf(column: Column, r: TripRecord): string
  {
    match column
    case RideableType => r.rideableType
    case MemberCasual => r.memberCasual
  }

  /** One row of the group-count table: a (year, key) pair and its size. */
  datatype Group = Group(year: int, key: string, count: nat)

  /** One row handed to the chart: the group-count row plus `cumulative_count`. */
  datatype Row = Row(year: int, key: string, count: nat, cumulative: nat)

  /** Line 61: the records whose year is at most the selected year, in table order. */
  function UpTo(table: seq<TripRecord>, selectedYear: int): (kept: seq<TripRecord>)
    ensures forall r :: r in kept ==> r in table && r.year <= selectedYear
    ensures forall r :: r in table && r.year <= selectedYear ==> r in kept
    ensures forall r :: multiset(kept)[r] == if r.year <= selectedYear then multiset(table)[r] else 0
    decreases |table|
  {
    if table == [] then []
    else
      var rest := UpTo(table[1..], selectedYear);
      assert table == [table[0]] + table[1..];
      if table[0].year <= selectedYear then [table[0]] + rest else rest
  }

  predicate Before(a: Group, b: Group)
  {
    SlotLess(a.year, a.key, b.year, b.key)
  }

  /** Strictly ascending by (year, key): hence no pair occurs twice. */
  predicate Ordered(gs: seq<Group>)
  {
    forall i, j :: 0 <= i < j < |gs| ==> Before(gs[i], gs[j])
  }

  predicate Positive(gs: seq<Group>)
  {
    forall i :: 0 <= i < |gs| ==> gs[i].count >= 1
  }

  /** The (year, key) pairs that have a group. */
  function Slots(gs: seq<Group>): set<(int, string)>
  {
    set g | g in gs :: (g.year, g.key)
  }

  lemma SlotsCons(g: Group, gs: seq<Group>)
    ensures Slots([g] + gs) == {(g.year, g.key)} + Slots(gs)
  {
    assert forall h :: h in [g] + gs <==> h == g || h in gs;
  }

  /**
   * Counts one more record with pair (year, key): its group grows by one, or
   * a group of size one is placed where the sorted order puts it.
   */
  function Insert(gs: seq<Group>, year: int, key: string): (r: seq<Group>)
    ensures Slots(r) == Slots(gs) + {(year, key)}
    decreases |gs|
  {
    if gs == [] then [Group(year, key, 1)]
    else if gs[0].year == year && gs[0].key == key then
      var grown := gs[0].(count := gs[0].count + 1);
      SlotsCons(grown, gs[1..]);
      SlotsCons(gs[0], gs[1..]);
      assert gs == [gs[0]] + gs[1..];
      [grown] + gs[1..]
    else if SlotLess(year, key, gs[0].year, gs[0].key) then
      SlotsCons(Group(year, key, 1), gs);
      [Group(year, key, 1)] + gs
    else
      var rest := Insert(gs[1..], year, key);
      SlotsCons(gs[0], rest);
      SlotsCons(gs[0], gs[1..]);
      assert gs == [gs[0]] + gs[1..];
      [gs[0]] + rest
  }

  /** Counting one more record keeps every group size positive. */
  lemma {:induction false} InsertPositive(gs: seq<Group>, year: int, key: string)
    requires Positive(gs)
    ensures Positive(Insert(gs, year, key))
    decreases |gs|
  {
    var r := Insert(gs, year, key);
    if gs == [] {
      assert r == [Group(year, key, 1)];
    } else if gs[0].year == year && gs[0].key == key {
      forall i | 0 <= i < |r|
        ensures r[i].count >= 1
      {
        if i > 0 {
          assert r[i] == gs[i];
        }
      }
    } else if SlotLess(year, key, gs[0].year, gs[0].key) {
      forall i | 0 <= i < |r|
        ensures r[i].count >= 1
      {
        if i > 0 {
          assert r[i] == gs[i - 1];
        }
      }
    } else {
      var rest := Insert(gs[1..], year, key);
      InsertPositive(gs[1..], year, key);
      forall i | 0 <= i < |r|
        ensures r[i].count >= 1
      {
        if i > 0 {
          assert r[i] == rest[i - 1];
        }
      }
    }
  }

  /**
   * Line 64: the size of each (year, key) group, one group per pair
   * that occurs among the records, each with a positive size.
   */
  function GroupCount(rs: seq<TripRecord>, column: Column): (gs: seq<Group>)
    ensures Slots(gs) == set r | r in rs :: (r.year, KeyOf(column, r))
    ensures Positive(gs)
    decreases |rs|
  {
    if rs == [] then []
    else
      var rest := GroupCount(rs[1..], column);
      InsertPositive(rest, rs[0].year, KeyOf(column, rs[0]));
      Insert(rest, rs[0].year, KeyOf(column, rs[0]))
  }

  /** The running totals seen so far per key; zero for a key not yet seen. */
  function Running(totals: map<string, nat>, key: string): nat
  {
    if key in totals then totals[key] else 0
  }

  /** The group-count rows without the added column. */
  function Groups(rows: seq<Row>): seq<Group>
  {
    seq(|rows|, i requires 0 <= i < |rows| => Group(rows[i].year, rows[i].key, rows[i].count))
  }

  /**
   * Line 67: the per-key cumulative sum of the counts, which walks the
   * rows in order and keeps one running total per key.
   */
  function RunningSums(gs: seq<Group>, totals: map<string, nat>): (rows: seq<Row>)
    ensures Groups(rows) == gs
    decreases |gs|
  {
    if gs == [] then []
    else
      var g := gs[0];
      var total := Running(totals, g.key) + g.count;
      [Row(g.year, g.key, g.count, total)] + RunningSums(gs[1..], totals[g.key := total])
  }

  /** Lines 59-67: the rows `update_graph` hands to the bar chart. */
  function Query(table: seq<TripRecord>, selectedYear: int, column: Column): (rows: seq<Row>)
    ensures forall i :: 0 <= i < |rows| ==> rows[i].year <= selectedYear
  {
    var gs := GroupCount(UpTo(table, selectedYear), column);
    var rows := RunningSums(gs, map[]);
    RowYearsBounded(gs, rows, selectedYear);
    rows
  }

  /** Rows built on groups whose pairs all lie within a year bound stay within it. */
  lemma RowYearsBounded(gs: seq<Group>, rows: seq<Row>, bound: int)
    requires Groups(rows) == gs
    requires forall p :: p in Slots(gs) ==> p.0 <= bound
    ensures forall i :: 0 <= i < |rows| ==> rows[i].year <= bound
  {
    forall i | 0 <= i < |rows|
      ensures rows[i].year <= bound
    {
      assert Groups(rows)[i] == gs[i];
      assert gs[i] in gs;
      assert (gs[i].year, gs[i].key) in Slots(gs);
    }
  }
}
