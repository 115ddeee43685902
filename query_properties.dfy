/**
 * What `update_graph` (Code/app.py, lines 59-67) promises about its rows:
 * they respect the year cutoff, come in strictly ascending (year, key) order,
 * count exactly the records of their pair, add up to the number of records
 * kept by the filter, and carry per key the running total over the years.
 */
module QueryProperties {
  import opened Wrappers
  import opened Preparation
  import opened Ordering
  import opened Aggregation

  /** Number of records with the given year and key. */
  function CountAt(rs: seq<TripRecord>, column: Column, year: int, key: string): nat
    decreases |rs|
  {
    if rs == [] then 0
    else (if rs[0].year == year && KeyOf(column, rs[0]) == key then 1 else 0) + CountAt(rs[1..], column, year, key)
  }

  /** Number of records with the given key and a year at most `year`. */
  function CountKeyUpTo(rs: seq<TripRecord>, column: Column, key: string, year: int): nat
    decreases |rs|
  {
    if rs == [] then 0
    else (if KeyOf(column, rs[0]) == key && rs[0].year <= year then 1 else 0) + CountKeyUpTo(rs[1..], column, key, year)
  }

  /** Sum of the sizes of the groups with the given pair. */
  function Tally(gs: seq<Group>, year: int, key: string): nat
    decreases |gs|
  {
    if gs == [] then 0
    else (if gs[0].year == year && gs[0].key == key then gs[0].count else 0) + Tally(gs[1..], year, key)
  }

  /** Sum of the sizes of the groups with the given key and a year at most `year`. */
  function KeyTotalUpTo(gs: seq<Group>, key: string, year: int): nat
    decreases |gs|
  {
    if gs == [] then 0
    else (if gs[0].key == key && gs[0].year <= year then gs[0].count else 0) + KeyTotalUpTo(gs[1..], key, year)
  }

  /** Sum of the sizes of the groups with the given key, whatever their year. */
  function KeySum(gs: seq<Group>, key: string): nat
    decreases |gs|
  {
    if gs == [] then 0
    else (if gs[0].key == key then gs[0].count else 0) + KeySum(gs[1..], key)
  }

  /** Sum of all group sizes. */
  function Total(gs: seq<Group>): nat
    decreases |gs|
  {
    if gs == [] then 0 else gs[0].count + Total(gs[1..])
  }

  lemma SameKeyBefore(a: Group, b: Group)
    requires Before(a, b) && a.key == b.key
    ensures a.year < b.year
  {
    StrLessIrreflexive(a.key);
  }

  /** Counting one more record keeps the groups in strictly ascending pair order. */
  lemma {:induction false} InsertKeepsOrder(gs: seq<Group>, year: int, key: string)
    requires Ordered(gs)
    ensures Ordered(Insert(gs, year, key))
    decreases |gs|
  {
    var r := Insert(gs, year, key);
    if gs == [] {
    } else if gs[0].year == year && gs[0].key == key {
      assert forall i :: 0 <= i < |r| ==> r[i].year == gs[i].year && r[i].key == gs[i].key;
    } else if SlotLess(year, key, gs[0].year, gs[0].key) {
      forall i, j | 0 <= i < j < |r|
        ensures Before(r[i], r[j])
      {
        if i == 0 {
          if j > 1 {
            SlotLessTransitive(year, key, gs[0].year, gs[0].key, gs[j - 1].year, gs[j - 1].key);
          }
        }
      }
    } else {
      var rest := Insert(gs[1..], year, key);
      InsertKeepsOrder(gs[1..], year, key);
      SlotLessTotal(year, key, gs[0].year, gs[0].key);
      forall j | 0 <= j < |rest|
        ensures Before(gs[0], rest[j])
      {
        assert (rest[j].year, rest[j].key) in Slots(rest);
        if (rest[j].year, rest[j].key) in Slots(gs[1..]) {
          var h :| h in gs[1..] && (h.year, h.key) == (rest[j].year, rest[j].key);
          var m :| 0 <= m < |gs[1..]| && gs[1..][m] == h;
          assert Before(gs[0], gs[m + 1]);
        }
      }
      assert r == [gs[0]] + rest;
    }
  }

  /** Line 64 emits its groups in strictly ascending (year, key) order. */
  lemma {:induction false} GroupCountOrdered(rs: seq<TripRecord>, column: Column)
    ensures Ordered(GroupCount(rs, column))
    decreases |rs|
  {
    if rs != [] {
      GroupCountOrdered(rs[1..], column);
      InsertKeepsOrder(GroupCount(rs[1..], column), rs[0].year, KeyOf(column, rs[0]));
    }
  }

  /** Counting one more record adds one to exactly the sums its pair belongs to. */
  lemma {:induction false} InsertSums(gs: seq<Group>, year: int, key: string, y: int, k: string)
    ensures Tally(Insert(gs, year, key), y, k) == Tally(gs, y, k) + (if year == y && key == k then 1 else 0)
    ensures KeyTotalUpTo(Insert(gs, year, key), k, y) == KeyTotalUpTo(gs, k, y) + (if key == k && year <= y then 1 else 0)
    ensures Total(Insert(gs, year, key)) == Total(gs) + 1
    decreases |gs|
  {
    if gs == [] {
    } else if gs[0].year == year && gs[0].key == key {
      assert Insert(gs, year, key)[1..] == gs[1..];
    } else if SlotLess(year, key, gs[0].year, gs[0].key) {
      assert Insert(gs, year, key)[1..] == gs;
    } else {
      InsertSums(gs[1..], year, key, y, k);
      assert Insert(gs, year, key)[1..] == Insert(gs[1..], year, key);
    }
  }

  /** The group sizes of line 64 count the records, pair by pair and in total. */
  lemma {:induction false} GroupCountSums(rs: seq<TripRecord>, column: Column, y: int, k: string)
    ensures Tally(GroupCount(rs, column), y, k) == CountAt(rs, column, y, k)
    ensures KeyTotalUpTo(GroupCount(rs, column), k, y) == CountKeyUpTo(rs, column, k, y)
    ensures Total(GroupCount(rs, column)) == |rs|
    decreases |rs|
  {
    if rs != [] {
      GroupCountSums(rs[1..], column, y, k);
      InsertSums(GroupCount(rs[1..], column), rs[0].year, KeyOf(column, rs[0]), y, k);
    }
  }

  lemma {:induction false} TallyAbsent(gs: seq<Group>, year: int, key: string)
    requires (year, key) !in Slots(gs)
    ensures Tally(gs, year, key) == 0
    decreases |gs|
  {
    if gs != [] {
      SlotsCons(gs[0], gs[1..]);
      assert gs == [gs[0]] + gs[1..];
      TallyAbsent(gs[1..], year, key);
    }
  }

  /** In ascending order a pair has one group, so its size is the pair's whole tally. */
  lemma {:induction false} TallyOfOrdered(gs: seq<Group>, i: int)
    requires Ordered(gs) && 0 <= i < |gs|
    ensures gs[i].count == Tally(gs, gs[i].year, gs[i].key)
    decreases |gs|
  {
    if i == 0 {
      forall h | h in gs[1..]
        ensures (h.year, h.key) != (gs[0].year, gs[0].key)
      {
        var m :| 0 <= m < |gs[1..]| && gs[1..][m] == h;
        assert Before(gs[0], gs[m + 1]);
        SlotLessIrreflexive(gs[0].year, gs[0].key);
      }
      TallyAbsent(gs[1..], gs[0].year, gs[0].key);
    } else {
      assert Before(gs[0], gs[i]);
      SlotLessIrreflexive(gs[i].year, gs[i].key);
      TallyOfOrdered(gs[1..], i - 1);
    }
  }

  /** The running total of a row is what came before it for its key plus the row itself. */
  lemma {:induction false} RunningSumsAt(gs: seq<Group>, totals: map<string, nat>, i: int)
    requires 0 <= i < |gs|
    ensures |RunningSums(gs, totals)| == |gs|
    ensures RunningSums(gs, totals)[i].cumulative == Running(totals, gs[i].key) + KeySum(gs[..i + 1], gs[i].key)
    decreases |gs|
  {
    var rows := RunningSums(gs, totals);
    assert |Groups(rows)| == |gs|;
    if i > 0 {
      var g := gs[0];
      var total := Running(totals, g.key) + g.count;
      RunningSumsAt(gs[1..], totals[g.key := total], i - 1);
      assert gs[..i + 1][1..] == gs[1..][..i];
    }
  }

  lemma {:induction false} KeyTotalNoneUpTo(gs: seq<Group>, key: string, year: int)
    requires forall j :: 0 <= j < |gs| && gs[j].key == key ==> gs[j].year > year
    ensures KeyTotalUpTo(gs, key, year) == 0
    decreases |gs|
  {
    if gs != [] {
      KeyTotalNoneUpTo(gs[1..], key, year);
    }
  }

  /**
   * In ascending order the groups of a key up to row i are exactly those of
   * that key with a year at most the row's year.
   */
  lemma {:induction false} PrefixIsUpTo(gs: seq<Group>, i: int)
    requires Ordered(gs) && 0 <= i < |gs|
    ensures KeySum(gs[..i + 1], gs[i].key) == KeyTotalUpTo(gs, gs[i].key, gs[i].year)
    decreases |gs|
  {
    if i == 0 {
      forall j | 0 <= j < |gs[1..]| && gs[1..][j].key == gs[0].key
        ensures gs[1..][j].year > gs[0].year
      {
        SameKeyBefore(gs[0], gs[j + 1]);
      }
      KeyTotalNoneUpTo(gs[1..], gs[0].key, gs[0].year);
      assert gs[..1][1..] == [];
    } else {
      if gs[0].key == gs[i].key {
        SameKeyBefore(gs[0], gs[i]);
      }
      PrefixIsUpTo(gs[1..], i - 1);
      assert gs[..i + 1][1..] == gs[1..][..i];
    }
  }

  lemma {:induction false} KeyTotalMonotone(gs: seq<Group>, key: string, y1: int, y2: int)
    requires y1 <= y2
    ensures KeyTotalUpTo(gs, key, y1) <= KeyTotalUpTo(gs, key, y2)
    decreases |gs|
  {
    if gs != [] {
      KeyTotalMonotone(gs[1..], key, y1, y2);
    }
  }

  /** A group of the key with a year past `y1` adds its whole size to the later total. */
  lemma {:induction false} KeyTotalGrows(gs: seq<Group>, key: string, y1: int, j: int)
    requires 0 <= j < |gs| && gs[j].key == key && y1 < gs[j].year
    ensures KeyTotalUpTo(gs, key, y1) + gs[j].count <= KeyTotalUpTo(gs, key, gs[j].year)
    decreases |gs|
  {
    if j == 0 {
      KeyTotalMonotone(gs[1..], key, y1, gs[0].year);
    } else {
      KeyTotalGrows(gs[1..], key, y1, j - 1);
    }
  }

  lemma {:induction false} CountsUnderCutoff(table: seq<TripRecord>, selectedYear: int, column: Column, y: int, k: string)
    requires y <= selectedYear
    ensures CountAt(UpTo(table, selectedYear), column, y, k) == CountAt(table, column, y, k)
    ensures CountKeyUpTo(UpTo(table, selectedYear), column, k, y) == CountKeyUpTo(table, column, k, y)
    decreases |table|
  {
    if table != [] {
      CountsUnderCutoff(table[1..], selectedYear, column, y, k);
    }
  }

  /** The output is empty exactly when the selected year is below the year of every record. */
  lemma QueryEmptyIff(table: seq<TripRecord>, selectedYear: int, column: Column)
    ensures Query(table, selectedYear, column) == [] <==> forall r :: r in table ==> selectedYear < r.year
  {
  }

  /** Line 64: rows come in strictly ascending (year, key) order, so no pair occurs twice. */
  lemma QueryOrdered(table: seq<TripRecord>, selectedYear: int, column: Column)
    ensures var rows := Query(table, selectedYear, column);
      forall i, j :: 0 <= i < j < |rows| ==> SlotLess(rows[i].year, rows[i].key, rows[j].year, rows[j].key)
    ensures var rows := Query(table, selectedYear, column);
      forall i, j :: 0 <= i < |rows| && 0 <= j < |rows| && i != j ==> (rows[i].year, rows[i].key) != (rows[j].year, rows[j].key)
  {
    var gs := GroupCount(UpTo(table, selectedYear), column);
    var rows := Query(table, selectedYear, column);
    GroupCountOrdered(UpTo(table, selectedYear), column);
    assert |Groups(rows)| == |gs|;
    assert forall i :: 0 <= i < |rows| ==> rows[i].year == gs[i].year && rows[i].key == gs[i].key by {
      forall i | 0 <= i < |rows| ensures rows[i].year == gs[i].year && rows[i].key == gs[i].key {
        assert Groups(rows)[i] == gs[i];
      }
    }
    forall i, j | 0 <= i < |rows| && 0 <= j < |rows| && i != j
      ensures (rows[i].year, rows[i].key) != (rows[j].year, rows[j].key)
    {
      if i < j {
        assert Before(gs[i], gs[j]);
      } else {
        assert Before(gs[j], gs[i]);
      }
      SlotLessIrreflexive(rows[i].year, rows[i].key);
    }
  }

  /**
   * Line 64: every row counts at least one record, and exactly the records
   * of the table with its year and key; every record within the cutoff has
   * the row of its pair.
   */
  lemma QueryCounts(table: seq<TripRecord>, selectedYear: int, column: Column)
    ensures var rows := Query(table, selectedYear, column);
      forall row :: row in rows ==> 1 <= row.count == CountAt(table, column, row.year, row.key)
    ensures var rows := Query(table, selectedYear, column);
      forall r :: r in table && r.year <= selectedYear ==>
        exists row :: row in rows && row.year == r.year && row.key == KeyOf(column, r)
  {
    var kept := UpTo(table, selectedYear);
    var gs := GroupCount(kept, column);
    var rows := Query(table, selectedYear, column);
    GroupCountOrdered(kept, column);
    assert |Groups(rows)| == |gs|;
    forall row | row in rows
      ensures 1 <= row.count == CountAt(table, column, row.year, row.key)
    {
      var i :| 0 <= i < |rows| && rows[i] == row;
      assert Groups(rows)[i] == gs[i];
      TallyOfOrdered(gs, i);
      GroupCountSums(kept, column, row.year, row.key);
      CountsUnderCutoff(table, selectedYear, column, row.year, row.key);
    }
    forall r | r in table && r.year <= selectedYear
      ensures exists row :: row in rows && row.year == r.year && row.key == KeyOf(column, r)
    {
      assert (r.year, KeyOf(column, r)) in Slots(gs);
      var g :| g in gs && (g.year, g.key) == (r.year, KeyOf(column, r));
      var i :| 0 <= i < |gs| && gs[i] == g;
      assert Groups(rows)[i] == gs[i];
      assert rows[i] in rows;
    }
  }

  /** Lines 61-64: the counts of all rows add up to the number of records within the cutoff. */
  lemma QueryConservesCount(table: seq<TripRecord>, selectedYear: int, column: Column)
    ensures Total(Groups(Query(table, selectedYear, column))) == |UpTo(table, selectedYear)|
  {
    GroupCountSums(UpTo(table, selectedYear), column, 0, "");
  }

  /**
   * Line 67: the running total of row (Y, g) is the sum of the counts of the
   * rows of key g with a year at most Y, which is the number of records of
   * the table with key g and a year at most Y.
   */
  lemma QueryCumulative(table: seq<TripRecord>, selectedYear: int, column: Column)
    ensures var rows := Query(table, selectedYear, column);
      forall row :: row in rows ==> row.cumulative == KeyTotalUpTo(Groups(rows), row.key, row.year)
    ensures var rows := Query(table, selectedYear, column);
      forall row :: row in rows ==> row.cumulative == CountKeyUpTo(table, column, row.key, row.year)
  {
    var kept := UpTo(table, selectedYear);
    var gs := GroupCount(kept, column);
    var rows := Query(table, selectedYear, column);
    GroupCountOrdered(kept, column);
    forall row | row in rows
      ensures row.cumulative == KeyTotalUpTo(Groups(rows), row.key, row.year)
      ensures row.cumulative == CountKeyUpTo(table, column, row.key, row.year)
    {
      var i :| 0 <= i < |rows| && rows[i] == row;
      assert Groups(rows)[i] == gs[i];
      RunningSumsAt(gs, map[], i);
      PrefixIsUpTo(gs, i);
      GroupCountSums(kept, column, row.year, row.key);
      CountsUnderCutoff(table, selectedYear, column, row.year, row.key);
    }
  }

  /**
   * Line 67: within a key the running total grows with the year, by at
   * least the later row's count, and never falls below the row's own count.
   */
  lemma QueryMonotone(table: seq<TripRecord>, selectedYear: int, column: Column)
    ensures var rows := Query(table, selectedYear, column);
      forall i :: 0 <= i < |rows| ==> rows[i].count <= rows[i].cumulative
    ensures var rows := Query(table, selectedYear, column);
      forall i, j :: 0 <= i < j < |rows| && rows[i].key == rows[j].key ==>
        rows[i].year < rows[j].year && rows[i].cumulative + rows[j].count <= rows[j].cumulative
  {
    var kept := UpTo(table, selectedYear);
    var gs := GroupCount(kept, column);
    var rows := Query(table, selectedYear, column);
    GroupCountOrdered(kept, column);
    QueryCumulative(table, selectedYear, column);
    assert Groups(rows) == gs;
    forall i | 0 <= i < |rows|
      ensures rows[i].count <= rows[i].cumulative
    {
      assert rows[i] in rows;
      assert Groups(rows)[i] == gs[i];
      KeyTotalGrows(gs, rows[i].key, rows[i].year - 1, i);
    }
    forall i, j | 0 <= i < j < |rows| && rows[i].key == rows[j].key
      ensures rows[i].year < rows[j].year && rows[i].cumulative + rows[j].count <= rows[j].cumulative
    {
      assert rows[i] in rows && rows[j] in rows;
      assert Groups(rows)[i] == gs[i] && Groups(rows)[j] == gs[j];
      SameKeyBefore(gs[i], gs[j]);
      KeyTotalGrows(gs, rows[i].key, rows[i].year, j);
    }
  }

  /** An input record whose text fails to parse never shows in any query's rows. */
  lemma UnparsedNeverCounted(a: seq<RawRecord>, r: RawRecord, b: seq<RawRecord>, parse: Parser,
                             selectedYear: int, column: Column)
    requires parse(Strip(r.startedAt)) == None
    ensures Query(Clean(a + [r] + b, parse), selectedYear, column) == Query(Clean(a + b, parse), selectedYear, column)
  {
    CleanDropsUnparsed(a, r, b, parse);
    CleanAppend(a, b, parse);
  }

  /**
   * Two ride types of 2019 and one of 2020, grouped by ride type with cutoff
   * 2020: the 2019 groups come in key order and the repeated key accumulates.
   */
  lemma QueryExample(e19: TripRecord, c19: TripRecord, e20: TripRecord)
    requires e19.year == 2019 && c19.year == 2019 && e20.year == 2020
    requires e19.rideableType == e20.rideableType && StrLess(c19.rideableType, e19.rideableType)
    ensures var c, e := c19.rideableType, e19.rideableType;
      Query([e19, c19, e20], 2020, RideableType) == [Row(2019, c, 1, 1), Row(2019, e, 1, 1), Row(2020, e, 1, 2)]
  {
    var c, e := c19.rideableType, e19.rideableType;
    StrLessIrreflexive(c);
    ExampleGroups(e19, c19, e20);
    ExampleRunning(c, e);
  }

  /** The two ride types of the example are in that key order. */
  lemma ClassicBeforeElectric()
    ensures StrLess("classic_bike", "electric_bike")
  {
  }

  lemma ExampleGroups(e19: TripRecord, c19: TripRecord, e20: TripRecord)
    requires e19.year == 2019 && c19.year == 2019 && e20.year == 2020
    requires e19.rideableType == e20.rideableType && StrLess(c19.rideableType, e19.rideableType)
    ensures var c, e := c19.rideableType, e19.rideableType;
      GroupCount(UpTo([e19, c19, e20], 2020), RideableType) == [Group(2019, c, 1), Group(2019, e, 1), Group(2020, e, 1)]
  {
    var c, e := c19.rideableType, e19.rideableType;
    var table := [e19, c19, e20];
    UpToKeepsAll(table, 2020);
    ExampleTail(c19, e20);
    ExampleInsert(c, e);
    assert table[1..] == [c19, e20];
  }

  /** The filter keeps the whole table when no record lies past the cutoff. */
  lemma {:induction false} UpToKeepsAll(table: seq<TripRecord>, selectedYear: int)
    requires forall i :: 0 <= i < |table| ==> table[i].year <= selectedYear
    ensures UpTo(table, selectedYear) == table
    decreases |table|
  {
    if table != [] {
      UpToKeepsAll(table[1..], selectedYear);
      assert table == [table[0]] + table[1..];
    }
  }

  lemma ExampleTail(c19: TripRecord, e20: TripRecord)
    requires c19.year == 2019 && e20.year == 2020
    requires StrLess(c19.rideableType, e20.rideableType)
    ensures GroupCount([c19, e20], RideableType)
         == [Group(2019, c19.rideableType, 1), Group(2020, e20.rideableType, 1)]
  {
    assert [c19, e20][1..] == [e20];
    assert GroupCount([e20], RideableType) == [Group(2020, e20.rideableType, 1)];
  }

  lemma ExampleInsert(c: string, e: string)
    requires StrLess(c, e)
    ensures Insert([Group(2019, c, 1), Group(2020, e, 1)], 2019, e)
         == [Group(2019, c, 1), Group(2019, e, 1), Group(2020, e, 1)]
  {
  }

  lemma ExampleRunning(c: string, e: string)
    requires c != e
    ensures RunningSums([Group(2019, c, 1), Group(2019, e, 1), Group(2020, e, 1)], map[])
         == [Row(2019, c, 1, 1), Row(2019, e, 1, 1), Row(2020, e, 1, 2)]
  {
    var gs := [Group(2019, c, 1), Group(2019, e, 1), Group(2020, e, 1)];
    var m1 := map[c := 1];
    var m2 := m1[e := 1];
    assert gs[1..][1..] == [gs[2]];
    assert Running(m2, e) == 1;
    assert RunningSums([gs[2]], m2) == [Row(2020, e, 1, 2)];
    assert Running(m1, e) == 0;
    assert RunningSums(gs[1..], m1) == [Row(2019, e, 1, 1), Row(2020, e, 1, 2)];
  }
}
