/** Measurement rows summarised per workload and server: how many there are, how many failed, and how slow they were. */
module BenchmarkSummary {
  import opened Collections
  import opened Options
  import opened Percentile

  /** The workload a row measures, and the server it ran on. */
  datatype GroupId = GroupId(key: seq<string>, server: string)

  /** `latency` is none when the row holds no number. */
  datatype Row = Row(id: GroupId, success: bool, latency: Option<Sample>)

  datatype Latency = Latency(p50: Option<real>, p95: Option<real>, p99: Option<real>)

  datatype Group = Group(samples: nat, successful: nat, failures: nat, latency: Latency)

  // ---------------------------------------------------------------- one group

  function RowsOf(rows: seq<Row>, id: GroupId): seq<Row> {
    if rows == [] then []
    else RowsOf(rows[..|rows| - 1], id) + (if rows[|rows| - 1].id == id then [rows[|rows| - 1]] else [])
  }

  /** The latencies of the rows that succeeded and hold a number. */
  function Successful(rows: seq<Row>): seq<Sample> {
    if rows == [] then []
    else (if rows[0].success && rows[0].latency.Some? then [rows[0].latency.value] else []) + Successful(rows[1..])
  }

  function Failures(rows: seq<Row>): nat {
    if rows == [] then 0 else (if rows[0].success then 0 else 1) + Failures(rows[1..])
  }

  function LatencyOf(successful: seq<Sample>): Latency {
    Latency(PercentileOf(successful, 50.0), PercentileOf(successful, 95.0), PercentileOf(successful, 99.0))
  }

  function GroupOf(samples: seq<Row>): Group {
    var successful := Successful(samples);
    Group(|samples|, |successful|, Failures(samples), LatencyOf(successful))
  }

  // ---------------------------------------------------------------- all groups

  function Ids(rows: seq<Row>): set<GroupId> {
    set row | row in rows :: row.id
  }

  method Summarize(rows: seq<Row>) returns (groups: map<GroupId, Group>)
    ensures groups.Keys == Ids(rows)
    ensures forall id :: id in groups ==> groups[id] == GroupOf(RowsOf(rows, id))
  {
    hide RowsOf, Ids, GroupOf;
    NoGroups();
    var grouped: map<GroupId, seq<Row>> := map[];
    for n := 0 to |rows|
      invariant grouped.Keys == Ids(rows[..n])
      invariant forall id :: id in grouped ==> grouped[id] == RowsOf(rows[..n], id)
    {
      var row := rows[n];
      assert rows[..n + 1] == rows[..n] + [row];
      OneMoreRow(rows[..n], row);
      if row.id !in grouped { NoRows(rows[..n], row.id); }
      grouped := grouped[row.id := (if row.id in grouped then grouped[row.id] else []) + [row]];
    }
    assert rows[..|rows|] == rows;
    groups := map[];
    var rest := grouped.Keys;
    while rest != {}
      invariant rest <= grouped.Keys && groups.Keys == grouped.Keys - rest
      invariant forall id :: id in groups ==> groups[id] == GroupOf(grouped[id])
      decreases rest
    {
      var id :| id in rest;
      rest := rest - {id};
      groups := groups[id := GroupOf(grouped[id])];
    }
  }

  lemma NoGroups()
    ensures Ids([]) == {}
  {
  }

  lemma OneMoreRow(rows: seq<Row>, row: Row)
    ensures Ids(rows + [row]) == Ids(rows) + {row.id}
    ensures forall id :: RowsOf(rows + [row], id) == RowsOf(rows, id) + (if row.id == id then [row] else [])
  {
    assert (rows + [row])[..|rows + [row]| - 1] == rows;
    assert forall r :: r in rows + [row] <==> r in rows || r == row;
  }

  lemma {:induction false} NoRows(rows: seq<Row>, id: GroupId)
    requires id !in Ids(rows)
    ensures RowsOf(rows, id) == []
  {
    if rows != [] {
      assert rows[|rows| - 1] in rows && forall row :: row in rows[..|rows| - 1] ==> row in rows;
      NoRows(rows[..|rows| - 1], id);
    }
  }

  // ---------------------------------------------------------------- what the summary says

  /** A group holds exactly its own rows, in their order. */
  lemma {:induction false} RowsOfMeaning(rows: seq<Row>, id: GroupId)
    ensures forall row :: row in RowsOf(rows, id) <==> row in rows && row.id == id
  {
    if rows != [] {
      RowsOfMeaning(rows[..|rows| - 1], id);
      assert rows == rows[..|rows| - 1] + [rows[|rows| - 1]];
    }
  }

  lemma SuccessfulLast(rows: seq<Row>, row: Row)
    ensures Successful(rows + [row]) ==
              Successful(rows) + (if row.success && row.latency.Some? then [row.latency.value] else [])
    ensures Failures(rows + [row]) == Failures(rows) + (if row.success then 0 else 1)
  {
    if rows != [] {
      assert (rows + [row])[1..] == rows[1..] + [row];
      SuccessfulLast(rows[1..], row);
    }
  }

  /** How many rows of the list are of a kind. */
  ghost function Count(rows: seq<Row>, kind: Row -> bool): nat {
    |set i | 0 <= i < |rows| && kind(rows[i])|
  }

  function RowIn(id: GroupId): Row -> bool {
    (row: Row) => row.id == id
  }

  function MeasuredIn(id: GroupId): Row -> bool {
    (row: Row) => row.id == id && row.success && row.latency.Some?
  }

  function FailedIn(id: GroupId): Row -> bool {
    (row: Row) => row.id == id && !row.success
  }

  lemma CountLast(rows: seq<Row>, row: Row, kind: Row -> bool)
    ensures Count(rows + [row], kind) == Count(rows, kind) + (if kind(row) then 1 else 0)
  {
    var n, more := |rows|, rows + [row];
    var few, many := set i | 0 <= i < n && kind(rows[i]), set i | 0 <= i < |more| && kind(more[i]);
    assert more[n] == row && forall i :: 0 <= i < n ==> more[i] == rows[i];
    assert many == if kind(row) then few + {n} else few;
  }

  /** A group counts its rows, those with a latency among its successes, and its failures. */
  lemma {:induction false} GroupCounts(rows: seq<Row>, id: GroupId)
    ensures var group := GroupOf(RowsOf(rows, id));
            group.samples == Count(rows, RowIn(id)) &&
            group.successful == Count(rows, MeasuredIn(id)) &&
            group.failures == Count(rows, FailedIn(id))
  {
    hide LatencyOf, Count;
    if rows == [] {
      CountNone(RowIn(id));
      CountNone(MeasuredIn(id));
      CountNone(FailedIn(id));
    } else {
      var init, last := rows[..|rows| - 1], rows[|rows| - 1];
      assert rows == init + [last];
      GroupCounts(init, id);
      SuccessfulLast(RowsOf(init, id), last);
      assert RowsOf(rows, id) == if last.id == id then RowsOf(init, id) + [last] else RowsOf(init, id);
      CountLast(init, last, RowIn(id));
      CountLast(init, last, MeasuredIn(id));
      CountLast(init, last, FailedIn(id));
    }
  }

  lemma CountNone(kind: Row -> bool)
    ensures Count([], kind) == 0
  {
  }

  /** With 101 finite latencies of successes, the three percentiles are the 51st, the 96th and the 100th of them. */
  lemma PercentilesOfHundredAndOne(rows: seq<Row>)
    requires |FiniteValues(Successful(rows))| == 101
    ensures var ordered := Sort(FiniteValues(Successful(rows)));
            |ordered| == 101 && Ordered(ordered) && multiset(ordered) == multiset(FiniteValues(Successful(rows))) &&
            GroupOf(rows).latency == Latency(Some(ordered[50]), Some(ordered[95]), Some(ordered[99]))
  {
    hide PercentileOf, FiniteValues, Sort, Ordered, Mixed;
    var samples := Successful(rows);
    SortSorts(FiniteValues(samples));
    assert |multiset(FiniteValues(samples))| == 101;
    PercentileInterpolates(samples, 50.0, 50, 0.0);
    PercentileInterpolates(samples, 95.0, 95, 0.0);
    PercentileInterpolates(samples, 99.0, 99, 0.0);
    var ordered := Sort(FiniteValues(samples));
    UnmixedFirst(ordered[50], ordered[51]);
    UnmixedFirst(ordered[95], ordered[96]);
    UnmixedFirst(ordered[99], ordered[100]);
  }

  lemma UnmixedFirst(first: real, second: real)
    ensures Mixed(first, second, 0.0) == first
  {
  }

  ghost function Sizes(rows: seq<Row>): map<GroupId, int> {
    map id | id in Ids(rows) :: |RowsOf(rows, id)|
  }

  /** The groups share the rows out: their sizes add up to the number of rows. */
  lemma {:induction false} GroupsPartition(rows: seq<Row>)
    ensures Sum(Sizes(rows)) == |rows|
  {
    hide RowsOf, Ids, Sum;
    if rows == [] {
      NoGroups();
      assert Sizes(rows) == map[];
      SumOfNothing(Sizes(rows));
    } else {
      var init, last := rows[..|rows| - 1], rows[|rows| - 1];
      GroupsPartition(init);
      assert rows == init + [last];
      OneMoreRow(init, last);
      if last.id !in Ids(init) { NoRows(init, last.id); }
      assert Sizes(rows) == Sizes(init)[last.id := |RowsOf(init, last.id)| + 1];
      SumUpdated(Sizes(init), last.id, |RowsOf(init, last.id)| + 1);
    }
  }

  /** Some row of the list succeeded with a finite latency. */
  ghost predicate HasFiniteSuccess(rows: seq<Row>) {
    exists row :: row in rows && row.success && row.latency.Some? && row.latency.value.Finite?
  }

  lemma {:induction false} FiniteSuccess(rows: seq<Row>)
    ensures FiniteValues(Successful(rows)) != [] <==> HasFiniteSuccess(rows)
  {
    if rows != [] {
      hide FiniteValues;
      FiniteSuccess(rows[1..]);
      FiniteOne(rows[0].latency);
      var sample := if rows[0].success && rows[0].latency.Some? then [rows[0].latency.value] else [];
      FiniteConcat(sample, Successful(rows[1..]));
      assert rows == [rows[0]] + rows[1..];
    }
  }

  lemma FiniteOne(latency: Option<Sample>)
    ensures FiniteValues([]) == []
    ensures latency.Some? ==> (FiniteValues([latency.value]) != [] <==> latency.value.Finite?)
  {
  }

  lemma {:induction false} FiniteConcat(left: seq<Sample>, right: seq<Sample>)
    ensures FiniteValues(left + right) == FiniteValues(left) + FiniteValues(right)
  {
    hide FiniteValues;
    if left == [] {
      assert left + right == right;
      FiniteOne(None);
    } else {
      FiniteConcat(left[1..], right);
      FiniteStep(left[0], left[1..]);
      FiniteStep(left[0], left[1..] + right);
      assert left == [left[0]] + left[1..] && left + right == [left[0]] + (left[1..] + right);
    }
  }

  lemma FiniteStep(first: Sample, rest: seq<Sample>)
    ensures FiniteValues([first] + rest) == (if first.Finite? then [first.value] else []) + FiniteValues(rest)
  {
    assert ([first] + rest)[1..] == rest;
  }

  /** A group with a successful finite sample reports p50 ≤ p95 ≤ p99; without one it reports none. */
  lemma SummaryOrdered(rows: seq<Row>, id: GroupId)
    ensures var latency := GroupOf(RowsOf(rows, id)).latency;
            if HasFiniteSuccess(RowsOf(rows, id))
            then latency.p50.Some? && latency.p95.Some? && latency.p99.Some? &&
                 latency.p50.value <= latency.p95.value <= latency.p99.value
            else latency == Latency(None, None, None)
  {
    hide PercentileOf, FiniteValues, HasFiniteSuccess;
    var successful := Successful(RowsOf(rows, id));
    FiniteSuccess(RowsOf(rows, id));
    if FiniteValues(successful) == [] {
      PercentileExists(successful, 50.0);
      PercentileExists(successful, 95.0);
      PercentileExists(successful, 99.0);
    } else {
      PercentileMonotone(successful, 50.0, 95.0);
      PercentileMonotone(successful, 95.0, 99.0);
    }
  }
}
