// The calendar bucketing of frontend/src/components/dashboard/history.rs. Timestamps are
// milliseconds since 1970-01-01, a Thursday; weeks start on Monday.
module AccessHistory {
  import opened Common

  const HOUR: int := 3_600_000
  const DAY: int := 24 * HOUR
  const WEEK: int := 7 * DAY

  const MIN_I64: int := -0x8000_0000_0000_0000
  const MAX_I64: int := 0x7FFF_FFFF_FFFF_FFFF

  type Row = (int, seq<nat>)

  function Width(period: string): (w: int)
    ensures w > 0
  {
    if period == "hour" then HOUR else if period == "week" then WEEK else DAY
  }

  function Offset(period: string): int {
    if period == "week" then 3 * DAY else 0
  }

  /** `(timestamp + offset).div_euclid(width) * width - offset`. */
  function BucketStart(t: int, width: int, offset: int): int
    requires width > 0
  {
    (t + offset) / width * width - offset
  }

  predicate Aligned(start: int, width: int, offset: int)
    requires width > 0
  {
    (start + offset) % width == 0
  }

  /** How many of the timestamps lie in `[low, high)`. */
  function Count(timestamps: seq<int>, low: int, high: int): nat {
    if timestamps == [] then 0
    else
      var last := timestamps[|timestamps| - 1];
      Count(timestamps[..|timestamps| - 1], low, high) + if low <= last < high then 1 else 0
  }

  lemma CountAppend(timestamps: seq<int>, t: int, low: int, high: int)
    ensures Count(timestamps + [t], low, high) == Count(timestamps, low, high) + if low <= t < high then 1 else 0
  {
    assert (timestamps + [t])[..|timestamps|] == timestamps;
  }

  lemma {:induction false} CountIsZero(timestamps: seq<int>, low: int, high: int)
    requires forall t :: t in timestamps ==> !(low <= t < high)
    ensures Count(timestamps, low, high) == 0
  {
    if timestamps != [] {
      var init := timestamps[..|timestamps| - 1];
      assert forall t :: t in init ==> t in timestamps;
      assert timestamps[|timestamps| - 1] in timestamps;
      CountIsZero(init, low, high);
    }
  }

  lemma {:induction false} CountSplits(timestamps: seq<int>, low: int, middle: int, high: int)
    requires low <= middle <= high
    ensures Count(timestamps, low, high) == Count(timestamps, low, middle) + Count(timestamps, middle, high)
  {
    if timestamps != [] {
      CountSplits(timestamps[..|timestamps| - 1], low, middle, high);
    }
  }

  /** Every timestamp, negative ones included, lies in exactly one aligned bucket: the one computed for it. */
  lemma UniqueBucket(t: int, width: int, offset: int, start: int)
    requires width > 0
    ensures Aligned(BucketStart(t, width, offset), width, offset)
    ensures Aligned(start, width, offset) ==> (start <= t < start + width <==> start == BucketStart(t, width, offset))
  {
    var q := (t + offset) / width;
    MultipleModulo(q, width);
    assert BucketStart(t, width, offset) + offset == q * width;
    assert q * width <= t + offset < q * width + width by {
      assert t + offset == q * width + (t + offset) % width;
    }
    if Aligned(start, width, offset) {
      var p := (start + offset) / width;
      assert start + offset == p * width;
      if start <= t < start + width {
        assert p * width <= t + offset < (p + 1) * width;
        BetweenMultiples(p, q, width, t + offset);
      }
    }
  }

  lemma MultipleModulo(q: int, width: int)
    requires width > 0
    ensures q * width % width == 0 && q * width / width == q
  {
    var x := q * width;
    assert x == x / width * width + x % width;
    Distributes(x / width, 1, width);
    Distributes(q, 1, width);
    BetweenMultiples(x / width, q, width, x);
  }

  lemma Distributes(a: int, b: int, width: int)
    ensures (a + b) * width == a * width + b * width
  {
  }

  lemma MultiplesAreOrdered(a: int, b: int, width: int)
    requires width > 0
    ensures a <= b ==> a * width <= b * width
  {
  }

  lemma BetweenMultiples(p: int, q: int, width: int, x: int)
    requires width > 0 && p * width <= x < (p + 1) * width && q * width <= x < (q + 1) * width
    ensures p == q
  {
    MultiplesAreOrdered(p + 1, q, width);
    MultiplesAreOrdered(q + 1, p, width);
  }

  // ---------- What the rows say ----------

  ghost predicate HasRow(rows: seq<Row>, start: int) {
    exists i :: 0 <= i < |rows| && rows[i].0 == start
  }

  ghost predicate IncreasingAligned(rows: seq<Row>, width: int, offset: int)
    requires width > 0
  {
    && (forall i, j :: 0 <= i < j < |rows| ==> rows[i].0 < rows[j].0)
    && (forall i :: 0 <= i < |rows| ==> Aligned(rows[i].0, width, offset))
  }

  /** A row counts, for every service, the timestamps in its bucket. */
  ghost predicate RowIsRight(row: Row, services: seq<seq<int>>, width: int) {
    |row.1| == |services| && forall k :: 0 <= k < |services| ==> row.1[k] == Count(services[k], row.0, row.0 + width)
  }

  ghost predicate SomeCount(row: Row) {
    exists k :: 0 <= k < |row.1| && row.1[k] > 0
  }

  /**
   * The rows start at strictly increasing aligned times, count for every service the timestamps in
   * their bucket, and miss no timestamp; no row is there without one.
   */
  ghost predicate IsBucketing(services: seq<seq<int>>, width: int, offset: int, rows: seq<Row>)
    requires width > 0
  {
    && IncreasingAligned(rows, width, offset)
    && (forall i :: 0 <= i < |rows| ==> RowIsRight(rows[i], services, width))
    && (forall k, t :: 0 <= k < |services| && t in services[k] ==> HasRow(rows, BucketStart(t, width, offset)))
    && (forall i :: 0 <= i < |rows| ==> SomeCount(rows[i]))
  }

  // ---------- The bucketing loops ----------

  /** The ordered map of the source is its list of entries in key order. */
  method BucketHistory(services: seq<seq<int>>, period: string) returns (rows: seq<Row>)
    ensures IsBucketing(services, Width(period), Offset(period), rows)
  {
    var width, offset := Width(period), Offset(period);
    rows := [];
    ghost var seen: seq<seq<int>> := seq(|services|, _ => []);
    for index := 0 to |services|
      invariant |seen| == |services| && IsBucketing(seen, width, offset, rows)
      invariant forall k :: 0 <= k < |services| ==> seen[k] == if k < index then services[k] else []
    {
      rows := BucketService(rows, |services|, index, services[index], width, offset, seen);
      seen := seen[index := services[index]];
    }
    assert seen == services;
  }

  /** The inner loop: the timestamps of one service. */
  method BucketService(initial: seq<Row>, serviceCount: nat, index: nat, timestamps: seq<int>, width: int, offset: int,
                       ghost seen: seq<seq<int>>)
    returns (rows: seq<Row>)
    requires width > 0 && index < serviceCount == |seen| && seen[index] == []
    requires IsBucketing(seen, width, offset, initial)
    ensures IsBucketing(seen[index := timestamps], width, offset, rows)
  {
    rows := initial;
    assert seen[index := []] == seen;
    for j := 0 to |timestamps|
      invariant IsBucketing(seen[index := timestamps[..j]], width, offset, rows)
    {
      var timestamp := timestamps[j];
      var start := (timestamp + offset) / width * width - offset;
      ghost var soFar := seen[index := timestamps[..j]];
      UniqueBucket(timestamp, width, offset, start);
      var position := 0;
      rows, position := Entry(rows, start, serviceCount, width, offset, soFar);
      ghost var before := rows;
      rows := rows[position := (start, rows[position].1[index := rows[position].1[index] + 1])];
      CountOne(before, soFar, width, offset, index, timestamp, position);
      assert timestamps[..j + 1] == timestamps[..j] + [timestamp];
      assert soFar[index := soFar[index] + [timestamp]] == seen[index := timestamps[..j + 1]];
    }
    assert timestamps[..|timestamps|] == timestamps;
  }

  /** The entry for `start`, inserted with zero counts where it is missing. */
  method Entry(initial: seq<Row>, start: int, serviceCount: nat, width: int, offset: int, ghost seen: seq<seq<int>>)
    returns (rows: seq<Row>, position: nat)
    requires width > 0 && serviceCount == |seen| && Aligned(start, width, offset)
    requires IsBucketing(seen, width, offset, initial)
    ensures position < |rows| && rows[position].0 == start
    ensures IncreasingAligned(rows, width, offset)
    ensures forall i :: 0 <= i < |rows| ==> RowIsRight(rows[i], seen, width) && (i == position || SomeCount(rows[i]))
    ensures forall other :: HasRow(initial, other) ==> HasRow(rows, other)
  {
    rows, position := initial, 0;
    while position < |rows| && rows[position].0 < start
      invariant position <= |rows|
      invariant forall i :: 0 <= i < position ==> rows[i].0 < start
    {
      position := position + 1;
    }
    if position == |rows| || rows[position].0 != start {
      var zeros := seq(serviceCount, _ => 0);
      InsertedKeepsOrder(initial, position, (start, zeros), width, offset);
      InsertedKeepsRows(initial, position, (start, zeros));
      InsertedRowsAreRight(initial, position, start, serviceCount, width, offset, seen);
      rows := Inserted(initial, position, (start, zeros));
    }
  }

  function Inserted(rows: seq<Row>, position: nat, row: Row): (r: seq<Row>)
    requires position <= |rows|
    ensures |r| == |rows| + 1 && r[position] == row
    ensures forall i :: 0 <= i < position ==> r[i] == rows[i]
    ensures forall i :: position < i < |r| ==> r[i] == rows[i - 1]
  {
    rows[..position] + [row] + rows[position..]
  }

  lemma InsertedKeepsOrder(rows: seq<Row>, position: nat, row: Row, width: int, offset: int)
    requires width > 0 && IncreasingAligned(rows, width, offset) && Aligned(row.0, width, offset)
    requires position <= |rows| && (forall i :: 0 <= i < position ==> rows[i].0 < row.0)
    requires position < |rows| ==> rows[position].0 > row.0
    ensures IncreasingAligned(Inserted(rows, position, row), width, offset)
    ensures !HasRow(rows, row.0)
  {
  }

  lemma InsertedKeepsRows(rows: seq<Row>, position: nat, row: Row)
    requires position <= |rows|
    ensures forall other :: HasRow(rows, other) ==> HasRow(Inserted(rows, position, row), other)
  {
    forall other | HasRow(rows, other)
      ensures HasRow(Inserted(rows, position, row), other)
    {
      var i :| 0 <= i < |rows| && rows[i].0 == other;
      assert Inserted(rows, position, row)[if i < position then i else i + 1].0 == other;
    }
  }

  /** A bucket without a row holds no timestamp. */
  lemma UncountedBucketIsEmpty(rows: seq<Row>, services: seq<seq<int>>, width: int, offset: int, start: int)
    requires width > 0 && IsBucketing(services, width, offset, rows)
    requires Aligned(start, width, offset) && !HasRow(rows, start)
    ensures forall k :: 0 <= k < |services| ==> Count(services[k], start, start + width) == 0
  {
    forall k | 0 <= k < |services|
      ensures Count(services[k], start, start + width) == 0
    {
      forall t | t in services[k]
        ensures !(start <= t < start + width)
      {
        UniqueBucket(t, width, offset, start);
      }
      CountIsZero(services[k], start, start + width);
    }
  }

  lemma InsertedRowsAreRight(rows: seq<Row>, position: nat, start: int, serviceCount: nat, width: int, offset: int,
                             seen: seq<seq<int>>)
    requires width > 0 && serviceCount == |seen| && position <= |rows| && Aligned(start, width, offset)
    requires IsBucketing(seen, width, offset, rows) && !HasRow(rows, start)
    ensures var inserted := Inserted(rows, position, (start, seq(serviceCount, _ => 0)));
            forall i :: 0 <= i < |inserted| ==>
                RowIsRight(inserted[i], seen, width) && (i == position || SomeCount(inserted[i]))
  {
    var inserted := Inserted(rows, position, (start, seq(serviceCount, _ => 0)));
    UncountedBucketIsEmpty(rows, seen, width, offset, start);
    forall i | 0 <= i < |inserted|
      ensures RowIsRight(inserted[i], seen, width) && (i == position || SomeCount(inserted[i]))
    {
      assert i != position ==> inserted[i] == rows[if i < position then i else i - 1];
    }
  }

  /** One more timestamp raises the count of its own bucket and of no other. */
  lemma CountedRowIsRight(row: Row, seen: seq<seq<int>>, width: int, offset: int, index: nat, t: int)
    requires width > 0 && index < |seen| && RowIsRight(row, seen, width) && Aligned(row.0, width, offset)
    requires index < |row.1|
    ensures var counted :=
              if row.0 == BucketStart(t, width, offset) then (row.0, row.1[index := row.1[index] + 1]) else row;
            RowIsRight(counted, seen[index := seen[index] + [t]], width)
  {
    UniqueBucket(t, width, offset, row.0);
    CountAppend(seen[index], t, row.0, row.0 + width);
    var grown := seen[index := seen[index] + [t]];
    assert grown[index] == seen[index] + [t];
    assert forall k :: 0 <= k < |seen| && k != index ==> grown[k] == seen[k];
  }

  /** Counting one more timestamp in its row keeps the bucketing. */
  lemma CountOne(rows: seq<Row>, seen: seq<seq<int>>, width: int, offset: int, index: nat, t: int, position: nat)
    requires width > 0 && index < |seen| && position < |rows| && rows[position].0 == BucketStart(t, width, offset)
    requires index < |rows[position].1|
    requires IncreasingAligned(rows, width, offset)
    requires forall i :: 0 <= i < |rows| ==> RowIsRight(rows[i], seen, width) && (i == position || SomeCount(rows[i]))
    requires forall k, u :: 0 <= k < |seen| && u in seen[k] ==> HasRow(rows, BucketStart(u, width, offset))
    ensures var row := rows[position];
            IsBucketing(seen[index := seen[index] + [t]], width, offset,
                        rows[position := (row.0, row.1[index := row.1[index] + 1])])
  {
    var row := rows[position];
    var after := rows[position := (row.0, row.1[index := row.1[index] + 1])];
    var grown := seen[index := seen[index] + [t]];
    forall i | 0 <= i < |after|
      ensures RowIsRight(after[i], grown, width) && SomeCount(after[i])
    {
      assert i != position ==> rows[i].0 != row.0;
      CountedRowIsRight(rows[i], seen, width, offset, index, t);
      CountedRowHasCount(row, index);
    }
    assert IncreasingAligned(after, width, offset) by {
      assert forall i :: 0 <= i < |rows| ==> after[i].0 == rows[i].0;
    }
    CountOneKeepsRows(rows, seen, width, offset, index, t, position, after);
  }

  lemma CountedRowHasCount(row: Row, index: nat)
    requires index < |row.1|
    ensures SomeCount((row.0, row.1[index := row.1[index] + 1]))
  {
    assert row.1[index := row.1[index] + 1][index] > 0;
  }

  lemma CountOneKeepsRows(rows: seq<Row>, seen: seq<seq<int>>, width: int, offset: int, index: nat, t: int,
                          position: nat, after: seq<Row>)
    requires width > 0 && index < |seen| && position < |rows| && rows[position].0 == BucketStart(t, width, offset)
    requires forall k, u :: 0 <= k < |seen| && u in seen[k] ==> HasRow(rows, BucketStart(u, width, offset))
    requires |after| == |rows| && forall i :: 0 <= i < |rows| ==> after[i].0 == rows[i].0
    ensures var grown := seen[index := seen[index] + [t]];
            forall k, u :: 0 <= k < |grown| && u in grown[k] ==> HasRow(after, BucketStart(u, width, offset))
  {
    var grown := seen[index := seen[index] + [t]];
    forall k, u | 0 <= k < |grown| && u in grown[k]
      ensures HasRow(after, BucketStart(u, width, offset))
    {
      if u in seen[k] {
        var i :| 0 <= i < |rows| && rows[i].0 == BucketStart(u, width, offset);
        assert after[i].0 == rows[i].0;
      } else {
        assert u == t && after[position].0 == BucketStart(t, width, offset);
      }
    }
  }

  // ---------- Conservation ----------

  function Total(rows: seq<Row>, k: nat): nat
    requires forall i :: 0 <= i < |rows| ==> k < |rows[i].1|
  {
    if rows == [] then 0 else rows[0].1[k] + Total(rows[1..], k)
  }

  function TotalCount(rows: seq<Row>, timestamps: seq<int>, width: int): nat {
    if rows == [] then 0
    else Count(timestamps, rows[0].0, rows[0].0 + width) + TotalCount(rows[1..], timestamps, width)
  }

  function Hits(rows: seq<Row>, t: int, width: int): nat {
    if rows == [] then 0 else (if rows[0].0 <= t < rows[0].0 + width then 1 else 0) + Hits(rows[1..], t, width)
  }

  lemma {:induction false} TotalIsTotalCount(rows: seq<Row>, services: seq<seq<int>>, k: nat, width: int)
    requires k < |services|
    requires forall i :: 0 <= i < |rows| ==> RowIsRight(rows[i], services, width) && k < |rows[i].1|
    ensures Total(rows, k) == TotalCount(rows, services[k], width)
  {
    if rows != [] {
      assert forall i :: 0 <= i < |rows[1..]| ==> rows[1..][i] == rows[i + 1];
      TotalIsTotalCount(rows[1..], services, k, width);
    }
  }

  lemma {:induction false} TotalCountAppend(rows: seq<Row>, timestamps: seq<int>, t: int, width: int)
    ensures TotalCount(rows, timestamps + [t], width) == TotalCount(rows, timestamps, width) + Hits(rows, t, width)
  {
    if rows != [] {
      TotalCountAppend(rows[1..], timestamps, t, width);
      CountAppend(timestamps, t, rows[0].0, rows[0].0 + width);
    }
  }

  lemma {:induction false} TotalCountOfNothing(rows: seq<Row>, width: int)
    ensures TotalCount(rows, [], width) == 0
  {
    if rows != [] {
      TotalCountOfNothing(rows[1..], width);
    }
  }

  lemma {:induction false} HitsItsRow(rows: seq<Row>, t: int, width: int, offset: int)
    requires width > 0 && IncreasingAligned(rows, width, offset)
    ensures Hits(rows, t, width) == if HasRow(rows, BucketStart(t, width, offset)) then 1 else 0
  {
    if rows != [] {
      var rest := rows[1..];
      assert forall i :: 0 <= i < |rest| ==> rest[i] == rows[i + 1];
      HitsItsRow(rest, t, width, offset);
      var start := BucketStart(t, width, offset);
      UniqueBucket(t, width, offset, rows[0].0);
      if HasRow(rest, start) {
        var i :| 0 <= i < |rest| && rest[i].0 == start;
        assert rows[i + 1].0 == start && rows[0].0 < start;
      }
      if HasRow(rows, start) {
        var i :| 0 <= i < |rows| && rows[i].0 == start;
        assert i > 0 ==> rest[i - 1].0 == start;
      }
    }
  }

  lemma {:induction false} TotalCountIsLength(rows: seq<Row>, timestamps: seq<int>, width: int, offset: int)
    requires width > 0 && IncreasingAligned(rows, width, offset)
    requires forall t :: t in timestamps ==> HasRow(rows, BucketStart(t, width, offset))
    ensures TotalCount(rows, timestamps, width) == |timestamps|
  {
    if timestamps == [] {
      TotalCountOfNothing(rows, width);
    } else {
      var init, last := timestamps[..|timestamps| - 1], timestamps[|timestamps| - 1];
      assert timestamps == init + [last];
      TotalCountIsLength(rows, init, width, offset);
      TotalCountAppend(rows, init, last, width);
      HitsItsRow(rows, last, width, offset);
    }
  }

  /** No access is lost or counted twice: a service's counts add up to its accesses. */
  lemma BucketingConserves(services: seq<seq<int>>, width: int, offset: int, rows: seq<Row>, k: nat)
    requires width > 0 && IsBucketing(services, width, offset, rows) && k < |services|
    ensures Total(rows, k) == |services[k]|
  {
    TotalIsTotalCount(rows, services, k, width);
    TotalCountIsLength(rows, services[k], width, offset);
  }

  // ---------- Refinement between periods ----------

  /** The count shown for a service at a start, zero where there is no row. */
  ghost function Shown(rows: seq<Row>, start: int, k: nat): nat {
    if HasRow(rows, start) then
      var i :| 0 <= i < |rows| && rows[i].0 == start;
      if k < |rows[i].1| then rows[i].1[k] else 0
    else 0
  }

  lemma ShownIsCount(services: seq<seq<int>>, width: int, offset: int, rows: seq<Row>, start: int, k: nat)
    requires width > 0 && IsBucketing(services, width, offset, rows) && k < |services| && Aligned(start, width, offset)
    ensures Shown(rows, start, k) == Count(services[k], start, start + width)
  {
    if !HasRow(rows, start) {
      forall t | t in services[k]
        ensures !(start <= t < start + width)
      {
        UniqueBucket(t, width, offset, start);
      }
      CountIsZero(services[k], start, start + width);
    }
  }

  ghost function SumShown(rows: seq<Row>, start: int, width: int, n: nat, k: nat): nat {
    if n == 0 then 0 else SumShown(rows, start, width, n - 1, k) + Shown(rows, start + (n - 1) * width, k)
  }

  lemma {:induction false} SumShownIsCount(services: seq<seq<int>>, width: int, offset: int, rows: seq<Row>,
                                           start: int, n: nat, k: nat)
    requires width > 0 && IsBucketing(services, width, offset, rows) && k < |services| && Aligned(start, width, offset)
    ensures SumShown(rows, start, width, n, k) == Count(services[k], start, start + n * width)
  {
    if n == 0 {
      CountIsZero(services[k], start, start);
    } else {
      SumShownIsCount(services, width, offset, rows, start, n - 1, k);
      var last := start + (n - 1) * width;
      assert last + width == start + n * width;
      AlignedShift(start, width, offset, n - 1);
      ShownIsCount(services, width, offset, rows, last, k);
      assert start <= last by {
        assert 0 <= (n - 1) * width;
      }
      CountSplits(services[k], start, last, last + width);
    }
  }

  lemma AlignedShift(start: int, width: int, offset: int, n: int)
    requires width > 0 && Aligned(start, width, offset)
    ensures Aligned(start + n * width, width, offset)
  {
    var p := (start + offset) / width;
    assert start + offset == p * width;
    assert start + n * width + offset == (p + n) * width;
    MultipleModulo(p + n, width);
  }

  /** A day's counts are the sums of its twenty-four hours' counts. */
  lemma DaysAreSumsOfHours(services: seq<seq<int>>, days: seq<Row>, hours: seq<Row>, start: int, k: nat)
    requires IsBucketing(services, Width("day"), Offset("day"), days)
    requires IsBucketing(services, Width("hour"), Offset("hour"), hours)
    requires Aligned(start, DAY, 0) && k < |services|
    ensures Shown(days, start, k) == SumShown(hours, start, HOUR, 24, k)
  {
    assert Width("day") == DAY && Offset("day") == 0 && Width("hour") == HOUR && Offset("hour") == 0;
    ShownIsCount(services, DAY, 0, days, start, k);
    SumShownIsCount(services, HOUR, 0, hours, start, 24, k);
  }

  /** A week's counts are the sums of its seven days' counts. */
  lemma WeeksAreSumsOfDays(services: seq<seq<int>>, weeks: seq<Row>, days: seq<Row>, start: int, k: nat)
    requires IsBucketing(services, Width("week"), Offset("week"), weeks)
    requires IsBucketing(services, Width("day"), Offset("day"), days)
    requires Aligned(start, WEEK, 3 * DAY) && k < |services|
    ensures Shown(weeks, start, k) == SumShown(days, start, DAY, 7, k)
  {
    assert Width("week") == WEEK && Offset("week") == 3 * DAY && Width("day") == DAY && Offset("day") == 0;
    ShownIsCount(services, WEEK, 3 * DAY, weeks, start, k);
    WeeksStartOnMonday(start);
    SumShownIsCount(services, DAY, 0, days, start, 7, k);
  }

  /** Days since Monday; day 0 was a Thursday. */
  function Weekday(t: int): int {
    (t / DAY + 3) % 7
  }

  lemma WeeksStartOnMonday(start: int)
    ensures Aligned(start, WEEK, 3 * DAY) <==> start % DAY == 0 && Weekday(start) == 0
  {
  }

  // ---------- Machine integers ----------

  predicate FitsI64(x: int) {
    MIN_I64 <= x <= MAX_I64
  }

  /** The first bucket that starts at or after the least timestamp. */
  function FirstSafe(period: string): int {
    BucketStart(MIN_I64 + Width(period) - 1, Width(period), Offset(period))
  }

  /** Whether no step of computing the bucket start leaves 64 bits. */
  predicate ComputesInI64(t: int, width: int, offset: int)
    requires width > 0
  {
    && FitsI64(t + offset) && FitsI64((t + offset) / width) && FitsI64((t + offset) / width * width)
    && FitsI64(BucketStart(t, width, offset))
  }

  lemma OverflowIsOfTheStart(t: int, period: string)
    requires FitsI64(t)
    ensures ComputesInI64(t, Width(period), Offset(period)) <==>
              t <= MAX_I64 - Offset(period) && BucketStart(t, Width(period), Offset(period)) >= MIN_I64
  {
  }

  /** Of two aligned starts less than a bucket apart, neither is before the other. */
  lemma AlignedStartsCoincide(a: int, b: int, width: int, offset: int)
    requires width > 0 && Aligned(a, width, offset) && Aligned(b, width, offset) && a <= b < a + width
    ensures a == b
  {
    UniqueBucket(b, width, offset, a);
    UniqueBucket(b, width, offset, b);
  }

  /** The computation overflows exactly for timestamps less than a bucket from one end or an offset from the other. */
  lemma OverflowOnlyAtTheEnds(t: int, period: string)
    requires FitsI64(t)
    ensures ComputesInI64(t, Width(period), Offset(period)) <==> FirstSafe(period) <= t <= MAX_I64 - Offset(period)
    ensures MIN_I64 <= FirstSafe(period) < MIN_I64 + Width(period)
  {
    var width, offset, first := Width(period), Offset(period), FirstSafe(period);
    var start := BucketStart(t, width, offset);
    OverflowIsOfTheStart(t, period);
    UniqueBucket(MIN_I64 + width - 1, width, offset, first);
    UniqueBucket(t, width, offset, start);
    if start < first <= t {
      AlignedStartsCoincide(start, first, width, offset);
    }
    if MIN_I64 <= start < first {
      AlignedStartsCoincide(start, first, width, offset);
    }
  }
}
