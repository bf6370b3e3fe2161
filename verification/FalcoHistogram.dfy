/** How often an anomaly occurred on each of the last days. Days are numbered, so that the
    next day is one more. */
module FalcoHistogram {
  /** One row of `project_falco_logs`, by its calendar day. */
  datatype Log = Log(day: int, cluster: nat, signature: string)

  datatype Count = Count(date: int, count: nat)

  const DAYS_BACK: nat := 14

  /** How many logs of the anomaly fall on a day. */
  function CountOn(logs: seq<Log>, cluster: nat, signature: string, day: int): nat {
    if logs == [] then 0
    else (if logs[0] == Log(day, cluster, signature) then 1 else 0) + CountOn(logs[1..], cluster, signature, day)
  }

  ghost function PlacesOf(logs: seq<Log>, cluster: nat, signature: string, day: int): set<nat> {
    set i: nat | i < |logs| && logs[i].cluster == cluster && logs[i].signature == signature && logs[i].day == day
  }

  /** What is counted: the rows of this cluster and signature on this day. */
  lemma {:induction false} CountsRows(logs: seq<Log>, cluster: nat, signature: string, day: int)
    ensures CountOn(logs, cluster, signature, day) == |PlacesOf(logs, cluster, signature, day)|
  {
    if logs == [] {
      assert PlacesOf(logs, cluster, signature, day) == {};
    } else {
      var n := |logs| - 1;
      var init := logs[..n];
      CountsRows(init, cluster, signature, day);
      CountLast(init, logs[n], cluster, signature, day);
      assert logs == init + [logs[n]];
      var places := PlacesOf(init, cluster, signature, day);
      assert PlacesOf(logs, cluster, signature, day) ==
        if logs[n] == Log(day, cluster, signature) then places + {n} else places;
    }
  }

  lemma {:induction false} CountLast(logs: seq<Log>, log: Log, cluster: nat, signature: string, day: int)
    ensures CountOn(logs + [log], cluster, signature, day) ==
      CountOn(logs, cluster, signature, day) + if log == Log(day, cluster, signature) then 1 else 0
  {
    if logs != [] {
      CountLast(logs[1..], log, cluster, signature, day);
      assert (logs + [log])[1..] == logs[1..] + [log];
    }
  }

  /** The grouped query: one row for each of the dates that has logs. */
  function Grouped(logs: seq<Log>, cluster: nat, signature: string, dates: seq<int>): seq<Count> {
    if dates == [] then []
    else
      var n := CountOn(logs, cluster, signature, dates[0]);
      (if n > 0 then [Count(dates[0], n)] else []) + Grouped(logs, cluster, signature, dates[1..])
  }

  ghost predicate IsWindow(dates: seq<int>, first: int, last: int) {
    |dates| == last - first + 1 && forall i :: 0 <= i < |dates| ==> dates[i] == first + i
  }

  /** The query for the days up to `today`; the loop that lists them ends the day after. */
  method DaoCounts(logs: seq<Log>, cluster: nat, signature: string, daysBack: nat, today: int) returns (r: seq<Count>)
    ensures exists dates :: IsWindow(dates, today - daysBack, today) && r == Grouped(logs, cluster, signature, dates)
  {
    var dates := [];
    var date := today - daysBack;
    while date != today + 1
      invariant date <= today + 1 && IsWindow(dates, today - daysBack, date - 1)
      decreases today + 1 - date
    {
      dates := dates + [date];
      date := date + 1;
    }
    r := Grouped(logs, cluster, signature, dates);
  }

  /** The last count listed for a day, as the service picks it. */
  function Pick(rows: seq<Count>, day: int, value: nat): nat {
    if rows == [] then value
    else Pick(rows[1..], day, if rows[0].date == day then rows[0].count else value)
  }

  /** A day after day series from `first`, each with its count, or with 0 before `from`. */
  ghost predicate IsDense(logs: seq<Log>, cluster: nat, signature: string, series: seq<Count>, first: int, from: int) {
    forall i :: 0 <= i < |series| ==>
      series[i] == Count(first + i, if first + i >= from then CountOn(logs, cluster, signature, first + i) else 0)
  }

  /** The dense series of the service, whose clock says `today`; by the time the query looks
      at its own clock it may be `daoToday`. */
  method GetCountOfFalcoLogsBySignature(logs: seq<Log>, cluster: nat, signature: string, today: int, daoToday: int)
    returns (series: seq<Count>, resultSet: seq<Count>)
    requires today <= daoToday
    ensures exists dates :: && IsWindow(dates, daoToday - DAYS_BACK, daoToday)
                            && resultSet == Grouped(logs, cluster, signature, dates)
    ensures |series| == 15
    ensures IsDense(logs, cluster, signature, series, today - DAYS_BACK, daoToday - DAYS_BACK)
  {
    var newDate := today - DAYS_BACK;
    resultSet := DaoCounts(logs, cluster, signature, DAYS_BACK, daoToday);
    ghost var dates :| IsWindow(dates, daoToday - DAYS_BACK, daoToday) &&
      resultSet == Grouped(logs, cluster, signature, dates);
    series := [];
    for i := 0 to DAYS_BACK + 1
      invariant newDate == today - DAYS_BACK + i && |series| == i
      invariant IsDense(logs, cluster, signature, series, today - DAYS_BACK, daoToday - DAYS_BACK)
    {
      var value := 0;
      for j := 0 to |resultSet|
        invariant Pick(resultSet[j..], newDate, value) == Pick(resultSet, newDate, 0)
      {
        if newDate == resultSet[j].date {
          value := resultSet[j].count;
        }
      }
      PickGrouped(logs, cluster, signature, dates, daoToday - DAYS_BACK, daoToday, newDate, 0);
      series := series + [Count(newDate, value)];
      newDate := newDate + 1;
    }
  }

  lemma {:induction false} PickAbsent(logs: seq<Log>, cluster: nat, signature: string, dates: seq<int>, day: int, value: nat)
    requires day !in dates
    ensures Pick(Grouped(logs, cluster, signature, dates), day, value) == value
  {
    if dates != [] {
      PickAbsent(logs, cluster, signature, dates[1..], day, value);
      var rest := Grouped(logs, cluster, signature, dates[1..]);
      assert ([Count(dates[0], CountOn(logs, cluster, signature, dates[0]))] + rest)[1..] == rest;
      assert [] + rest == rest;
    }
  }

  /** Every day of the window is picked with its count, and every other day with nothing. */
  lemma {:induction false} PickGrouped(logs: seq<Log>, cluster: nat, signature: string, dates: seq<int>,
      first: int, last: int, day: int, value: nat)
    requires IsWindow(dates, first, last)
    requires value == 0
    ensures Pick(Grouped(logs, cluster, signature, dates), day, value) ==
      if first <= day <= last then CountOn(logs, cluster, signature, day) else 0
    decreases |dates|
  {
    if !(first <= day <= last) {
      PickAbsent(logs, cluster, signature, dates, day, value);
    } else {
      var n, rest := CountOn(logs, cluster, signature, first), Grouped(logs, cluster, signature, dates[1..]);
      assert ([Count(first, n)] + rest)[1..] == rest;
      assert [] + rest == rest;
      if day == first {
        PickAbsent(logs, cluster, signature, dates[1..], day, n);
      } else {
        PickGrouped(logs, cluster, signature, dates[1..], first + 1, last, day, value);
      }
    }
  }

  // ---------- totals ----------

  function Total(rows: seq<Count>): nat {
    if rows == [] then 0 else rows[0].count + Total(rows[1..])
  }

  /** All logs of the anomaly from `first` up to, not including, `end`. */
  function CountBetween(logs: seq<Log>, cluster: nat, signature: string, first: int, end: int): nat
    decreases end - first
  {
    if first >= end then 0
    else CountOn(logs, cluster, signature, first) + CountBetween(logs, cluster, signature, first + 1, end)
  }

  lemma TotalCons(row: Count, rows: seq<Count>)
    ensures Total([row] + rows) == row.count + Total(rows)
  {
    assert ([row] + rows)[1..] == rows;
  }

  lemma {:induction false} SparseTotal(logs: seq<Log>, cluster: nat, signature: string, dates: seq<int>, first: int, last: int)
    requires IsWindow(dates, first, last)
    ensures Total(Grouped(logs, cluster, signature, dates)) == CountBetween(logs, cluster, signature, first, last + 1)
    decreases |dates|
  {
    hide CountOn;
    if dates != [] {
      SparseTotal(logs, cluster, signature, dates[1..], first + 1, last);
      var n, rest := CountOn(logs, cluster, signature, first), Grouped(logs, cluster, signature, dates[1..]);
      TotalCons(Count(first, n), rest);
      assert [] + rest == rest;
    }
  }

  lemma {:induction false} DenseTotal(logs: seq<Log>, cluster: nat, signature: string, series: seq<Count>, first: int, from: int)
    requires IsDense(logs, cluster, signature, series, first, from)
    ensures Total(series) ==
      CountBetween(logs, cluster, signature, if first < from then from else first, first + |series|)
    decreases |series|
  {
    if series != [] {
      DenseTotal(logs, cluster, signature, series[1..], first + 1, from);
    }
  }

  lemma {:induction false} CountSplits(logs: seq<Log>, cluster: nat, signature: string, first: int, mid: int, end: int)
    requires first <= mid <= end
    ensures CountBetween(logs, cluster, signature, first, end) ==
      CountBetween(logs, cluster, signature, first, mid) + CountBetween(logs, cluster, signature, mid, end)
    decreases mid - first
  {
    if first < mid {
      CountSplits(logs, cluster, signature, first + 1, mid, end);
    }
  }

  /** The series adds up to the grouped counts, less the logs of the days that began between
      the service's look at the clock and the query's. */
  lemma TotalsAgree(logs: seq<Log>, cluster: nat, signature: string, series: seq<Count>, dates: seq<int>,
      today: int, daoToday: int)
    requires today <= daoToday && |series| == DAYS_BACK + 1
    requires IsDense(logs, cluster, signature, series, today - DAYS_BACK, daoToday - DAYS_BACK)
    requires IsWindow(dates, daoToday - DAYS_BACK, daoToday)
    ensures var first := daoToday - DAYS_BACK;
      Total(Grouped(logs, cluster, signature, dates)) == Total(series) +
        CountBetween(logs, cluster, signature, if first <= today then today + 1 else first, daoToday + 1)
    ensures today == daoToday ==> Total(Grouped(logs, cluster, signature, dates)) == Total(series)
  {
    var first := daoToday - DAYS_BACK;
    SparseTotal(logs, cluster, signature, dates, first, daoToday);
    DenseTotal(logs, cluster, signature, series, today - DAYS_BACK, first);
    if first <= today {
      CountSplits(logs, cluster, signature, first, today + 1, daoToday + 1);
    }
  }

  /** The service looks at the clock on day 14, the query on day 15, when a log comes in: the
      grouped counts have it, and the series does not. */
  lemma MidnightIsLost(series: seq<Count>, dates: seq<int>)
    requires |series| == DAYS_BACK + 1 && IsDense([Log(15, 1, "s")], 1, "s", series, 0, 1) && IsWindow(dates, 1, 15)
    ensures Total(series) == 0 && Total(Grouped([Log(15, 1, "s")], 1, "s", dates)) == 1
  {
    var logs := [Log(15, 1, "s")];
    TotalsAgree(logs, 1, "s", series, dates, 14, 15);
    forall day ensures CountOn(logs, 1, "s", day) == if day == 15 then 1 else 0 {
      assert CountOn(logs[1..], 1, "s", day) == 0;
    }
    DenseTotal(logs, 1, "s", series, 0, 1);
    NoneBetween(logs, 1, 15);
    assert CountBetween(logs, 1, "s", 15, 16) == 1 + CountBetween(logs, 1, "s", 16, 16);
  }

  lemma {:induction false} NoneBetween(logs: seq<Log>, first: int, end: int)
    requires forall day :: first <= day < end ==> CountOn(logs, 1, "s", day) == 0
    ensures CountBetween(logs, 1, "s", first, end) == 0
    decreases end - first
  {
    if first < end {
      NoneBetween(logs, first + 1, end);
    }
  }
}
