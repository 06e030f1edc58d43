/**
  The counting half of `create_graph_img` in vpn_status_web.py: for each of
  the 24 hours before `now`, the number of ledger sessions active at some
  moment of that hour. Drawing and encoding the picture is not modelled.

  Times are whole microseconds on the proleptic Gregorian time line, the
  resolution of Python's datetime: `now` carries microseconds, a parsed
  timestamp does not.
 */
module WebGraph {
  import opened Options
  import opened Seqs
  import opened Timestamp
  import opened SessionHistory

  const HourTicks: int := 3600 * 1000000
  const BinCountTotal: nat := 24

  function Ticks(d: Stamp): int {
    Seconds(d) * 1000000
  }

  /** `bins[k] = now - timedelta(hours=24 - k)` for k in 0..24: the last one is `now` itself. */
  function Boundary(now: int, k: int): int {
    now - (BinCountTotal - k) * HourTicks
  }

  /** Later boundaries are later times, and the last one is `now`. */
  lemma BoundaryOrder(now: int, a: int, b: int)
    requires a <= b
    ensures Boundary(now, a) <= Boundary(now, b)
    ensures Boundary(now, BinCountTotal) == now
  {
    assert (BinCountTotal - a) * HourTicks == (BinCountTotal - b) * HourTicks + (b - a) * HourTicks;
  }

  /**
    A session is active in the hour from `lo` to `hi` when its start parses
    and lies before `hi`, and its end (or `now` while it is open) lies after
    `lo`.
   */
  predicate Active(row: Row, lo: int, hi: int, now: int, parse: TimeParser) {
    && parse(row.start).Some?
    && Ticks(parse(row.start).value) < hi
    && (if row.end == "" then now > lo
        else parse(row.end).Some? && Ticks(parse(row.end).value) > lo)
  }

  /**
    Python's test `t_start and t_start < end and t_end > start` for one row:
    `Some(b)` for its value, `None` for the TypeError raised when a session
    that started before `end` has an end text that does not parse.
   */
  function Test(row: Row, lo: int, hi: int, now: int, parse: TimeParser): Option<bool> {
    match parse(row.start)
    case None => Some(false)
    case Some(ts) =>
      if !(Ticks(ts) < hi) then Some(false)
      else if row.end == "" then Some(now > lo)
      else
        match parse(row.end)
        case None => None
        case Some(te) => Some(Ticks(te) > lo)
  }

  /** The count of one hour over the rows in order; `None` once a row raises. */
  function Count(rows: seq<Row>, lo: int, hi: int, now: int, parse: TimeParser): Option<nat> {
    if |rows| == 0 then Some(0)
    else
      match Count(rows[..|rows| - 1], lo, hi, now, parse)
      case None => None
      case Some(c) =>
        match Test(rows[|rows| - 1], lo, hi, now, parse)
        case None => None
        case Some(b) => Some(if b then c + 1 else c)
  }

  /** The counts of the first `n` hours, oldest first; `None` once a count raises. */
  function CountsUpTo(history: seq<Row>, now: int, parse: TimeParser, n: nat): Option<seq<nat>>
    requires n <= BinCountTotal
  {
    if n == 0 then Some([])
    else
      match CountsUpTo(history, now, parse, n - 1)
      case None => None
      case Some(ys) =>
        match Count(history, Boundary(now, n - 1), Boundary(now, n), now, parse)
        case None => None
        case Some(c) => Some(ys + [c])
  }

  /** The 24 values the graph plots, or `None` when building them raises. */
  function Histogram(history: seq<Row>, now: int, parse: TimeParser): Option<seq<nat>> {
    CountsUpTo(history, now, parse, BinCountTotal)
  }

  /**
    The inner loop: the sessions active between `start` and `end`, or `None`
    when a row raises.
   */
  method CountHour(history: seq<Row>, start: int, end: int, now: int, parse: TimeParser) returns (count: Option<nat>)
    ensures count == Count(history, start, end, now, parse)
  {
    var c: nat := 0;
    var k := 0;
    while k < |history|
      invariant 0 <= k <= |history|
      invariant Count(history[..k], start, end, now, parse) == Some(c)
    {
      var row := history[k];
      CountStep(history, k, start, end, now, parse);
      var tStart := parse(row.start);
      var tEnd: Option<int> := Some(now);
      if row.end != "" {
        var e := parse(row.end);
        tEnd := if e.Some? then Some(Ticks(e.value)) else None;
      }
      if tStart.Some? && Ticks(tStart.value) < end {
        if tEnd.None? {
          CountStaysNone(history, k + 1, start, end, now, parse);
          return None;
        }
        assert Test(row, start, end, now, parse) == Some(tEnd.value > start);
        if tEnd.value > start {
          c := c + 1;
        }
      } else {
        assert Test(row, start, end, now, parse) == Some(false);
      }
      k := k + 1;
    }
    assert history[..|history|] == history;
    count := Some(c);
  }

  /** The outer loop over the 24 hours, with `parse_dt` as the parser. */
  method CountActiveSessions(history: seq<Row>, now: int, otherFormats: TimeParser) returns (y: Option<seq<nat>>)
    ensures y == Histogram(history, now, OpenvpnTime(otherFormats))
  {
    var parse := OpenvpnTime(otherFormats);
    var bins := seq(BinCountTotal + 1, k requires 0 <= k <= BinCountTotal => Boundary(now, k));
    var ys: seq<nat> := [];
    var i := 0;
    while i < |bins| - 1
      invariant 0 <= i <= BinCountTotal
      invariant CountsUpTo(history, now, parse, i) == Some(ys)
    {
      var start := bins[i];
      var end := bins[i + 1];
      assert start == Boundary(now, i) && end == Boundary(now, i + 1);
      var count := CountHour(history, start, end, now, parse);
      if count.None? {
        CountsStayNone(history, now, parse, i + 1, BinCountTotal);
        return None;
      }
      CountsUpToStep(history, now, parse, i, ys, count.value);
      ys := ys + [count.value];
      i := i + 1;
    }
    y := Some(ys);
  }

  lemma CountsUpToStep(history: seq<Row>, now: int, parse: TimeParser, i: nat, ys: seq<nat>, c: nat)
    requires i < BinCountTotal && CountsUpTo(history, now, parse, i) == Some(ys)
    requires Count(history, Boundary(now, i), Boundary(now, i + 1), now, parse) == Some(c)
    ensures CountsUpTo(history, now, parse, i + 1) == Some(ys + [c])
  {
  }

  lemma CountStep(rows: seq<Row>, k: nat, lo: int, hi: int, now: int, parse: TimeParser)
    requires k < |rows|
    ensures Test(rows[k], lo, hi, now, parse).None? ==> Count(rows[..k + 1], lo, hi, now, parse).None?
    ensures Count(rows[..k], lo, hi, now, parse).Some? && Test(rows[k], lo, hi, now, parse).Some? ==>
      Count(rows[..k + 1], lo, hi, now, parse) ==
        Some(Count(rows[..k], lo, hi, now, parse).value + if Test(rows[k], lo, hi, now, parse).value then 1 else 0)
  {
    assert rows[..k + 1][..k] == rows[..k];
  }

  /** Once a row raises, the whole hour raises. */
  lemma {:induction false} CountStaysNone(rows: seq<Row>, k: nat, lo: int, hi: int, now: int, parse: TimeParser)
    requires k <= |rows| && Count(rows[..k], lo, hi, now, parse).None?
    ensures Count(rows, lo, hi, now, parse).None?
    decreases |rows| - k
  {
    if k < |rows| {
      assert rows[..k + 1][..k] == rows[..k];
      CountStaysNone(rows, k + 1, lo, hi, now, parse);
    } else {
      assert rows[..k] == rows;
    }
  }

  /** Once an hour raises, the whole graph raises. */
  lemma {:induction false} CountsStayNone(history: seq<Row>, now: int, parse: TimeParser, n: nat, m: nat)
    requires n <= m <= BinCountTotal && CountsUpTo(history, now, parse, n).None?
    ensures CountsUpTo(history, now, parse, m).None?
    decreases m
  {
    if n < m {
      CountsStayNone(history, now, parse, n, m - 1);
    }
  }

  // ---------------------------------------------------------------------------
  // What the graph shows

  /** The counts up to `n` are `n` long. */
  lemma {:induction false} CountsUpToLength(history: seq<Row>, now: int, parse: TimeParser, n: nat)
    requires n <= BinCountTotal && CountsUpTo(history, now, parse, n).Some?
    ensures |CountsUpTo(history, now, parse, n).value| == n
  {
    if n > 0 {
      CountsUpToLength(history, now, parse, n - 1);
    }
  }

  /** A row raises exactly when it started before `hi` and its end text does not parse. */
  predicate Raises(row: Row, hi: int, parse: TimeParser) {
    && parse(row.start).Some?
    && Ticks(parse(row.start).value) < hi
    && row.end != ""
    && parse(row.end).None?
  }

  /** An hour's count is the number of sessions active in it, unless some row raises. */
  lemma {:induction false} CountMeaning(rows: seq<Row>, lo: int, hi: int, now: int, parse: TimeParser)
    ensures Count(rows, lo, hi, now, parse).None? <==> exists k :: 0 <= k < |rows| && Raises(rows[k], hi, parse)
    ensures Count(rows, lo, hi, now, parse).Some? ==>
      Count(rows, lo, hi, now, parse).value == |Select(rows, (r: Row) => Active(r, lo, hi, now, parse))|
  {
    CountRaises(rows, lo, hi, now, parse);
    CountActive(rows, lo, hi, now, parse);
  }

  lemma TestRaises(row: Row, lo: int, hi: int, now: int, parse: TimeParser)
    ensures Test(row, lo, hi, now, parse).None? <==> Raises(row, hi, parse)
  {
  }

  lemma {:induction false} CountRaises(rows: seq<Row>, lo: int, hi: int, now: int, parse: TimeParser)
    ensures Count(rows, lo, hi, now, parse).None? <==> exists k :: 0 <= k < |rows| && Raises(rows[k], hi, parse)
  {
    if |rows| > 0 {
      var n := |rows| - 1;
      var init := rows[..n];
      CountRaises(init, lo, hi, now, parse);
      TestRaises(rows[n], lo, hi, now, parse);
      if Count(init, lo, hi, now, parse).None? {
        var k :| 0 <= k < n && Raises(init[k], hi, parse);
        assert init[k] == rows[k];
      } else if !Raises(rows[n], hi, parse) {
        forall k | 0 <= k < |rows| ensures !Raises(rows[k], hi, parse) {
          if k < n {
            assert init[k] == rows[k];
          }
        }
      }
    }
  }

  lemma {:induction false} CountActive(rows: seq<Row>, lo: int, hi: int, now: int, parse: TimeParser)
    ensures Count(rows, lo, hi, now, parse).Some? ==>
      Count(rows, lo, hi, now, parse).value == |Select(rows, (r: Row) => Active(r, lo, hi, now, parse))|
  {
    if |rows| > 0 && Count(rows, lo, hi, now, parse).Some? {
      var n := |rows| - 1;
      CountActive(rows[..n], lo, hi, now, parse);
      assert Test(rows[n], lo, hi, now, parse).value <==> Active(rows[n], lo, hi, now, parse);
    }
  }

  /** The graph has one value per hour; each is the number of sessions active in that hour. */
  lemma {:induction false} HistogramMeaning(history: seq<Row>, now: int, parse: TimeParser, i: nat)
    requires Histogram(history, now, parse).Some? && i < BinCountTotal
    ensures |Histogram(history, now, parse).value| == BinCountTotal
    ensures Histogram(history, now, parse).value[i]
      == |Select(history, (r: Row) => Active(r, Boundary(now, i), Boundary(now, i + 1), now, parse))|
  {
    CountsUpToLength(history, now, parse, BinCountTotal);
    CountsUpToValue(history, now, parse, BinCountTotal, i);
  }

  lemma {:induction false} CountsUpToValue(history: seq<Row>, now: int, parse: TimeParser, n: nat, i: nat)
    requires n <= BinCountTotal && CountsUpTo(history, now, parse, n).Some? && i < n
    ensures |CountsUpTo(history, now, parse, n).value| == n
    ensures CountsUpTo(history, now, parse, n).value[i]
      == |Select(history, (r: Row) => Active(r, Boundary(now, i), Boundary(now, i + 1), now, parse))|
  {
    CountsUpToLength(history, now, parse, n);
    CountsUpToLength(history, now, parse, n - 1);
    if i < n - 1 {
      CountsUpToValue(history, now, parse, n - 1, i);
    } else {
      CountMeaning(history, Boundary(now, i), Boundary(now, i + 1), now, parse);
    }
  }

  /**
    The graph cannot be drawn exactly when some session started before `now`
    and has an end text that does not parse.
   */
  lemma HistogramRaises(history: seq<Row>, now: int, parse: TimeParser)
    ensures Histogram(history, now, parse).None? <==> exists k :: 0 <= k < |history| && Raises(history[k], now, parse)
  {
    if Histogram(history, now, parse).None? {
      var n := CountsFirstNone(history, now, parse, BinCountTotal);
      CountMeaning(history, Boundary(now, n), Boundary(now, n + 1), now, parse);
      var k :| 0 <= k < |history| && Raises(history[k], Boundary(now, n + 1), parse);
      BoundaryOrder(now, n + 1, BinCountTotal);
      assert Raises(history[k], now, parse);
    }
    if exists k :: 0 <= k < |history| && Raises(history[k], now, parse) {
      var k :| 0 <= k < |history| && Raises(history[k], now, parse);
      CountMeaning(history, Boundary(now, BinCountTotal - 1), Boundary(now, BinCountTotal), now, parse);
      BoundaryOrder(now, 0, BinCountTotal);
      assert Count(history, Boundary(now, BinCountTotal - 1), Boundary(now, BinCountTotal), now, parse).None?;
    }
  }

  /** The hour whose count raised first. */
  lemma {:induction false} CountsFirstNone(history: seq<Row>, now: int, parse: TimeParser, n: nat) returns (i: nat)
    requires n <= BinCountTotal && CountsUpTo(history, now, parse, n).None?
    ensures i < n && Count(history, Boundary(now, i), Boundary(now, i + 1), now, parse).None?
  {
    if CountsUpTo(history, now, parse, n - 1).None? {
      i := CountsFirstNone(history, now, parse, n - 1);
    } else {
      i := n - 1;
    }
  }

  /** The hours in which a session is active form one unbroken run. */
  lemma ActiveHoursContiguous(row: Row, now: int, parse: TimeParser, i: nat, j: nat, k: nat)
    requires i <= k <= j
    requires Active(row, Boundary(now, i), Boundary(now, i + 1), now, parse)
    requires Active(row, Boundary(now, j), Boundary(now, j + 1), now, parse)
    ensures Active(row, Boundary(now, k), Boundary(now, k + 1), now, parse)
  {
    BoundaryOrder(now, i + 1, k + 1);
    BoundaryOrder(now, k, j);
  }

  /** An open session that started before the first hour is counted in every hour. */
  lemma OpenSessionEveryHour(row: Row, now: int, parse: TimeParser, i: nat)
    requires i < BinCountTotal && row.end == ""
    requires parse(row.start).Some? && Ticks(parse(row.start).value) < Boundary(now, 0)
    ensures Active(row, Boundary(now, i), Boundary(now, i + 1), now, parse)
  {
    BoundaryOrder(now, 0, i + 1);
  }

  /** A session that starts at `now` or later is counted in no hour. */
  lemma FutureSessionNowhere(row: Row, now: int, parse: TimeParser, i: nat)
    requires i < BinCountTotal
    requires parse(row.start).Some? && Ticks(parse(row.start).value) >= now
    ensures !Active(row, Boundary(now, i), Boundary(now, i + 1), now, parse)
  {
    BoundaryOrder(now, i + 1, BinCountTotal);
  }
}
