/**
 The timestamp generator: enumerate every hour from a fixed start to a fixed,
 inclusive end, then attach the first `len(df)` of those instants to the frame
 as its `Datetime` column.

 An instant is a whole number of hours after 2021-01-01 00:00, so the start is
 hour 0 and the end, 2023-12-31 23:00, is hour 26279 (2021, 2022 and 2023 have
 365 days each).
 */
module AllDatetime {
  import opened Frames

  /** A cell of the frame: a value read from the file, an instant, or the
      missing value pandas stores where a row receives no instant. */
  datatype Cell<V> = Missing | Stamp(hour: int) | Value(v: V)

  const DatetimeColumn: string := "Datetime"

  /** `datetime(2021, 1, 1, 0, 0, 0)` */
  const StartHour: int := 0

  /** `datetime(2023, 12, 31, 23, 0, 0)`: the last hour of three 365-day years. */
  const EndHour: int := 3 * 365 * 24 - 1

  /** The number of whole hours from `start` to `end`, both included. */
  function Count(start: int, end: int): (n: nat)
    ensures end < start ==> n == 0
    ensures start <= end ==> start + n == end + 1
  {
    if end < start then 0 else end - start + 1
  }

  /** The instants from `start` to `end` inclusive, one hour apart. */
  function HourlyRange(start: int, end: int): (r: seq<int>)
    ensures |r| == Count(start, end)
    decreases end - start
  {
    if end < start then [] else [start] + HourlyRange(start + 1, end)
  }

  /** The `k`-th instant of the range is `k` hours after its start. */
  lemma {:induction false} HourlyRangeAt(start: int, end: int, k: nat)
    requires k < Count(start, end)
    ensures HourlyRange(start, end)[k] == start + k
    decreases end - start
  {
    if k > 0 {
      HourlyRangeAt(start + 1, end, k - 1);
    }
  }

  /** The range starts at `start`, steps by exactly one hour, so it is strictly
      increasing, never passes `end`, and ends at `end` itself. */
  lemma HourlyRangeShape(start: int, end: int)
    requires start <= end
    ensures var r := HourlyRange(start, end);
      && r[0] == start
      && r[|r| - 1] == end
      && (forall k :: 0 <= k < |r| - 1 ==> r[k + 1] == r[k] + 1)
      && (forall i, j :: 0 <= i < j < |r| ==> r[i] < r[j])
      && (forall k :: 0 <= k < |r| ==> start <= r[k] <= end)
  {
    var r := HourlyRange(start, end);
    forall k | 0 <= k < |r| ensures r[k] == start + k {
      HourlyRangeAt(start, end, k);
    }
  }

  /** The fixed range holds 26,280 instants, from hour 0 to hour 26279. */
  lemma DefaultRange()
    ensures var r := HourlyRange(StartHour, EndHour);
      |r| == 26280 && r[0] == 0 && r[26279] == 26279
      && forall k :: 0 <= k < |r| ==> r[k] == k
  {
    var r := HourlyRange(StartHour, EndHour);
    forall k | 0 <= k < |r| ensures r[k] == k {
      HourlyRangeAt(StartHour, EndHour, k);
    }
  }

  /** The generation loop: append `current_date` to `dates` and advance it by
      one hour, for as long as it has not passed `end`. */
  method GenerateDates(start: int, end: int) returns (dates: seq<int>)
    ensures |dates| == Count(start, end)
    ensures forall k :: 0 <= k < |dates| ==> dates[k] == start + k
    ensures dates == HourlyRange(start, end)
  {
    dates := [];
    var current := start;
    while current <= end
      invariant start <= current && (current <= end + 1 || current == start)
      invariant |dates| == current - start
      invariant forall k :: 0 <= k < |dates| ==> dates[k] == start + k
      decreases end + 1 - current
    {
      dates := dates + [current];
      current := current + 1;
    }
    forall k | 0 <= k < |dates| ensures dates[k] == HourlyRange(start, end)[k] {
      HourlyRangeAt(start, end, k);
    }
  }

  /** `pd.Series(dates[:n])` placed on the rows `0 .. n-1` of a frame: row `k`
      receives `dates[k]` while there is one, and the missing value after that. */
  function Aligned<V>(dates: seq<int>, n: nat): (column: seq<Cell<V>>)
    ensures |column| == n
    ensures forall k :: 0 <= k < n ==> column[k] == if k < |dates| then Stamp(dates[k]) else Missing
  {
    var series := dates[..Min(|dates|, n)];
    seq(|series|, k requires 0 <= k < |series| => Stamp(series[k])) + seq(n - |series|, _ => Missing)
  }

  /** `df['Datetime'] = pd.Series(dates[:len(df)])`: the row count does not
      change, row `k` holds the `k`-th instant (or the missing value once the
      instants run out), and every other column keeps its place and its values. */
  function AttachDatetime<V>(f: Frame<Cell<V>>, dates: seq<int>): (r: Frame<Cell<V>>)
    requires f.Valid()
    ensures r.Valid() && r.height == f.height
    ensures DatetimeColumn in r.data
    ensures forall k :: 0 <= k < r.height ==>
      r.data[DatetimeColumn][k] == if k < |dates| then Stamp(dates[k]) else Missing
    ensures DatetimeColumn in f.columns ==> r.columns == f.columns
    ensures DatetimeColumn !in f.columns ==> r.columns == f.columns + [DatetimeColumn]
    ensures forall c :: c != DatetimeColumn ==> (c in r.data <==> c in f.data)
    ensures forall c :: c != DatetimeColumn && c in f.data ==> r.data[c] == f.data[c]
  {
    Assign(f, DatetimeColumn, Aligned(dates, f.height))
  }

  /** The whole script on a frame read from the file: the first 26,280 rows are
      stamped with hours 0, 1, 2, ... in order; any later row gets the missing value. */
  method AddDatetimeColumn<V>(df: DataFrame<Cell<V>>)
    requires df.Snapshot().Valid()
    modifies df
    ensures df.Snapshot() == AttachDatetime(old(df.Snapshot()), HourlyRange(StartHour, EndHour))
    ensures df.height == old(df.height) && DatetimeColumn in df.data
    ensures forall k :: 0 <= k < df.height ==>
      df.data[DatetimeColumn][k] == if k < 26280 then Stamp(k) else Missing
  {
    var dates := GenerateDates(StartHour, EndHour);
    DefaultRange();
    df.SetItem(DatetimeColumn, Aligned(dates, df.height));
  }
}
