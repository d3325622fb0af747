/**
 * The per-file record cleaner (`process_csv`): site filter, positive-reading
 * filter, missing and negative volume policies, hourly aggregation of the 96
 * quarter-hour windows, the wide-to-long melt and the final column selection.
 * Every step is a whole-table transform, so every step is a function.
 */
module Cleaning {
  import opened Wrappers
  import opened Seqs

  /** An instant as `pd.to_datetime` yields it; parsing the source text is not modelled. */
  type Timestamp = int

  const WindowsPerHour: nat := 4
  const HoursPerDay: nat := 24
  const WindowsPerDay: nat := 96

  /** One raw row of a source CSV file: one detector on one day. `volumes` are the
      columns V00..V95 in file order; a missing cell is `None`. The region name and
      the two pre-aggregated 24-hour columns are read and then dropped. */
  datatype RawRow = RawRow(
    siteId: int,                 // NB_SCATS_SITE
    datetime: Timestamp,         // QT_INTERVAL_COUNT
    detectorId: int,             // NB_DETECTOR
    workingPeriodCount: int,     // CT_RECORDS
    volumes: seq<Option<int>>,   // V00 .. V95
    region: string,              // NM_REGION
    volume24Hour: Option<int>,   // QT_VOLUME_24HOUR
    alarm24Hour: Option<int>)    // CT_ALARM_24HOUR

  /** A cleaned row before the melt: one volume per hour of the day. */
  datatype WideRow = WideRow(siteId: int, datetime: Timestamp, detectorId: int,
                             workingPeriodCount: int, hours: seq<int>)

  /** A row of the melted table; `hour` is the label `hour_<hour>`. */
  datatype LongRow = LongRow(siteId: int, datetime: Timestamp, detectorId: int,
                             workingPeriodCount: int, hour: nat, volume: int)

  /** An output row: exactly the five output columns, in output order. */
  datatype HourlyRow = HourlyRow(datetime: Timestamp, siteId: int, detectorId: int,
                                 volume: int, workingPeriodCount: int)

  const OutputColumns: seq<string> :=
    ["datetime", "site_id", "detector_id", "volume", "working_period_count"]

  function Min(a: int, b: int): int {
    if a <= b then a else b
  }

  // ---------------------------------------------------------------- row filters

  /** Row mask of the site filter: the row's site is one of the selected sites. */
  function SiteTest(selected: seq<int>): RawRow -> bool {
    (r: RawRow) => r.siteId in selected
  }

  /** `(df[volume_cols] > 0).any(axis=1)`: some present reading is strictly positive
      (a missing reading compares false). */
  predicate HasPositive(volumes: seq<Option<int>>) {
    exists i :: 0 <= i < |volumes| && volumes[i].Some? && volumes[i].value > 0
  }

  predicate HasPositiveReading(r: RawRow) {
    HasPositive(r.volumes)
  }

  /** The rows that survive both filters, in file order. */
  function KeptRows(rows: seq<RawRow>, selected: seq<int>): seq<RawRow> {
    Filter(Filter(rows, SiteTest(selected)), HasPositiveReading)
  }

  /** A raw row is kept exactly when its site is selected and one of its
      readings is strictly positive. */
  lemma KeptRowsMembers(rows: seq<RawRow>, selected: seq<int>)
    ensures forall i :: 0 <= i < |KeptRows(rows, selected)| ==>
      var r := KeptRows(rows, selected)[i];
      r in rows && r.siteId in selected && HasPositive(r.volumes)
    ensures forall i :: 0 <= i < |rows| && rows[i].siteId in selected && HasPositive(rows[i].volumes) ==>
      rows[i] in KeptRows(rows, selected)
  {
    var sited := Filter(rows, SiteTest(selected));
    forall i | 0 <= i < |rows| && rows[i].siteId in selected && HasPositive(rows[i].volumes)
      ensures rows[i] in KeptRows(rows, selected)
    {
      assert SiteTest(selected)(rows[i]);
      var j :| 0 <= j < |sited| && sited[j] == rows[i];
      assert HasPositiveReading(sited[j]);
    }
    forall i | 0 <= i < |KeptRows(rows, selected)|
      ensures KeptRows(rows, selected)[i] in rows && KeptRows(rows, selected)[i].siteId in selected
    {
      var j :| 0 <= j < |sited| && sited[j] == KeptRows(rows, selected)[i];
      assert SiteTest(selected)(sited[j]);
    }
  }

  /** The filters preserve order: the kept rows of two stacked tables are the
      kept rows of the first followed by those of the second. */
  lemma KeptRowsConcat(a: seq<RawRow>, b: seq<RawRow>, selected: seq<int>)
    ensures KeptRows(a + b, selected) == KeptRows(a, selected) + KeptRows(b, selected)
  {
    FilterConcat(a, b, SiteTest(selected));
    FilterConcat(Filter(a, SiteTest(selected)), Filter(b, SiteTest(selected)), HasPositiveReading);
  }

  // ------------------------------------------------- missing and negative cells

  /** `fillna(0)` on the volume cells. */
  function FillMissing(v: seq<Option<int>>): (r: seq<int>)
    ensures |r| == |v|
    ensures forall i :: 0 <= i < |v| ==> r[i] == v[i].GetOr(0)
  {
    if v == [] then [] else [v[0].GetOr(0)] + FillMissing(v[1..])
  }

  /** `neg_mask.sum(axis=1)`: the number of negative cells. */
  function CountNegatives(v: seq<int>): nat {
    if v == [] then 0 else (if v[0] < 0 then 1 else 0) + CountNegatives(v[1..])
  }

  /** `mask(neg_mask, 0)`: every negative cell becomes 0. */
  function ZeroNegatives(v: seq<int>): (r: seq<int>)
    ensures |r| == |v|
    ensures forall i :: 0 <= i < |v| ==> r[i] == if v[i] < 0 then 0 else v[i]
  {
    if v == [] then [] else [if v[0] < 0 then 0 else v[0]] + ZeroNegatives(v[1..])
  }

  /** The corrected volume cells: missing and negative readings become 0. */
  function CleanVolumes(v: seq<Option<int>>): (c: seq<int>)
    ensures |c| == |v|
    ensures forall i :: 0 <= i < |v| ==> c[i] >= 0
    ensures forall i :: 0 <= i < |v| ==>
      c[i] == if v[i].Some? && v[i].value > 0 then v[i].value else 0
  {
    ZeroNegatives(FillMissing(v))
  }

  /** Reference count: the present readings that are negative. */
  function RawNegatives(v: seq<Option<int>>): nat {
    if v == [] then 0
    else (if v[0].Some? && v[0].value < 0 then 1 else 0) + RawNegatives(v[1..])
  }

  /** Reference sum: the present readings that are strictly positive. */
  function SumPositive(v: seq<Option<int>>): int {
    if v == [] then 0
    else (if v[0].Some? && v[0].value > 0 then v[0].value else 0) + SumPositive(v[1..])
  }

  lemma {:induction false} SumPositiveNonNegative(v: seq<Option<int>>)
    ensures SumPositive(v) >= 0
  {
    if v != [] {
      SumPositiveNonNegative(v[1..]);
    }
  }

  /** Missing cells are filled with 0 before negatives are counted, so the
      count is exactly the number of present negative readings. */
  lemma {:induction false} NegativesIgnoreMissing(v: seq<Option<int>>)
    ensures CountNegatives(FillMissing(v)) == RawNegatives(v)
  {
    if v != [] {
      assert FillMissing(v)[1..] == FillMissing(v[1..]);
      NegativesIgnoreMissing(v[1..]);
    }
  }

  /** The corrected cells add up to the positive raw readings. */
  lemma {:induction false} CleanVolumesSum(v: seq<Option<int>>)
    ensures Sum(CleanVolumes(v)) == SumPositive(v)
  {
    if v != [] {
      assert CleanVolumes(v)[1..] == CleanVolumes(v[1..]);
      CleanVolumesSum(v[1..]);
    }
  }

  // ----------------------------------------------------------- hourly sums

  /** `volume_cols[h*4:(h+1)*4]`: the four windows of hour `h + 1`, with Python's
      clamping of a slice to the end of the list. */
  function Window<T>(v: seq<T>, h: nat): seq<T> {
    v[Min(WindowsPerHour * h, |v|)..Min(WindowsPerHour * h + WindowsPerHour, |v|)]
  }

  /** The 24 columns `hour_1` .. `hour_24` of one row. */
  function HourlyVolumes(v: seq<int>): (hs: seq<int>)
    ensures |hs| == HoursPerDay
  {
    seq(HoursPerDay, h requires 0 <= h < HoursPerDay => Sum(Window(v, h)))
  }

  /** Correction commutes with slicing out an hour's windows. */
  lemma CleanWindow(v: seq<Option<int>>, h: nat)
    ensures Window(CleanVolumes(v), h) == CleanVolumes(Window(v, h))
  {
  }

  /** With the full 96 windows, hour `h + 1` is the sum of corrected windows 4h..4h+3. */
  lemma HourIsFourWindows(v: seq<Option<int>>, h: nat)
    requires |v| == WindowsPerDay && h < HoursPerDay
    ensures var c := CleanVolumes(v);
      HourlyVolumes(c)[h] == c[4 * h] + c[4 * h + 1] + c[4 * h + 2] + c[4 * h + 3]
  {
    var c := CleanVolumes(v);
    var w := Window(c, h);
    assert w == [c[4 * h], c[4 * h + 1], c[4 * h + 2], c[4 * h + 3]];
    assert Sum(w[3..]) == c[4 * h + 3];
    assert Sum(w[2..]) == c[4 * h + 2] + Sum(w[3..]);
    assert Sum(w[1..]) == c[4 * h + 1] + Sum(w[2..]);
  }

  /** The first `k` hours together hold the first `4k` windows (clamped). */
  lemma {:induction false} HourPrefixSum(v: seq<int>, k: nat)
    requires k <= HoursPerDay
    ensures Sum(HourlyVolumes(v)[..k]) == Sum(v[..Min(WindowsPerHour * k, |v|)])
  {
    if k > 0 {
      var hs := HourlyVolumes(v);
      HourPrefixSum(v, k - 1);
      assert hs[..k] == hs[..k - 1] + [hs[k - 1]];
      SumConcat(hs[..k - 1], [hs[k - 1]]);
      var lo, hi := Min(WindowsPerHour * (k - 1), |v|), Min(WindowsPerHour * k, |v|);
      assert v[..hi] == v[..lo] + v[lo..hi];
      SumConcat(v[..lo], v[lo..hi]);
    }
  }

  /** Conservation for one row: the 24 hourly volumes add up to the positive raw
      readings of the (at most 96) windows the hours cover. */
  lemma HourlyConservation(v: seq<Option<int>>)
    ensures Sum(HourlyVolumes(CleanVolumes(v))) == SumPositive(v[..Min(WindowsPerDay, |v|)])
  {
    var c := CleanVolumes(v);
    HourPrefixSum(c, HoursPerDay);
    assert HourlyVolumes(c)[..HoursPerDay] == HourlyVolumes(c);
    var m := Min(WindowsPerDay, |v|);
    assert c[..m] == CleanVolumes(v[..m]);
    CleanVolumesSum(v[..m]);
  }

  // ---------------------------------------------------- aggregation and melt

  /** One kept row cleaned: missing readings filled with 0, negative readings
      counted off the working-period count and zeroed, windows summed by hour. */
  function Aggregate(r: RawRow): WideRow {
    var filled := FillMissing(r.volumes);
    WideRow(r.siteId, r.datetime, r.detectorId,
            r.workingPeriodCount - CountNegatives(filled),
            HourlyVolumes(ZeroNegatives(filled)))
  }

  /** Cleaning never raises the working-period count, and leaves no hour negative. */
  lemma AggregateBounds(r: RawRow)
    ensures Aggregate(r).workingPeriodCount <= r.workingPeriodCount
    ensures forall h :: 0 <= h < HoursPerDay ==> Aggregate(r).hours[h] >= 0
  {
    var c := ZeroNegatives(FillMissing(r.volumes));
    forall h | 0 <= h < HoursPerDay ensures Aggregate(r).hours[h] >= 0 {
      SumNonNegative(Window(c, h));
    }
  }

  function AggregateAll(rows: seq<RawRow>): (wide: seq<WideRow>)
    ensures |wide| == |rows|
    ensures forall i :: 0 <= i < |wide| ==> |wide[i].hours| == HoursPerDay
  {
    seq(|rows|, i requires 0 <= i < |rows| => Aggregate(rows[i]))
  }

  /** The block of the melt for `hour_<h+1>`: every row, in row order. */
  function MeltHour(wide: seq<WideRow>, h: nat): (block: seq<LongRow>)
    requires h < HoursPerDay
    requires forall i :: 0 <= i < |wide| ==> |wide[i].hours| == HoursPerDay
    ensures |block| == |wide|
  {
    seq(|wide|, i requires 0 <= i < |wide| =>
      LongRow(wide[i].siteId, wide[i].datetime, wide[i].detectorId,
              wide[i].workingPeriodCount, h + 1, wide[i].hours[h]))
  }

  /** `df.melt(id_vars=..., value_vars=hour_1..hour_24)`: one row per wide row and hour. */
  function Melt(wide: seq<WideRow>): (long: seq<LongRow>)
    requires forall i :: 0 <= i < |wide| ==> |wide[i].hours| == HoursPerDay
    ensures |long| == HoursPerDay * |wide|
  {
    var blocks := seq(HoursPerDay, h requires 0 <= h < HoursPerDay => MeltHour(wide, h));
    ConcatLength(blocks, |wide|);
    Concat(blocks)
  }

  /** `df[["datetime", "site_id", "detector_id", "volume", "working_period_count"]]`:
      the hour label is dropped. */
  function Project(long: seq<LongRow>): (out: seq<HourlyRow>)
    ensures |out| == |long|
  {
    seq(|long|, k requires 0 <= k < |long| =>
      HourlyRow(long[k].datetime, long[k].siteId, long[k].detectorId,
                long[k].volume, long[k].workingPeriodCount))
  }

  /** `process_csv` on an already parsed file, with the selected sites as a
      parameter: 24 rows per kept raw row. */
  function ProcessCsv(rows: seq<RawRow>, selected: seq<int>): (out: seq<HourlyRow>)
    ensures |out| == HoursPerDay * |KeptRows(rows, selected)|
  {
    Project(Melt(AggregateAll(KeptRows(rows, selected))))
  }

  // ------------------------------------------------------- output properties

  /** What the output row for hour `h + 1` of kept row `r` must hold, stated on
      the raw row alone: its identifying fields unchanged, the positive raw
      readings of the hour's windows, and the working-period count less the
      present negative readings. */
  function ExpectedRow(r: RawRow, h: nat): HourlyRow {
    HourlyRow(r.datetime, r.siteId, r.detectorId,
              SumPositive(Window(r.volumes, h)),
              r.workingPeriodCount - RawNegatives(r.volumes))
  }

  /** The long-form layout: with `n` kept rows the output has `24 * n` rows, and
      row `k = h * n + r` is hour `h + 1` of kept row `r`. */
  lemma LayoutAt(kept: seq<RawRow>, h: nat, r: nat, k: nat)
    requires h < HoursPerDay && r < |kept| && k == h * |kept| + r
    ensures |Project(Melt(AggregateAll(kept)))| == HoursPerDay * |kept|
    ensures k < |Project(Melt(AggregateAll(kept)))|
    ensures Project(Melt(AggregateAll(kept)))[k] == ExpectedRow(kept[r], h)
  {
    var wide := AggregateAll(kept);
    MeltAt(wide, h, r);
    ProjectAt(Melt(wide), k);
    AggregateAllAt(kept, r);
    AggregateExpected(kept[r], h);
  }

  lemma ProjectAt(long: seq<LongRow>, k: nat)
    requires k < |long|
    ensures Project(long)[k] ==
      HourlyRow(long[k].datetime, long[k].siteId, long[k].detectorId, long[k].volume, long[k].workingPeriodCount)
  {
  }

  lemma AggregateAllAt(rows: seq<RawRow>, r: nat)
    requires r < |rows|
    ensures AggregateAll(rows)[r] == Aggregate(rows[r])
  {
  }

  /** Row `h * n + r` of the melt is hour `h + 1` of wide row `r`. */
  lemma MeltAt(wide: seq<WideRow>, h: nat, r: nat)
    requires forall i :: 0 <= i < |wide| ==> |wide[i].hours| == HoursPerDay
    requires h < HoursPerDay && r < |wide|
    ensures |Melt(wide)| == HoursPerDay * |wide|
    ensures h * |wide| + r < |Melt(wide)|
    ensures Melt(wide)[h * |wide| + r] ==
      LongRow(wide[r].siteId, wide[r].datetime, wide[r].detectorId,
              wide[r].workingPeriodCount, h + 1, wide[r].hours[h])
  {
    var blocks := seq(HoursPerDay, h requires 0 <= h < HoursPerDay => MeltHour(wide, h));
    ConcatUniform(blocks, |wide|, h, r);
  }

  /** One aggregated row against the raw row: hour `h + 1` holds the positive
      readings of its windows, the count loses the present negative readings. */
  lemma AggregateMeaning(r: RawRow, h: nat)
    requires h < HoursPerDay
    ensures Aggregate(r).siteId == r.siteId && Aggregate(r).datetime == r.datetime &&
      Aggregate(r).detectorId == r.detectorId
    ensures Aggregate(r).hours[h] == SumPositive(Window(r.volumes, h))
    ensures Aggregate(r).workingPeriodCount == r.workingPeriodCount - RawNegatives(r.volumes)
  {
    var v := r.volumes;
    NegativesIgnoreMissing(v);
    assert ZeroNegatives(FillMissing(v)) == CleanVolumes(v);
    CleanWindow(v, h);
    CleanVolumesSum(Window(v, h));
  }

  /** Projecting hour `h + 1` of an aggregated row gives the expected output row. */
  lemma AggregateExpected(r: RawRow, h: nat)
    requires h < HoursPerDay
    ensures var a := Aggregate(r);
      HourlyRow(a.datetime, a.siteId, a.detectorId, a.hours[h], a.workingPeriodCount) == ExpectedRow(r, h)
  {
    AggregateMeaning(r, h);
  }

  /** `process_csv` output layout: row `k = h * n + r` is hour `h + 1` of kept row `r`. */
  lemma OutputRowAt(rows: seq<RawRow>, selected: seq<int>, h: nat, r: nat, k: nat)
    requires h < HoursPerDay && r < |KeptRows(rows, selected)|
    requires k == h * |KeptRows(rows, selected)| + r
    ensures |ProcessCsv(rows, selected)| == HoursPerDay * |KeptRows(rows, selected)|
    ensures k < |ProcessCsv(rows, selected)|
    ensures ProcessCsv(rows, selected)[k] == ExpectedRow(KeptRows(rows, selected)[r], h)
  {
    LayoutAt(KeptRows(rows, selected), h, r, k);
  }

  /** An index into `24` blocks of `n` rows splits into a block and an offset. */
  lemma SplitIndex(k: nat, n: nat)
    requires k < HoursPerDay * n
    ensures 0 < n && k / n < HoursPerDay && k % n < n
    ensures k == (k / n) * n + k % n
  {
  }

  /** Every output row is some hour of some kept row. */
  lemma OutputRowSource(rows: seq<RawRow>, selected: seq<int>, k: nat) returns (h: nat, r: nat)
    requires k < |ProcessCsv(rows, selected)|
    ensures h < HoursPerDay && r < |KeptRows(rows, selected)|
    ensures ProcessCsv(rows, selected)[k] == ExpectedRow(KeptRows(rows, selected)[r], h)
  {
    var n := |KeptRows(rows, selected)|;
    SplitIndex(k, n);
    h, r := k / n, k % n;
    OutputRowAt(rows, selected, h, r, k);
  }

  /** Every output row belongs to a selected site, carries a present, non-negative
      volume, and comes from a kept raw row whose identifying fields it keeps. */
  lemma OutputRowsSound(rows: seq<RawRow>, selected: seq<int>)
    ensures forall o :: o in ProcessCsv(rows, selected) ==>
      o.siteId in selected && o.volume >= 0 &&
      exists r :: r in rows && HasPositive(r.volumes) && r.siteId == o.siteId &&
        r.datetime == o.datetime && r.detectorId == o.detectorId &&
        o.workingPeriodCount == r.workingPeriodCount - RawNegatives(r.volumes)
  {
    var out := ProcessCsv(rows, selected);
    var kept := KeptRows(rows, selected);
    KeptRowsMembers(rows, selected);
    forall o | o in out
      ensures o.siteId in selected && o.volume >= 0 &&
        exists r :: r in rows && HasPositive(r.volumes) && r.siteId == o.siteId &&
          r.datetime == o.datetime && r.detectorId == o.detectorId &&
          o.workingPeriodCount == r.workingPeriodCount - RawNegatives(r.volumes)
    {
      var k :| 0 <= k < |out| && out[k] == o;
      var h, j := OutputRowSource(rows, selected, k);
      var r := kept[j];
      assert o == ExpectedRow(r, h);
      SumPositiveNonNegative(Window(r.volumes, h));
      assert r in rows && HasPositive(r.volumes);
    }
  }

  /** A raw row yields 24 output rows when its site is selected and some reading
      is strictly positive, and none otherwise (all readings zero, negative or missing). */
  lemma RowContribution(r: RawRow, selected: seq<int>)
    ensures |ProcessCsv([r], selected)| ==
      if r.siteId in selected && HasPositive(r.volumes) then HoursPerDay else 0
  {
    var sited := Filter([r], SiteTest(selected));
    assert [r][1..] == [];
    assert sited == if r.siteId in selected then [r] else [];
    if sited != [] {
      assert sited[1..] == [];
    }
  }

  /** Conservation over the output: the 24 volumes emitted for kept row `r` add
      up to the positive raw readings of its (at most 96) windows. */
  function RowVolumes(out: seq<HourlyRow>, n: nat, r: nat): (vs: seq<int>)
    requires r < n && |out| == HoursPerDay * n
    ensures |vs| == HoursPerDay
  {
    seq(HoursPerDay, h requires 0 <= h < HoursPerDay =>
      assert h * n + r < (h + 1) * n <= HoursPerDay * n;
      out[h * n + r].volume)
  }

  lemma OutputConservation(rows: seq<RawRow>, selected: seq<int>, r: nat)
    requires r < |KeptRows(rows, selected)|
    ensures |ProcessCsv(rows, selected)| == HoursPerDay * |KeptRows(rows, selected)|
    ensures var v := KeptRows(rows, selected)[r].volumes;
      Sum(RowVolumes(ProcessCsv(rows, selected), |KeptRows(rows, selected)|, r)) ==
        SumPositive(v[..Min(WindowsPerDay, |v|)])
  {
    var kept := KeptRows(rows, selected);
    var n := |kept|;
    var v := kept[r].volumes;
    var out := ProcessCsv(rows, selected);
    forall h | 0 <= h < HoursPerDay
      ensures RowVolumes(out, n, r)[h] == HourlyVolumes(CleanVolumes(v))[h]
    {
      OutputRowAt(rows, selected, h, r, h * n + r);
      CleanWindow(v, h);
      CleanVolumesSum(Window(v, h));
    }
    assert RowVolumes(out, n, r) == HourlyVolumes(CleanVolumes(v));
    HourlyConservation(v);
  }
}
