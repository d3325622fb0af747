/**
 * The schema the cleaned table is checked against, the table a cleaned file
 * presents to the validator, and the exact errors the validator reports on it.
 */
module OutputSchema {
  import opened Wrappers
  import opened Cleaning
  import opened Validation

  /** `SCHEMA`, in declaration order. */
  const Schema: seq<Rule> := [
    Rule("datetime", Some(DatetimeKind), Some(false), None, None),
    Rule("site_id", Some(IntKind), Some(false), None, None),
    Rule("detector_id", Some(IntKind), Some(false), None, None),
    Rule("volume", Some(IntKind), Some(false), Some(0), None),
    Rule("working_period_count", Some(IntKind), Some(false), Some(0), None)
  ]

  /** One column of the cleaned table: every cell present. */
  function Present(t: seq<HourlyRow>, f: HourlyRow -> int): (cells: seq<Option<int>>)
    ensures |cells| == |t|
    ensures forall i :: 0 <= i < |t| ==> cells[i] == Some(f(t[i]))
  {
    seq(|t|, i requires 0 <= i < |t| => Some(f(t[i])))
  }

  /** The cleaned table as columns: exactly the five output columns, the
      instant column of a datetime type, the four others of an integer type,
      and no cell missing. */
  function AsFrame(t: seq<HourlyRow>): (df: Frame)
    ensures forall k :: k in df <==> k in OutputColumns
    ensures forall k :: 0 <= k < |OutputColumns| ==> OutputColumns[k] in df
  {
    map[
      "datetime" := Column(DatetimeDtype, Present(t, (o: HourlyRow) => o.datetime)),
      "site_id" := Column(IntegerDtype, Present(t, (o: HourlyRow) => o.siteId)),
      "detector_id" := Column(IntegerDtype, Present(t, (o: HourlyRow) => o.detectorId)),
      "volume" := Column(IntegerDtype, Present(t, (o: HourlyRow) => o.volume)),
      "working_period_count" := Column(IntegerDtype, Present(t, (o: HourlyRow) => o.workingPeriodCount))
    ]
  }

  /** On a column without missing cells, of the type its rule asks for and
      with no maximum, only the minimum rule can report. */
  lemma PresentColumnErrors(rule: Rule, d: Dtype, t: seq<HourlyRow>, f: HourlyRow -> int)
    requires rule.max.None?
    requires rule.dtype == Some(IntKind) ==> d == IntegerDtype
    requires rule.dtype == Some(DatetimeKind) ==> d == DatetimeDtype
    ensures ColumnErrors(rule, Column(d, Present(t, f))) ==
      if rule.min.Some? && exists i :: 0 <= i < |t| && f(t[i]) < rule.min.value
      then [BelowMin(rule.name, rule.min.value)] else []
  {
    var c := Column(d, Present(t, f));
    ColumnErrorsInOrder(rule, c);
    assert !AnyNa(c);
    if rule.min.Some? {
      if exists i :: 0 <= i < |t| && f(t[i]) < rule.min.value {
        var i :| 0 <= i < |t| && f(t[i]) < rule.min.value;
        assert c.values[i] == Some(f(t[i]));
      }
    }
  }

  lemma SchemaFieldsDistinct()
    ensures DistinctNames(Schema)
  {
  }

  /** On any table, a field of `SCHEMA` whose column is missing is reported
      once, as missing, and a field with a value below its minimum has exactly
      one "< min" violation. */
  lemma SchemaFieldOnce(df: Frame, k: nat)
    requires k < |Schema|
    ensures Schema[k].name !in df ==>
      ErrorsFor(SchemaErrors(df, Schema), Schema[k].name) == [MissingColumn(Schema[k].name)]
    ensures Schema[k].name in df && Schema[k].min.Some? && AnyBelow(df[Schema[k].name], Schema[k].min.value) ==>
      var mine := ErrorsFor(SchemaErrors(df, Schema), Schema[k].name);
      exists p :: 0 <= p < |mine| && mine[p] == BelowMin(Schema[k].name, Schema[k].min.value) &&
        forall q :: 0 <= q < |mine| && q != p ==> !mine[q].BelowMin?
  {
    SchemaFieldsDistinct();
    if Schema[k].name !in df {
      MissingColumnOnce(df, Schema, k);
    } else if Schema[k].min.Some? && AnyBelow(df[Schema[k].name], Schema[k].min.value) {
      BelowMinOnce(df, Schema, k);
    }
  }

  predicate SomeVolumeNegative(t: seq<HourlyRow>) {
    exists i :: 0 <= i < |t| && t[i].volume < 0
  }

  predicate SomeCountNegative(t: seq<HourlyRow>) {
    exists i :: 0 <= i < |t| && t[i].workingPeriodCount < 0
  }

  /** On any table of output rows only the two minimum rules can fail, each at
      most once, volume before working-period count. */
  lemma TableErrors(t: seq<HourlyRow>)
    ensures SchemaErrors(AsFrame(t), Schema) ==
      (if SomeVolumeNegative(t) then [BelowMin("volume", 0)] else []) +
      (if SomeCountNegative(t) then [BelowMin("working_period_count", 0)] else [])
  {
    IdentifyingFieldsPass(t);
    MinimumFieldErrors(t);
    LastTwoErrors(AsFrame(t), Schema);
  }

  /** Instant, site and detector always pass: present, and of the right type. */
  lemma IdentifyingFieldsPass(t: seq<HourlyRow>)
    ensures FieldErrors(AsFrame(t), Schema[0]) == []
    ensures FieldErrors(AsFrame(t), Schema[1]) == []
    ensures FieldErrors(AsFrame(t), Schema[2]) == []
  {
    assert FieldErrors(AsFrame(t), Schema[0]) == [] by {
      PresentColumnErrors(Schema[0], DatetimeDtype, t, (o: HourlyRow) => o.datetime);
    }
    assert FieldErrors(AsFrame(t), Schema[1]) == [] by {
      PresentColumnErrors(Schema[1], IntegerDtype, t, (o: HourlyRow) => o.siteId);
    }
    PresentColumnErrors(Schema[2], IntegerDtype, t, (o: HourlyRow) => o.detectorId);
  }

  /** Volume and working-period count report exactly their negative values. */
  lemma MinimumFieldErrors(t: seq<HourlyRow>)
    ensures FieldErrors(AsFrame(t), Schema[3]) == if SomeVolumeNegative(t) then [BelowMin("volume", 0)] else []
    ensures FieldErrors(AsFrame(t), Schema[4]) ==
      if SomeCountNegative(t) then [BelowMin("working_period_count", 0)] else []
  {
    PresentColumnErrors(Schema[3], IntegerDtype, t, (o: HourlyRow) => o.volume);
    PresentColumnErrors(Schema[4], IntegerDtype, t, (o: HourlyRow) => o.workingPeriodCount);
  }

  /** A five-field schema reports the errors of its first three fields, then
      those of the fourth, then those of the fifth. */
  lemma FiveFieldErrors(df: Frame, s: seq<Rule>)
    requires |s| == 5
    ensures SchemaErrors(df, s) == SchemaErrors(df, s[..3]) + FieldErrors(df, s[3]) + FieldErrors(df, s[4])
  {
    SchemaErrorsStep(df, s, 3);
    SchemaErrorsStep(df, s, 4);
    assert s[..5] == s;
  }

  /** Three passing fields report nothing. */
  lemma FirstThreeSilent(df: Frame, s: seq<Rule>)
    requires |s| == 5
    requires FieldErrors(df, s[0]) == [] && FieldErrors(df, s[1]) == [] && FieldErrors(df, s[2]) == []
    ensures SchemaErrors(df, s[..3]) == []
  {
    assert s[..0] == [];
    SchemaErrorsStep(df, s, 0);
    SchemaErrorsStep(df, s, 1);
    SchemaErrorsStep(df, s, 2);
  }

  /** A five-field schema whose first three fields pass reports only what its last two report. */
  lemma LastTwoErrors(df: Frame, s: seq<Rule>)
    requires |s| == 5
    requires FieldErrors(df, s[0]) == [] && FieldErrors(df, s[1]) == [] && FieldErrors(df, s[2]) == []
    ensures SchemaErrors(df, s) == FieldErrors(df, s[3]) + FieldErrors(df, s[4])
  {
    FiveFieldErrors(df, s);
    FirstThreeSilent(df, s);
  }

  /** A kept raw row whose negative readings outnumber its working periods. */
  predicate Overcorrected(rows: seq<RawRow>, selected: seq<int>) {
    var kept := KeptRows(rows, selected);
    exists r :: 0 <= r < |kept| && kept[r].workingPeriodCount < RawNegatives(kept[r].volumes)
  }

  /** What the validator reports on a cleaned file: never a missing column,
      a missing value, a wrong type or a negative volume; one "< 0" error on
      the working-period count exactly when the negative-reading correction
      drove some kept row's count below zero. */
  lemma CleanedFileErrors(rows: seq<RawRow>, selected: seq<int>)
    ensures SchemaErrors(AsFrame(ProcessCsv(rows, selected)), Schema) ==
      if Overcorrected(rows, selected) then [BelowMin("working_period_count", 0)] else []
  {
    var out := ProcessCsv(rows, selected);
    TableErrors(out);
    assert !SomeVolumeNegative(out) by {
      OutputRowsSound(rows, selected);
      forall i | 0 <= i < |out| ensures out[i].volume >= 0 {
        assert out[i] in out;
      }
    }
    if Overcorrected(rows, selected) {
      OvercorrectedShows(rows, selected);
    } else if SomeCountNegative(out) {
      NegativeCountOvercorrected(rows, selected);
    }
  }

  lemma OvercorrectedShows(rows: seq<RawRow>, selected: seq<int>)
    requires Overcorrected(rows, selected)
    ensures SomeCountNegative(ProcessCsv(rows, selected))
  {
    var kept := KeptRows(rows, selected);
    var r :| 0 <= r < |kept| && kept[r].workingPeriodCount < RawNegatives(kept[r].volumes);
    OutputRowAt(rows, selected, 0, r, r);
    var out := ProcessCsv(rows, selected);
    assert out[r] == ExpectedRow(kept[r], 0);
  }

  lemma NegativeCountOvercorrected(rows: seq<RawRow>, selected: seq<int>)
    requires SomeCountNegative(ProcessCsv(rows, selected))
    ensures Overcorrected(rows, selected)
  {
    var out := ProcessCsv(rows, selected);
    var kept := KeptRows(rows, selected);
    var i :| 0 <= i < |out| && out[i].workingPeriodCount < 0;
    var h, r := OutputRowSource(rows, selected, i);
    assert kept[r].workingPeriodCount < RawNegatives(kept[r].volumes);
  }

  /** A kept row is overcorrected exactly when not every kept row has at least
      as many working periods as negative readings. */
  lemma OvercorrectedIff(rows: seq<RawRow>, selected: seq<int>)
    ensures Overcorrected(rows, selected) <==>
      !forall r :: r in KeptRows(rows, selected) ==> r.workingPeriodCount >= RawNegatives(r.volumes)
  {
    var kept := KeptRows(rows, selected);
    if Overcorrected(rows, selected) {
      var r :| 0 <= r < |kept| && kept[r].workingPeriodCount < RawNegatives(kept[r].volumes);
      assert kept[r] in kept;
    } else {
      forall x | x in kept ensures x.workingPeriodCount >= RawNegatives(x.volumes) {
        var r :| 0 <= r < |kept| && kept[r] == x;
      }
    }
  }

  /** A cleaned file passes the schema exactly when every kept row had at
      least as many working periods as negative readings. */
  lemma CleanedFileValid(rows: seq<RawRow>, selected: seq<int>)
    ensures SchemaErrors(AsFrame(ProcessCsv(rows, selected)), Schema) == [] <==>
      forall r :: r in KeptRows(rows, selected) ==> r.workingPeriodCount >= RawNegatives(r.volumes)
  {
    CleanedFileErrors(rows, selected);
    OvercorrectedIff(rows, selected);
  }
}
