/**
 * The schema validator: a rule table (kind, whether missing values are
 * allowed, optional minimum and maximum) checked field by field against a
 * table, collecting every violation in schema order.
 */
module Validation {
  import opened Wrappers

  /** The `dtype` a rule asks for; any other string in that slot triggers no check. */
  datatype Kind = IntKind | DatetimeKind

  /** One schema entry; an absent key is `None` (`allow_na` defaults to true). */
  datatype Rule = Rule(name: string, dtype: Option<Kind>, allowNa: Option<bool>,
                       min: Option<int>, max: Option<int>)

  /** The element type of a column as the table reports it. */
  datatype Dtype = IntegerDtype | DatetimeDtype | OtherDtype

  /** A column: its element type and its cells (a missing cell is `None`;
      an instant is its integer count of time units). */
  datatype Column = Column(dtype: Dtype, values: seq<Option<int>>)

  /** A table, by column name. */
  type Frame = map<string, Column>

  /** One entry of the error list, naming its field. */
  datatype Violation =
    | MissingColumn(field: string)         // "Missing column: <name>"
    | ContainsNaN(field: string)           // "<name>: contains NaN values"
    | NotInteger(field: string)            // "<name>: not integer dtype"
    | NotDatetime(field: string)           // "<name>: not datetime dtype"
    | BelowMin(field: string, bound: int)  // "<name>: contains values < <min>"
    | AboveMax(field: string, bound: int)  // "<name>: contains values > <max>"

  /** `s.isna().any()` */
  predicate AnyNa(c: Column) {
    exists i :: 0 <= i < |c.values| && c.values[i].None?
  }

  /** `(s < bound).any()`; a missing cell compares false. */
  predicate AnyBelow(c: Column, bound: int) {
    exists i :: 0 <= i < |c.values| && c.values[i].Some? && c.values[i].value < bound
  }

  /** `(s > bound).any()`; a missing cell compares false. */
  predicate AnyAbove(c: Column, bound: int) {
    exists i :: 0 <= i < |c.values| && c.values[i].Some? && c.values[i].value > bound
  }

  /** The checks run on a present column, in the order they run. */
  datatype Check = NaNCheck | IntCheck | DatetimeCheck | MinCheck | MaxCheck

  const CheckOrder: seq<Check> := [NaNCheck, IntCheck, DatetimeCheck, MinCheck, MaxCheck]

  /** The violation one check reports on a present column, if any. */
  function CheckErrors(check: Check, rule: Rule, c: Column): seq<Violation> {
    match check
    case NaNCheck =>
      if !rule.allowNa.GetOr(true) && AnyNa(c) then [ContainsNaN(rule.name)] else []
    case IntCheck =>
      if rule.dtype == Some(IntKind) && c.dtype != IntegerDtype then [NotInteger(rule.name)] else []
    case DatetimeCheck =>
      if rule.dtype == Some(DatetimeKind) && c.dtype != DatetimeDtype then [NotDatetime(rule.name)] else []
    case MinCheck =>
      if rule.min.Some? && AnyBelow(c, rule.min.value) then [BelowMin(rule.name, rule.min.value)] else []
    case MaxCheck =>
      if rule.max.Some? && AnyAbove(c, rule.max.value) then [AboveMax(rule.name, rule.max.value)] else []
  }

  /** The violations of `checks`, run one after the other on a present column. */
  function RunChecks(checks: seq<Check>, rule: Rule, c: Column): seq<Violation> {
    if checks == [] then []
    else RunChecks(checks[..|checks| - 1], rule, c) + CheckErrors(checks[|checks| - 1], rule, c)
  }

  /** The violations of a present column, in the order the checks run. */
  function ColumnErrors(rule: Rule, c: Column): seq<Violation> {
    RunChecks(CheckOrder, rule, c)
  }

  /** The five checks, spelled out. */
  lemma ColumnErrorsInOrder(rule: Rule, c: Column)
    ensures ColumnErrors(rule, c) ==
      CheckErrors(NaNCheck, rule, c) + CheckErrors(IntCheck, rule, c) + CheckErrors(DatetimeCheck, rule, c) +
      CheckErrors(MinCheck, rule, c) + CheckErrors(MaxCheck, rule, c)
  {
    var o := CheckOrder;
    assert RunChecks(o[..1], rule, c) == CheckErrors(NaNCheck, rule, c) by {
      assert o[..1][..0] == [];
    }
    assert RunChecks(o[..2], rule, c) == RunChecks(o[..1], rule, c) + CheckErrors(IntCheck, rule, c) by {
      assert o[..2][..1] == o[..1];
    }
    assert RunChecks(o[..3], rule, c) == RunChecks(o[..2], rule, c) + CheckErrors(DatetimeCheck, rule, c) by {
      assert o[..3][..2] == o[..2];
    }
    assert RunChecks(o[..4], rule, c) == RunChecks(o[..3], rule, c) + CheckErrors(MinCheck, rule, c) by {
      assert o[..4][..3] == o[..3];
    }
    assert RunChecks(o, rule, c) == RunChecks(o[..4], rule, c) + CheckErrors(MaxCheck, rule, c) by {
      assert o[..4] == o[..|o| - 1];
    }
  }

  /** The violations of one schema field: a missing column stops its checks. */
  function FieldErrors(df: Frame, rule: Rule): seq<Violation> {
    if rule.name !in df then [MissingColumn(rule.name)] else ColumnErrors(rule, df[rule.name])
  }

  /** The violations of a whole schema, field after field. */
  function SchemaErrors(df: Frame, schema: seq<Rule>): seq<Violation> {
    if schema == [] then []
    else SchemaErrors(df, schema[..|schema| - 1]) + FieldErrors(df, schema[|schema| - 1])
  }

  /** `validate_schema`: one pass over the schema, appending to `errors`. */
  method ValidateSchema(df: Frame, schema: seq<Rule>) returns (errors: seq<Violation>)
    ensures errors == SchemaErrors(df, schema)
  {
    errors := [];
    var k := 0;
    while k < |schema|
      invariant 0 <= k <= |schema|
      invariant errors == SchemaErrors(df, schema[..k])
    {
      var rule := schema[k];
      SchemaErrorsStep(df, schema, k);
      if rule.name !in df {
        errors := errors + [MissingColumn(rule.name)];
        k := k + 1;
        continue;
      }
      errors := CheckColumn(errors, rule, df[rule.name]);
      k := k + 1;
    }
    assert schema[..k] == schema;
  }

  /** The checks on a present column `s`, each appending its violation to `errors`. */
  method CheckColumn(errors: seq<Violation>, rule: Rule, s: Column) returns (out: seq<Violation>)
    ensures out == errors + ColumnErrors(rule, s)
  {
    out := errors;
    if !rule.allowNa.GetOr(true) && AnyNa(s) {
      out := out + [ContainsNaN(rule.name)];
    }
    assert out == errors + CheckErrors(NaNCheck, rule, s);
    if rule.dtype == Some(IntKind) && s.dtype != IntegerDtype {
      out := out + [NotInteger(rule.name)];
    }
    assert out == errors + CheckErrors(NaNCheck, rule, s) + CheckErrors(IntCheck, rule, s);
    if rule.dtype == Some(DatetimeKind) && s.dtype != DatetimeDtype {
      out := out + [NotDatetime(rule.name)];
    }
    assert out == errors + CheckErrors(NaNCheck, rule, s) + CheckErrors(IntCheck, rule, s) +
      CheckErrors(DatetimeCheck, rule, s);
    if rule.min.Some? && AnyBelow(s, rule.min.value) {
      out := out + [BelowMin(rule.name, rule.min.value)];
    }
    assert out == errors + CheckErrors(NaNCheck, rule, s) + CheckErrors(IntCheck, rule, s) +
      CheckErrors(DatetimeCheck, rule, s) + CheckErrors(MinCheck, rule, s);
    if rule.max.Some? && AnyAbove(s, rule.max.value) {
      out := out + [AboveMax(rule.name, rule.max.value)];
    }
    ColumnErrorsInOrder(rule, s);
    AppendFive(errors, CheckErrors(NaNCheck, rule, s), CheckErrors(IntCheck, rule, s),
      CheckErrors(DatetimeCheck, rule, s), CheckErrors(MinCheck, rule, s), CheckErrors(MaxCheck, rule, s));
  }

  lemma AppendFive<T>(s: seq<T>, a: seq<T>, b: seq<T>, c: seq<T>, d: seq<T>, e: seq<T>)
    ensures s + a + b + c + d + e == s + (a + b + c + d + e)
  {
  }

  lemma SchemaErrorsStep(df: Frame, schema: seq<Rule>, k: nat)
    requires k < |schema|
    ensures SchemaErrors(df, schema[..k + 1]) == SchemaErrors(df, schema[..k]) + FieldErrors(df, schema[k])
  {
    assert schema[..k + 1][..k] == schema[..k];
  }

  // ------------------------------------------------------------ properties

  /** A field passes when its column is present and breaks none of its rules. */
  predicate FieldPasses(df: Frame, rule: Rule) {
    rule.name in df &&
    var c := df[rule.name];
    (rule.allowNa == Some(false) ==> !AnyNa(c)) &&
    (rule.dtype == Some(IntKind) ==> c.dtype == IntegerDtype) &&
    (rule.dtype == Some(DatetimeKind) ==> c.dtype == DatetimeDtype) &&
    (rule.min.Some? ==> forall i :: 0 <= i < |c.values| && c.values[i].Some? ==> c.values[i].value >= rule.min.value) &&
    (rule.max.Some? ==> forall i :: 0 <= i < |c.values| && c.values[i].Some? ==> c.values[i].value <= rule.max.value)
  }

  lemma FieldErrorsEmpty(df: Frame, rule: Rule)
    ensures FieldErrors(df, rule) == [] <==> FieldPasses(df, rule)
  {
    if rule.name in df {
      ColumnErrorsInOrder(rule, df[rule.name]);
    }
  }

  /** The validator reports nothing exactly when every schema field passes. */
  lemma {:induction false} NoErrorsIffAllPass(df: Frame, schema: seq<Rule>)
    ensures SchemaErrors(df, schema) == [] <==> forall k :: 0 <= k < |schema| ==> FieldPasses(df, schema[k])
  {
    if schema != [] {
      var n := |schema|;
      var init := schema[..n - 1];
      var before, here := SchemaErrors(df, init), FieldErrors(df, schema[n - 1]);
      assert SchemaErrors(df, schema) == before + here;
      assert before == [] <==> forall k :: 0 <= k < n - 1 ==> FieldPasses(df, schema[k]) by {
        NoErrorsIffAllPass(df, init);
        assert forall k :: 0 <= k < n - 1 ==> init[k] == schema[k];
      }
      FieldErrorsEmpty(df, schema[n - 1]);
    }
  }

  /** The violations that name `field`, in order. */
  function ErrorsFor(errors: seq<Violation>, field: string): (r: seq<Violation>)
    ensures |r| <= |errors|
  {
    if errors == [] then []
    else ErrorsFor(errors[..|errors| - 1], field) + if errors[|errors| - 1].field == field then [errors[|errors| - 1]] else []
  }

  lemma {:induction false} ErrorsForConcat(a: seq<Violation>, b: seq<Violation>, field: string)
    ensures ErrorsFor(a + b, field) == ErrorsFor(a, field) + ErrorsFor(b, field)
    decreases |b|
  {
    if b == [] {
      assert a + b == a;
    } else {
      var init := b[..|b| - 1];
      assert (a + b)[..|a + b| - 1] == a + init;
      ErrorsForConcat(a, init, field);
    }
  }

  /** Every violation a check reports names the field it checked. */
  lemma {:induction false} RunChecksName(checks: seq<Check>, rule: Rule, c: Column)
    ensures forall e :: e in RunChecks(checks, rule, c) ==> e.field == rule.name
  {
    if checks != [] {
      RunChecksName(checks[..|checks| - 1], rule, c);
    }
  }

  lemma FieldErrorsName(df: Frame, rule: Rule)
    ensures forall e :: e in FieldErrors(df, rule) ==> e.field == rule.name
  {
    if rule.name in df {
      RunChecksName(CheckOrder, rule, df[rule.name]);
    }
  }

  lemma {:induction false} ErrorsForAll(errors: seq<Violation>, field: string)
    requires forall e :: e in errors ==> e.field == field
    ensures ErrorsFor(errors, field) == errors
  {
    if errors != [] {
      ErrorsForAll(errors[..|errors| - 1], field);
      assert errors == errors[..|errors| - 1] + [errors[|errors| - 1]];
    }
  }

  lemma {:induction false} ErrorsForNone(errors: seq<Violation>, field: string)
    requires forall e :: e in errors ==> e.field != field
    ensures ErrorsFor(errors, field) == []
  {
    if errors != [] {
      ErrorsForNone(errors[..|errors| - 1], field);
    }
  }

  predicate DistinctNames(schema: seq<Rule>) {
    forall p, q :: 0 <= p < q < |schema| ==> schema[p].name != schema[q].name
  }

  /** Every violation names a field of the schema it was checked against. */
  lemma {:induction false} SchemaErrorsFields(df: Frame, schema: seq<Rule>)
    ensures forall e :: e in SchemaErrors(df, schema) ==> exists k :: 0 <= k < |schema| && schema[k].name == e.field
  {
    if schema != [] {
      var init := schema[..|schema| - 1];
      SchemaErrorsFields(df, init);
      FieldErrorsName(df, schema[|schema| - 1]);
      forall e | e in SchemaErrors(df, schema)
        ensures exists k :: 0 <= k < |schema| && schema[k].name == e.field
      {
        if e in SchemaErrors(df, init) {
          var k :| 0 <= k < |init| && init[k].name == e.field;
          assert schema[k] == init[k];
        } else {
          assert schema[|schema| - 1].name == e.field;
        }
      }
    }
  }

  /** With distinct field names, the violations naming field `k` are exactly
      that field's own violations: for a missing column just "Missing column",
      and never more than one violation of each kind. */
  lemma ErrorsOfField(df: Frame, schema: seq<Rule>, k: nat)
    requires DistinctNames(schema) && k < |schema|
    ensures ErrorsFor(SchemaErrors(df, schema), schema[k].name) == FieldErrors(df, schema[k])
  {
    ErrorsOfUniqueField(df, schema, k);
  }

  /** No field but the `k`-th is called `schema[k].name`. */
  predicate UniqueAt(schema: seq<Rule>, k: nat)
    requires k < |schema|
  {
    forall j :: 0 <= j < |schema| && j != k ==> schema[j].name != schema[k].name
  }

  lemma {:induction false} ErrorsOfUniqueField(df: Frame, schema: seq<Rule>, k: nat)
    requires k < |schema| && UniqueAt(schema, k)
    ensures ErrorsFor(SchemaErrors(df, schema), schema[k].name) == FieldErrors(df, schema[k])
  {
    var n := |schema|;
    if k == n - 1 {
      LastFieldErrorsFor(df, schema);
    } else {
      var init := schema[..n - 1];
      EarlierFieldErrorsFor(df, schema, k);
      assert init[k] == schema[k];
      assert UniqueAt(init, k);
      ErrorsOfUniqueField(df, init, k);
    }
  }

  /** The violations naming the last field are that field's own. */
  lemma LastFieldErrorsFor(df: Frame, schema: seq<Rule>)
    requires schema != [] && UniqueAt(schema, |schema| - 1)
    ensures ErrorsFor(SchemaErrors(df, schema), schema[|schema| - 1].name) == FieldErrors(df, schema[|schema| - 1])
  {
    var last := schema[|schema| - 1];
    var before, here := SchemaErrors(df, schema[..|schema| - 1]), FieldErrors(df, last);
    assert SchemaErrors(df, schema) == before + here;
    ErrorsForConcat(before, here, last.name);
    NoEarlierErrorsFor(df, schema);
    FieldErrorsName(df, last);
    ErrorsForAll(here, last.name);
  }

  /** The last field reports nothing under the name of another field. */
  lemma EarlierFieldErrorsFor(df: Frame, schema: seq<Rule>, k: nat)
    requires k < |schema| - 1 && UniqueAt(schema, k)
    ensures ErrorsFor(SchemaErrors(df, schema), schema[k].name) ==
      ErrorsFor(SchemaErrors(df, schema[..|schema| - 1]), schema[k].name)
  {
    var last := schema[|schema| - 1];
    var before, here := SchemaErrors(df, schema[..|schema| - 1]), FieldErrors(df, last);
    assert SchemaErrors(df, schema) == before + here;
    ErrorsForConcat(before, here, schema[k].name);
    FieldErrorsName(df, last);
    ErrorsForNone(here, schema[k].name);
  }

  /** No field before the last one reports under the last one's name. */
  lemma NoEarlierErrorsFor(df: Frame, schema: seq<Rule>)
    requires schema != [] && UniqueAt(schema, |schema| - 1)
    ensures ErrorsFor(SchemaErrors(df, schema[..|schema| - 1]), schema[|schema| - 1].name) == []
  {
    var init := schema[..|schema| - 1];
    var before := SchemaErrors(df, init);
    SchemaErrorsFields(df, init);
    forall e | e in before ensures e.field != schema[|schema| - 1].name {
      var j :| 0 <= j < |init| && init[j].name == e.field;
      assert schema[j] == init[j];
    }
    ErrorsForNone(before, schema[|schema| - 1].name);
  }

  /** A missing column yields exactly one violation for its field. */
  lemma MissingColumnOnce(df: Frame, schema: seq<Rule>, k: nat)
    requires DistinctNames(schema) && k < |schema| && schema[k].name !in df
    ensures ErrorsFor(SchemaErrors(df, schema), schema[k].name) == [MissingColumn(schema[k].name)]
  {
    ErrorsOfField(df, schema, k);
  }

  /** A present column with a value below its minimum yields exactly one "< min" violation. */
  lemma FieldBelowMinOnce(df: Frame, rule: Rule)
    requires rule.name in df && rule.min.Some? && AnyBelow(df[rule.name], rule.min.value)
    ensures var errs := FieldErrors(df, rule);
      exists p :: 0 <= p < |errs| && errs[p] == BelowMin(rule.name, rule.min.value) &&
        forall q :: 0 <= q < |errs| && q != p ==> !errs[q].BelowMin?
  {
    var c := df[rule.name];
    var front := CheckErrors(NaNCheck, rule, c) + CheckErrors(IntCheck, rule, c) + CheckErrors(DatetimeCheck, rule, c);
    var errs := front + CheckErrors(MinCheck, rule, c) + CheckErrors(MaxCheck, rule, c);
    ColumnErrorsInOrder(rule, c);
    assert FieldErrors(df, rule) == errs;
    var p := |front|;
    assert errs[p] == BelowMin(rule.name, rule.min.value);
    forall q | 0 <= q < |errs| && q != p ensures !errs[q].BelowMin? {
      if q < p {
        assert errs[q] == front[q];
      }
    }
  }

  lemma BelowMinOnce(df: Frame, schema: seq<Rule>, k: nat)
    requires DistinctNames(schema) && k < |schema|
    requires schema[k].name in df && schema[k].min.Some?
    requires AnyBelow(df[schema[k].name], schema[k].min.value)
    ensures var mine := ErrorsFor(SchemaErrors(df, schema), schema[k].name);
      exists p :: 0 <= p < |mine| && mine[p] == BelowMin(schema[k].name, schema[k].min.value) &&
        forall q :: 0 <= q < |mine| && q != p ==> !mine[q].BelowMin?
  {
    ErrorsOfField(df, schema, k);
    FieldBelowMinOnce(df, schema[k]);
  }

  /** The first position of `field` in the schema. */
  function Position(schema: seq<Rule>, field: string): nat
    ensures Position(schema, field) <= |schema|
  {
    if schema == [] then 0
    else if schema[0].name == field then 0
    else 1 + Position(schema[1..], field)
  }

  /** Violations come in schema order: a later violation never names a field
      that precedes an earlier violation's field. */
  predicate InSchemaOrder(errors: seq<Violation>, schema: seq<Rule>) {
    forall p, q :: 0 <= p < q < |errors| ==>
      Position(schema, errors[p].field) <= Position(schema, errors[q].field)
  }

  lemma {:induction false} ErrorsInSchemaOrder(df: Frame, schema: seq<Rule>)
    requires DistinctNames(schema)
    ensures InSchemaOrder(SchemaErrors(df, schema), schema)
  {
    if schema != [] {
      var n := |schema|;
      var init := schema[..n - 1];
      var before, here := SchemaErrors(df, init), FieldErrors(df, schema[n - 1]);
      assert DistinctNames(init);
      ErrorsInSchemaOrder(df, init);
      EarlierPositions(df, schema, init, before);
      LastPositions(df, schema);
      assert SchemaErrors(df, schema) == before + here;
      InSchemaOrderAppend(before, here, init, schema, n - 1);
    }
  }

  /** The violations of the fields before the last sit at the same, earlier positions. */
  lemma EarlierPositions(df: Frame, schema: seq<Rule>, init: seq<Rule>, before: seq<Violation>)
    requires DistinctNames(schema) && schema != []
    requires init == schema[..|schema| - 1] && before == SchemaErrors(df, init)
    ensures forall i :: 0 <= i < |before| ==>
      Position(schema, before[i].field) == Position(init, before[i].field) < |schema| - 1
  {
    SchemaErrorsFields(df, init);
    forall i | 0 <= i < |before|
      ensures Position(schema, before[i].field) == Position(init, before[i].field) < |schema| - 1
    {
      assert before[i] in before;
      var j :| 0 <= j < |init| && init[j].name == before[i].field;
      PositionPrefix(schema, j);
    }
  }

  /** The violations of the last field sit at the last position. */
  lemma LastPositions(df: Frame, schema: seq<Rule>)
    requires DistinctNames(schema) && schema != []
    ensures forall e :: e in FieldErrors(df, schema[|schema| - 1]) ==> Position(schema, e.field) == |schema| - 1
  {
    FieldErrorsName(df, schema[|schema| - 1]);
    PositionOfLast(schema);
  }

  lemma InSchemaOrderAppend(before: seq<Violation>, here: seq<Violation>, init: seq<Rule>, schema: seq<Rule>, m: nat)
    requires InSchemaOrder(before, init)
    requires forall i :: 0 <= i < |before| ==>
      Position(schema, before[i].field) == Position(init, before[i].field) < m
    requires forall e :: e in here ==> Position(schema, e.field) == m
    ensures InSchemaOrder(before + here, schema)
  {
    var errors := before + here;
    forall p, q | 0 <= p < q < |errors|
      ensures Position(schema, errors[p].field) <= Position(schema, errors[q].field)
    {
      if q < |before| {
        assert errors[p] == before[p] && errors[q] == before[q];
      } else if p >= |before| {
        assert errors[p] == here[p - |before|] && errors[q] == here[q - |before|];
        assert here[p - |before|] in here && here[q - |before|] in here;
      } else {
        assert errors[p] == before[p] && errors[q] == here[q - |before|];
        assert here[q - |before|] in here;
      }
    }
  }

  /** The position of a field in a schema and in the schema without its last entry agree. */
  lemma {:induction false} PositionPrefix(schema: seq<Rule>, j: nat)
    requires DistinctNames(schema) && j < |schema| - 1
    ensures Position(schema, schema[j].name) == Position(schema[..|schema| - 1], schema[j].name) == j
  {
    PositionAt(schema, j);
    PositionAt(schema[..|schema| - 1], j);
  }

  lemma {:induction false} PositionAt(schema: seq<Rule>, j: nat)
    requires DistinctNames(schema) && j < |schema|
    ensures Position(schema, schema[j].name) == j
  {
    if j > 0 {
      assert schema[0].name != schema[j].name;
      assert schema[1..][j - 1] == schema[j];
      PositionAt(schema[1..], j - 1);
    }
  }

  lemma PositionOfLast(schema: seq<Rule>)
    requires DistinctNames(schema) && schema != []
    ensures Position(schema, schema[|schema| - 1].name) == |schema| - 1
  {
    PositionAt(schema, |schema| - 1);
  }
}
