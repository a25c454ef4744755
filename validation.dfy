/** `validateModification` and `validateCreation`: the field rules checked before a
    column form is saved, as plain predicates over the submitted text. A rule other
    than "required" passes on an absent or empty value. */
module Validation {
  import opened Columns
  import opened PhpInt

  /** The field a rule is about. */
  datatype Field =
    | TaskLimitOf(column: int)   // `task_limit[<column>]`
    | TitleOf(column: int)       // `title[<column>]`
    | ProjectIdField             // `project_id`
    | TitleField                 // `title`

  /** Why a rule failed. */
  datatype Rule = NotInteger | NotPositive | Missing | TooLong

  datatype Failure = Failure(field: Field, rule: Rule)

  /** The pair `validate*` returns: the verdict and the failures, in rule order. */
  datatype Verdict = Verdict(valid: bool, errors: seq<Failure>)

  /** The longest title a column may have. */
  const MaxTitleLength := 50

  /** The text of a submitted field, `None` when it was not submitted. */
  function Lookup<K>(values: map<K, string>, key: K): Option<string>
  {
    if key in values then Some(values[key]) else None
  }

  /** A value the rules other than "required" look at: present and not "". */
  predicate Filled(v: Option<string>)
  {
    v.Some? && v.value != ""
  }

  /** "Integer": an optional minus sign followed by one or more digits. */
  predicate IsIntegerText(s: string)
  {
    if s != [] && s[0] == '-' then |s| > 1 && AllDigits(s[1..]) else s != [] && AllDigits(s)
  }

  predicate IntegerRule(v: Option<string>)
  {
    !Filled(v) || IsIntegerText(v.value)
  }

  /** "Greater than 0": the value compared as a number, read as `(int)` reads it. */
  predicate PositiveRule(v: Option<string>)
  {
    !Filled(v) || IntCast(v.value) > 0
  }

  predicate RequiredRule(v: Option<string>)
  {
    Filled(v)
  }

  predicate MaxLengthRule(v: Option<string>)
  {
    !Filled(v) || |v.value| <= MaxTitleLength
  }

  /** The failure of `rule` on `field`, or nothing when `holds`. */
  function Check(holds: bool, field: Field, rule: Rule): (fs: seq<Failure>)
    ensures fs == [] <==> holds
  {
    if holds then [] else [Failure(field, rule)]
  }

  /** The four rules of one column of the bulk form, in the order they are declared. */
  function ColumnFailures(id: int, titles: map<int, string>, limits: map<int, string>): (fs: seq<Failure>)
    ensures fs == [] <==> ColumnValid(id, titles, limits)
    ensures forall f :: f in fs ==> f.field == TaskLimitOf(id) || f.field == TitleOf(id)
  {
    var limit := Lookup(limits, id);
    var title := Lookup(titles, id);
    Check(IntegerRule(limit), TaskLimitOf(id), NotInteger)
    + Check(PositiveRule(limit), TaskLimitOf(id), NotPositive)
    + Check(RequiredRule(title), TitleOf(id), Missing)
    + Check(MaxLengthRule(title), TitleOf(id), TooLong)
  }

  /** Every rule of one column holds. */
  predicate ColumnValid(id: int, titles: map<int, string>, limits: map<int, string>)
  {
    var limit := Lookup(limits, id);
    var title := Lookup(titles, id);
    IntegerRule(limit) && PositiveRule(limit) && RequiredRule(title) && MaxLengthRule(title)
  }

  function AllFailures(columns: seq<int>, titles: map<int, string>, limits: map<int, string>): (fs: seq<Failure>)
  {
    if columns == [] then []
    else ColumnFailures(columns[0], titles, limits) + AllFailures(columns[1..], titles, limits)
  }

  /** `validateModification(columns, values)`: `columns` lists the project's column ids,
      `titles` and `limits` are the submitted `title[...]` and `task_limit[...]` fields. */
  function ValidateModification(columns: seq<int>, titles: map<int, string>, limits: map<int, string>): (v: Verdict)
    ensures v.valid <==> v.errors == []
    ensures v.valid <==> forall i :: 0 <= i < |columns| ==> ColumnValid(columns[i], titles, limits)
  {
    var fs := AllFailures(columns, titles, limits);
    AllFailuresEmpty(columns, titles, limits);
    Verdict(fs == [], fs)
  }

  /** No failure is collected exactly when every listed column passes its four rules. */
  lemma {:induction false} AllFailuresEmpty(columns: seq<int>, titles: map<int, string>, limits: map<int, string>)
    ensures AllFailures(columns, titles, limits) == [] <==>
      forall i :: 0 <= i < |columns| ==> ColumnValid(columns[i], titles, limits)
  {
    if columns != [] {
      AllFailuresEmpty(columns[1..], titles, limits);
      assert forall i :: 0 < i < |columns| ==> columns[i] == columns[1..][i - 1];
    }
  }

  /** Each failure is one of a listed column's, and each failed rule of a listed column
      is reported. */
  lemma {:induction false} ModificationErrorsExact(columns: seq<int>, titles: map<int, string>, limits: map<int, string>, f: Failure)
    ensures f in ValidateModification(columns, titles, limits).errors <==>
      exists i :: 0 <= i < |columns| && f in ColumnFailures(columns[i], titles, limits)
  {
    if columns != [] {
      ModificationErrorsExact(columns[1..], titles, limits, f);
      if f in ColumnFailures(columns[0], titles, limits) {
        assert 0 < |columns| && f in ColumnFailures(columns[0], titles, limits);
      }
      assert forall i :: 0 < i < |columns| ==> columns[i] == columns[1..][i - 1];
      assert forall i :: 0 <= i < |columns| - 1 ==> columns[1..][i] == columns[i + 1];
    }
  }

  /** The cast of a text that passes the integer rule is the number it spells. */
  lemma IntegerTextCast(s: string)
    requires IsIntegerText(s)
    ensures s[0] == '-' ==> IntCast(s) == -(DecimalValue(s[1..]) as int)
    ensures s[0] != '-' ==> AllDigits(s) && IntCast(s) == DecimalValue(s)
  {
    assert SkipSpaces(s) == s;
    if s[0] == '-' {
      DigitRunOf(s[1..], []);
      assert s[1..] + [] == s[1..];
    } else {
      DigitRunOf(s, []);
      assert s + [] == s;
    }
  }

  /** A limit that passes both task-limit rules is unsigned digits, and `update` stores
      it, through its `(int)` cast, as the positive number those digits spell. */
  lemma AcceptedLimitIsPositive(s: string)
    requires s != "" && IntegerRule(Some(s)) && PositiveRule(Some(s))
    ensures s[0] != '-' && AllDigits(s)
    ensures IntCast(s) == DecimalValue(s) > 0
  {
    IntegerTextCast(s);
  }

  /** Every integer written by PHP passes the integer rule. */
  lemma ShowIsIntegerText(n: int)
    ensures IsIntegerText(Show(n))
  {
    if n < 0 {
      assert ("-" + Decimal(-n))[1..] == Decimal(-n);
    }
  }

  // ---------------------------------------------------------------------------
  // `validateCreation`

  /** `validateCreation(values)`: `project_id` required and an integer, `title` required
      and at most 50 characters. */
  function ValidateCreation(values: map<string, string>): (v: Verdict)
    ensures v.valid <==> v.errors == []
    ensures v.valid <==>
      && Filled(Lookup(values, "project_id")) && IsIntegerText(values["project_id"])
      && Filled(Lookup(values, "title")) && |values["title"]| <= MaxTitleLength
    ensures forall f :: f in v.errors ==> f.field == ProjectIdField || f.field == TitleField
  {
    var project := Lookup(values, "project_id");
    var title := Lookup(values, "title");
    var fs := Check(RequiredRule(project), ProjectIdField, Missing)
      + Check(IntegerRule(project), ProjectIdField, NotInteger)
      + Check(RequiredRule(title), TitleField, Missing)
      + Check(MaxLengthRule(title), TitleField, TooLong);
    Verdict(fs == [], fs)
  }

  /** A missing title is reported as missing, and never as too long. */
  lemma CreationMissingTitle(values: map<string, string>)
    requires !Filled(Lookup(values, "title"))
    ensures Failure(TitleField, Missing) in ValidateCreation(values).errors
    ensures Failure(TitleField, TooLong) !in ValidateCreation(values).errors
  {
  }
}
