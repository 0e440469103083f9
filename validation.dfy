/** `validate_and_normalize`: the rules a workout must meet before the back
    end stores it, the ordered list of messages it reports, and the proof that
    an empty list means exactly that every rule holds. */
module Validation {
  import opened Text
  import opened Records
  import opened Numbers

  /** The messages the checks can report. */
  datatype Message =
    | DateRequired | ExerciseRequired | TypeRequired | DateBadFormat | DateInvalid
    | ExerciseTooLong | TypeNotAllowed | NumericNegative | NeedDurationOrStrength

  /** The wording the client receives for each message. */
  function Wording(m: Message): string {
    match m
    case DateRequired => "Date is required."
    case ExerciseRequired => "Exercise is required."
    case TypeRequired => "Type is required."
    case DateBadFormat => "Date must be in YYYY-MM-DD format."
    case DateInvalid => "Date is invalid."
    case ExerciseTooLong => "Exercise must be 40 characters or fewer."
    case TypeNotAllowed => "Type must be Strength, Cardio, or Endurance."
    case NumericNegative => "Numeric values must be 0 or higher."
    case NeedDurationOrStrength => "Enter duration or sets/reps/weight."
  }

  /** The message of each rule, in the order the rules are checked. */
  const Messages: seq<Message> := [
    DateRequired, ExerciseRequired, TypeRequired, DateBadFormat, DateInvalid,
    ExerciseTooLong, TypeNotAllowed, NumericNegative, NeedDurationOrStrength]

  const MaxExerciseLength := 40
  const AllowedTypes: set<string> := {"Strength", "Cardio", "Endurance"}

  /** The pattern `^\d{4}-\d{2}-\d{2}$` on an already stripped string:
      ten characters, dashes at positions 4 and 7 and digits everywhere else. */
  predicate DateShape(s: string)
    ensures DateShape(s) <==>
      |s| == 10 && s[4] == '-' && s[7] == '-'
      && forall i :: 0 <= i < |s| && i != 4 && i != 7 ==> IsDigit(s[i])
  {
    && |s| == 10
    && AllDigits(s[0..4]) && s[4] == '-'
    && AllDigits(s[5..7]) && s[7] == '-'
    && AllDigits(s[8..10])
  }

  predicate IsLeapYear(y: int) {
    (y % 4 == 0 && y % 100 != 0) || y % 400 == 0
  }

  function DaysInMonth(y: int, m: int): (d: int)
    requires 1 <= m <= 12
    ensures 28 <= d <= 31
    ensures m == 2 ==> (d == 29 <==> IsLeapYear(y))
  {
    if m == 2 then (if IsLeapYear(y) then 29 else 28)
    else if m == 4 || m == 6 || m == 9 || m == 11 then 30
    else 31
  }

  /** `datetime.strptime(s, "%Y-%m-%d")` succeeds on a string of the date
      shape: the year is at least 1 (year 0000 is out of range), the month
      is 1..12 and the day exists in that month of the Gregorian calendar. */
  predicate IsCalendarDate(s: string) {
    && DateShape(s)
    && var y, m, d := DigitsValue(s[0..4]), DigitsValue(s[5..7]), DigitsValue(s[8..10]);
    && 1 <= y
    && 1 <= m <= 12
    && 1 <= d <= DaysInMonth(y, m)
  }

  predicate HasStrength(w: Workout) {
    w.sets > 0 || w.reps > 0 || w.weight > 0
  }

  predicate HasDuration(w: Workout) {
    w.duration > 0
  }

  predicate AnyNegative(w: Workout) {
    w.duration < 0 || w.sets < 0 || w.reps < 0 || w.weight < 0
  }

  /** Whether rule `k` (whose message is `Messages[k]`) fires on the
      normalised record `w`, with the guards the source puts on each check. */
  predicate Fails(w: Workout, k: nat)
    requires k < |Messages|
  {
    if k == 0 then w.date == []
    else if k == 1 then w.exercise == []
    else if k == 2 then w.kind == []
    else if k == 3 then w.date != [] && !DateShape(w.date)
    else if k == 4 then w.date != [] && DateShape(w.date) && !IsCalendarDate(w.date)
    else if k == 5 then w.exercise != [] && |w.exercise| > MaxExerciseLength
    else if k == 6 then w.kind != [] && w.kind !in AllowedTypes
    else if k == 7 then AnyNegative(w)
    else !HasStrength(w) && !HasDuration(w)
  }

  /** The messages of the rules before `k` that fire, in rule order. */
  function ReportedUpTo(w: Workout, k: nat): seq<Message>
    requires k <= |Messages|
  {
    if k == 0 then []
    else ReportedUpTo(w, k - 1) + (if Fails(w, k - 1) then [Messages[k - 1]] else [])
  }

  /** The error list `validate_and_normalize` returns for the record `w`. */
  function ErrorMessages(w: Workout): seq<Message> {
    ReportedUpTo(w, |Messages|)
  }

  predicate NoDuplicates(s: seq<Message>) {
    forall p, q :: 0 <= p < q < |s| ==> s[p] != s[q]
  }

  /** What the back end accepts, stated positively. */
  predicate Acceptable(w: Workout) {
    && w.date != [] && IsCalendarDate(w.date)
    && w.exercise != [] && |w.exercise| <= MaxExerciseLength
    && w.kind in AllowedTypes
    && w.duration >= 0 && w.sets >= 0 && w.reps >= 0 && w.weight >= 0
    && (HasDuration(w) || HasStrength(w))
  }

  /** `validate_and_normalize(payload, existing_id)`, with the id `uuid4`
      would produce passed in as `freshId`: the normalised record and the
      messages of every check it fails, in check order. */
  method ValidateAndNormalize(payload: Payload, existingId: Option<string>, freshId: string)
    returns (errors: seq<Message>, w: Workout)
    ensures w == Normalize(payload, existingId, freshId)
    ensures w.id == (if existingId.Some? && existingId.value != [] then existingId.value else freshId)
    ensures errors == ErrorMessages(w)
    ensures errors == [] <==> Acceptable(w)
  {
    w := Normalize(payload, existingId, freshId);
    errors := CollectErrors(w);
  }

  /** The checks of `validate_and_normalize` on the normalised record, one
      after the other, appending a message for each that fails; the numeric
      check stops at the first negative field. */
  method CollectErrors(w: Workout) returns (errors: seq<Message>)
    ensures errors == ErrorMessages(w)
    ensures errors == [] <==> Acceptable(w)
  {
    errors := TextFieldErrors(w);

    // Numeric constraints: one message, at the first negative field.
    var amounts := [w.duration, w.sets, w.reps, w.weight];
    var i := 0;
    while i < |amounts|
      invariant 0 <= i <= |amounts|
      invariant forall j :: 0 <= j < i ==> amounts[j] >= 0
      invariant errors == ReportedUpTo(w, 7)
    {
      if amounts[i] < 0 {
        errors := errors + [NumericNegative];
        break;
      }
      i := i + 1;
    }
    assert (i < |amounts|) == AnyNegative(w) by {
      if i < |amounts| {
        assert amounts[i] < 0 && (i == 0 || i == 1 || i == 2 || i == 3);
      } else {
        assert amounts[0] >= 0 && amounts[1] >= 0 && amounts[2] >= 0 && amounts[3] >= 0;
      }
    }
    RuleStep(w, 7);
    assert errors == ReportedUpTo(w, 8);

    // Cross-field rule: a duration or some strength data.
    var hasStrength := w.sets > 0 || w.reps > 0 || w.weight > 0;
    var hasDuration := w.duration > 0;
    if !hasStrength && !hasDuration {
      errors := errors + [NeedDurationOrStrength];
    }
    RuleStep(w, 8);
    assert errors == ErrorMessages(w);
    NoErrorsIffAcceptable(w);
  }

  /** The checks on the text fields, in the source's order: the required
      fields, the date's shape and existence, the exercise's length and the
      type. */
  method TextFieldErrors(w: Workout) returns (errors: seq<Message>)
    ensures errors == ReportedUpTo(w, 7)
  {
    errors := [];

    // Required fields.
    if w.date == [] {
      errors := errors + [DateRequired];
    }
    assert errors == ReportedUpTo(w, 1);
    if w.exercise == [] {
      errors := errors + [ExerciseRequired];
    }
    assert errors == ReportedUpTo(w, 2);
    if w.kind == [] {
      errors := errors + [TypeRequired];
    }
    assert errors == ReportedUpTo(w, 3);

    // Date shape, then whether the date exists.
    if w.date != [] && !DateShape(w.date) {
      errors := errors + [DateBadFormat];
    } else if w.date != [] && !IsCalendarDate(w.date) {
      errors := errors + [DateInvalid];
    }
    assert errors == ReportedUpTo(w, 4) + (if Fails(w, 4) then [DateInvalid] else []);
    assert errors == ReportedUpTo(w, 5);

    // Length and type constraints.
    if w.exercise != [] && |w.exercise| > MaxExerciseLength {
      errors := errors + [ExerciseTooLong];
    }
    assert errors == ReportedUpTo(w, 6);
    if w.kind != [] && w.kind !in AllowedTypes {
      errors := errors + [TypeNotAllowed];
    }
    assert errors == ReportedUpTo(w, 7);
  }

  /** One more rule: its message is appended exactly when it fires. */
  lemma RuleStep(w: Workout, k: nat)
    requires k < |Messages|
    ensures ReportedUpTo(w, k + 1) == ReportedUpTo(w, k) + (if Fails(w, k) then [Messages[k]] else [])
    ensures k == 7 ==> (Fails(w, k) <==> AnyNegative(w)) && Messages[k] == NumericNegative
    ensures k == 8 ==> (Fails(w, k) <==> !HasStrength(w) && !HasDuration(w)) && Messages[k] == NeedDurationOrStrength
  {
  }

  /** The reported prefix is empty exactly when no rule before `k` fires. */
  lemma {:induction false} ReportedEmptyIff(w: Workout, k: nat)
    requires k <= |Messages|
    ensures ReportedUpTo(w, k) == [] <==> forall j :: 0 <= j < k ==> !Fails(w, j)
  {
    if k > 0 {
      ReportedEmptyIff(w, k - 1);
    }
  }

  /** `Acceptable` is exactly "no rule fires". */
  lemma AcceptableIffNoRuleFails(w: Workout)
    ensures Acceptable(w) <==> forall j :: 0 <= j < |Messages| ==> !Fails(w, j)
  {
    if forall j :: 0 <= j < |Messages| ==> !Fails(w, j) {
      assert !Fails(w, 0) && !Fails(w, 1) && !Fails(w, 2) && !Fails(w, 3) && !Fails(w, 4);
      assert !Fails(w, 5) && !Fails(w, 6) && !Fails(w, 7) && !Fails(w, 8);
    }
  }

  /** The back end reports no error exactly when every rule holds: the
      date, exercise and type are present, the date is a real `YYYY-MM-DD`
      date, the exercise has at most 40 characters, the type is one of the
      three allowed ones, no numeric field is negative, and the record has a
      duration or some strength data. */
  lemma NoErrorsIffAcceptable(w: Workout)
    ensures ErrorMessages(w) == [] <==> Acceptable(w)
  {
    ReportedEmptyIff(w, |Messages|);
    AcceptableIffNoRuleFails(w);
  }

  /** No two rules share a message, and no two messages share a wording. */
  lemma MessagesDistinct()
    ensures forall i, j :: 0 <= i < j < |Messages| ==> Messages[i] != Messages[j]
    ensures forall m, n: Message :: m != n ==> Wording(m) != Wording(n)
  {
    // Only two pairs of wordings have equal lengths; their first letters differ.
    assert |Wording(DateRequired)| == 17 && |Wording(ExerciseRequired)| == 21;
    assert |Wording(TypeRequired)| == 17 && |Wording(DateBadFormat)| == 34;
    assert |Wording(DateInvalid)| == 16 && |Wording(ExerciseTooLong)| == 40;
    assert |Wording(TypeNotAllowed)| == 44 && |Wording(NumericNegative)| == 35;
    assert |Wording(NeedDurationOrStrength)| == 35;
    assert Wording(DateRequired)[0] != Wording(TypeRequired)[0];
    assert Wording(NumericNegative)[0] != Wording(NeedDurationOrStrength)[0];
  }

  /** Every message reported before `k` belongs to a rule before `k` that
      fires. */
  lemma {:induction false} ReportedComesFromFailingRule(w: Workout, k: nat, m: Message)
    requires k <= |Messages| && m in ReportedUpTo(w, k)
    ensures exists j :: 0 <= j < k && Messages[j] == m && Fails(w, j)
  {
    if !(Fails(w, k - 1) && m == Messages[k - 1]) {
      ReportedComesFromFailingRule(w, k - 1, m);
    }
  }

  lemma {:induction false} ReportedContains(w: Workout, k: nat, j: nat)
    requires j < k <= |Messages| && Fails(w, j)
    ensures Messages[j] in ReportedUpTo(w, k)
  {
    if j < k - 1 {
      ReportedContains(w, k - 1, j);
    }
  }

  /** Rule `j`'s message is reported exactly when rule `j` fires. */
  lemma MessageReportedIff(w: Workout, j: nat)
    requires j < |Messages|
    ensures Messages[j] in ErrorMessages(w) <==> Fails(w, j)
  {
    if Fails(w, j) {
      ReportedContains(w, |Messages|, j);
    }
    if Messages[j] in ErrorMessages(w) {
      ReportedComesFromFailingRule(w, |Messages|, Messages[j]);
      MessagesDistinct();
    }
  }

  /** No message is reported twice; in particular there is at most one
      "Numeric values must be 0 or higher." however many fields are
      negative. */
  lemma {:induction false} ReportedNoDuplicates(w: Workout, k: nat)
    requires k <= |Messages|
    ensures NoDuplicates(ReportedUpTo(w, k))
  {
    if k > 0 {
      var prev := ReportedUpTo(w, k - 1);
      ReportedNoDuplicates(w, k - 1);
      if Fails(w, k - 1) {
        if Messages[k - 1] in prev {
          ReportedComesFromFailingRule(w, k - 1, Messages[k - 1]);
          var j :| 0 <= j < k - 1 && Messages[j] == Messages[k - 1];
          MessagesDistinct();
          assert false;
        }
        var r := ReportedUpTo(w, k);
        assert r == prev + [Messages[k - 1]];
        forall p, q | 0 <= p < q < |r| ensures r[p] != r[q] {
          assert r[p] == prev[p] && prev[p] in prev;
          if q < |prev| {
            assert r[q] == prev[q] && prev[p] != prev[q];
          }
        }
      } else {
        assert ReportedUpTo(w, k) == prev;
      }
    }
  }

  /** An empty date yields "Date is required." and never a format or an
      invalid-date message. */
  lemma EmptyDateOnlyRequired(w: Workout)
    requires w.date == []
    ensures DateRequired in ErrorMessages(w)
    ensures DateBadFormat !in ErrorMessages(w) && DateInvalid !in ErrorMessages(w)
  {
    MessageReportedIff(w, 0);
    MessageReportedIff(w, 3);
    MessageReportedIff(w, 4);
  }

  /** A malformed date is reported as a format error, never as invalid. */
  lemma MalformedDateNotInvalid(w: Workout)
    requires w.date != [] && !DateShape(w.date)
    ensures DateBadFormat in ErrorMessages(w) && DateInvalid !in ErrorMessages(w)
  {
    MessageReportedIff(w, 3);
    MessageReportedIff(w, 4);
  }

  /** A record with no text, a negative duration and no strength data gets
      the three required-field messages, the numeric one and the cross-field
      one, in that order. */
  lemma BlankRecordErrors(w: Workout)
    requires w.date == [] && w.exercise == [] && w.kind == []
    requires w.duration < 0 && w.sets == 0 && w.reps == 0 && w.weight == 0
    ensures ErrorMessages(w) == [DateRequired, ExerciseRequired, TypeRequired, NumericNegative, NeedDurationOrStrength]
  {
    assert ReportedUpTo(w, 1) == [DateRequired];
    assert ReportedUpTo(w, 2) == [DateRequired, ExerciseRequired];
    assert ReportedUpTo(w, 3) == [DateRequired, ExerciseRequired, TypeRequired];
    assert ReportedUpTo(w, 4) == ReportedUpTo(w, 3);
    assert ReportedUpTo(w, 5) == ReportedUpTo(w, 3);
    assert ReportedUpTo(w, 6) == ReportedUpTo(w, 3);
    assert ReportedUpTo(w, 7) == ReportedUpTo(w, 3);
    assert ReportedUpTo(w, 8) == [DateRequired, ExerciseRequired, TypeRequired, NumericNegative];
  }

  /** A payload with an empty date, a whitespace exercise, no type and a
      negative duration gets five messages: the three required-field ones,
      the numeric one and the cross-field one. */
  lemma BlankPayloadErrors(freshId: string)
    ensures ErrorMessages(Normalize(Payload(Some(""), Some("  "), None, Integer(-5), Integer(0), Integer(0), Integer(0)), None, freshId))
      == [DateRequired, ExerciseRequired, TypeRequired, NumericNegative, NeedDurationOrStrength]
  {
    var blank := "  ";
    assert Strip(blank) == [] by {
      assert TrimStart(blank[1..]) == [];
    }
    var w := Normalize(Payload(Some(""), Some(blank), None, Integer(-5), Integer(0), Integer(0), Integer(0)), None, freshId);
    assert w.exercise == FieldText(Some(blank)) == [];
    assert w.date == FieldText(Some("")) == [];
    BlankRecordErrors(w);
  }

  /** The value of the first four digits of a `YYYY-MM-DD` string. */
  lemma YearValue(s: string)
    requires |s| >= 4 && AllDigits(s[0..4])
    ensures DigitsValue(s[0..4])
      == 1000 * (s[0] - '0') as int + 100 * (s[1] - '0') as int + 10 * (s[2] - '0') as int + (s[3] - '0') as int
  {
    var t := s[0..4];
    DigitsValueSnoc(t, 0);
    DigitsValueSnoc(t, 1);
    DigitsValueSnoc(t, 2);
    DigitsValueSnoc(t, 3);
    assert t[..4] == t;
  }

  /** The value of a two-digit field. */
  lemma PairValue(s: string, k: nat)
    requires k + 2 <= |s| && AllDigits(s[k..k + 2])
    ensures DigitsValue(s[k..k + 2]) == 10 * (s[k] - '0') as int + (s[k + 1] - '0') as int
  {
    var t := s[k..k + 2];
    DigitsValueSnoc(t, 0);
    DigitsValueSnoc(t, 1);
    assert t[..2] == t;
  }

  /** A ten-character string with digits and dashes in the right places has
      the date shape, and its fields have the values its digits spell. */
  lemma DateFields(s: string, y: int, m: int, d: int)
    requires |s| == 10 && s[4] == '-' && s[7] == '-'
    requires IsDigit(s[0]) && IsDigit(s[1]) && IsDigit(s[2]) && IsDigit(s[3])
    requires IsDigit(s[5]) && IsDigit(s[6]) && IsDigit(s[8]) && IsDigit(s[9])
    requires y == 1000 * (s[0] - '0') as int + 100 * (s[1] - '0') as int + 10 * (s[2] - '0') as int + (s[3] - '0') as int
    requires m == 10 * (s[5] - '0') as int + (s[6] - '0') as int
    requires d == 10 * (s[8] - '0') as int + (s[9] - '0') as int
    ensures DateShape(s)
    ensures DigitsValue(s[0..4]) == y && DigitsValue(s[5..7]) == m && DigitsValue(s[8..10]) == d
  {
    assert AllDigits(s[0..4]) by {
      forall i | 0 <= i < 4 ensures IsDigit(s[0..4][i]) {
        assert s[0..4][i] == s[i];
      }
    }
    assert AllDigits(s[5..7]) by {
      forall i | 0 <= i < 2 ensures IsDigit(s[5..7][i]) {
        assert s[5..7][i] == s[5 + i];
      }
    }
    assert AllDigits(s[8..10]) by {
      forall i | 0 <= i < 2 ensures IsDigit(s[8..10][i]) {
        assert s[8..10][i] == s[8 + i];
      }
    }
    YearValue(s);
    PairValue(s, 5);
    PairValue(s, 8);
  }

  /** 29 February exists in 2024. */
  lemma LeapDayExists()
    ensures IsCalendarDate("2024-02-29")
  {
    DateFields("2024-02-29", 2024, 2, 29);
  }

  /** 29 February does not exist in 2023, a year not divisible by 4. */
  lemma NoLeapDayIn2023()
    ensures !IsCalendarDate("2023-02-29")
  {
    DateFields("2023-02-29", 2023, 2, 29);
  }

  /** Year 0000 has the date shape but is out of `datetime`'s range. */
  lemma YearZeroInvalid()
    ensures DateShape("0000-01-01") && !IsCalendarDate("0000-01-01")
  {
    DateFields("0000-01-01", 0, 1, 1);
  }

  /** A cardio session with a duration and a real date is acceptable. */
  lemma CardioSessionAcceptable(w: Workout)
    requires w.date == "2024-01-01" && w.exercise == "Run" && w.kind == "Cardio"
    requires w.duration == 30 && w.sets == 0 && w.reps == 0 && w.weight == 0
    ensures Acceptable(w) && ErrorMessages(w) == []
  {
    DateFields(w.date, 2024, 1, 1);
    NoErrorsIffAcceptable(w);
  }

  /** A duration too large in magnitude for a double is read as 0, not as a
      negative number: with one set the record is acceptable, because
      `float()` overflows and `_to_number` falls back to its default. */
  lemma HugeNegativeDurationAccepted(n: int, freshId: string)
    requires n < -Two1024
    ensures var w := Normalize(Payload(Some("2024-01-01"), Some("Bench"), Some("Strength"),
                                       Integer(n), Integer(1), NotANumber, NotANumber), None, freshId);
      w.duration == 0 && Acceptable(w) && ErrorMessages(w) == []
  {
    var date, exercise, kind := "2024-01-01", "Bench", "Strength";
    BenchFieldsKept();
    var w := Normalize(Payload(Some(date), Some(exercise), Some(kind),
                               Integer(n), Integer(1), NotANumber, NotANumber), None, freshId);
    HugeIntegerFallsBack(n, 0);
    OneSetAcceptable(w);
  }

  lemma BenchFieldsKept()
    ensures FieldText(Some("2024-01-01")) == "2024-01-01"
    ensures FieldText(Some("Bench")) == "Bench"
    ensures FieldText(Some("Strength")) == "Strength"
  {
    var date, exercise, kind := "2024-01-01", "Bench", "Strength";
    assert date[0] == '2' && date[9] == '1';
    StripOfTrimmed(date);
    assert exercise[0] == 'B' && exercise[4] == 'h';
    StripOfTrimmed(exercise);
    assert kind[0] == 'S' && kind[7] == 'h';
    StripOfTrimmed(kind);
  }

  lemma OneSetAcceptable(w: Workout)
    requires w.date == "2024-01-01" && w.exercise == "Bench" && w.kind == "Strength"
    requires w.duration == 0 && w.sets == 1 && w.reps == 0 && w.weight == 0
    ensures Acceptable(w) && ErrorMessages(w) == []
  {
    DateFields(w.date, 2024, 1, 1);
    NoErrorsIffAcceptable(w);
  }
}
