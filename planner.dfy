/**
  The "Generate Timetable" button handler: it splits the subject and duration
  fields on commas, strips each piece, reads each duration with `int()`, refuses
  to go on when the two lists differ in length, and otherwise runs the generator
  from the chosen start time.
 */
module Planner {
  import opened Wrappers
  import opened Text
  import opened Clock
  import opened Timetable

  /** Why no timetable was produced. */
  datatype InputError =
    | NotAnInteger(token: string)                   // `int()` raised ValueError on this stripped field
    | CountMismatch(subjects: nat, durations: nat)  // the two lists differ in length

  /** The prepared inputs of the generator. */
  datatype Form = Form(subjects: seq<string>, durations: seq<int>)

  /**
    `[p.strip() for p in text.split(",")]`, used for both fields: one stripped
    piece per comma-separated field, so one more piece than there are commas.
   */
  function Fields(text: string): (fields: seq<string>)
    ensures |fields| == Occurrences(text, ',') + 1
    ensures forall i :: 0 <= i < |fields| ==> IsStripped(fields[i]) && ',' !in fields[i]
    ensures forall i :: 0 <= i < |fields| ==> fields[i] == Strip(Split(text, ',')[i])
  {
    var pieces := Split(text, ',');
    var fields := seq(|pieces|, i requires 0 <= i < |pieces| => Strip(pieces[i]));
    assert forall i :: 0 <= i < |pieces| ==> ',' !in fields[i] by {
      forall i | 0 <= i < |pieces| ensures ',' !in fields[i] {
        assert pieces[i] in pieces;
        if ',' in fields[i] { StripKeeps(pieces[i], ','); }
      }
    }
    fields
  }

  /** `int(t)` of each stripped duration field, `None` where it raises. */
  function Readings(tokens: seq<string>): (readings: seq<Option<int>>)
    ensures |readings| == |tokens|
    ensures forall i :: 0 <= i < |tokens| ==> readings[i] == ParseInt(tokens[i])
  {
    seq(|tokens|, i requires 0 <= i < |tokens| => ParseInt(tokens[i]))
  }

  /**
    The list comprehension over the readings: all the values, or the index of
    the first field `int()` refuses, since the comprehension stops there.
   */
  function Collect(readings: seq<Option<int>>): (r: Result<seq<int>, nat>)
    ensures r.Success? ==> |r.value| == |readings|
    ensures r.Success? ==> forall i :: 0 <= i < |readings| ==> readings[i] == Some(r.value[i])
    ensures r.Failure? ==> r.error < |readings| && readings[r.error].None?
    ensures r.Failure? ==> forall j :: 0 <= j < r.error ==> readings[j].Some?
  {
    if |readings| == 0 then Success([])
    else
      match readings[0]
      case None => Failure(0)
      case Some(v) =>
        match Collect(readings[1..])
        case Failure(k) => Failure(k + 1)
        case Success(vs) => Success([v] + vs)
  }

  /**
    The input checks in front of the generator: the subject list, then the
    duration list (a field `int()` refuses is reported first), then the
    comparison of the two lengths. On success the lists pair up completely.
   */
  function ReadForm(subjectsText: string, durationsText: string): (r: Result<Form, InputError>)
    ensures r.Success? ==> r.value.subjects == Fields(subjectsText)
    ensures r.Success? ==> |r.value.subjects| == |r.value.durations|
  {
    var subjects := Fields(subjectsText);
    var tokens := Fields(durationsText);
    match Collect(Readings(tokens))
    case Failure(k) => Failure(NotAnInteger(tokens[k]))
    case Success(durations) =>
      if |subjects| != |durations| then Failure(CountMismatch(|subjects|, |durations|))
      else Success(Form(subjects, durations))
  }

  /**
    What the checks decide: a table is produced exactly when every duration
    field is an integer and the two lists have equal length; the durations are
    then `int()` of the fields; otherwise the error is a field `int()` refuses,
    or, only when every field is an integer, the two lengths.
   */
  lemma ReadFormOutcome(subjectsText: string, durationsText: string)
    ensures var r, subjects, tokens := ReadForm(subjectsText, durationsText), Fields(subjectsText), Fields(durationsText);
            (r.Success? <==> |subjects| == |tokens| && forall i :: 0 <= i < |tokens| ==> ParseInt(tokens[i]).Some?)
            && (r.Success? ==>
                  |r.value.durations| == |tokens|
                  && forall i :: 0 <= i < |tokens| ==> ParseInt(tokens[i]) == Some(r.value.durations[i]))
            && (r.Failure? && r.error.NotAnInteger? ==> r.error.token in tokens && ParseInt(r.error.token).None?)
            && (r.Failure? && r.error.CountMismatch? ==>
                  r.error == CountMismatch(|subjects|, |tokens|) && |subjects| != |tokens|
                  && forall i :: 0 <= i < |tokens| ==> ParseInt(tokens[i]).Some?)
  {
    var subjects, tokens := Fields(subjectsText), Fields(durationsText);
    var readings := Readings(tokens);
    assert forall i :: 0 <= i < |tokens| ==> readings[i] == ParseInt(tokens[i]);
    var collected := Collect(readings);
    if collected.Failure? {
      var k := collected.error;
      assert ReadForm(subjectsText, durationsText) == Failure(NotAnInteger(tokens[k]));
      assert ParseInt(tokens[k]).None?;
    } else {
      var durations := collected.value;
      if |subjects| != |durations| {
        assert ReadForm(subjectsText, durationsText) == Failure(CountMismatch(|subjects|, |tokens|));
      } else {
        assert ReadForm(subjectsText, durationsText) == Success(Form(subjects, durations));
      }
    }
  }

  /**
    The success branch: the widget's start time goes through `strftime` and
    back through `strptime`, then the generator runs on the checked lists,
    which pair up completely, so every subject gets its row in order.
   */
  method GenerateChecked(startTime: Minute, form: Form, breakTime: int) returns (timetable: seq<Row>)
    requires |form.subjects| == |form.durations|
    ensures timetable == Rows(startTime, form.subjects, form.durations, breakTime)
    ensures |timetable| == RowsPerSubject(breakTime) * |form.subjects|
    ensures forall i :: 0 <= i < |form.subjects| ==>
              timetable[RowsPerSubject(breakTime) * i].subject == form.subjects[i]
  {
    var startText := FormatHHMM(startTime);
    ParseFormat(startTime);
    var start := ParseHHMM(startText).value;
    timetable := GenerateTimetable(start, form.subjects, form.durations, breakTime);
    RowsLength(start, form.subjects, form.durations, breakTime);
    forall i | 0 <= i < |form.subjects|
      ensures timetable[RowsPerSubject(breakTime) * i].subject == form.subjects[i]
    {
      SubjectRowAt(start, form.subjects, form.durations, breakTime, i);
    }
  }

  /** The button handler: either the input error, or the generator's rows for the checked lists. */
  method OnGenerate(startTime: Minute, subjectsText: string, durationsText: string, breakTime: int)
    returns (outcome: Result<seq<Row>, InputError>)
    ensures outcome.Failure? <==> ReadForm(subjectsText, durationsText).Failure?
    ensures outcome.Failure? ==> outcome.error == ReadForm(subjectsText, durationsText).error
    ensures outcome.Success? ==>
              var form := ReadForm(subjectsText, durationsText).value;
              outcome.value == Rows(startTime, form.subjects, form.durations, breakTime)
              && |outcome.value| == RowsPerSubject(breakTime) * |form.subjects|
  {
    var read := ReadForm(subjectsText, durationsText);
    if read.Failure? {
      return Failure(read.error);
    }
    var timetable := GenerateChecked(startTime, read.value, breakTime);
    outcome := Success(timetable);
  }

  /**
    Why the length check matters: with lists of different lengths `zip` pairs
    only the shorter list's length, so some subject or duration gets no row.
   */
  lemma ZipDropsUnpaired(clock: Minute, subjects: seq<string>, durations: seq<int>, breakTime: int)
    requires |subjects| != |durations|
    ensures var most := if |subjects| < |durations| then |durations| else |subjects|;
            |Rows(clock, subjects, durations, breakTime)| < RowsPerSubject(breakTime) * most
  {
    RowsLength(clock, subjects, durations, breakTime);
  }

  lemma ThirtyMinutes()
    ensures Fields("30") == ["30"] && ParseInt("30") == Some(30)
  {
    SplitPlain("30", ',');
    StripFixed("30");
    var digits := "30";
    assert AllDigits(digits) && WithoutUnderscores(digits) == digits by {
      NoUnderscores(digits);
    }
    assert Unsigned(digits) == digits;
    DigitsAreGroups(digits);
    assert digits[..1] == "3" && digits[..1][..0] == "";
    assert DigitsValue(digits) == 30;
  }

  lemma AbcRefused()
    ensures Fields("abc") == ["abc"] && ParseInt("abc") == None
  {
    SplitPlain("abc", ',');
    StripFixed("abc");
  }

  /** Two subjects and one duration: refused, no table. */
  lemma ScenarioCountMismatch()
    ensures ReadForm("A, B", "30") == Failure(CountMismatch(2, 1))
  {
    assert |Fields("A, B")| == 2 by {
      assert Occurrences("A, B", ',') == 1;
    }
    ThirtyMinutes();
    ReadFormOutcome("A, B", "30");
  }

  /** A duration that is not an integer: refused, no table. */
  lemma ScenarioNotAnInteger()
    ensures ReadForm("Math", "abc") == Failure(NotAnInteger("abc"))
  {
    AbcRefused();
    ReadFormOutcome("Math", "abc");
  }
}
