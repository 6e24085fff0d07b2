/**
  The timetable generator: starting from a time of day, each subject in turn
  gets a row from the running clock to the clock plus its duration, followed
  by a "Break" row of the break length when that length is positive.
 */
module Timetable {
  import opened Clock

  /** One row of the table: the "Subject" column and the two times it spans. */
  datatype Row = Row(subject: string, start: Minute, end: Minute)

  /** The label of every break row. */
  const BreakLabel: string := "Break"

  /** How many subject/duration pairs `zip` yields: the shorter list's length. */
  function Pairs(subjects: seq<string>, durations: seq<int>): (n: nat)
    ensures n <= |subjects| && n <= |durations|
    ensures n == |subjects| || n == |durations|
  {
    if |subjects| < |durations| then |subjects| else |durations|
  }

  /** Rows emitted per subject: the subject's own, plus a break when the break length is positive. */
  function RowsPerSubject(breakTime: int): nat {
    if breakTime > 0 then 2 else 1
  }

  /** Minutes a break actually adds to the clock: none unless the break length is positive. */
  function BreakMinutes(breakTime: int): nat {
    if breakTime > 0 then breakTime else 0
  }

  function Sum(xs: seq<int>): int {
    if |xs| == 0 then 0 else xs[0] + Sum(xs[1..])
  }

  /** Minutes the clock has run, before wrapping, when the subject at index `i` starts. */
  function Elapsed(durations: seq<int>, breakTime: int, i: nat): int
    requires i <= |durations|
  {
    Sum(durations[..i]) + i * BreakMinutes(breakTime)
  }

  /** The rows one subject contributes: its own row, then a break row when the break length is positive. */
  function Block(clock: Minute, subject: string, duration: int, breakTime: int): (block: seq<Row>)
    ensures |block| == RowsPerSubject(breakTime)
  {
    var end := Advance(clock, duration);
    if breakTime > 0 then [Row(subject, clock, end), Row(BreakLabel, end, Advance(end, breakTime))]
    else [Row(subject, clock, end)]
  }

  /** The rows for the zipped subjects and durations, each block starting where the previous one ended. */
  function Rows(clock: Minute, subjects: seq<string>, durations: seq<int>, breakTime: int): (rows: seq<Row>)
    ensures |rows| == 0 <==> Pairs(subjects, durations) == 0
    ensures |rows| > 0 ==> rows[0].start == clock
    decreases |subjects|
  {
    if |subjects| == 0 || |durations| == 0 then []
    else
      var block := Block(clock, subjects[0], durations[0], breakTime);
      block + Rows(block[|block| - 1].end, subjects[1..], durations[1..], breakTime)
  }

  function Labels(rows: seq<Row>): seq<string> {
    seq(|rows|, i requires 0 <= i < |rows| => rows[i].subject)
  }

  // ---------------------------------------------------------------------------
  // The generator as the source runs it
  // ---------------------------------------------------------------------------

  /**
    `generate_timetable`: a loop over the zipped subjects and durations that
    appends rows to `timetable` and moves the clock `current` to each row's end.
   */
  method GenerateTimetable(start: Minute, subjects: seq<string>, durations: seq<int>, breakTime: int)
    returns (timetable: seq<Row>)
    ensures timetable == Rows(start, subjects, durations, breakTime)
  {
    timetable := [];
    var current := start;
    var n := Pairs(subjects, durations);
    var i := 0;
    while i < n
      invariant 0 <= i <= n
      invariant timetable + Rows(current, subjects[i..], durations[i..], breakTime)
                == Rows(start, subjects, durations, breakTime)
    {
      ghost var before, clockBefore := timetable, current;
      timetable, current := AppendBlock(timetable, current, subjects[i], durations[i], breakTime);
      RowsAfterBlock(start, subjects, durations, breakTime, i, before, clockBefore, timetable, current);
      i := i + 1;
    }
    assert subjects[n..] == [] || durations[n..] == [];
  }

  /**
    The body of the loop for one subject: its row from the clock to the clock
    plus its duration, then, when the break length is positive, a "Break" row
    of that length; the clock ends at the last row's end.
   */
  method AppendBlock(timetable: seq<Row>, current: Minute, subject: string, duration: int, breakTime: int)
    returns (timetable': seq<Row>, current': Minute)
    ensures timetable' == timetable + Block(current, subject, duration, breakTime)
    ensures current' == timetable'[|timetable'| - 1].end
  {
    var endTime := Advance(current, duration);
    timetable' := timetable + [Row(subject, current, endTime)];
    current' := endTime;
    if breakTime > 0 {
      var breakStart := current';
      var breakEnd := Advance(current', breakTime);
      timetable' := timetable' + [Row(BreakLabel, breakStart, breakEnd)];
      current' := breakEnd;
    }
  }

  /** One loop iteration: the rows still to come are this pair's block, then the rows after it. */
  lemma RowsStep(clock: Minute, subjects: seq<string>, durations: seq<int>, breakTime: int, i: nat)
    requires i < Pairs(subjects, durations)
    ensures var block := Block(clock, subjects[i], durations[i], breakTime);
            Rows(clock, subjects[i..], durations[i..], breakTime)
            == block + Rows(block[|block| - 1].end, subjects[i + 1..], durations[i + 1..], breakTime)
  {
    assert subjects[i..][0] == subjects[i] && subjects[i..][1..] == subjects[i + 1..];
    assert durations[i..][0] == durations[i] && durations[i..][1..] == durations[i + 1..];
  }

  /** Appending one subject's block keeps the rows emitted so far a prefix of `Rows`. */
  lemma RowsAfterBlock(start: Minute, subjects: seq<string>, durations: seq<int>, breakTime: int, i: nat,
                       before: seq<Row>, clock: Minute, after: seq<Row>, clock': Minute)
    requires i < Pairs(subjects, durations)
    requires before + Rows(clock, subjects[i..], durations[i..], breakTime) == Rows(start, subjects, durations, breakTime)
    requires after == before + Block(clock, subjects[i], durations[i], breakTime)
    requires clock' == after[|after| - 1].end
    ensures after + Rows(clock', subjects[i + 1..], durations[i + 1..], breakTime) == Rows(start, subjects, durations, breakTime)
  {
    var block := Block(clock, subjects[i], durations[i], breakTime);
    var later := Rows(clock', subjects[i + 1..], durations[i + 1..], breakTime);
    RowsStep(clock, subjects, durations, breakTime, i);
    assert clock' == block[|block| - 1].end;
    assert after + later == before + (block + later);
  }

  // ---------------------------------------------------------------------------
  // What the generated table looks like
  // ---------------------------------------------------------------------------

  /** `2 * n` rows when the break length is positive and `n` otherwise, `n` being the number of pairs. */
  lemma {:induction false} RowsLength(clock: Minute, subjects: seq<string>, durations: seq<int>, breakTime: int)
    ensures |Rows(clock, subjects, durations, breakTime)| == RowsPerSubject(breakTime) * Pairs(subjects, durations)
    decreases |subjects|
  {
    if |subjects| > 0 && |durations| > 0 {
      var end := Advance(clock, durations[0]);
      var next := if breakTime > 0 then Advance(end, breakTime) else end;
      RowsLength(next, subjects[1..], durations[1..], breakTime);
    }
  }

  lemma {:induction false} SumSnoc(xs: seq<int>, i: nat)
    requires i < |xs|
    ensures Sum(xs[..i + 1]) == Sum(xs[..i]) + xs[i]
  {
    if i > 0 {
      assert xs[..i + 1][1..] == xs[1..][..i];
      assert xs[..i][1..] == xs[1..][..i - 1];
      SumSnoc(xs[1..], i - 1);
    }
  }

  /** The clock at subject `i` is the clock at subject `i - 1` plus its duration and one break. */
  lemma ElapsedSnoc(durations: seq<int>, breakTime: int, i: nat)
    requires i < |durations|
    ensures Elapsed(durations, breakTime, i + 1)
            == Elapsed(durations, breakTime, i) + durations[i] + BreakMinutes(breakTime)
  {
    SumSnoc(durations, i);
  }

  /** Dropping the first subject starts the clock one subject and one break later. */
  lemma ElapsedCons(durations: seq<int>, breakTime: int, i: nat)
    requires 1 <= i <= |durations|
    ensures Elapsed(durations, breakTime, i)
            == durations[0] + BreakMinutes(breakTime) + Elapsed(durations[1..], breakTime, i - 1)
  {
    assert durations[..i][1..] == durations[1..][..i - 1];
  }

  /** The table is the first subject's block followed by the table for the rest, started one block later. */
  lemma RowsCons(clock: Minute, subjects: seq<string>, durations: seq<int>, breakTime: int)
    requires Pairs(subjects, durations) > 0
    ensures Rows(clock, subjects, durations, breakTime)
            == Block(clock, subjects[0], durations[0], breakTime)
               + Rows(Advance(clock, durations[0] + BreakMinutes(breakTime)), subjects[1..], durations[1..], breakTime)
  {
    var block := Block(clock, subjects[0], durations[0], breakTime);
    AdvanceAdd(clock, durations[0], BreakMinutes(breakTime));
    assert block[|block| - 1].end == Advance(clock, durations[0] + BreakMinutes(breakTime));
  }

  /**
    Every subject row in closed form: subject `i` starts at the start time plus
    the durations of the earlier subjects and one break per earlier subject, and
    lasts `durations[i]` minutes, all modulo a day.
   */
  lemma {:induction false} SubjectRowAt(clock: Minute, subjects: seq<string>, durations: seq<int>, breakTime: int, i: nat)
    requires i < Pairs(subjects, durations)
    ensures |Rows(clock, subjects, durations, breakTime)| == RowsPerSubject(breakTime) * Pairs(subjects, durations)
    ensures Rows(clock, subjects, durations, breakTime)[RowsPerSubject(breakTime) * i]
            == Row(subjects[i],
                   Advance(clock, Elapsed(durations, breakTime, i)),
                   Advance(clock, Elapsed(durations, breakTime, i) + durations[i]))
    decreases i
  {
    RowsLength(clock, subjects, durations, breakTime);
    RowsCons(clock, subjects, durations, breakTime);
    var k := RowsPerSubject(breakTime);
    var shift := durations[0] + BreakMinutes(breakTime);
    var next := Advance(clock, shift);
    var rows := Rows(clock, subjects, durations, breakTime);
    var rest := Rows(next, subjects[1..], durations[1..], breakTime);
    if i == 0 {
      assert durations[..0] == [];
      assert Elapsed(durations, breakTime, 0) == 0;
    } else {
      assert rows[k * i] == rest[k * (i - 1)];
      SubjectRowAt(next, subjects[1..], durations[1..], breakTime, i - 1);
      var e := Elapsed(durations[1..], breakTime, i - 1);
      ElapsedCons(durations, breakTime, i);
      AdvanceAdd(clock, shift, e);
      AdvanceAdd(clock, shift, e + durations[i]);
    }
  }

  /**
    With a positive break length, the row after subject `i` is a break that
    starts where the subject ended and ends where subject `i + 1` starts.
   */
  lemma {:induction false} BreakRowAt(clock: Minute, subjects: seq<string>, durations: seq<int>, breakTime: int, i: nat)
    requires breakTime > 0 && i < Pairs(subjects, durations)
    ensures |Rows(clock, subjects, durations, breakTime)| == 2 * Pairs(subjects, durations)
    ensures Rows(clock, subjects, durations, breakTime)[2 * i + 1]
            == Row(BreakLabel,
                   Advance(clock, Elapsed(durations, breakTime, i) + durations[i]),
                   Advance(clock, Elapsed(durations, breakTime, i + 1)))
    decreases i
  {
    RowsLength(clock, subjects, durations, breakTime);
    if i == 0 {
      FirstBreakRow(clock, subjects, durations, breakTime);
      assert durations[..0] == [];
      ElapsedSnoc(durations, breakTime, 0);
    } else {
      RowsCons(clock, subjects, durations, breakTime);
      var shift := durations[0] + breakTime;
      var next := Advance(clock, shift);
      var rows := Rows(clock, subjects, durations, breakTime);
      var rest := Rows(next, subjects[1..], durations[1..], breakTime);
      ElapsedCons(durations, breakTime, i + 1);
      assert rows[2 * i + 1] == rest[2 * (i - 1) + 1];
      BreakRowAt(next, subjects[1..], durations[1..], breakTime, i - 1);
      var e := Elapsed(durations[1..], breakTime, i - 1);
      ElapsedCons(durations, breakTime, i);
      AdvanceAdd(clock, shift, e + durations[i]);
      AdvanceAdd(clock, shift, Elapsed(durations[1..], breakTime, i));
    }
  }

  /** The first break row: right after the first subject, for the break length. */
  lemma FirstBreakRow(clock: Minute, subjects: seq<string>, durations: seq<int>, breakTime: int)
    requires breakTime > 0 && 0 < Pairs(subjects, durations)
    ensures |Rows(clock, subjects, durations, breakTime)| >= 2
    ensures Rows(clock, subjects, durations, breakTime)[1]
            == Row(BreakLabel, Advance(clock, durations[0]), Advance(clock, durations[0] + breakTime))
  {
    AdvanceAdd(clock, durations[0], breakTime);
  }

  /** Rows are contiguous: each row starts where the previous one ended. */
  lemma Contiguous(clock: Minute, subjects: seq<string>, durations: seq<int>, breakTime: int)
    ensures var rows := Rows(clock, subjects, durations, breakTime);
            forall j :: 0 < j < |rows| ==> rows[j].start == rows[j - 1].end
  {
    var rows := Rows(clock, subjects, durations, breakTime);
    RowsLength(clock, subjects, durations, breakTime);
    forall j | 0 < j < |rows| ensures rows[j].start == rows[j - 1].end {
      if breakTime > 0 {
        var i := j / 2;
        SubjectRowAt(clock, subjects, durations, breakTime, i);
        if j % 2 == 1 {
          BreakRowAt(clock, subjects, durations, breakTime, i);
        } else {
          BreakRowAt(clock, subjects, durations, breakTime, i - 1);
        }
      } else {
        SubjectRowAt(clock, subjects, durations, breakTime, j);
        SubjectRowAt(clock, subjects, durations, breakTime, j - 1);
        ElapsedSnoc(durations, breakTime, j - 1);
      }
    }
  }

  /**
    Each subject row lasts its duration and each break row the break length,
    modulo a day: a row's end is its start advanced by that many minutes.
   */
  lemma RowSpans(clock: Minute, subjects: seq<string>, durations: seq<int>, breakTime: int)
    ensures var rows := Rows(clock, subjects, durations, breakTime);
            var k := RowsPerSubject(breakTime);
            |rows| == k * Pairs(subjects, durations)
            && (forall i :: 0 <= i < Pairs(subjects, durations) ==>
                  rows[k * i].end == Advance(rows[k * i].start, durations[i]))
            && (breakTime > 0 ==> forall i :: 0 <= i < Pairs(subjects, durations) ==>
                  rows[2 * i + 1].end == Advance(rows[2 * i + 1].start, breakTime))
  {
    var rows := Rows(clock, subjects, durations, breakTime);
    var k := RowsPerSubject(breakTime);
    RowsLength(clock, subjects, durations, breakTime);
    forall i | 0 <= i < Pairs(subjects, durations)
      ensures rows[k * i].end == Advance(rows[k * i].start, durations[i])
      ensures breakTime > 0 ==> rows[2 * i + 1].end == Advance(rows[2 * i + 1].start, breakTime)
    {
      var e := Elapsed(durations, breakTime, i);
      SubjectRowAt(clock, subjects, durations, breakTime, i);
      AdvanceAdd(clock, e, durations[i]);
      if breakTime > 0 {
        BreakRowAt(clock, subjects, durations, breakTime, i);
        ElapsedSnoc(durations, breakTime, i);
        AdvanceAdd(clock, e + durations[i], breakTime);
      }
    }
  }

  /**
    The last row ends at the start plus all durations plus one break per
    subject (no break minutes unless the break length is positive), modulo a day.
   */
  lemma FinalEnd(clock: Minute, subjects: seq<string>, durations: seq<int>, breakTime: int)
    requires Pairs(subjects, durations) > 0
    ensures var rows := Rows(clock, subjects, durations, breakTime);
            var n := Pairs(subjects, durations);
            |rows| > 0
            && rows[|rows| - 1].end == Advance(clock, Sum(durations[..n]) + n * BreakMinutes(breakTime))
  {
    var n := Pairs(subjects, durations);
    SubjectRowAt(clock, subjects, durations, breakTime, n - 1);
    ElapsedSnoc(durations, breakTime, n - 1);
    if breakTime > 0 {
      BreakRowAt(clock, subjects, durations, breakTime, n - 1);
    }
  }

  /**
    Labels follow the input order: with breaks on, row `j` is subject `j / 2`
    for even `j` and "Break" for odd `j`; with breaks off, row `j` is subject `j`.
   */
  lemma RowLabels(clock: Minute, subjects: seq<string>, durations: seq<int>, breakTime: int)
    ensures var rows := Rows(clock, subjects, durations, breakTime);
            forall j :: 0 <= j < |rows| ==>
              j / RowsPerSubject(breakTime) < |subjects|
              && rows[j].subject
                 == if breakTime > 0 && j % 2 == 1 then BreakLabel else subjects[j / RowsPerSubject(breakTime)]
  {
    var rows := Rows(clock, subjects, durations, breakTime);
    RowsLength(clock, subjects, durations, breakTime);
    forall j | 0 <= j < |rows|
      ensures j / RowsPerSubject(breakTime) < |subjects|
      ensures rows[j].subject
              == if breakTime > 0 && j % 2 == 1 then BreakLabel else subjects[j / RowsPerSubject(breakTime)]
    {
      if breakTime > 0 {
        SubjectRowAt(clock, subjects, durations, breakTime, j / 2);
        BreakRowAt(clock, subjects, durations, breakTime, j / 2);
      } else {
        SubjectRowAt(clock, subjects, durations, breakTime, j);
      }
    }
  }

  /** Without breaks, the labels are exactly the zipped subjects in input order: no "Break" row is added. */
  lemma LabelsWithoutBreaks(clock: Minute, subjects: seq<string>, durations: seq<int>, breakTime: int)
    requires breakTime <= 0
    ensures Labels(Rows(clock, subjects, durations, breakTime)) == subjects[..Pairs(subjects, durations)]
  {
    RowLabels(clock, subjects, durations, breakTime);
    RowsLength(clock, subjects, durations, breakTime);
  }

  /** Math for 60 and Science for 45 minutes from 08:00 with 10-minute breaks. */
  lemma ScenarioWithBreaks()
    ensures Rows(480, ["Math", "Science"], [60, 45], 10)
            == [Row("Math", 480, 540), Row(BreakLabel, 540, 550),
                Row("Science", 550, 595), Row(BreakLabel, 595, 605)]
  {
  }

  /** The same subjects with a zero break length: no break rows. */
  lemma ScenarioWithoutBreaks()
    ensures Rows(480, ["Math", "Science"], [60, 45], 0) == [Row("Math", 480, 540), Row("Science", 540, 585)]
  {
  }

  /** A block that crosses midnight wraps to the early hours with no day marker. */
  lemma ScenarioPastMidnight()
    ensures Rows(1410, ["Night"], [45], 0) == [Row("Night", 1410, 15)]
  {
  }
}
