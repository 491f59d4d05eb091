/** The counting parts of src/lib/report-generator.ts: the progress report
    and the automatic column widths of the spreadsheet export. */
module ReportGenerator {
  import opened Types
  import opened Seqs

  // ------------------------------------------------------- progress report

  datatype SurveyProgress = SurveyProgress(surveyTitle: string, total: nat, completed: nat, percentage: real)

  datatype ProgressData = ProgressData(
    totalInterviews: nat,
    completedInterviews: nat,
    progressPercentage: real,
    surveyProgress: seq<SurveyProgress>,
    lastUpdate: string)

  datatype ReportData = ReportData(title: string, description: Option<string>, generatedAt: string, data: ProgressData)

  const ProgressTitle: string := "Relatório de Progresso"
  const ProgressDescription: string := "Acompanhamento do progresso das pesquisas em campo"

  /** `whole > 0 ? (part / whole) * 100 : 0`, on exact rationals. */
  function Percentage(part: nat, whole: nat): (p: real)
    ensures whole == 0 ==> p == 0.0
    ensures whole > 0 ==> p * (whole as real) == (part as real) * 100.0
    ensures part <= whole ==> 0.0 <= p <= 100.0
  {
    if whole > 0 then
      var q := part as real / whole as real;
      assert q * (whole as real) == part as real;
      assert part <= whole ==> q <= 1.0;
      q * 100.0
    else 0.0
  }

  function ForSurvey(id: string): Interview -> bool {
    (iv: Interview) => iv.surveyId == id
  }

  function CompletedForSurvey(id: string): Interview -> bool {
    (iv: Interview) => iv.surveyId == id && IsCompleted(iv)
  }

  /** One entry of surveyProgress: the interviews of the survey, and how many
      of them are completed. */
  function Progress(interviews: seq<Interview>, survey: Survey): (r: SurveyProgress)
    ensures r.surveyTitle == survey.title
    ensures r.total == CountWhere(interviews, ForSurvey(survey.id))
    ensures r.completed == CountWhere(interviews, CompletedForSurvey(survey.id))
    ensures r.completed <= r.total
    ensures r.percentage == Percentage(r.completed, r.total) && 0.0 <= r.percentage <= 100.0
  {
    var surveyInterviews := Filter(interviews, ForSurvey(survey.id));
    var completed := |Filter(surveyInterviews, IsCompleted)|;
    FilterCount(interviews, ForSurvey(survey.id));
    FilterFilter(interviews, ForSurvey(survey.id), IsCompleted, CompletedForSurvey(survey.id));
    FilterCount(interviews, CompletedForSurvey(survey.id));
    SurveyProgress(survey.title, |surveyInterviews|, completed, Percentage(completed, |surveyInterviews|))
  }

  /** generateProgressReport. The two clock readings are parameters. */
  function GenerateProgressReport(interviews: seq<Interview>, surveys: seq<Survey>,
                                  generatedAt: string, lastUpdate: string): (r: ReportData)
    ensures r.title == ProgressTitle && r.description == Some(ProgressDescription)
    ensures r.generatedAt == generatedAt && r.data.lastUpdate == lastUpdate
    ensures r.data.totalInterviews == |interviews|
    ensures r.data.completedInterviews == CountWhere(interviews, IsCompleted)
    ensures r.data.completedInterviews <= r.data.totalInterviews
    ensures r.data.progressPercentage == Percentage(r.data.completedInterviews, |interviews|)
    ensures 0.0 <= r.data.progressPercentage <= 100.0
    ensures |r.data.surveyProgress| == |surveys|
    ensures forall j :: 0 <= j < |surveys| ==> r.data.surveyProgress[j] == Progress(interviews, surveys[j])
  {
    var totalInterviews := |interviews|;
    var completedInterviews := |Filter(interviews, IsCompleted)|;
    FilterCount(interviews, IsCompleted);
    var surveyProgress := seq(|surveys|, j requires 0 <= j < |surveys| => Progress(interviews, surveys[j]));
    ReportData(ProgressTitle, Some(ProgressDescription), generatedAt,
               ProgressData(totalInterviews, completedInterviews,
                            Percentage(completedInterviews, totalInterviews), surveyProgress, lastUpdate))
  }

  /** Every interview of a survey listed in the report is counted in the
      overall total, so no per-survey total exceeds it. */
  lemma SurveyTotalsBounded(interviews: seq<Interview>, survey: Survey)
    ensures Progress(interviews, survey).total <= |interviews|
    ensures Progress(interviews, survey).completed <= CountWhere(interviews, IsCompleted)
  {
    FilterCount(interviews, ForSurvey(survey.id));
    FilterFilter(interviews, IsCompleted, ForSurvey(survey.id), CompletedForSurvey(survey.id));
    FilterCount(interviews, IsCompleted);
    FilterCount(interviews, CompletedForSurvey(survey.id));
  }

  // --------------------------------------------------------- column widths

  /** One property of an exported row: its key and its value as text
      (None for a null or undefined value, which prints as ''). */
  datatype Field = Field(key: string, value: Option<string>)

  /** A row, with its properties in `Object.keys` order. */
  type Row = seq<Field>

  const MinWidth: nat := 10

  function TextLength(v: Option<string>): nat {
    if v.Some? then |v.value| else 0
  }

  function Max(a: nat, b: nat): nat {
    if a < b then b else a
  }

  /** The demand of one row on column c: its key and value lengths plus two,
      or nothing when the row has fewer than c + 1 properties. */
  function CellWidth(row: Row, c: nat): nat {
    if c < |row| then Max(TextLength(row[c].value) + 2, |row[c].key| + 2) else 0
  }

  /** Reference width of column c over a list of rows: the largest demand, and
      never below the default of 10. */
  function ColWidth(rows: seq<Row>, c: nat): nat {
    if rows == [] then MinWidth
    else Max(ColWidth(rows[..|rows| - 1], c), CellWidth(rows[|rows| - 1], c))
  }

  /** The number of columns: the most properties any row has. */
  function Columns(rows: seq<Row>): nat {
    if rows == [] then 0 else Max(Columns(rows[..|rows| - 1]), |rows[|rows| - 1]|)
  }

  /** The width of a column bounds every demand on it, is at least 10, and is
      either 10 or the demand of some row: it is the least such bound. */
  lemma {:induction false} ColWidthIsLeastBound(rows: seq<Row>, c: nat)
    ensures ColWidth(rows, c) >= MinWidth
    ensures forall i :: 0 <= i < |rows| && c < |rows[i]| ==>
              ColWidth(rows, c) >= |rows[i][c].key| + 2 && ColWidth(rows, c) >= TextLength(rows[i][c].value) + 2
    ensures ColWidth(rows, c) == MinWidth || exists i :: 0 <= i < |rows| && ColWidth(rows, c) == CellWidth(rows[i], c)
  {
    if rows != [] {
      var init := rows[..|rows| - 1];
      ColWidthIsLeastBound(init, c);
      forall i | 0 <= i < |rows| && c < |rows[i]|
        ensures ColWidth(rows, c) >= CellWidth(rows[i], c)
      {
        if i < |init| {
          assert rows[i] == init[i];
        }
      }
      if ColWidth(rows, c) != MinWidth {
        if ColWidth(rows, c) == ColWidth(init, c) {
          var i :| 0 <= i < |init| && ColWidth(init, c) == CellWidth(init[i], c);
          assert rows[i] == init[i];
        } else {
          assert ColWidth(rows, c) == CellWidth(rows[|rows| - 1], c);
        }
      }
    }
  }

  /** Every row has at most Columns properties, and some row has exactly that many. */
  lemma {:induction false} ColumnsIsMaxLength(rows: seq<Row>)
    ensures forall i :: 0 <= i < |rows| ==> |rows[i]| <= Columns(rows)
    ensures rows != [] ==> exists i :: 0 <= i < |rows| && |rows[i]| == Columns(rows)
  {
    if rows != [] {
      var init := rows[..|rows| - 1];
      ColumnsIsMaxLength(init);
      forall i | 0 <= i < |init| ensures rows[i] == init[i] { }
      if init != [] && Columns(rows) == Columns(init) {
        var i :| 0 <= i < |init| && |init[i]| == Columns(init);
        assert rows[i] == init[i];
      } else {
        assert |rows[|rows| - 1]| == Columns(rows);
      }
    }
  }

  /** A column no row reaches keeps the default width. */
  lemma {:induction false} ColWidthBeyond(rows: seq<Row>, c: nat)
    requires Columns(rows) <= c
    ensures ColWidth(rows, c) == MinWidth
  {
    if rows != [] {
      ColWidthBeyond(rows[..|rows| - 1], c);
    }
  }

  /** The colWidths reduce followed by `Object.values`: for each row, for each
      property position, the running maximum at that position is raised to
      the value and key lengths plus two (starting from 10); the widths come
      out in column order. */
  method ColumnWidths(data: seq<Row>) returns (widths: seq<nat>)
    ensures |widths| == Columns(data)
    ensures forall c :: 0 <= c < |widths| ==> widths[c] == ColWidth(data, c)
  {
    var acc: map<nat, nat> := map[];
    for i := 0 to |data|
      invariant forall c: nat :: c in acc <==> c < Columns(data[..i])
      invariant forall c :: c in acc ==> acc[c] == ColWidth(data[..i], c)
    {
      var row := data[i];
      assert data[..i + 1][..i] == data[..i];
      for index := 0 to |row|
        invariant forall c: nat :: c in acc <==> c < Max(Columns(data[..i]), index)
        invariant forall c :: c in acc && c < index ==> acc[c] == ColWidth(data[..i + 1], c)
        invariant forall c :: c in acc && index <= c ==> acc[c] == ColWidth(data[..i], c)
      {
        var key := row[index].key;
        var value := TextLength(row[index].value);
        var previous := if index in acc then acc[index] else MinWidth;
        if index !in acc {
          ColWidthBeyond(data[..i], index);
        }
        assert previous == ColWidth(data[..i], index);
        acc := acc[index := Max(Max(previous, value + 2), |key| + 2)];
      }
      forall c | c in acc && |row| <= c ensures acc[c] == ColWidth(data[..i + 1], c) { }
    }
    assert data[..|data|] == data;
    widths := [];
    for c := 0 to Columns(data)
      invariant |widths| == c
      invariant forall j :: 0 <= j < c ==> widths[j] == ColWidth(data, j)
    {
      widths := widths + [acc[c]];
    }
  }
}
