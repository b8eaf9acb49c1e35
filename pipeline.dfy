/** `main` of roster-parser.py (lines 129-161) on roster files that have
    already been read: the schema from the first file, then every file
    cleaned, inserted and measured, and a report when some team has rows. */
module Pipeline {
  import opened Text
  import opened Tables
  import opened Cleaning
  import opened Metrics
  import opened Report
  import opened Store

  /** One roster file: its path and the table `read_csv` made of it. */
  datatype RosterFile = RosterFile(path: string, table: Table)

  /** What a parsed file brings: a table the cleaning accepts, and no cell
      holding the text "nan" (which `read_csv` reads as a missing value). */
  predicate ValidFile(f: RosterFile) {
    Parsed(f.table) && NoNanText(f.table)
  }

  predicate ValidFiles(files: seq<RosterFile>) {
    forall i :: 0 <= i < |files| ==> ValidFile(files[i])
  }

  function CleanFile(f: RosterFile): Table
    requires ValidFile(f)
  {
    Clean(f.path, f.table)
  }

  /** A cleaned table always has the columns `calculate_team_metrics` reads. */
  lemma CleanHasMetricColumns(f: RosterFile)
    requires ValidFile(f)
    ensures HasMetricColumns(CleanFile(f)) && |CleanFile(f).header| > 0
  {
    CleanColumns(f.path, f.table);
    assert CanonicalColumns()[13] == "afterparty";
  }

  /** A cleaned table holds no "nan" text either: the added cells are "" and
      the upper-cased team name. */
  lemma CleanNoNanText(f: RosterFile)
    requires ValidFile(f)
    ensures NoNanText(CleanFile(f))
  {
    var t := CleanFile(f);
    forall k, c | 0 <= k < |t.rows| && c in t.rows[k] ensures t.rows[k][c] != Some("nan") {
      CleanCellOrigin(f.path, f.table, k, c);
      UpperIsNotNan(SplitExtRoot(BaseName(f.path)));
    }
  }

  /** What the driver relies on of a cleaned table: the columns the metrics
      read, no "nan" text, and first and last names present and not blank in
      every row. */
  predicate GoodTable(t: Table) {
    && HasMetricColumns(t) && |t.header| > 0 && NoNanText(t)
    && "first_name" in t.header && "last_name" in t.header
    && forall k :: 0 <= k < |t.rows| ==> Keep(t.rows[k])
  }

  lemma CleanIsGood(f: RosterFile)
    requires ValidFile(f)
    ensures GoodTable(CleanFile(f))
  {
    CleanHasMetricColumns(f);
    CleanNoNanText(f);
    CleanColumns(f.path, f.table);
    assert CanonicalColumns()[1] == "first_name" && CanonicalColumns()[2] == "last_name";
    CleanRowsHaveNames(f.path, f.table);
    var t := CleanFile(f);
    forall k | 0 <= k < |t.rows| ensures Keep(t.rows[k]) {
      assert t.rows[k] in t.rows;
    }
  }

  /** `load_and_clean_data` of every file, in order. */
  function CleanAll(files: seq<RosterFile>): (ts: seq<Table>)
    requires ValidFiles(files)
    ensures |ts| == |files|
    ensures forall i :: 0 <= i < |files| ==> ts[i] == CleanFile(files[i]) && GoodTable(ts[i])
  {
    CleanAllGood(files);
    seq(|files|, i requires 0 <= i < |files| => CleanFile(files[i]))
  }

  lemma CleanAllGood(files: seq<RosterFile>)
    requires ValidFiles(files)
    ensures forall i :: 0 <= i < |files| ==> GoodTable(CleanFile(files[i]))
  {
    forall i | 0 <= i < |files| ensures GoodTable(CleanFile(files[i])) {
      CleanIsGood(files[i]);
    }
  }

  predicate AllGood(tables: seq<Table>) {
    forall i :: 0 <= i < |tables| ==> GoodTable(tables[i])
  }

  /** A team's dietary and allergy keys are column cells, none of them the
      text "nan", so the flattening can label them apart. */
  lemma TeamFlattenable(t: Table)
    requires GoodTable(t) && |t.rows| > 0
    ensures Flattenable(CalculateTeamMetrics(t).value)
  {
    if "dietary_restrictions" in t.header {
      ColumnCountsKeys(t, "dietary_restrictions", false, Some("nan"));
    }
    if "dancer_allergies" in t.header {
      ColumnCountsKeys(t, "dancer_allergies", false, Some("nan"));
    }
  }

  /** The statement `create_database` sends, once, for the first file. */
  function Schema(tables: seq<Table>): seq<Statement> {
    if tables == [] then [] else [CreateDatabase(tables[0].header)]
  }

  /** The inserts of every table, table after table. */
  function Inserts(tables: seq<Table>): seq<Statement>
    requires AllGood(tables)
  {
    if tables == [] then []
    else Inserts(tables[..|tables| - 1]) + InsertStatements(tables[|tables| - 1])
  }

  predicate HasRows(t: Table) {
    |t.rows| > 0
  }

  /** The tables `calculate_team_metrics` gives metrics for: those with a row
      (a cleaned table always has columns). */
  function Teams(tables: seq<Table>): (teams: seq<Table>)
    requires AllGood(tables)
    ensures AllGood(teams)
  {
    FilterAllGood(tables);
    Filter(HasRows, tables)
  }

  lemma FilterAllGood(tables: seq<Table>)
    requires AllGood(tables)
    ensures AllGood(Filter(HasRows, tables))
  {
    var teams := Filter(HasRows, tables);
    forall i | 0 <= i < |teams| ensures GoodTable(teams[i]) {
      FilterMembership(HasRows, tables, teams[i]);
    }
  }

  /** `metrics_list`: the metrics of every table that has a row, in order. */
  function TeamsMetrics(tables: seq<Table>): (ms: seq<TeamMetrics>)
    requires AllGood(tables)
    ensures |ms| == |Teams(tables)|
    ensures forall i :: 0 <= i < |ms| ==> Flattenable(ms[i])
  {
    var teams := Teams(tables);
    TeamsFlattenable(teams);
    seq(|teams|, i requires 0 <= i < |teams| => CalculateTeamMetrics(teams[i]).value)
  }

  lemma TeamsFlattenable(teams: seq<Table>)
    requires forall i :: 0 <= i < |teams| ==> GoodTable(teams[i]) && |teams[i].rows| > 0
    ensures forall i :: 0 <= i < |teams| ==>
              GoodTable(teams[i]) && |teams[i].rows| > 0 && Flattenable(CalculateTeamMetrics(teams[i]).value)
  {
    forall i | 0 <= i < |teams| ensures Flattenable(CalculateTeamMetrics(teams[i]).value) {
      TeamFlattenable(teams[i]);
    }
  }

  /** The report of lines 155-159: the flattened rows, or nothing when no
      team has a row. */
  ghost function TeamReport(tables: seq<Table>): Option<seq<ReportRow>>
    requires AllGood(tables)
  {
    var ms := TeamsMetrics(tables);
    if ms == [] then None else Some(FlatRows(ms))
  }

  /** One more table adds its inserts after those of the tables before it. */
  lemma InsertsSnoc(tables: seq<Table>, i: nat)
    requires AllGood(tables) && i < |tables|
    ensures Inserts(tables[..i + 1]) == Inserts(tables[..i]) + InsertStatements(tables[i])
  {
    assert tables[..i + 1][..i] == tables[..i];
  }

  /** One more table adds its metrics after those of the tables before it
      exactly when it has a row. */
  lemma TeamsMetricsSnoc(tables: seq<Table>, i: nat)
    requires AllGood(tables) && i < |tables|
    ensures GoodTable(tables[i])
    ensures TeamsMetrics(tables[..i + 1]) ==
              TeamsMetrics(tables[..i]) + (if HasRows(tables[i]) then [CalculateTeamMetrics(tables[i]).value] else [])
  {
    assert tables[..i + 1] == tables[..i] + [tables[i]];
    FilterSnoc(HasRows, tables[..i], tables[i]);
  }

  /** The loop of lines 146-153: every file cleaned, its rows inserted and,
      when it has a row, its metrics kept. */
  method ProcessFiles(files: seq<RosterFile>) returns (inserted: seq<Statement>, metricsList: seq<TeamMetrics>)
    requires ValidFiles(files)
    ensures inserted == Inserts(CleanAll(files))
    ensures metricsList == TeamsMetrics(CleanAll(files))
  {
    ghost var tables := CleanAll(files);
    inserted := [];
    metricsList := [];
    for i := 0 to |files|
      invariant inserted == Inserts(tables[..i])
      invariant metricsList == TeamsMetrics(tables[..i])
    {
      var data := LoadAndCleanData(files[i].path, files[i].table);
      assert data == tables[i];
      InsertsSnoc(tables, i);
      TeamsMetricsSnoc(tables, i);
      var sent := InsertData(data);
      inserted := inserted + sent;
      var metrics := CalculateTeamMetrics(data);
      if metrics.Some? {
        metricsList := metricsList + [metrics.value];
      }
    }
    assert tables[..|files|] == tables;
  }

  /** `main()` on the roster files in the order `os.listdir` gives them:
      the statements sent to the database and the report, if any. */
  method RunPipeline(files: seq<RosterFile>) returns (sent: seq<Statement>, report: Option<seq<ReportRow>>)
    requires ValidFiles(files)
    ensures sent == Schema(CleanAll(files)) + Inserts(CleanAll(files))
    ensures report == TeamReport(CleanAll(files))
  {
    sent := [];
    if |files| > 0 {
      var sample := LoadAndCleanData(files[0].path, files[0].table);
      sent := [CreateDatabase(sample.header)];
    }
    var inserted, metricsList := ProcessFiles(files);
    sent := sent + inserted;
    if |metricsList| > 0 {
      var rows := FlattenAllMetrics(metricsList);
      report := Some(rows);
    } else {
      report := None;
    }
  }

  /** A report is produced exactly when some table has a row. */
  lemma ReportIffSomeTeam(tables: seq<Table>)
    requires AllGood(tables)
    ensures TeamReport(tables).Some? <==> exists i :: 0 <= i < |tables| && |tables[i].rows| > 0
  {
    var teams := Teams(tables);
    if exists i :: 0 <= i < |tables| && |tables[i].rows| > 0 {
      var i :| 0 <= i < |tables| && |tables[i].rows| > 0;
      FilterMembership(HasRows, tables, tables[i]);
    } else {
      assert teams != [] ==> teams[0] in teams;
      if teams != [] {
        FilterMembership(HasRows, tables, teams[0]);
      }
    }
  }

  /** The `i`-th report row flattens the metrics of the `i`-th table that has
      a row: it names the team of that table's first row and gives its row
      count and afterparty count. */
  lemma ReportRowHead(tables: seq<Table>, i: nat)
    requires AllGood(tables) && TeamReport(tables).Some?
    requires i < |Teams(tables)|
    ensures |TeamReport(tables).value| == |Teams(tables)|
    ensures var t := Teams(tables)[i];
            var row := TeamReport(tables).value[i];
            && |t.rows| > 0 && HasMetricColumns(t) && |row| >= 14
            && row == FlatRow(CalculateTeamMetrics(t).value)
            && row[0] == ("Team", TeamText(t.rows[0][TeamColumn]))
            && row[1] == ("Total Roster Count", Count(|t.rows|))
            && row[2] == ("Total Afterparty Count", Count(|Filter(IsYes, Column(t, "afterparty"))|))
  {
    var t := Teams(tables)[i];
    FilterMembership(HasRows, tables, t);
    TeamFlattenable(t);
    FlatRowFixed(CalculateTeamMetrics(t).value);
  }

  /** Every cleaned table is tagged with its file's team. */
  lemma CleanAllTagged(files: seq<RosterFile>, i: nat)
    requires ValidFiles(files) && i < |files|
    ensures forall r :: r in CleanAll(files)[i].rows ==> r[TeamColumn] == Some(TeamName(files[i].path))
  {
    CleanRowsTagged(files[i].path, files[i].table);
  }

  /** The database table is created once, from the first table's columns
      without `id`, in their order, and before any insert. */
  lemma SchemaFirst(tables: seq<Table>)
    requires AllGood(tables) && tables != []
    ensures var s := (Schema(tables) + Inserts(tables))[0];
            && s == CreateRoster(NonKeyColumns(tables[0].header))
            && IsSubsequence(s.columns, tables[0].header)
            && (forall c :: c in s.columns <==> c in tables[0].header && c != KeyColumn)
  {
    FilterIsSubsequence(IsNotKey, tables[0].header);
  }

  /** Every inserted tuple carries a first and a last name that are not blank,
      under those columns of the insert. */
  lemma {:induction false} InsertedNamesNotBlank(tables: seq<Table>)
    requires AllGood(tables)
    ensures forall s :: s in Inserts(tables) ==> NamedInsert(s)
  {
    if tables != [] {
      var init := tables[..|tables| - 1];
      var t := tables[|tables| - 1];
      InsertedNamesNotBlank(init);
      forall s | s in InsertStatements(t) ensures NamedInsert(s) {
        var k :| 0 <= k < |InsertStatements(t)| && InsertStatements(t)[k] == s;
        InsertNames(t, k);
      }
    }
  }

  /** An insert whose first and last name values are not blank. */
  predicate NamedInsert(s: Statement) {
    && s.InsertRow? && |s.values| == |s.columns|
    && (exists i :: 0 <= i < |s.columns| && s.columns[i] == "first_name" && Strip(s.values[i]) != "")
    && (exists i :: 0 <= i < |s.columns| && s.columns[i] == "last_name" && Strip(s.values[i]) != "")
  }

  lemma InsertNames(t: Table, k: nat)
    requires GoodTable(t) && k < |t.rows|
    ensures NamedInsert(InsertStatements(t)[k])
  {
    var row := t.rows[k];
    InsertStatementsAt(t, k);
    var s := InsertStatement(t.header, row);
    assert "first_name" in s.columns && "last_name" in s.columns;
    var i :| 0 <= i < |s.columns| && s.columns[i] == "first_name";
    var j :| 0 <= j < |s.columns| && s.columns[j] == "last_name";
    assert s.values[i] == row["first_name"].value;
    assert s.values[j] == row["last_name"].value;
  }
}
