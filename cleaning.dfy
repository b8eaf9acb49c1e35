/** `load_and_clean_data` of roster-parser.py (lines 5-39), from the parsed
    table on: header stripping and renaming, the canonical columns added when
    absent, the rows without both names dropped, and the team column. */
module Cleaning {
  import opened Text
  import opened Tables

  /** The number of entries of the header lookup table of roster-parser.py
      lines 9-25. */
  const ColumnCount := 15

  /** The `i`-th key of the lookup table: a header as roster files spell it. */
  function Variant(i: nat): string
    requires i < ColumnCount
  {
    match i
    case 0 => "#"
    case 1 => "First Name"
    case 2 => "Last Name"
    case 3 => "Role"
    case 4 => "Date of Birth (mm/dd/yyyy)"
    case 5 => "T-Shirt Size"
    case 6 => "Pant Size"
    case 7 => "Dietary Restrictions"
    case 8 => "Other Dietary Restrictions/Allergies"
    case 9 => "Dancer Specified Allergies"
    case 10 => "Email (xyz@abc.com)"
    case 11 => "Phone Number (123-456-7890)"
    case 12 => "Vaccination Status (Boosted, Vaccinated, Unvaccinated)"
    case 13 => "Afterparty (Y/N)"
    case _ => "Data Format Check (no action needed)"
  }

  /** The `i`-th value of the lookup table: the canonical column name that
      `Variant(i)` is renamed to. */
  function Canonical(i: nat): string
    requires i < ColumnCount
  {
    match i
    case 0 => "id"
    case 1 => "first_name"
    case 2 => "last_name"
    case 3 => "role"
    case 4 => "date_of_birth"
    case 5 => "t_shirt_size"
    case 6 => "pant_size"
    case 7 => "dietary_restrictions"
    case 8 => "other_dietary_allergies"
    case 9 => "dancer_allergies"
    case 10 => "email"
    case 11 => "phone_number"
    case 12 => "vaccination_status"
    case 13 => "afterparty"
    case _ => "data_format_check"
  }

  /** `expected_columns.values()`, in the table's order. */
  function CanonicalColumns(): (cols: seq<string>)
    ensures |cols| == ColumnCount
    ensures forall i :: 0 <= i < ColumnCount ==> cols[i] == Canonical(i)
  {
    seq(ColumnCount, i requires 0 <= i < ColumnCount => Canonical(i))
  }

  /** The lookup from entry `i` on: the value of the first key equal to `h`,
      or `h` itself when no key is. */
  function RenameFrom(h: string, i: nat): string
    requires i <= ColumnCount
    decreases ColumnCount - i
  {
    if i == ColumnCount then h
    else if Variant(i) == h then Canonical(i)
    else RenameFrom(h, i + 1)
  }

  /** `data.rename(columns=expected_columns)` on one label: the canonical name
      when the label is a key of the lookup table, the label itself otherwise. */
  function Rename(h: string): string {
    RenameFrom(h, 0)
  }

  /** What lines 8 and 26 make of one header label. */
  function NormaliseLabel(h: string): string {
    Rename(Strip(h))
  }

  function NormalisedHeader(header: seq<string>): (r: seq<string>)
    ensures |r| == |header|
    ensures forall i :: 0 <= i < |r| ==> r[i] == NormaliseLabel(header[i])
  {
    seq(|header|, i requires 0 <= i < |header| => NormaliseLabel(header[i]))
  }

  /** What the cleaning demands of the parsed table: a well-formed table whose
      labels stay distinct once stripped and renamed. */
  predicate Parsed(t: Table) {
    WellFormed(t) && Distinct(NormalisedHeader(t.header))
  }

  /** A header matches the lookup table after its surrounding whitespace is
      stripped: padding a label changes nothing. */
  lemma NormaliseIgnoresPadding(h: string)
    ensures NormaliseLabel(h) == NormaliseLabel(Strip(h))
  {
    StripIdempotent(h);
  }

  /** The keys of the lookup table are pairwise different. */
  lemma VariantsDistinct()
    ensures forall i, j :: 0 <= i < j < ColumnCount ==> Variant(i) != Variant(j)
  {
  }

  lemma {:induction false} RenameFromFinds(h: string, i: nat, j: nat)
    requires i <= j < ColumnCount && Variant(j) == h
    requires forall k :: i <= k < j ==> Variant(k) != h
    ensures RenameFrom(h, i) == Canonical(j)
    decreases j - i
  {
    if i == j {
      RenameFromHit(h, i);
    } else {
      RenameFromStep(h, i);
      RenameFromFinds(h, i + 1, j);
    }
  }

  lemma RenameFromStep(h: string, i: nat)
    requires i < ColumnCount && Variant(i) != h
    ensures RenameFrom(h, i) == RenameFrom(h, i + 1)
  {
  }

  lemma RenameFromHit(h: string, i: nat)
    requires i < ColumnCount && Variant(i) == h
    ensures RenameFrom(h, i) == Canonical(i)
  {
  }

  lemma {:induction false} RenameFromMisses(h: string, i: nat)
    requires i <= ColumnCount
    requires forall k :: i <= k < ColumnCount ==> Variant(k) != h
    ensures RenameFrom(h, i) == h
    decreases ColumnCount - i
  {
    if i < ColumnCount {
      RenameFromMisses(h, i + 1);
    }
  }

  /** A header whose stripped text is the `i`-th key of the lookup table
      becomes exactly the `i`-th canonical name. */
  lemma NormaliseRecognised(h: string, i: nat)
    requires i < ColumnCount && Strip(h) == Variant(i)
    ensures NormaliseLabel(h) == Canonical(i)
  {
    VariantsDistinct();
    RenameFromFinds(Strip(h), 0, i);
  }

  /** Any other header keeps its stripped text: unrecognised columns are not
      renamed and stay in the table. */
  lemma NormaliseUnrecognised(h: string)
    requires forall i :: 0 <= i < ColumnCount ==> Strip(h) != Variant(i)
    ensures NormaliseLabel(h) == Strip(h)
  {
    RenameFromMisses(Strip(h), 0);
  }

  /** One row after the header renaming: the cell under each label
      `from[i]` now sits under the label `labels[i]`. */
  function Relabel(from: seq<string>, labels: seq<string>, r: Row): Row
    requires |from| == |labels| && Distinct(labels)
    requires forall i :: 0 <= i < |from| ==> from[i] in r
  {
    map i | 0 <= i < |from| :: labels[i] := r[from[i]]
  }

  /** The relabelled row has exactly the new labels, and under each the cell
      that was under the corresponding old label. */
  lemma RelabelCells(from: seq<string>, labels: seq<string>, r: Row)
    requires |from| == |labels| && Distinct(labels)
    requires forall i :: 0 <= i < |from| ==> from[i] in r
    ensures Relabel(from, labels, r).Keys == set c | c in labels
    ensures forall i :: 0 <= i < |from| ==> labels[i] in Relabel(from, labels, r) && Relabel(from, labels, r)[labels[i]] == r[from[i]]
  {
    var m := Relabel(from, labels, r);
    forall c | c in labels ensures c in m {
      var i :| 0 <= i < |labels| && labels[i] == c;
      assert c == labels[i];
    }
  }

  function RenameRow(header: seq<string>, r: Row): Row
    requires forall i :: 0 <= i < |header| ==> header[i] in r
    requires Distinct(NormalisedHeader(header))
  {
    Relabel(header, NormalisedHeader(header), r)
  }

  /** Lines 8 and 26: `data.columns.str.strip()` then `data.rename(...)`. */
  function NormaliseColumns(t: Table): (r: Table)
    requires Parsed(t)
    ensures WellFormed(r) && r.header == NormalisedHeader(t.header) && |r.rows| == |t.rows|
    ensures forall k :: 0 <= k < |t.rows| ==> r.rows[k] == RenameRow(t.header, t.rows[k])
  {
    var rows := seq(|t.rows|, k requires 0 <= k < |t.rows| => RenameRow(t.header, t.rows[k]));
    forall k | 0 <= k < |t.rows| ensures rows[k].Keys == set c | c in NormalisedHeader(t.header) {
      RelabelCells(t.header, NormalisedHeader(t.header), t.rows[k]);
    }
    Table(NormalisedHeader(t.header), rows)
  }

  /** `data[c] = v`: every row holds `v` in column `c`, which is appended to
      the header when the table does not have it yet. */
  function SetColumn(t: Table, c: string, v: Cell): (r: Table)
    requires WellFormed(t)
    ensures WellFormed(r) && |r.rows| == |t.rows|
    ensures r.header == if c in t.header then t.header else t.header + [c]
    ensures forall k :: 0 <= k < |r.rows| ==> r.rows[k] == t.rows[k][c := v]
  {
    var rows := seq(|t.rows|, k requires 0 <= k < |t.rows| => t.rows[k][c := v]);
    var header := if c in t.header then t.header else t.header + [c];
    assert forall k :: 0 <= k < |rows| ==> rows[k].Keys == set x | x in header;
    Table(header, rows)
  }

  /** The cells lines 28-30 add to a row of a table with columns `header`. */
  function MissingCells(header: seq<string>, cols: seq<string>): map<string, Cell> {
    map x | x in cols && x !in header :: Some("")
  }

  lemma MissingCellsStep(header: seq<string>, cols: seq<string>, c: string)
    ensures MissingCells(header, cols + [c]) ==
              if c in header || c in cols then MissingCells(header, cols)
              else MissingCells(header, cols)[c := Some("")]
  {
  }

  /** The loop of lines 28-30 over `cols`: every column of `cols` the table
      lacks is added, filled with "". */
  function AddMissing(t: Table, cols: seq<string>): (r: Table)
    requires WellFormed(t)
    ensures WellFormed(r) && |r.rows| == |t.rows|
  {
    if cols == [] then t
    else
      var s := AddMissing(t, cols[..|cols| - 1]);
      var c := cols[|cols| - 1];
      if c in s.header then s else SetColumn(s, c, Some(""))
  }

  /** One more turn of the loop of lines 28-30. */
  lemma AddMissingSnoc(t: Table, cols: seq<string>, i: nat)
    requires WellFormed(t) && i < |cols|
    ensures var s := AddMissing(t, cols[..i]);
            AddMissing(t, cols[..i + 1]) == if cols[i] in s.header then s else SetColumn(s, cols[i], Some(""))
  {
    assert cols[..i + 1][..i] == cols[..i];
  }

  /** The loop keeps the existing columns in front and adds exactly the
      columns of `cols` the table lacked. */
  lemma {:induction false} AddMissingHeader(t: Table, cols: seq<string>)
    requires WellFormed(t)
    ensures |t.header| <= |AddMissing(t, cols).header|
    ensures AddMissing(t, cols).header[..|t.header|] == t.header
    ensures forall x :: x in AddMissing(t, cols).header <==> x in t.header || x in cols
  {
    if cols != [] {
      var init := cols[..|cols| - 1];
      var c := cols[|cols| - 1];
      AddMissingHeader(t, init);
      assert cols == init + [c];
      var s := AddMissing(t, init);
      if c !in s.header {
        assert AddMissing(t, cols).header[..|t.header|] == s.header[..|t.header|];
      }
    }
  }

  /** Adding one more column of the loop leaves a row as it is, or writes ""
      in that column when the table lacks it. */
  lemma AddMissingRowStep(t: Table, cols: seq<string>, c: string, k: nat)
    requires WellFormed(t) && k < |t.rows|
    ensures var s := AddMissing(t, cols);
            AddMissing(t, cols + [c]).rows[k] == if c in s.header then s.rows[k] else s.rows[k][c := Some("")]
  {
    assert (cols + [c])[..|cols|] == cols;
  }

  /** Writing a cell the row lacks is the same as adding it to the added
      cells. */
  lemma UpdateUnion(r: Row, m: map<string, Cell>, c: string, v: Cell)
    requires c !in r
    ensures (r + m)[c := v] == r + m[c := v]
  {
  }

  /** Each row keeps its cells and gains "" in every column it lacked. */
  lemma {:induction false} AddMissingRows(t: Table, cols: seq<string>, k: nat)
    requires WellFormed(t) && k < |t.rows|
    ensures AddMissing(t, cols).rows[k] == t.rows[k] + MissingCells(t.header, cols)
  {
    if cols == [] {
      assert MissingCells(t.header, cols) == map[];
    } else {
      var init := cols[..|cols| - 1];
      var c := cols[|cols| - 1];
      assert cols == init + [c];
      AddMissingRows(t, init, k);
      AddMissingHeader(t, init);
      AddMissingRowStep(t, init, c, k);
      MissingCellsStep(t.header, init, c);
      if c !in AddMissing(t, init).header {
        assert c !in t.rows[k];
        UpdateUnion(t.rows[k], MissingCells(t.header, init), c, Some(""));
      }
    }
  }

  /** Both name cells are present (`dropna(subset=['first_name', 'last_name'])`). */
  predicate HasNames(r: Row) {
    && "first_name" in r && r["first_name"].Some?
    && "last_name" in r && r["last_name"].Some?
  }

  /** A present cell is kept only when it is not blank after stripping
      (`data[c].str.strip() != ''`, true for a missing cell). */
  predicate NotBlank(r: Row, c: string) {
    c in r && r[c].Some? ==> Strip(r[c].value) != ""
  }

  predicate NamesNotBlank(r: Row) {
    NotBlank(r, "first_name") && NotBlank(r, "last_name")
  }

  /** What lines 33 and 34 together keep: both names present and non-blank. */
  predicate Keep(r: Row) {
    HasNames(r) && NamesNotBlank(r)
  }

  function DropRows(t: Table, p: Row -> bool): (r: Table)
    requires WellFormed(t)
    ensures WellFormed(r) && r.header == t.header
  {
    var rows := Filter(p, t.rows);
    forall k | 0 <= k < |rows| ensures rows[k] in t.rows {
      FilterMembership(p, t.rows, rows[k]);
    }
    Table(t.header, rows)
  }

  /** `load_and_clean_data` after parsing: the table of one roster file,
      cleaned and tagged with the team named by `path`. */
  function Clean(path: string, raw: Table): (t: Table)
    requires Parsed(raw)
    ensures WellFormed(t)
  {
    var widened := AddMissing(NormaliseColumns(raw), CanonicalColumns());
    var kept := DropRows(DropRows(widened, HasNames), NamesNotBlank);
    SetColumn(kept, TeamColumn, Some(TeamName(path)))
  }

  /** `load_and_clean_data(file_path)` on the table `pd.read_csv` has parsed
      (with its label row dropped): the statements of lines 8-37 in order. */
  method LoadAndCleanData(path: string, raw: Table) returns (data: Table)
    requires Parsed(raw)
    ensures data == Clean(path, raw)
  {
    data := NormaliseColumns(raw);
    ghost var normalised := data;
    var i := 0;
    var columns := CanonicalColumns();
    while i < |columns|
      invariant 0 <= i <= |columns|
      invariant WellFormed(data)
      invariant data == AddMissing(normalised, columns[..i])
    {
      var col := columns[i];
      AddMissingSnoc(normalised, columns, i);
      if col !in data.header {
        data := SetColumn(data, col, Some(""));
      }
      i := i + 1;
    }
    assert columns[..i] == columns;
    data := DropRows(data, HasNames);
    data := DropRows(data, NamesNotBlank);
    var teamName := TeamName(path);
    data := SetColumn(data, TeamColumn, Some(teamName));
  }

  /** One parsed row after lines 8-30: its cells under the normalised
      labels, and "" under every canonical column the file lacks. */
  function WidenRow(header: seq<string>, r: Row): Row
    requires forall i :: 0 <= i < |header| ==> header[i] in r
    requires Distinct(NormalisedHeader(header))
  {
    RenameRow(header, r) + MissingCells(NormalisedHeader(header), CanonicalColumns())
  }

  /** All input rows, widened. */
  function Widened(raw: Table): (w: seq<Row>)
    requires Parsed(raw)
    ensures |w| == |raw.rows|
    ensures forall k :: 0 <= k < |w| ==> w[k] == WidenRow(raw.header, raw.rows[k])
  {
    seq(|raw.rows|, k requires 0 <= k < |raw.rows| => WidenRow(raw.header, raw.rows[k]))
  }

  /** The rows of the cleaned table are the widened input rows that carry
      both names, in input order, each with the team cell written. */
  lemma CleanRows(path: string, raw: Table)
    requires Parsed(raw)
    ensures |Clean(path, raw).rows| == |Filter(Keep, Widened(raw))|
    ensures forall k :: 0 <= k < |Clean(path, raw).rows| ==>
              Clean(path, raw).rows[k] == Filter(Keep, Widened(raw))[k][TeamColumn := Some(TeamName(path))]
  {
    var n := NormaliseColumns(raw);
    var w := AddMissing(n, CanonicalColumns());
    var widened := Widened(raw);
    forall k | 0 <= k < |raw.rows| ensures w.rows[k] == widened[k] {
      AddMissingRows(n, CanonicalColumns(), k);
    }
    assert w.rows == widened;
    FilterFilter(HasNames, NamesNotBlank, Keep, widened);
  }

  /** Every row of the cleaned table has a first and a last name, both
      present and non-empty after stripping. */
  lemma CleanRowsHaveNames(path: string, raw: Table)
    requires Parsed(raw)
    ensures forall r: Row :: r in Clean(path, raw).rows ==>
              && "first_name" in r && r["first_name"].Some? && Strip(r["first_name"].value) != ""
              && "last_name" in r && r["last_name"].Some? && Strip(r["last_name"].value) != ""
  {
    CleanRows(path, raw);
    var kept := Filter(Keep, Widened(raw));
    var rows := Clean(path, raw).rows;
    forall r: Row | r in rows
      ensures "first_name" in r && r["first_name"].Some? && Strip(r["first_name"].value) != ""
      ensures "last_name" in r && r["last_name"].Some? && Strip(r["last_name"].value) != ""
    {
      var k :| 0 <= k < |rows| && rows[k] == r;
      assert Keep(kept[k]);
      KeepSurvivesTeam(kept[k], Some(TeamName(path)));
    }
  }

  /** Writing the team cell keeps the names a row was kept for. */
  lemma KeepSurvivesTeam(r: Row, v: Cell)
    requires Keep(r)
    ensures var w := r[TeamColumn := v];
            && "first_name" in w && w["first_name"].Some? && Strip(w["first_name"].value) != ""
            && "last_name" in w && w["last_name"].Some? && Strip(w["last_name"].value) != ""
  {
  }

  /** Every row of the cleaned table carries the team named by the file: its
      base name without the extension, upper-cased. */
  lemma CleanRowsTagged(path: string, raw: Table)
    requires Parsed(raw)
    ensures forall r :: r in Clean(path, raw).rows ==> r[TeamColumn] == Some(TeamName(path))
  {
    CleanRows(path, raw);
  }

  /** Rows are only removed: the kept rows are a subsequence of the widened
      input rows, and an input row is kept exactly when it has both names. */
  lemma CleanOnlyRemovesRows(raw: Table, k: nat)
    requires Parsed(raw) && k < |raw.rows|
    ensures IsSubsequence(Filter(Keep, Widened(raw)), Widened(raw))
    ensures Widened(raw)[k] in Filter(Keep, Widened(raw)) <==> Keep(Widened(raw)[k])
  {
    var widened := Widened(raw);
    FilterIsSubsequence(Keep, widened);
    FilterMembership(Keep, widened, widened[k]);
  }

  /** Widening keeps every cell under its normalised label, and puts "" under
      each canonical column the file does not have. */
  lemma WidenRowCells(header: seq<string>, r: Row)
    requires forall i :: 0 <= i < |header| ==> header[i] in r
    requires Distinct(NormalisedHeader(header))
    ensures forall i :: 0 <= i < |header| ==> WidenRow(header, r)[NormaliseLabel(header[i])] == r[header[i]]
    ensures forall c :: c in CanonicalColumns() && c !in NormalisedHeader(header) ==> WidenRow(header, r)[c] == Some("")
  {
    RelabelCells(header, NormalisedHeader(header), r);
  }

  /** The cleaned header starts with the input's labels, stripped and
      renamed, in their order (unrecognised ones included); it holds every
      canonical column and the team column, and nothing else. */
  lemma CleanColumns(path: string, raw: Table)
    requires Parsed(raw)
    ensures var h := Clean(path, raw).header;
            && |raw.header| <= |h| && h[..|raw.header|] == NormalisedHeader(raw.header)
            && (forall c :: c in CanonicalColumns() ==> c in h)
            && TeamColumn in h
            && (forall c :: c in h <==> c in NormalisedHeader(raw.header) || c in CanonicalColumns() || c == TeamColumn)
  {
    CleanColumnsPrefix(path, raw);
    CleanColumnsMembers(path, raw);
  }

  lemma CleanColumnsPrefix(path: string, raw: Table)
    requires Parsed(raw)
    ensures |raw.header| <= |Clean(path, raw).header|
    ensures Clean(path, raw).header[..|raw.header|] == NormalisedHeader(raw.header)
  {
    WidenedColumns(raw);
    CleanHeader(path, raw);
    var w := AddMissing(NormaliseColumns(raw), CanonicalColumns()).header;
    PrefixOfUpdated(w, TeamColumn, |raw.header|);
  }

  lemma PrefixOfUpdated(w: seq<string>, x: string, n: nat)
    requires n <= |w|
    ensures (if x in w then w else w + [x])[..n] == w[..n]
  {
    assert (w + [x])[..n] == w[..n];
  }

  lemma CleanColumnsMembers(path: string, raw: Table)
    requires Parsed(raw)
    ensures forall c :: c in Clean(path, raw).header <==>
              c in NormalisedHeader(raw.header) || c in CanonicalColumns() || c == TeamColumn
  {
    WidenedColumns(raw);
    CleanHeader(path, raw);
  }

  /** The header after lines 8-30: the normalised labels, then the canonical
      columns the file lacks. */
  lemma WidenedColumns(raw: Table)
    requires Parsed(raw)
    ensures var w := AddMissing(NormaliseColumns(raw), CanonicalColumns()).header;
            && |raw.header| <= |w| && w[..|raw.header|] == NormalisedHeader(raw.header)
            && (forall c :: c in w <==> c in NormalisedHeader(raw.header) || c in CanonicalColumns())
  {
    AddMissingHeader(NormaliseColumns(raw), CanonicalColumns());
  }

  /** Only the team column can follow the widened header: dropping rows keeps
      the columns. */
  lemma CleanHeader(path: string, raw: Table)
    requires Parsed(raw)
    ensures var w := AddMissing(NormaliseColumns(raw), CanonicalColumns()).header;
            Clean(path, raw).header == if TeamColumn in w then w else w + [TeamColumn]
  {
  }

  lemma TeamIsNotCanonical()
    ensures TeamColumn !in CanonicalColumns()
  {
  }

  /** A widened row holds "" under each canonical column the file lacks. */
  lemma WidenedAbsentColumn(raw: Table, c: string, r: Row)
    requires Parsed(raw)
    requires c in CanonicalColumns() && c !in NormalisedHeader(raw.header)
    requires r in Widened(raw)
    ensures c in r && r[c] == Some("")
  {
    var widened := Widened(raw);
    var j :| 0 <= j < |widened| && widened[j] == r;
    WidenRowCells(raw.header, raw.rows[j]);
  }

  /** A canonical column the file lacks holds "" in every cleaned row. */
  lemma CleanAbsentColumnsEmpty(path: string, raw: Table, c: string)
    requires Parsed(raw)
    requires c in CanonicalColumns() && c !in NormalisedHeader(raw.header)
    ensures forall r :: r in Clean(path, raw).rows ==> c in r && r[c] == Some("")
  {
    CleanRows(path, raw);
    TeamIsNotCanonical();
    var rows := Clean(path, raw).rows;
    var kept := Filter(Keep, Widened(raw));
    forall k | 0 <= k < |rows| ensures c in rows[k] && rows[k][c] == Some("") {
      FilterMembership(Keep, Widened(raw), kept[k]);
      WidenedAbsentColumn(raw, c, kept[k]);
    }
  }

  /** A file with no first-name header keeps no row at all: its first names
      are all the added "". */
  lemma NoFirstNameColumnNoRows(path: string, raw: Table)
    requires Parsed(raw)
    requires "first_name" !in NormalisedHeader(raw.header)
    ensures Clean(path, raw).rows == []
  {
    assert CanonicalColumns()[1] == "first_name";
    var widened := Widened(raw);
    forall k | 0 <= k < |widened| ensures !Keep(widened[k]) {
      WidenedAbsentColumn(raw, "first_name", widened[k]);
      assert Strip("") == "";
    }
    FilterNone(Keep, widened);
    CleanRows(path, raw);
  }

  /** A widened row holds the input row's cells, plus "" in added columns. */
  lemma WidenRowOrigin(header: seq<string>, r: Row, c: string)
    requires forall i :: 0 <= i < |header| ==> header[i] in r
    requires Distinct(NormalisedHeader(header))
    requires c in WidenRow(header, r)
    ensures WidenRow(header, r)[c] == Some("") ||
            exists i :: 0 <= i < |header| && WidenRow(header, r)[c] == r[header[i]]
  {
    var n := NormalisedHeader(header);
    RelabelCells(header, n, r);
    if c !in MissingCells(n, CanonicalColumns()) {
      var i :| 0 <= i < |n| && n[i] == c;
      assert WidenRow(header, r)[c] == r[header[i]];
    }
  }

  /** A cell of a widened row is a cell of some input row, or the "" of an
      added column. */
  lemma WidenedCellOrigin(raw: Table, r: Row, c: string)
    requires Parsed(raw) && r in Widened(raw) && c in r
    ensures r[c] == Some("") || exists j, h :: 0 <= j < |raw.rows| && h in raw.rows[j] && raw.rows[j][h] == r[c]
  {
    var widened := Widened(raw);
    var j :| 0 <= j < |widened| && widened[j] == r;
    WidenRowOrigin(raw.header, raw.rows[j], c);
    if r[c] != Some("") {
      var i :| 0 <= i < |raw.header| && r[c] == raw.rows[j][raw.header[i]];
      assert raw.header[i] in raw.rows[j];
    }
  }

  /** Cleaning invents no value: every cell of a cleaned row is a cell of the
      input, the "" of an added column, or the team name. */
  lemma CleanCellOrigin(path: string, raw: Table, k: nat, c: string)
    requires Parsed(raw) && k < |Clean(path, raw).rows| && c in Clean(path, raw).rows[k]
    ensures var v := Clean(path, raw).rows[k][c];
            || v == Some(TeamName(path))
            || v == Some("")
            || exists j, h :: 0 <= j < |raw.rows| && h in raw.rows[j] && raw.rows[j][h] == v
  {
    CleanRows(path, raw);
    var kept := Filter(Keep, Widened(raw));
    if c != TeamColumn {
      FilterMembership(Keep, Widened(raw), kept[k]);
      WidenedCellOrigin(raw, kept[k], c);
    }
  }
}
