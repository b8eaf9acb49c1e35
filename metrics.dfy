/** `calculate_team_metrics` of roster-parser.py (lines 71-93): the roster
    size, the afterparty count and the four value distributions of one
    cleaned team table. */
module Metrics {
  import opened Text
  import opened Tables

  /** A `value_counts()` result as a dictionary: each distinct value with the
      number of its occurrences. A missing value, when counted, is the key
      `None`. */
  type Distribution = map<Cell, nat>

  datatype TeamMetrics = TeamMetrics(
    team: Cell,
    totalRoster: nat,
    totalApCount: nat,
    shirtSizeCounts: Distribution,
    pantSizeCounts: Distribution,
    dietaryRestrictions: Distribution,
    dancerAllergies: Distribution
  )

  /** `data[c]`: the column's cells, in row order. */
  function Column(t: Table, c: string): (col: seq<Cell>)
    requires WellFormed(t) && c in t.header
    ensures |col| == |t.rows|
    ensures forall k :: 0 <= k < |col| ==> col[k] == t.rows[k][c]
  {
    seq(|t.rows|, k requires 0 <= k < |t.rows| => t.rows[k][c])
  }

  /** `value_counts()` of a sequence: every value that occurs, with how often
      it occurs. */
  function Counts<T(==,!new)>(s: seq<T>): (m: map<T, nat>)
    ensures forall v :: v in m <==> v in s
    ensures forall v :: v in m ==> 1 <= m[v] == multiset(s)[v]
  {
    map v | v in s :: multiset(s)[v]
  }

  /** `d.get(k, 0)`. */
  function Get<T(==)>(m: map<T, nat>, k: T): nat {
    if k in m then m[k] else 0
  }

  predicate IsPresent(c: Cell) {
    c.Some?
  }

  /** The value counts of column `c`: with `dropNa` missing cells are not
      counted (pandas' default), otherwise they are counted under `None`
      (`dropna=False`); a table without the column gives `{}`. */
  function ColumnCounts(t: Table, c: string, dropNa: bool): (d: Distribution)
    requires WellFormed(t)
    ensures forall v :: v in d ==> d[v] >= 1
    ensures dropNa ==> None !in d
    ensures forall v :: v in d ==> c in t.header
  {
    if c !in t.header then map[]
    else if dropNa then Counts(Filter(IsPresent, Column(t, c)))
    else Counts(Column(t, c))
  }

  /** `astype(str).str.lower() == 'yes'` on one afterparty cell. */
  predicate IsYes(c: Cell) {
    Lower(Str(c)) == "yes"
  }

  /** Independent of the case mapping: a cell reads "yes" after lower-casing
      exactly when it is a present three-letter text spelling y, e, s in
      either case each; a missing cell (whose text is "nan") never does. */
  lemma IsYesSpec(c: Cell)
    ensures IsYes(c) <==>
              c.Some? && |c.value| == 3 && c.value[0] in "yY" && c.value[1] in "eE" && c.value[2] in "sS"
  {
    var l := Lower(Str(c));
    if |l| == 3 {
      assert l[0] == LowerChar(Str(c)[0]) && l[1] == LowerChar(Str(c)[1]) && l[2] == LowerChar(Str(c)[2]);
    }
  }

  /** `astype(str).str.lower()` on a column. */
  function LowerTexts(col: seq<Cell>): (r: seq<string>)
    ensures |r| == |col|
  {
    if col == [] then [] else [Lower(Str(col[0]))] + LowerTexts(col[1..])
  }

  /** The `"yes"` count of the lower-cased texts is the number of cells that
      read "yes" in any letter case. */
  lemma {:induction false} YesCount(col: seq<Cell>)
    ensures multiset(LowerTexts(col))["yes"] == |Filter(IsYes, col)|
  {
    if col != [] {
      YesCount(col[1..]);
      assert LowerTexts(col) == [Lower(Str(col[0]))] + LowerTexts(col[1..]);
    }
  }

  /** Line 77: `value_counts().get('yes', 0)` of the lower-cased texts. */
  function ApCount(col: seq<Cell>): (n: nat)
    ensures n == |Filter(IsYes, col)| && n <= |col|
  {
    YesCount(col);
    Get(Counts(LowerTexts(col)), "yes")
  }

  /** `data.empty`: no rows or no columns. */
  predicate IsEmpty(t: Table) {
    |t.rows| == 0 || |t.header| == 0
  }

  /** What the function reads unconditionally: a non-empty table has the team
      and afterparty columns (`data['team']` and `data['afterparty']`). */
  predicate HasMetricColumns(t: Table) {
    WellFormed(t) && (!IsEmpty(t) ==> TeamColumn in t.header && "afterparty" in t.header)
  }

  /** `calculate_team_metrics(data)`: `None` for the empty `{}` of an empty
      table, otherwise the team's metrics. */
  function CalculateTeamMetrics(t: Table): (r: Option<TeamMetrics>)
    requires HasMetricColumns(t)
    ensures r.None? <==> IsEmpty(t)
    ensures r.Some? ==>
              && r.value.team == t.rows[0][TeamColumn]
              && r.value.totalRoster == |t.rows|
              && r.value.totalApCount == |Filter(IsYes, Column(t, "afterparty"))|
              && r.value.totalApCount <= r.value.totalRoster
  {
    if IsEmpty(t) then None
    else
      Some(TeamMetrics(
        team := Column(t, TeamColumn)[0],
        totalRoster := |t.rows|,
        totalApCount := ApCount(Column(t, "afterparty")),
        shirtSizeCounts := ColumnCounts(t, "t_shirt_size", true),
        // `value_counts().dropna()`: the counts are never missing, so the
        // extra `dropna()` removes nothing.
        pantSizeCounts := ColumnCounts(t, "pant_size", true),
        dietaryRestrictions := ColumnCounts(t, "dietary_restrictions", false),
        dancerAllergies := ColumnCounts(t, "dancer_allergies", false)))
  }

  /** The sum of `m`'s counts over the keys `ks`. */
  function SumCounts<T(==)>(ks: seq<T>, m: map<T, nat>): nat {
    if ks == [] then 0 else Get(m, ks[0]) + SumCounts(ks[1..], m)
  }

  /** How many elements of `s` equal some element of `ks` (counted once per
      entry of `ks`). */
  function Occurrences<T(==)>(ks: seq<T>, s: seq<T>): nat {
    if ks == [] then 0 else multiset(s)[ks[0]] + Occurrences(ks[1..], s)
  }

  lemma {:induction false} SumCountsIsOccurrences<T(!new)>(ks: seq<T>, s: seq<T>)
    ensures SumCounts(ks, Counts(s)) == Occurrences(ks, s)
  {
    if ks != [] {
      SumCountsIsOccurrences(ks[1..], s);
    }
  }

  lemma {:induction false} OccurrencesSnoc<T>(ks: seq<T>, s: seq<T>, x: T)
    ensures Occurrences(ks, s + [x]) == Occurrences(ks, s) + multiset(ks)[x]
  {
    if ks != [] {
      OccurrencesSnoc(ks[1..], s, x);
      assert ks == [ks[0]] + ks[1..];
    }
  }

  lemma {:induction false} DistinctMultiplicity<T>(ks: seq<T>, x: T)
    requires Distinct(ks)
    ensures multiset(ks)[x] == if x in ks then 1 else 0
  {
    if ks != [] {
      assert ks == [ks[0]] + ks[1..];
      DistinctMultiplicity(ks[1..], x);
    }
  }

  /** Counting over distinct keys counts each element of `s` at most once,
      and exactly once when every element of `s` is among the keys. */
  lemma {:induction false} OccurrencesBound<T>(ks: seq<T>, s: seq<T>)
    requires Distinct(ks)
    ensures Occurrences(ks, s) <= |s|
    ensures (forall i :: 0 <= i < |s| ==> s[i] in ks) ==> Occurrences(ks, s) == |s|
  {
    if s == [] {
      if ks != [] {
        OccurrencesBound(ks[1..], s);
      }
    } else {
      var init := s[..|s| - 1];
      var x := s[|s| - 1];
      assert s == init + [x];
      OccurrencesBound(ks, init);
      OccurrencesSnoc(ks, init, x);
      DistinctMultiplicity(ks, x);
    }
  }

  /** The dietary and dancer-allergy distributions count missing cells too,
      so their counts over all keys add up to the roster size. */
  lemma CountsSumToRoster(t: Table, c: string, ks: seq<Cell>)
    requires WellFormed(t) && c in t.header
    requires Distinct(ks) && forall k :: k in ColumnCounts(t, c, false) ==> k in ks
    ensures SumCounts(ks, ColumnCounts(t, c, false)) == |t.rows|
  {
    var col := Column(t, c);
    SumCountsIsOccurrences(ks, col);
    OccurrencesBound(ks, col);
  }

  /** The shirt and pant distributions skip missing cells, so their counts
      over any distinct keys add up to at most the roster size; over all keys
      they add up to the number of present cells. */
  lemma PresentCountsBound(t: Table, c: string, ks: seq<Cell>)
    requires WellFormed(t) && c in t.header
    requires Distinct(ks)
    ensures SumCounts(ks, ColumnCounts(t, c, true)) <= |t.rows|
    ensures (forall k :: k in ColumnCounts(t, c, true) ==> k in ks) ==>
              SumCounts(ks, ColumnCounts(t, c, true)) == |Filter(IsPresent, Column(t, c))|
  {
    var present := Filter(IsPresent, Column(t, c));
    SumCountsIsOccurrences(ks, present);
    OccurrencesBound(ks, present);
  }

  /** Lines 79-82 on a team's metrics: every count is at least 1; over any
      distinct keys the shirt and pant counts add up to at most the roster
      size; and over keys covering the distribution, the dietary and
      allergy counts add up to exactly the roster size when the table has
      that column. */
  lemma MetricsDistributions(t: Table, ks: seq<Cell>)
    requires HasMetricColumns(t) && !IsEmpty(t) && Distinct(ks)
    ensures DistributionFacts(t, ks, CalculateTeamMetrics(t).value)
  {
    var m := CalculateTeamMetrics(t).value;
    PresentCounts(t, "t_shirt_size", ks, m.shirtSizeCounts);
    PresentCounts(t, "pant_size", ks, m.pantSizeCounts);
    AllCounts(t, "dietary_restrictions", ks, m.dietaryRestrictions);
    AllCounts(t, "dancer_allergies", ks, m.dancerAllergies);
  }

  /** What lines 79-82 promise of the distributions of metrics `m` of `t`. */
  predicate DistributionFacts(t: Table, ks: seq<Cell>, m: TeamMetrics) {
    && (forall v :: v in m.shirtSizeCounts ==> m.shirtSizeCounts[v] >= 1)
    && (forall v :: v in m.pantSizeCounts ==> m.pantSizeCounts[v] >= 1)
    && (forall v :: v in m.dietaryRestrictions ==> m.dietaryRestrictions[v] >= 1)
    && (forall v :: v in m.dancerAllergies ==> m.dancerAllergies[v] >= 1)
    && SumCounts(ks, m.shirtSizeCounts) <= m.totalRoster
    && SumCounts(ks, m.pantSizeCounts) <= m.totalRoster
    && ("dietary_restrictions" in t.header && (forall k :: k in m.dietaryRestrictions ==> k in ks) ==>
          SumCounts(ks, m.dietaryRestrictions) == m.totalRoster)
    && ("dancer_allergies" in t.header && (forall k :: k in m.dancerAllergies ==> k in ks) ==>
          SumCounts(ks, m.dancerAllergies) == m.totalRoster)
  }

  /** A distribution that skips missing cells (lines 79-80). */
  lemma PresentCounts(t: Table, c: string, ks: seq<Cell>, d: Distribution)
    requires WellFormed(t) && Distinct(ks) && d == ColumnCounts(t, c, true)
    ensures forall v :: v in d ==> d[v] >= 1
    ensures SumCounts(ks, d) <= |t.rows|
  {
    if c in t.header {
      PresentCountsBound(t, c, ks);
    } else {
      SumCountsEmpty(ks, d);
    }
  }

  /** A distribution that counts missing cells too (lines 81-82). */
  lemma AllCounts(t: Table, c: string, ks: seq<Cell>, d: Distribution)
    requires WellFormed(t) && Distinct(ks) && d == ColumnCounts(t, c, false)
    ensures forall v :: v in d ==> d[v] >= 1
    ensures c in t.header && (forall k :: k in d ==> k in ks) ==> SumCounts(ks, d) == |t.rows|
  {
    if c in t.header && (forall k :: k in d ==> k in ks) {
      CountsSumToRoster(t, c, ks);
    }
  }

  lemma {:induction false} SumCountsEmpty<T>(ks: seq<T>, m: map<T, nat>)
    requires m == map[]
    ensures SumCounts(ks, m) == 0
  {
    if ks != [] {
      SumCountsEmpty(ks[1..], m);
    }
  }

  /** The keys of a distribution are the column's values (missing ones
      included only under `dropna=False`), each counted once per cell that
      holds it. */
  lemma ColumnCountsKeys(t: Table, c: string, dropNa: bool, v: Cell)
    requires WellFormed(t) && c in t.header
    ensures v in ColumnCounts(t, c, dropNa) <==>
              (exists k :: 0 <= k < |t.rows| && t.rows[k][c] == v) && (v.Some? || !dropNa)
    ensures v in ColumnCounts(t, c, dropNa) ==> ColumnCounts(t, c, dropNa)[v] >= 1
  {
    var col := Column(t, c);
    FilterMembership(IsPresent, col, v);
    if v in col {
      var k :| 0 <= k < |col| && col[k] == v;
      assert t.rows[k][c] == v;
    }
  }

  /** A distribution that counts missing cells has at least one key as soon
      as the table has a row. */
  lemma CountedColumnHasKeys(t: Table, c: string)
    requires WellFormed(t) && c in t.header && |t.rows| > 0
    ensures |ColumnCounts(t, c, false)| >= 1
  {
    var col := Column(t, c);
    assert col[0] in ColumnCounts(t, c, false);
  }
}
