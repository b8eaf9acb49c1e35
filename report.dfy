/** The row flattening of `save_all_metrics_to_csv` (roster-parser.py lines
    96-123): one report row per team, as the (label, value) pairs of its
    `flat_metrics` dictionary in insertion order. */
module Report {
  import opened Text
  import opened Tables
  import opened Metrics

  datatype ReportValue = TeamText(team: Cell) | Count(n: nat)

  /** One `flat_metrics` dictionary: its labels and values in insertion order. */
  type ReportRow = seq<(string, ReportValue)>

  const TShirtOrder: seq<string> := ["XS", "S", "M", "L", "XL"]
  const PantSizeOrder: seq<string> := ["N", "XS", "S", "M", "L", "XL"]

  const ShirtPrefix := "T-Shirt Size - "
  const PantPrefix := "Pant Size - "
  const DietaryPrefix := "Dietary - "
  const AllergyPrefix := "Dancer Allergy - "

  /** `str(k) < str(k')` for every two keys in that order. */
  predicate StrictlySorted(s: seq<Cell>) {
    forall i, j :: 0 <= i < j < |s| ==> StrLt(Str(s[i]), Str(s[j]))
  }

  /** No two keys share a text: the only cells with the same `str` are a
      missing one ("nan") and the text "nan". */
  predicate NoClash(keys: set<Cell>) {
    !(None in keys && Some("nan") in keys)
  }

  lemma StrInjective(keys: set<Cell>, a: Cell, b: Cell)
    requires NoClash(keys) && a in keys && b in keys && a != b
    ensures Str(a) != Str(b)
  {
  }

  predicate IsMin(m: Cell, keys: set<Cell>) {
    forall y :: y in keys && y != m ==> StrLt(Str(m), Str(y))
  }

  lemma {:induction false} MinExists(keys: set<Cell>)
    requires keys != {} && NoClash(keys)
    ensures exists m :: m in keys && IsMin(m, keys)
    decreases keys
  {
    var x :| x in keys;
    var rest := keys - {x};
    if rest == {} {
      assert keys == {x};
      assert IsMin(x, keys);
    } else {
      MinExists(rest);
      var m :| m in rest && IsMin(m, rest);
      StrInjective(keys, x, m);
      StrLtTotal(Str(x), Str(m));
      if StrLt(Str(x), Str(m)) {
        forall y | y in keys && y != x ensures StrLt(Str(x), Str(y)) {
          if y != m {
            StrLtTransitive(Str(x), Str(m), Str(y));
          }
        }
        assert IsMin(x, keys);
      } else {
        forall y | y in keys && y != m ensures StrLt(Str(m), Str(y)) {
          if y != x {
            assert y in rest;
          }
        }
        assert IsMin(m, keys);
      }
    }
  }

  /** `sorted(keys, key=str)`: the keys in ascending order of their text. */
  ghost function SortedKeys(keys: set<Cell>): seq<Cell>
    requires NoClash(keys)
    decreases keys
  {
    if keys == {} then []
    else
      var m := MinKey(keys);
      [m] + SortedKeys(keys - {m})
  }

  /** The least key of a non-empty key set, by text. */
  ghost function MinKey(keys: set<Cell>): (m: Cell)
    requires keys != {} && NoClash(keys)
    ensures m in keys && IsMin(m, keys)
  {
    MinExists(keys);
    var m :| m in keys && IsMin(m, keys);
    m
  }

  /** The sorted keys are exactly the keys, in strictly ascending order. */
  lemma {:induction false} SortedKeysSpec(keys: set<Cell>)
    requires NoClash(keys)
    ensures StrictlySorted(SortedKeys(keys))
    ensures forall x :: x in SortedKeys(keys) <==> x in keys
    decreases keys
  {
    if keys != {} {
      var s := SortedKeys(keys);
      var m := s[0];
      var rest := keys - {m};
      SortedKeysSpec(rest);
      assert s == [m] + SortedKeys(rest);
    }
  }

  /** Two strictly sorted sequences with the same elements are equal: sorting
      distinct texts has one result. */
  lemma {:induction false} SortedUnique(a: seq<Cell>, b: seq<Cell>)
    requires StrictlySorted(a) && StrictlySorted(b)
    requires forall x :: x in a <==> x in b
    ensures a == b
    decreases |a|
  {
    assert b != [] ==> b[0] in b;
    assert a != [] ==> a[0] in a;
    if a != [] {
      assert b != [];
      if a[0] != b[0] {
        var i :| 0 <= i < |b| && b[i] == a[0];
        assert b[0] in b;
        var j :| 0 <= j < |a| && a[j] == b[0];
        StrLtAsymmetric(Str(a[0]), Str(a[j]));
        assert false;
      }
      forall x ensures x in a[1..] <==> x in b[1..] {
        if x in a[1..] {
          TailMember(a, b, x);
        }
        if x in b[1..] {
          TailMember(b, a, x);
        }
      }
      SortedUnique(a[1..], b[1..]);
    }
  }

  lemma TailMember(a: seq<Cell>, b: seq<Cell>, x: Cell)
    requires StrictlySorted(a) && StrictlySorted(b)
    requires a != [] && b != [] && a[0] == b[0]
    requires forall y :: y in a <==> y in b
    requires x in a[1..]
    ensures x in b[1..]
  {
    var j :| 0 <= j < |a[1..]| && a[1..][j] == x;
    assert StrLt(Str(a[0]), Str(x));
    StrLtIrreflexive(Str(x));
    assert x in b;
    var i :| 0 <= i < |b| && b[i] == x;
    assert i != 0;
    assert b[1..][i - 1] == x;
  }

  /** `x` put into its place in `s` by text. */
  function InsertByText(s: seq<Cell>, x: Cell): (r: seq<Cell>)
    ensures forall y :: y in r <==> y in s || y == x
  {
    if s == [] then [x]
    else if StrLt(Str(x), Str(s[0])) then [x] + s
    else [s[0]] + InsertByText(s[1..], x)
  }

  lemma {:induction false} InsertByTextSorted(s: seq<Cell>, x: Cell)
    requires StrictlySorted(s)
    requires forall i :: 0 <= i < |s| ==> Str(s[i]) != Str(x)
    ensures StrictlySorted(InsertByText(s, x))
  {
    if s != [] {
      var r := InsertByText(s, x);
      if StrLt(Str(x), Str(s[0])) {
        forall j | 1 <= j < |r| ensures StrLt(Str(x), Str(r[j])) {
          if j > 1 {
            StrLtTransitive(Str(x), Str(s[0]), Str(s[j - 1]));
          }
        }
      } else {
        StrLtTotal(Str(x), Str(s[0]));
        InsertByTextSorted(s[1..], x);
        forall j | 1 <= j < |r| ensures StrLt(Str(s[0]), Str(r[j])) {
          assert r[j] in InsertByText(s[1..], x);
        }
      }
    }
  }

  /** `sorted(keys, key=str)`, by insertion. */
  method SortByText(keys: set<Cell>) returns (sorted: seq<Cell>)
    requires NoClash(keys)
    ensures sorted == SortedKeys(keys)
  {
    sorted := [];
    var rest := keys;
    while rest != {}
      invariant rest <= keys
      invariant StrictlySorted(sorted)
      invariant forall x :: x in sorted <==> x in keys && x !in rest
      decreases rest
    {
      var x :| x in rest;
      forall i | 0 <= i < |sorted| ensures Str(sorted[i]) != Str(x) {
        StrInjective(keys, sorted[i], x);
      }
      InsertByTextSorted(sorted, x);
      sorted := InsertByText(sorted, x);
      rest := rest - {x};
    }
    SortedKeysSpec(keys);
    SortedUnique(sorted, SortedKeys(keys));
  }

  /** Lines 109-113: one column per size, in the given order, holding the
      team's count for that size or 0. */
  function SizeColumns(prefix: string, sizes: seq<string>, counts: Distribution): (r: ReportRow)
    ensures |r| == |sizes|
    ensures forall i :: 0 <= i < |sizes| ==> r[i] == (prefix + sizes[i], Count(Get(counts, Some(sizes[i]))))
  {
    if sizes == [] then []
    else
      var size := sizes[|sizes| - 1];
      SizeColumns(prefix, sizes[..|sizes| - 1], counts) + [(prefix + size, Count(Get(counts, Some(size))))]
  }

  /** Lines 116-121: one column per key, in the given order, labelled with
      the key's text and holding its count. */
  function KeyColumns(prefix: string, keys: seq<Cell>, counts: Distribution): (r: ReportRow)
    ensures |r| == |keys|
    ensures forall i :: 0 <= i < |keys| ==> r[i] == (prefix + Str(keys[i]), Count(Get(counts, keys[i])))
  {
    if keys == [] then []
    else
      var k := keys[|keys| - 1];
      KeyColumns(prefix, keys[..|keys| - 1], counts) + [(prefix + Str(k), Count(Get(counts, k)))]
  }

  /** Lines 103-113: the team, its two totals, then the shirt and pant sizes. */
  function FixedColumns(m: TeamMetrics): ReportRow {
    [("Team", TeamText(m.team)),
     ("Total Roster Count", Count(m.totalRoster)),
     ("Total Afterparty Count", Count(m.totalApCount))]
    + SizeColumns(ShirtPrefix, TShirtOrder, m.shirtSizeCounts)
    + SizeColumns(PantPrefix, PantSizeOrder, m.pantSizeCounts)
  }

  /** What the flattening needs of a team: no two of its dietary keys, nor
      two of its allergy keys, print alike. */
  predicate Flattenable(m: TeamMetrics) {
    NoClash(m.dietaryRestrictions.Keys) && NoClash(m.dancerAllergies.Keys)
  }

  /** A team's row with its dietary keys listed in the order `dk` and its
      allergy keys in the order `ak`. */
  function FlatRowOf(m: TeamMetrics, dk: seq<Cell>, ak: seq<Cell>): ReportRow {
    FixedColumns(m)
    + KeyColumns(DietaryPrefix, dk, m.dietaryRestrictions)
    + KeyColumns(AllergyPrefix, ak, m.dancerAllergies)
  }

  /** The `flat_metrics` of one team: its keys in ascending order of text. */
  ghost function FlatRow(m: TeamMetrics): ReportRow
    requires Flattenable(m)
  {
    FlatRowOf(m, SortedKeys(m.dietaryRestrictions.Keys), SortedKeys(m.dancerAllergies.Keys))
  }

  /** Lines 109-113: one loop over a size list, adding its columns. */
  method AddSizeColumns(row: ReportRow, prefix: string, sizes: seq<string>, counts: Distribution)
    returns (r: ReportRow)
    ensures r == row + SizeColumns(prefix, sizes, counts)
  {
    r := row;
    for i := 0 to |sizes|
      invariant r == row + SizeColumns(prefix, sizes[..i], counts)
    {
      var size := sizes[i];
      assert sizes[..i + 1][..i] == sizes[..i];
      r := r + [(prefix + size, Count(Get(counts, Some(size))))];
    }
    assert sizes[..|sizes|] == sizes;
  }

  /** Lines 115-121: one loop over a distribution, adding a column per key in
      ascending order of the keys' text. */
  method AddKeyColumns(row: ReportRow, prefix: string, counts: Distribution)
    returns (r: ReportRow)
    requires NoClash(counts.Keys)
    ensures r == row + KeyColumns(prefix, SortedKeys(counts.Keys), counts)
  {
    var keys := SortByText(counts.Keys);
    r := AppendKeyColumns(row, prefix, keys, counts);
  }

  /** The loop body of lines 116-117 (and 120-121) over keys already in
      order: one column per key, appended in that order. */
  method AppendKeyColumns(row: ReportRow, prefix: string, keys: seq<Cell>, counts: Distribution)
    returns (r: ReportRow)
    ensures r == row + KeyColumns(prefix, keys, counts)
  {
    r := row;
    for i := 0 to |keys|
      invariant r == row + KeyColumns(prefix, keys[..i], counts)
    {
      var key := keys[i];
      assert keys[..i + 1][..i] == keys[..i];
      r := r + [(prefix + Str(key), Count(Get(counts, key)))];
    }
    assert keys[..|keys|] == keys;
  }

  /** Lines 103-121 for one team: the dictionary built key by key. */
  method FlattenTeamMetrics(m: TeamMetrics) returns (row: ReportRow)
    requires Flattenable(m)
    ensures row == FlatRow(m)
  {
    row := [("Team", TeamText(m.team)),
            ("Total Roster Count", Count(m.totalRoster)),
            ("Total Afterparty Count", Count(m.totalApCount))];
    row := AddSizeColumns(row, ShirtPrefix, TShirtOrder, m.shirtSizeCounts);
    row := AddSizeColumns(row, PantPrefix, PantSizeOrder, m.pantSizeCounts);
    row := AddKeyColumns(row, DietaryPrefix, m.dietaryRestrictions);
    row := AddKeyColumns(row, AllergyPrefix, m.dancerAllergies);
  }

  /** The rows of the report: one flattened row per team, in order. */
  ghost function FlatRows(ms: seq<TeamMetrics>): (rows: seq<ReportRow>)
    requires forall i :: 0 <= i < |ms| ==> Flattenable(ms[i])
  {
    seq(|ms|, i requires 0 <= i < |ms| => FlatRow(ms[i]))
  }

  /** Lines 100-123: one flattened row per team, in the order of the list. */
  method FlattenAllMetrics(metricsList: seq<TeamMetrics>) returns (rows: seq<ReportRow>)
    requires forall i :: 0 <= i < |metricsList| ==> Flattenable(metricsList[i])
    ensures rows == FlatRows(metricsList)
  {
    rows := [];
    for i := 0 to |metricsList|
      invariant |rows| == i
      invariant forall j :: 0 <= j < i ==> rows[j] == FlatRow(metricsList[j])
    {
      var flat := FlattenTeamMetrics(metricsList[i]);
      rows := rows + [flat];
    }
  }

  /** Where each column of a row sits: the team and its totals, one column
      per shirt size XS, S, M, L, XL and one per pant size N, XS, S, M, L, XL,
      each holding the team's count or 0, then one column per dietary key and
      one per allergy key in the given orders. */
  lemma FlatRowLayout(m: TeamMetrics, dk: seq<Cell>, ak: seq<Cell>)
    ensures var r := FlatRowOf(m, dk, ak);
            && |r| == 14 + |dk| + |ak|
            && r[0] == ("Team", TeamText(m.team))
            && r[1] == ("Total Roster Count", Count(m.totalRoster))
            && r[2] == ("Total Afterparty Count", Count(m.totalApCount))
            && (forall i :: 0 <= i < 5 ==>
                  r[3 + i] == (ShirtPrefix + TShirtOrder[i], Count(Get(m.shirtSizeCounts, Some(TShirtOrder[i])))))
            && (forall i :: 0 <= i < 6 ==>
                  r[8 + i] == (PantPrefix + PantSizeOrder[i], Count(Get(m.pantSizeCounts, Some(PantSizeOrder[i])))))
            && (forall i :: 0 <= i < |dk| ==>
                  r[14 + i] == (DietaryPrefix + Str(dk[i]), Count(Get(m.dietaryRestrictions, dk[i]))))
            && (forall i :: 0 <= i < |ak| ==>
                  r[14 + |dk| + i] == (AllergyPrefix + Str(ak[i]), Count(Get(m.dancerAllergies, ak[i]))))
  {
    var fixed := FixedColumns(m);
    assert |fixed| == 14;
  }

  /** A report row starts with the team and its totals and the shirt and pant
      columns, and has one more column per dietary and per allergy key. */
  lemma FlatRowFixed(m: TeamMetrics)
    requires Flattenable(m)
    ensures |FlatRow(m)| == 14 + |m.dietaryRestrictions| + |m.dancerAllergies|
    ensures FlatRow(m)[0] == ("Team", TeamText(m.team))
    ensures FlatRow(m)[1] == ("Total Roster Count", Count(m.totalRoster))
    ensures FlatRow(m)[2] == ("Total Afterparty Count", Count(m.totalApCount))
    ensures forall i :: 0 <= i < 5 ==>
              FlatRow(m)[3 + i] == (ShirtPrefix + TShirtOrder[i], Count(Get(m.shirtSizeCounts, Some(TShirtOrder[i]))))
    ensures forall i :: 0 <= i < 6 ==>
              FlatRow(m)[8 + i] == (PantPrefix + PantSizeOrder[i], Count(Get(m.pantSizeCounts, Some(PantSizeOrder[i]))))
  {
    SortedKeysLength(m.dietaryRestrictions.Keys);
    SortedKeysLength(m.dancerAllergies.Keys);
    FlatRowLayout(m, SortedKeys(m.dietaryRestrictions.Keys), SortedKeys(m.dancerAllergies.Keys));
  }

  lemma SortedKeysLength(keys: set<Cell>)
    requires NoClash(keys)
    ensures |SortedKeys(keys)| == |keys|
    decreases keys
  {
    if keys != {} {
      var s := SortedKeys(keys);
      SortedKeysLength(keys - {s[0]});
    }
  }

  /** After the fixed columns come `Dietary - k` for exactly the keys `k` of
      the team's dietary distribution, in ascending order of their text, each
      with its count; then `Dancer Allergy - k` likewise. */
  lemma FlatRowSorted(m: TeamMetrics, dk: seq<Cell>, ak: seq<Cell>)
    requires Flattenable(m)
    requires dk == SortedKeys(m.dietaryRestrictions.Keys) && ak == SortedKeys(m.dancerAllergies.Keys)
    ensures |FlatRow(m)| == 14 + |dk| + |ak|
    ensures StrictlySorted(dk) && (forall k :: k in dk <==> k in m.dietaryRestrictions)
    ensures StrictlySorted(ak) && (forall k :: k in ak <==> k in m.dancerAllergies)
    ensures forall i :: 0 <= i < |dk| ==>
              FlatRow(m)[14 + i] == (DietaryPrefix + Str(dk[i]), Count(m.dietaryRestrictions[dk[i]]))
    ensures forall i :: 0 <= i < |ak| ==>
              FlatRow(m)[14 + |dk| + i] == (AllergyPrefix + Str(ak[i]), Count(m.dancerAllergies[ak[i]]))
  {
    SortedKeysSpec(m.dietaryRestrictions.Keys);
    SortedKeysSpec(m.dancerAllergies.Keys);
    FlatRowOfKeys(m, dk, ak, FlatRow(m));
  }

  /** The key columns of a row `r` whose key orders `dk` and `ak` list the
      keys of the team, each once, in ascending order of text. */
  lemma FlatRowOfKeys(m: TeamMetrics, dk: seq<Cell>, ak: seq<Cell>, r: ReportRow)
    requires r == FlatRowOf(m, dk, ak)
    requires StrictlySorted(dk) && (forall k :: k in dk <==> k in m.dietaryRestrictions)
    requires StrictlySorted(ak) && (forall k :: k in ak <==> k in m.dancerAllergies)
    ensures && |r| == 14 + |dk| + |ak|
            && StrictlySorted(dk) && (forall k :: k in dk <==> k in m.dietaryRestrictions)
            && StrictlySorted(ak) && (forall k :: k in ak <==> k in m.dancerAllergies)
            && (forall i :: 0 <= i < |dk| ==>
                  r[14 + i] == (DietaryPrefix + Str(dk[i]), Count(m.dietaryRestrictions[dk[i]])))
            && (forall i :: 0 <= i < |ak| ==>
                  r[14 + |dk| + i] == (AllergyPrefix + Str(ak[i]), Count(m.dancerAllergies[ak[i]])))
  {
    FlatRowLayout(m, dk, ak);
    forall i | 0 <= i < |dk| ensures dk[i] in m.dietaryRestrictions {
      assert dk[i] in dk;
    }
    forall i | 0 <= i < |ak| ensures ak[i] in m.dancerAllergies {
      assert ak[i] in ak;
    }
  }

  /** Sizes outside the two fixed lists never get a column: two teams whose
      shirt and pant counts agree on the listed sizes flatten alike. */
  lemma UnlistedSizesIgnored(m: TeamMetrics, shirts: Distribution, pants: Distribution)
    requires Flattenable(m)
    requires forall i :: 0 <= i < |TShirtOrder| ==>
               Get(shirts, Some(TShirtOrder[i])) == Get(m.shirtSizeCounts, Some(TShirtOrder[i]))
    requires forall i :: 0 <= i < |PantSizeOrder| ==>
               Get(pants, Some(PantSizeOrder[i])) == Get(m.pantSizeCounts, Some(PantSizeOrder[i]))
    ensures FlatRow(m.(shirtSizeCounts := shirts, pantSizeCounts := pants)) == FlatRow(m)
  {
    var m2 := m.(shirtSizeCounts := shirts, pantSizeCounts := pants);
    assert SizeColumns(ShirtPrefix, TShirtOrder, shirts) == SizeColumns(ShirtPrefix, TShirtOrder, m.shirtSizeCounts);
    assert SizeColumns(PantPrefix, PantSizeOrder, pants) == SizeColumns(PantPrefix, PantSizeOrder, m.pantSizeCounts);
    assert FixedColumns(m2) == FixedColumns(m);
  }
}
