/** The in-memory table the pipeline works on once a roster CSV has been
    parsed: a header (the DataFrame's column labels, in order) and rows that
    map each column label to a cell, where a missing cell (pandas' NaN) is
    `None`. */
module Tables {

  datatype Option<+T> = None | Some(value: T)

  type Cell = Option<string>
  type Row = map<string, Cell>

  datatype Table = Table(header: seq<string>, rows: seq<Row>)

  /** The column holding a row's team name, written by the cleaning and read
      by the metrics. */
  const TeamColumn := "team"

  predicate Distinct<T(==)>(s: seq<T>) {
    forall i, j :: 0 <= i < j < |s| ==> s[i] != s[j]
  }

  /** Column labels are unique and every row has a cell for exactly the
      table's columns. */
  predicate WellFormed(t: Table) {
    && Distinct(t.header)
    && forall k :: 0 <= k < |t.rows| ==> t.rows[k].Keys == set c | c in t.header
  }

  /** Python's `str(cell)`: the text of a cell, "nan" for a missing one. */
  function Str(c: Cell): string {
    match c
    case None => "nan"
    case Some(s) => s
  }

  /** `fillna('')` on one cell. */
  function Coalesce(c: Cell): string {
    match c
    case None => ""
    case Some(s) => s
  }

  /** No present cell holds the text "nan": pandas' `read_csv` reads that
      text (among other NA markers) as a missing value. */
  predicate NoNanText(t: Table) {
    forall k, c :: 0 <= k < |t.rows| && c in t.rows[k] ==> t.rows[k][c] != Some("nan")
  }

  /** The elements of `s` that satisfy `p`, in their order (a boolean mask
      applied to a DataFrame or a list comprehension with a condition). */
  function Filter<T>(p: T -> bool, s: seq<T>): (r: seq<T>)
    ensures |r| <= |s|
    ensures forall i :: 0 <= i < |r| ==> p(r[i])
  {
    if s == [] then []
    else if p(s[0]) then [s[0]] + Filter(p, s[1..])
    else Filter(p, s[1..])
  }

  /** `r` is `s` with some elements removed, the rest in their order. */
  predicate IsSubsequence<T(==)>(r: seq<T>, s: seq<T>) {
    if r == [] then true
    else if s == [] then false
    else if r[0] == s[0] then IsSubsequence(r[1..], s[1..])
    else IsSubsequence(r, s[1..])
  }

  /** Filtering only removes elements: it never reorders or changes one. */
  lemma {:induction false} FilterIsSubsequence<T>(p: T -> bool, s: seq<T>)
    ensures IsSubsequence(Filter(p, s), s)
  {
    if s != [] {
      FilterIsSubsequence(p, s[1..]);
      if p(s[0]) {
        assert Filter(p, s)[1..] == Filter(p, s[1..]);
      }
    }
  }

  /** An element is kept by a filter exactly when it is in the input and
      satisfies the condition. */
  lemma {:induction false} FilterMembership<T>(p: T -> bool, s: seq<T>, x: T)
    ensures x in Filter(p, s) <==> x in s && p(x)
  {
    if s != [] {
      FilterMembership(p, s[1..], x);
      assert s == [s[0]] + s[1..];
    }
  }

  /** A filter keeps every occurrence of the elements it keeps. */
  lemma {:induction false} FilterMultiplicity<T>(p: T -> bool, s: seq<T>, x: T)
    ensures multiset(Filter(p, s))[x] == if p(x) then multiset(s)[x] else 0
  {
    if s != [] {
      FilterMultiplicity(p, s[1..], x);
      assert s == [s[0]] + s[1..];
    }
  }

  /** Filtering a sequence with one more element at its end. */
  lemma {:induction false} FilterSnoc<T>(p: T -> bool, s: seq<T>, x: T)
    ensures Filter(p, s + [x]) == Filter(p, s) + (if p(x) then [x] else [])
  {
    if s == [] {
      assert s + [x] == [x];
    } else {
      FilterSnoc(p, s[1..], x);
      assert (s + [x])[1..] == s[1..] + [x];
    }
  }

  /** A filter that no element satisfies keeps nothing. */
  lemma {:induction false} FilterNone<T>(p: T -> bool, s: seq<T>)
    requires forall i :: 0 <= i < |s| ==> !p(s[i])
    ensures Filter(p, s) == []
  {
    if s != [] {
      FilterNone(p, s[1..]);
    }
  }

  /** Filtering by `q` after `p` is filtering by both. */
  lemma {:induction false} FilterFilter<T>(p: T -> bool, q: T -> bool, pq: T -> bool, s: seq<T>)
    requires forall x :: pq(x) == (p(x) && q(x))
    ensures Filter(q, Filter(p, s)) == Filter(pq, s)
  {
    if s != [] {
      FilterFilter(p, q, pq, s[1..]);
    }
  }
}
