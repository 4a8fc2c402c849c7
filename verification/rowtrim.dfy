/** The removal of leading and trailing blank rows after tokenizing
    (app/csvtojson/page.tsx): a row is blank when every field trims to nothing. */
module RowTrimming {
  import opened Text

  /** `row.every(v => v.trim() === "")`. */
  predicate BlankRow(row: seq<string>) {
    forall j :: 0 <= j < |row| ==> IsBlank(row[j])
  }

  predicate AllBlank(rows: seq<seq<string>>) {
    forall k :: 0 <= k < |rows| ==> BlankRow(rows[k])
  }

  /** Where the `shift` loop stops when it starts at row `i`: the first row at or
      after `i` that is not blank, or the end. */
  function FirstKept(rows: seq<seq<string>>, i: nat): (n: nat)
    requires i <= |rows|
    ensures i <= n <= |rows|
    ensures forall k :: i <= k < n ==> BlankRow(rows[k])
    ensures n == |rows| || !BlankRow(rows[n])
    decreases |rows| - i
  {
    if i == |rows| || !BlankRow(rows[i]) then i else FirstKept(rows, i + 1)
  }

  /** Where the `pop` loop stops when the rows left are `rows[lo..j]`: just past the
      last of them that is not blank, or `lo` when all of them are blank. */
  function EndKept(rows: seq<seq<string>>, lo: nat, j: nat): (n: nat)
    requires lo <= j <= |rows|
    ensures lo <= n <= j
    ensures forall k :: n <= k < j ==> BlankRow(rows[k])
    ensures n == lo || !BlankRow(rows[n - 1])
    decreases j
  {
    if j == lo || !BlankRow(rows[j - 1]) then j else EndKept(rows, lo, j - 1)
  }

  /** The rows left once blank rows are removed from the front and then the back. */
  function TrimBlankRows(rows: seq<seq<string>>): (r: seq<seq<string>>)
    ensures |r| <= |rows|
  {
    var lo := FirstKept(rows, 0);
    rows[lo..EndKept(rows, lo, |rows|)]
  }

  /** What trimming keeps: a contiguous run of the rows with everything before and
      after it blank, and its first and last rows not blank. */
  lemma TrimBlankRowsSpec(rows: seq<seq<string>>)
    ensures var r, i := TrimBlankRows(rows), FirstKept(rows, 0);
            i + |r| <= |rows| && r == rows[i..i + |r|]
            && (forall k :: 0 <= k < i ==> BlankRow(rows[k]))
            && (forall k :: i + |r| <= k < |rows| ==> BlankRow(rows[k]))
            && (r == [] || (!BlankRow(r[0]) && !BlankRow(r[|r| - 1])))
  {
    var lo := FirstKept(rows, 0);
    var hi := EndKept(rows, lo, |rows|);
    if lo < |rows| {
      assert lo < hi by {
        assert !BlankRow(rows[lo]);
      }
      var r := rows[lo..hi];
      assert r[0] == rows[lo] && r[|r| - 1] == rows[hi - 1];
    }
  }

  /** Trimming leaves nothing exactly when every row is blank. */
  lemma TrimBlankRowsEmptyIff(rows: seq<seq<string>>)
    ensures TrimBlankRows(rows) == [] <==> AllBlank(rows)
  {
    var lo := FirstKept(rows, 0);
    if lo < |rows| {
      assert !BlankRow(rows[lo]);
    }
  }

  /** Trimming a second time changes nothing. */
  lemma TrimBlankRowsIdempotent(rows: seq<seq<string>>)
    ensures TrimBlankRows(TrimBlankRows(rows)) == TrimBlankRows(rows)
  {
    TrimBlankRowsSpec(rows);
    var r := TrimBlankRows(rows);
    if r != [] {
      assert FirstKept(r, 0) == 0;
      assert EndKept(r, 0, |r|) == |r|;
      assert r[0..|r|] == r;
    }
  }

  lemma ShiftStep<T>(xs: seq<T>, lo: nat, r: seq<T>)
    requires lo < |xs| && r == xs[lo..]
    ensures r[0] == xs[lo] && r[1..] == xs[lo + 1..]
  {
  }

  lemma PopStep<T>(xs: seq<T>, lo: nat, hi: nat, r: seq<T>)
    requires lo < hi <= |xs| && r == xs[lo..hi]
    ensures r[|r| - 1] == xs[hi - 1] && r[..|r| - 1] == xs[lo..hi - 1]
  {
  }

  /** The two `while` loops of `parseCSV` that `shift` and `pop` blank rows. */
  method TrimRows(rows: seq<seq<string>>) returns (r: seq<seq<string>>)
    ensures r == TrimBlankRows(rows)
  {
    r := rows;
    ghost var lo := 0;
    while |r| > 0 && BlankRow(r[0])
      invariant lo <= |rows| && r == rows[lo..]
      invariant FirstKept(rows, lo) == FirstKept(rows, 0)
    {
      ShiftStep(rows, lo, r);
      r := r[1..];
      lo := lo + 1;
    }
    ghost var hi := |rows|;
    while |r| > 0 && BlankRow(r[|r| - 1])
      invariant lo <= hi <= |rows| && r == rows[lo..hi]
      invariant EndKept(rows, lo, hi) == EndKept(rows, lo, |rows|)
    {
      PopStep(rows, lo, hi, r);
      r := r[..|r| - 1];
      hi := hi - 1;
    }
  }
}
