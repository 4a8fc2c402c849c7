/** The delimiter sniffer of the CSV converter: for each candidate delimiter it
    counts the columns of the first logical lines, summarises the counts by
    median, population variance and sample size, scores the candidate, and keeps
    the first candidate with the strictly highest score. */
module Sniffer {

  /** The candidate delimiters, in the order they are tried. */
  const Candidates: seq<char> := [',', ';', '\t', '|']

  /** The number of newline-terminated lines the scan looks at. */
  const MaxSniffLines: nat := 200

  /** What the scan notices: a delimiter or a line feed outside quotes. */
  datatype Mark = Sep | EndLine

  /** The marks of `s` when the scan starts with the given quote state.
      A `"` toggles quoting, except that `""` inside quotes is skipped as an
      escaped quote; every other character (including `\r`) is ignored. */
  function Marks(s: string, delim: char, inQuotes: bool): seq<Mark>
    decreases |s|
  {
    if s == [] then []
    else if s[0] == '"' then
      if inQuotes && |s| > 1 && s[1] == '"' then Marks(s[2..], delim, true)
      else Marks(s[1..], delim, !inQuotes)
    else if s[0] == delim && !inQuotes then [Sep] + Marks(s[1..], delim, inQuotes)
    else if s[0] == '\n' && !inQuotes then [EndLine] + Marks(s[1..], delim, inQuotes)
    else Marks(s[1..], delim, inQuotes)
  }

  /** How many marks of kind `k` `m` holds. */
  function CountOf(m: seq<Mark>, k: Mark): nat
  {
    if m == [] then 0 else CountOf(m[..|m| - 1], k) + (if m[|m| - 1] == k then 1 else 0)
  }

  /** The column count of the line still open after `m`. */
  function OpenCount(m: seq<Mark>): (n: nat)
    ensures n >= 1
  {
    if m == [] || m[|m| - 1] == EndLine then 1 else OpenCount(m[..|m| - 1]) + 1
  }

  /** The column count of every line that `m` terminates, in order. */
  function LineCounts(m: seq<Mark>): seq<nat>
  {
    if m == [] then []
    else if m[|m| - 1] == EndLine then LineCounts(m[..|m| - 1]) + [OpenCount(m[..|m| - 1])]
    else LineCounts(m[..|m| - 1])
  }

  /** `k` separators in a row. */
  function Seps(k: nat): (m: seq<Mark>)
    ensures |m| == k && forall i :: 0 <= i < k ==> m[i] == Sep
  {
    seq(k, _ => Sep)
  }

  /** Every line has one more column than it has delimiters outside quotes:
      appending a line made of `k` separators appends the count `k + 1`. */
  lemma {:induction false} LineCountsAppendLine(m: seq<Mark>, k: nat)
    requires m == [] || m[|m| - 1] == EndLine
    ensures LineCounts(m + Seps(k) + [EndLine]) == LineCounts(m) + [k + 1]
  {
    OpenCountSeps(m, k);
    assert (m + Seps(k) + [EndLine])[..|m| + k] == m + Seps(k);
    LineCountsSeps(m, k);
  }

  lemma {:induction false} OpenCountSeps(m: seq<Mark>, k: nat)
    requires m == [] || m[|m| - 1] == EndLine
    ensures OpenCount(m + Seps(k)) == k + 1
  {
    if k == 0 {
      assert m + Seps(0) == m;
    } else {
      assert Seps(k) == Seps(k - 1) + [Sep];
      assert (m + Seps(k))[..|m| + k - 1] == m + Seps(k - 1);
      OpenCountSeps(m, k - 1);
    }
  }

  lemma {:induction false} LineCountsSeps(m: seq<Mark>, k: nat)
    ensures LineCounts(m + Seps(k)) == LineCounts(m)
  {
    if k == 0 {
      assert m + Seps(0) == m;
    } else {
      assert Seps(k) == Seps(k - 1) + [Sep];
      assert (m + Seps(k))[..|m| + k - 1] == m + Seps(k - 1);
      LineCountsSeps(m, k - 1);
    }
  }

  /** There is one count per line end. */
  lemma {:induction false} LineCountsLength(m: seq<Mark>)
    ensures |LineCounts(m)| == CountOf(m, EndLine)
  {
    if m != [] {
      LineCountsLength(m[..|m| - 1]);
    }
  }

  /** The counts of a prefix are a prefix of the counts. */
  lemma {:induction false} LineCountsPrefix(p: seq<Mark>, q: seq<Mark>)
    ensures |LineCounts(p)| <= |LineCounts(p + q)|
    ensures LineCounts(p + q)[..|LineCounts(p)|] == LineCounts(p)
    decreases |q|
  {
    if q == [] {
      assert p + q == p;
    } else {
      var q' := q[..|q| - 1];
      assert (p + q)[..|p + q| - 1] == p + q';
      LineCountsPrefix(p, q');
    }
  }

  /** The per-line column counts `countColsFor` collects for `delim` before filtering:
      the counts of the first `MaxSniffLines` newline-terminated lines, and, when the
      text has fewer lines, the unterminated last line's count if it is above 1 and
      differs from the previous line's count. */
  function SniffCounts(s: string, delim: char): (counts: seq<nat>)
    ensures |counts| <= MaxSniffLines
  {
    var m := Marks(s, delim, false);
    var full := LineCounts(m);
    if |full| >= MaxSniffLines then full[..MaxSniffLines]
    else
      var last := OpenCount(m);
      if last > 1 && (full == [] || full[|full| - 1] != last) then full + [last] else full
  }

  /** One step of the scan at position `i`. */
  lemma MarksAt(s: string, i: nat, delim: char, inQuotes: bool)
    requires i < |s|
    ensures Marks(s[i..], delim, inQuotes) ==
      if s[i] == '"' then
        if inQuotes && i + 1 < |s| && s[i + 1] == '"' then Marks(s[i + 2..], delim, true)
        else Marks(s[i + 1..], delim, !inQuotes)
      else if s[i] == delim && !inQuotes then [Sep] + Marks(s[i + 1..], delim, inQuotes)
      else if s[i] == '\n' && !inQuotes then [EndLine] + Marks(s[i + 1..], delim, inQuotes)
      else Marks(s[i + 1..], delim, inQuotes)
  {
    assert s[i..][0] == s[i];
    assert s[i..][1..] == s[i + 1..];
    if i + 1 < |s| {
      assert s[i..][1] == s[i + 1];
      assert s[i..][2..] == s[i + 2..];
    }
  }

  /** Appending one mark to the marks seen so far. */
  lemma CountsSnoc(m: seq<Mark>, x: Mark)
    ensures LineCounts(m + [x]) == if x == EndLine then LineCounts(m) + [OpenCount(m)] else LineCounts(m)
    ensures OpenCount(m + [x]) == if x == EndLine then 1 else OpenCount(m) + 1
  {
    assert (m + [x])[..|m|] == m;
  }

  lemma SnocAssoc<T>(a: seq<T>, x: T, b: seq<T>)
    ensures a + ([x] + b) == (a + [x]) + b
  {
  }

  /** The scan stops at the line end that completes `MaxSniffLines` lines. */
  lemma ScanStopped(s: string, delim: char, seen: seq<Mark>, rest: seq<Mark>)
    requires Marks(s, delim, false) == seen + rest
    requires |LineCounts(seen)| == MaxSniffLines
    ensures SniffCounts(s, delim) == LineCounts(seen)
  {
    LineCountsPrefix(seen, rest);
  }

  /** The scan reaches the end of the text with fewer than `MaxSniffLines` lines. */
  lemma ScanFinished(s: string, delim: char, seen: seq<Mark>)
    requires Marks(s, delim, false) == seen + []
    requires |LineCounts(seen)| < MaxSniffLines
    ensures var full, last := LineCounts(seen), OpenCount(seen);
            SniffCounts(s, delim)
            == if last > 1 && (full == [] || full[|full| - 1] != last) then full + [last] else full
  {
    assert seen + [] == seen;
  }

  /** The scan of `countColsFor` (app/csvtojson/page.tsx), up to the filtering of short lines. */
  method CountColumns(s: string, delim: char) returns (colsPerLine: seq<nat>)
    ensures colsPerLine == SniffCounts(s, delim)
    ensures |colsPerLine| <= MaxSniffLines
  {
    colsPerLine := [];
    var inQuotes, col, lines := false, 1, 0;
    ghost var seen: seq<Mark> := [];
    var i := 0;
    while i < |s|
      invariant 0 <= i <= |s|
      invariant Marks(s, delim, false) == seen + Marks(s[i..], delim, inQuotes)
      invariant colsPerLine == LineCounts(seen) && col == OpenCount(seen)
      invariant lines == |colsPerLine| < MaxSniffLines
    {
      var c := s[i];
      MarksAt(s, i, delim, inQuotes);
      if c == '"' {
        if inQuotes && i + 1 < |s| && s[i + 1] == '"' {
          i := i + 2;
          continue;
        }
        inQuotes := !inQuotes;
      } else if c == delim && !inQuotes {
        CountsSnoc(seen, Sep);
        SnocAssoc(seen, Sep, Marks(s[i + 1..], delim, inQuotes));
        col := col + 1;
        seen := seen + [Sep];
      } else if c == '\n' && !inQuotes {
        CountsSnoc(seen, EndLine);
        SnocAssoc(seen, EndLine, Marks(s[i + 1..], delim, inQuotes));
        colsPerLine := colsPerLine + [col];
        col := 1;
        lines := lines + 1;
        seen := seen + [EndLine];
        if lines >= MaxSniffLines {
          ScanStopped(s, delim, seen, Marks(s[i + 1..], delim, inQuotes));
          break;
        }
      }
      i := i + 1;
    }
    if lines < MaxSniffLines {
      assert s[i..] == [];
      ScanFinished(s, delim, seen);
    }
    if col > 1 && (colsPerLine == [] || colsPerLine[|colsPerLine| - 1] != col) {
      colsPerLine := colsPerLine + [col];
    }
  }

  /** The column counts that inform the statistics: those of 2 or more. */
  function Informative(counts: seq<nat>): (r: seq<nat>)
    ensures |r| <= |counts|
    ensures forall x :: x in r <==> x in counts && x >= 2
    ensures forall x :: multiset(r)[x] == if x >= 2 then multiset(counts)[x] else 0
  {
    if counts == [] then []
    else
      var rest := Informative(counts[..|counts| - 1]);
      var x := counts[|counts| - 1];
      assert counts == counts[..|counts| - 1] + [x];
      if x >= 2 then rest + [x] else rest
  }

  /** Each count is at most the next one. */
  predicate Sorted(xs: seq<nat>) {
    forall i :: 0 < i < |xs| ==> xs[i - 1] <= xs[i]
  }

  function Insert(x: nat, xs: seq<nat>): (r: seq<nat>)
    requires Sorted(xs)
    ensures |r| == |xs| + 1
    ensures r[0] == x || (xs != [] && r[0] == xs[0])
    ensures Sorted(r) && multiset(r) == multiset(xs) + multiset{x}
  {
    if xs == [] || x <= xs[0] then [x] + xs
    else
      var rest := Insert(x, xs[1..]);
      assert xs == [xs[0]] + xs[1..];
      [xs[0]] + rest
  }

  /** The ascending numeric sort of `[...colsPerLine].sort((a, b) => a - b)`. */
  function SortAscending(xs: seq<nat>): (r: seq<nat>)
    ensures Sorted(r) && multiset(r) == multiset(xs)
  {
    if xs == [] then []
    else
      assert xs == [xs[0]] + xs[1..];
      Insert(xs[0], SortAscending(xs[1..]))
  }

  /** `sorted[Math.floor(sorted.length / 2)]`: the upper median. */
  function Median(xs: seq<nat>): (m: nat)
    requires |xs| > 0
    ensures m in xs
  {
    var sorted := SortAscending(xs);
    assert |sorted| == |multiset(sorted)| == |xs|;
    assert sorted[|xs| / 2] in multiset(sorted);
    sorted[|xs| / 2]
  }

  function Sum(xs: seq<nat>): nat
  {
    if xs == [] then 0 else Sum(xs[..|xs| - 1]) + xs[|xs| - 1]
  }

  /** The sum of the squared distances of `xs` from `total / n`, scaled by `n * n`:
      the sum of `(n * x - total)^2`. Kept in integers so that the solver reasons
      about integer squares only. */
  function ScaledSquares(xs: seq<nat>, n: int, total: int): nat
  {
    if xs == [] then 0
    else
      var d := n * xs[|xs| - 1] - total;
      ScaledSquares(xs[..|xs| - 1], n, total) + d * d
  }

  /** The population variance `sum((x - mean)^2) / n` of the second `reduce`, with
      `mean = total / n`; in exact arithmetic this is `sum((n * x - total)^2) / n^3`. */
  function Variance(xs: seq<nat>): real
    requires |xs| > 0
  {
    var n := |xs|;
    ScaledSquares(xs, n, Sum(xs)) as real / (n * n * n) as real
  }

  lemma {:induction false} ScaledSquaresZero(xs: seq<nat>, n: int, total: int)
    ensures ScaledSquares(xs, n, total) == 0 <==> forall i :: 0 <= i < |xs| ==> n * xs[i] == total
  {
    if xs != [] {
      var p := xs[..|xs| - 1];
      var d := n * xs[|xs| - 1] - total;
      ScaledSquaresZero(p, n, total);
      assert d * d == 0 <==> d == 0;
      assert forall i :: 0 <= i < |p| ==> p[i] == xs[i];
    }
  }

  lemma {:induction false} SumConstant(xs: seq<nat>, c: nat)
    requires forall i :: 0 <= i < |xs| ==> xs[i] == c
    ensures Sum(xs) == |xs| * c
  {
    if xs != [] {
      SumConstant(xs[..|xs| - 1], c);
    }
  }

  /** The variance is never negative, and it is zero exactly when every line has
      the same column count. */
  lemma VarianceZeroIffUniform(xs: seq<nat>)
    requires |xs| > 0
    ensures Variance(xs) >= 0.0
    ensures Variance(xs) == 0.0 <==> forall i :: 0 <= i < |xs| ==> xs[i] == xs[0]
  {
    var n := |xs|;
    var q := ScaledSquares(xs, n, Sum(xs));
    assert n * n * n > 0;
    DivisionZero(q, n * n * n);
    ScaledSquaresZero(xs, n, Sum(xs));
    if forall i :: 0 <= i < |xs| ==> xs[i] == xs[0] {
      SumConstant(xs, xs[0]);
    }
    if q == 0 {
      forall i | 0 <= i < |xs| ensures xs[i] == xs[0] {
        assert n * xs[i] == n * xs[0];
        CancelFactor(n, xs[i], xs[0]);
      }
    }
  }

  lemma DivisionZero(a: nat, b: nat)
    requires b > 0
    ensures a as real / b as real >= 0.0
    ensures a as real / b as real == 0.0 <==> a == 0
  {
  }

  lemma CancelFactor(n: int, x: int, y: int)
    requires n > 0 && n * x == n * y
    ensures x == y
  {
  }

  /** What `countColsFor` returns: `NoInformativeLines` stands for its
      `{ median: 0, variance: Infinity, sample: 0 }`. */
  datatype Stats = NoInformativeLines | Stats(median: nat, variance: real, sample: nat)

  function LineStats(counts: seq<nat>): (st: Stats)
    ensures st.NoInformativeLines? <==> forall i :: 0 <= i < |counts| ==> counts[i] < 2
    ensures st.Stats? ==> st.median >= 2 && st.median in counts && st.variance >= 0.0
                          && 1 <= st.sample <= |counts|
  {
    var xs := Informative(counts);
    if xs == [] then
      assert forall i :: 0 <= i < |counts| ==> counts[i] < 2 by {
        forall i | 0 <= i < |counts| ensures counts[i] < 2 {
          assert counts[i] in counts;
        }
      }
      NoInformativeLines
    else
      VarianceZeroIffUniform(xs);
      assert xs[0] in xs;
      Stats(Median(xs), Variance(xs), |xs|)
  }

  /** The filter keeps the order of the counts: it distributes over concatenation. */
  lemma {:induction false} InformativeAppend(a: seq<nat>, b: seq<nat>)
    ensures Informative(a + b) == Informative(a) + Informative(b)
    decreases |b|
  {
    if b == [] {
      assert a + b == a;
    } else {
      var p := b[..|b| - 1];
      assert (a + b)[..|a + b| - 1] == a + p;
      assert (a + b)[|a + b| - 1] == b[|b| - 1];
      InformativeAppend(a, p);
    }
  }

  /** The sample size is the number of lines with 2 or more columns. */
  lemma {:induction false} InformativeLength(counts: seq<nat>)
    ensures |Informative(counts)| == |set i | 0 <= i < |counts| && counts[i] >= 2|
  {
    if counts != [] {
      var n := |counts|;
      var p := counts[..n - 1];
      InformativeLength(p);
      var all := set i | 0 <= i < n && counts[i] >= 2;
      var before := set i | 0 <= i < n - 1 && p[i] >= 2;
      assert forall i :: 0 <= i < n - 1 ==> p[i] == counts[i];
      if counts[n - 1] >= 2 {
        assert all == before + {n - 1};
      } else {
        assert all == before;
      }
    }
  }

  /** The elements of `xs` below `t`, in order: the rank of `t` among them. */
  function Below(xs: seq<nat>, t: int): (r: seq<nat>)
    ensures |r| <= |xs|
  {
    if xs == [] then [] else if xs[|xs| - 1] < t then Below(xs[..|xs| - 1], t) + [xs[|xs| - 1]] else Below(xs[..|xs| - 1], t)
  }

  /** Each value below `t` occurs in `Below(xs, t)` as often as in `xs`, and no other
      value occurs there. */
  lemma {:induction false} BelowMultiset(xs: seq<nat>, t: int)
    ensures forall x :: multiset(Below(xs, t))[x] == if x < t then multiset(xs)[x] else 0
  {
    if xs != [] {
      var p, x := xs[..|xs| - 1], xs[|xs| - 1];
      assert xs == p + [x];
      BelowMultiset(p, t);
    }
  }

  /** The rank of `t` does not depend on the order of the elements. */
  lemma BelowPermutation(a: seq<nat>, b: seq<nat>, t: int)
    requires multiset(a) == multiset(b)
    ensures |Below(a, t)| == |Below(b, t)|
  {
    BelowMultiset(a, t);
    BelowMultiset(b, t);
    assert multiset(Below(a, t)) == multiset(Below(b, t));
    assert |Below(a, t)| == |multiset(Below(a, t))|;
    assert |Below(b, t)| == |multiset(Below(b, t))|;
  }

  lemma {:induction false} BelowAppend(a: seq<nat>, b: seq<nat>, t: int)
    ensures Below(a + b, t) == Below(a, t) + Below(b, t)
    decreases |b|
  {
    if b == [] {
      assert a + b == a;
    } else {
      var p := b[..|b| - 1];
      assert (a + b)[..|a + b| - 1] == a + p;
      assert (a + b)[|a + b| - 1] == b[|b| - 1];
      BelowAppend(a, p, t);
    }
  }

  lemma {:induction false} BelowAll(xs: seq<nat>, t: int)
    requires forall i :: 0 <= i < |xs| ==> xs[i] < t
    ensures Below(xs, t) == xs
  {
    if xs != [] {
      BelowAll(xs[..|xs| - 1], t);
    }
  }

  lemma {:induction false} BelowNone(xs: seq<nat>, t: int)
    requires forall i :: 0 <= i < |xs| ==> xs[i] >= t
    ensures Below(xs, t) == []
  {
    if xs != [] {
      BelowNone(xs[..|xs| - 1], t);
    }
  }

  lemma {:induction false} SortedMonotone(xs: seq<nat>, i: nat, j: nat)
    requires Sorted(xs) && i <= j < |xs|
    ensures xs[i] <= xs[j]
    decreases j - i
  {
    if i < j {
      SortedMonotone(xs, i, j - 1);
    }
  }

  /** In a sorted sequence, at most `h` elements lie below the one at position `h`. */
  lemma SortedRankBelow(s: seq<nat>, h: nat)
    requires Sorted(s) && h < |s|
    ensures |Below(s, s[h])| <= h
  {
    var t := s[h];
    var lo, hi := s[..h], s[h..];
    assert s == lo + hi;
    assert Below(hi, t) == [] by {
      forall i | 0 <= i < |hi| ensures hi[i] >= t {
        assert hi[i] == s[h + i];
        SortedMonotone(s, h, h + i);
      }
      BelowNone(hi, t);
    }
    BelowAppend(lo, hi, t);
  }

  /** In a sorted sequence, the first `h + 1` elements lie at or below the one at
      position `h`. */
  lemma SortedRankAtOrBelow(s: seq<nat>, h: nat)
    requires Sorted(s) && h < |s|
    ensures h + 1 <= |Below(s, s[h] + 1)|
  {
    var t := s[h] + 1;
    var lo, hi := s[..h + 1], s[h + 1..];
    assert s == lo + hi;
    assert Below(lo, t) == lo by {
      forall i | 0 <= i < |lo| ensures lo[i] < t {
        assert lo[i] == s[i];
        SortedMonotone(s, i, h);
      }
      BelowAll(lo, t);
    }
    BelowAppend(lo, hi, t);
  }

  /** The element at position `h` of a sorted permutation of `xs` has rank `h` in `xs`. */
  lemma SortedRank(xs: seq<nat>, s: seq<nat>, h: nat)
    requires Sorted(s) && multiset(s) == multiset(xs) && h < |s|
    ensures |Below(xs, s[h])| <= h
    ensures h < |Below(xs, s[h] + 1)|
  {
    SortedRankBelow(s, h);
    SortedRankAtOrBelow(s, h);
    BelowPermutation(s, xs, s[h]);
    BelowPermutation(s, xs, s[h] + 1);
  }

  /** The median is the upper middle order statistic: at most half of the counts lie
      below it, and more than half lie at or below it. */
  lemma MedianRank(xs: seq<nat>)
    requires |xs| > 0
    ensures |Below(xs, Median(xs))| <= |xs| / 2 < |Below(xs, Median(xs) + 1)|
  {
    var s := SortAscending(xs);
    assert |s| == |xs| by {
      assert |s| == |multiset(s)| == |multiset(xs)|;
    }
    assert Median(xs) == s[|xs| / 2];
    SortedRank(xs, s, |xs| / 2);
  }

  /** The source's second `reduce`: the sum of the squared distances from `mean`. */
  function SquaredDeviations(xs: seq<nat>, mean: real): real
  {
    if xs == [] then 0.0
    else
      var d := xs[|xs| - 1] as real - mean;
      SquaredDeviations(xs[..|xs| - 1], mean) + d * d
  }

  lemma ScaleSquare(x: int, n: nat, total: int)
    requires n > 0
    ensures var d := x as real - total as real / n as real;
            d * d == ((n * x - total) * (n * x - total)) as real / (n * n) as real
  {
    var nr := n as real;
    var d := x as real - total as real / nr;
    var e := (n * x - total) as real;
    assert nr * d == e;
    assert (nr * d) * (nr * d) == (nr * nr) * (d * d);
    assert ((n * x - total) * (n * x - total)) as real == e * e;
    assert (n * n) as real == nr * nr;
  }

  lemma {:induction false} ScaledSquaresDeviations(xs: seq<nat>, n: nat, total: int)
    requires n > 0
    ensures SquaredDeviations(xs, total as real / n as real) == ScaledSquares(xs, n, total) as real / (n * n) as real
  {
    if xs != [] {
      var p, x := xs[..|xs| - 1], xs[|xs| - 1];
      var d := x as real - total as real / n as real;
      var e := (n * x - total) * (n * x - total);
      var c := (n * n) as real;
      ScaledSquaresDeviations(p, n, total);
      ScaleSquare(x, n, total);
      assert SquaredDeviations(xs, total as real / n as real) == ScaledSquares(p, n, total) as real / c + e as real / c;
      assert ScaledSquares(xs, n, total) as real == ScaledSquares(p, n, total) as real + e as real;
      AddFractions(ScaledSquares(p, n, total) as real, e as real, c);
    }
  }

  /** The variance is the mean squared distance from the mean, as the source computes it. */
  lemma VarianceOfMean(xs: seq<nat>)
    requires |xs| > 0
    ensures Variance(xs) == SquaredDeviations(xs, Sum(xs) as real / |xs| as real) / |xs| as real
  {
    var n := |xs|;
    var q := ScaledSquares(xs, n, Sum(xs)) as real;
    ScaledSquaresDeviations(xs, n, Sum(xs));
    var nr := n as real;
    assert (n * n) as real == nr * nr && (n * n * n) as real == nr * nr * nr;
    DivideTwice(q, nr * nr, nr);
  }

  lemma AddFractions(a: real, b: real, c: real)
    requires c > 0.0
    ensures a / c + b / c == (a + b) / c
  {
  }

  lemma DivideTwice(q: real, a: real, b: real)
    requires a > 0.0 && b > 0.0
    ensures (q / a) / b == q / (a * b)
  {
    var r := q / a;
    assert r * a == q;
    assert (r / b) * (a * b) == r * a;
  }

  /** The values of the statistics: the sample is the number of lines with 2 or more
      columns, the median is the upper middle of their counts, and the variance is
      their mean squared distance from their mean. */
  lemma LineStatsValues(counts: seq<nat>)
    ensures var st := LineStats(counts);
            var xs := Informative(counts);
            st.Stats? ==>
              && st.sample == |set i | 0 <= i < |counts| && counts[i] >= 2|
              && |Below(xs, st.median)| <= st.sample / 2 < |Below(xs, st.median + 1)|
              && st.variance == SquaredDeviations(xs, Sum(xs) as real / st.sample as real) / st.sample as real
  {
    var xs := Informative(counts);
    InformativeLength(counts);
    if xs != [] {
      MedianRank(xs);
      VarianceOfMean(xs);
    }
  }

  /** A candidate's score; `NegInf` is the `-Infinity` that an infinite variance gives. */
  datatype Score = NegInf | Finite(value: real)

  function ScoreOf(st: Stats): Score
  {
    match st
    case NoInformativeLines => NegInf
    case Stats(median, variance, sample) =>
      Finite((if median > 1 then median else 0) as real * 1000.0 + sample as real - variance)
  }

  /** `a > b` on scores. */
  predicate Beats(a: Score, b: Score) {
    a.Finite? && (b.NegInf? || a.value > b.value)
  }

  function DelimiterScore(s: string, delim: char): Score
  {
    ScoreOf(LineStats(SniffCounts(s, delim)))
  }

  function Scores(s: string): (sc: seq<Score>)
    ensures |sc| == |Candidates|
  {
    seq(|Candidates|, k requires 0 <= k < |Candidates| => DelimiterScore(s, Candidates[k]))
  }

  /** The position the selection loop settles on: the first score that beats every
      earlier one and that no later one beats; position 0 when every score is `NegInf`. */
  function FirstBest(sc: seq<Score>): (k: nat)
    requires |sc| > 0
    ensures k < |sc|
    ensures forall j :: 0 <= j < k ==> Beats(sc[k], sc[j])
    ensures forall j :: k < j < |sc| ==> !Beats(sc[j], sc[k])
  {
    if |sc| == 1 then 0
    else
      var k := FirstBest(sc[..|sc| - 1]);
      if Beats(sc[|sc| - 1], sc[k]) then |sc| - 1 else k
  }

  /** The delimiter `parseCSV` selects for `s`. */
  function Sniff(s: string): (d: char)
    ensures d in Candidates
  {
    Candidates[FirstBest(Scores(s))]
  }

  /** One step of the selection loop: after looking at candidate `k`, the best
      position is the first best of the first `k + 1` scores. */
  lemma SelectionStep(sc: seq<Score>, k: nat, bestIndex: nat, bestScore: Score)
    requires k < |sc|
    requires k == 0 ==> bestIndex == 0 && bestScore == NegInf
    requires k > 0 ==> bestIndex == FirstBest(sc[..k]) && bestScore == sc[bestIndex]
    ensures var next := if Beats(sc[k], bestScore) then k else bestIndex;
            next == FirstBest(sc[..k + 1])
            && sc[next] == (if Beats(sc[k], bestScore) then sc[k] else bestScore)
  {
    if k > 0 {
      assert sc[..k + 1][..k] == sc[..k];
    }
  }

  /** The selection loop of `parseCSV`: keeps the candidate whose score is strictly
      greater than the best so far, starting from comma at `-Infinity`. */
  method SniffDelimiter(csv: string) returns (delimiter: char)
    ensures delimiter == Sniff(csv)
  {
    var best, bestScore := ',', NegInf;
    ghost var bestIndex := 0;
    ghost var sc := Scores(csv);
    for k := 0 to |Candidates|
      invariant bestIndex < |Candidates| && best == Candidates[bestIndex]
      invariant k == 0 ==> bestIndex == 0 && bestScore == NegInf
      invariant k > 0 ==> bestIndex == FirstBest(sc[..k]) && bestScore == sc[bestIndex]
    {
      var d := Candidates[k];
      var counts := CountColumns(csv, d);
      var score := ScoreOf(LineStats(counts));
      assert score == sc[k];
      SelectionStep(sc, k, bestIndex, bestScore);
      if Beats(score, bestScore) {
        best, bestScore := d, score;
        bestIndex := k;
      }
    }
    assert sc[..|Candidates|] == sc;
    delimiter := best;
  }

  /** How many times `c` occurs in `s`. */
  function Occurrences(s: string, c: char): nat
  {
    if s == [] then 0 else (if s[0] == c then 1 else 0) + Occurrences(s[1..], c)
  }

  lemma {:induction false} OccurrencesAbsent(s: string, c: char)
    requires c !in s
    ensures Occurrences(s, c) == 0
  {
    if s != [] {
      OccurrencesAbsent(s[1..], c);
    }
  }

  /** Outside quotes, a stretch of text without quotes and line feeds yields one
      separator per delimiter it contains. */
  lemma {:induction false} QuoteFreeStretch(line: string, rest: string, delim: char)
    requires '"' !in line && '\n' !in line && delim != '"'
    ensures Marks(line + rest, delim, false) == Seps(Occurrences(line, delim)) + Marks(rest, delim, false)
  {
    if line == [] {
      assert line + rest == rest;
    } else {
      assert (line + rest)[1..] == line[1..] + rest;
      QuoteFreeStretch(line[1..], rest, delim);
      var k := Occurrences(line[1..], delim);
      if line[0] == delim {
        assert Seps(k + 1) == [Sep] + Seps(k) by { SepsCons(k); }
      }
    }
  }

  lemma {:induction false} SepsCons(k: nat)
    ensures Seps(k + 1) == [Sep] + Seps(k)
  {
    assert Seps(k + 1) == [Sep] + Seps(k);
  }

  /** Two complete lines of `a` and `b` separators and an unterminated line of `c`. */
  lemma ThreeLines(m: seq<Mark>, a: nat, b: nat, c: nat)
    requires m == Seps(a) + [EndLine] + Seps(b) + [EndLine] + Seps(c)
    ensures LineCounts(m) == [a + 1, b + 1] && OpenCount(m) == c + 1
  {
    var two := Seps(a) + [EndLine] + Seps(b) + [EndLine];
    TwoLines(a, b);
    assert m == two + Seps(c);
    LineCountsSeps(two, c);
    OpenCountSeps(two, c);
  }

  /** Two complete lines of `a` and `b` separators. */
  lemma TwoLines(a: nat, b: nat)
    ensures LineCounts(Seps(a) + [EndLine] + Seps(b) + [EndLine]) == [a + 1, b + 1]
  {
    var first := Seps(a) + [EndLine];
    assert LineCounts(first) == [a + 1] by {
      LineCountsAppendLine([], a);
      assert [] + Seps(a) + [EndLine] == first;
    }
    LineCountsAppendLine(first, b);
  }

  /** Three quote-free lines holding `n` delimiters each: two complete lines of
      `n + 1` columns, the unterminated third line repeating that count. */
  lemma ThreeEqualLinesCounts(s: string, d: char, l1: string, l2: string, l3: string, n: nat)
    requires s == l1 + ("\n" + (l2 + ("\n" + (l3 + ""))))
    requires '"' !in l1 && '\n' !in l1 && Occurrences(l1, d) == n
    requires '"' !in l2 && '\n' !in l2 && Occurrences(l2, d) == n
    requires '"' !in l3 && '\n' !in l3 && Occurrences(l3, d) == n
    requires d != '"' && d != '\n'
    ensures SniffCounts(s, d) == [n + 1, n + 1]
  {
    var t3 := l3 + "";
    var t2 := l2 + ("\n" + t3);
    QuoteFreeStretch(l3, "", d);
    assert Marks(t3, d, false) == Seps(n);
    assert Marks("\n" + t3, d, false) == [EndLine] + Seps(n);
    QuoteFreeStretch(l2, "\n" + t3, d);
    assert Marks(t2, d, false) == Seps(n) + [EndLine] + Seps(n);
    assert Marks("\n" + t2, d, false) == [EndLine] + Marks(t2, d, false);
    QuoteFreeStretch(l1, "\n" + t2, d);
    var m := Marks(s, d, false);
    assert m == Seps(n) + [EndLine] + Seps(n) + [EndLine] + Seps(n);
    ThreeLines(m, n, n, n);
  }

  /** Two lines of equal width `k`: `-Infinity` for single-column lines, otherwise
      `k * 1000` plus the sample of two and no variance. */
  lemma UniformPairScore(k: nat)
    ensures ScoreOf(LineStats([k, k])) == if k < 2 then NegInf else Finite(k as real * 1000.0 + 2.0)
  {
    var xs := [k, k];
    if k >= 2 {
      assert Informative(xs) == xs;
      VarianceZeroIffUniform(xs);
      assert Median(xs) == k;
    }
  }

  /** The per-delimiter scores of three semicolon-separated lines of three fields. */
  lemma SemicolonLinesScore(d: char)
    requires d in Candidates
    ensures DelimiterScore("a;b;c\n1;2;3\n4;5;6", d) == if d == ';' then Finite(3002.0) else NegInf
  {
    var l1, l2, l3 := "a;b;c", "1;2;3", "4;5;6";
    var s := "a;b;c\n1;2;3\n4;5;6";
    assert s == l1 + ("\n" + (l2 + ("\n" + (l3 + ""))));
    var n := if d == ';' then 2 else 0;
    FieldLineOccurrences(l1, d);
    FieldLineOccurrences(l2, d);
    FieldLineOccurrences(l3, d);
    ThreeEqualLinesCounts(s, d, l1, l2, l3, n);
    UniformPairScore(n + 1);
  }

  predicate AlphaNumeric(c: char) {
    'a' <= c <= 'z' || '0' <= c <= '9'
  }

  /** A line of three one-character fields separated by semicolons. */
  lemma FieldLineOccurrences(line: string, d: char)
    requires |line| == 5 && line[1] == ';' && line[3] == ';'
    requires AlphaNumeric(line[0]) && AlphaNumeric(line[2]) && AlphaNumeric(line[4])
    requires d in Candidates
    ensures '"' !in line && '\n' !in line
    ensures Occurrences(line, d) == if d == ';' then 2 else 0
  {
    assert line == [line[0]] + [';'] + [line[2]] + [';'] + [line[4]];
    if d != ';' {
      OccurrencesAbsent(line, d);
    } else {
      assert Occurrences(line[4..], d) == 0;
      assert Occurrences(line[3..], d) == 1;
      assert Occurrences(line[2..], d) == 1;
      assert Occurrences(line[1..], d) == 2;
    }
  }

  /** Semicolon-separated lines with a constant column count select the semicolon:
      comma, tab and pipe see one column per line and score `-Infinity`. */
  lemma SniffSemicolonExample()
    ensures Sniff("a;b;c\n1;2;3\n4;5;6") == ';'
  {
    var s := "a;b;c\n1;2;3\n4;5;6";
    SemicolonLinesScore(',');
    SemicolonLinesScore(';');
    SemicolonLinesScore('\t');
    SemicolonLinesScore('|');
    var sc := Scores(s);
    assert sc[0] == NegInf && sc[1] == Finite(3002.0) && sc[2] == NegInf && sc[3] == NegInf;
    assert Beats(sc[1], sc[0]) && !Beats(sc[2], sc[1]) && !Beats(sc[3], sc[1]);
  }
}
