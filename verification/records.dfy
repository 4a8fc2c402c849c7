/** Record building in `parseCSV` (app/csvtojson/page.tsx): each data row becomes a
    record keyed by the header names, its cells padded to the header count and run
    through `infer`; records whose values are all empty are dropped. */
module RecordBuilding {
  import opened Text
  import opened Inference

  type Record = map<string, string>

  /** Assigning this key on a plain JavaScript object sets its prototype, which a
      string value leaves unchanged, so no entry appears under it. */
  const Proto: string := "__proto__"

  /** The row as the record sees it: padded with empty cells up to `width` and run
      through `infer`, cell by cell. */
  function InferredCells(cols: seq<string>, width: nat): (vals: seq<string>)
    ensures |vals| == width
  {
    seq(width, c requires 0 <= c < width => if c < |cols| then Infer(cols[c]) else "")
  }

  /** The record after the first `n` keys have been assigned their values, in order,
      so a later key overwrites an earlier one of the same name. */
  function Assign(keys: seq<string>, vals: seq<string>, n: nat): Record
    requires n <= |keys| <= |vals|
  {
    if n == 0 then map[]
    else
      var m := Assign(keys, vals, n - 1);
      if keys[n - 1] == Proto then m else m[keys[n - 1] := vals[n - 1]]
  }

  /** The record a data row gives. */
  function RecordOf(headers: seq<string>, cols: seq<string>): Record {
    Assign(headers, InferredCells(cols, |headers|), |headers|)
  }

  /** `Object.values(record).every(v => v === "")`. */
  predicate AllEmpty(rec: Record) {
    forall k :: k in rec ==> rec[k] == ""
  }

  function Blanks(k: nat): (b: seq<string>)
    ensures |b| == k && forall i :: 0 <= i < k ==> b[i] == ""
  {
    seq(k, _ => "")
  }

  /** The inner loop: pads the row and assigns one key per header. */
  method BuildRecord(headers: seq<string>, cols: seq<string>) returns (record: Record)
    ensures record == RecordOf(headers, cols)
  {
    var padded := if |cols| < |headers| then cols + Blanks(|headers| - |cols|) else cols;
    ghost var vals := InferredCells(cols, |headers|);
    record := map[];
    for c := 0 to |headers|
      invariant record == Assign(headers, vals, c)
    {
      var v := Infer(padded[c]);
      PaddedCell(cols, |headers|, padded, c);
      if headers[c] != Proto {
        record := record[headers[c] := v];
      }
    }
  }

  lemma PaddedCell(cols: seq<string>, width: nat, padded: seq<string>, c: nat)
    requires padded == if |cols| < width then cols + Blanks(width - |cols|) else cols
    requires c < width
    ensures Infer(padded[c]) == InferredCells(cols, width)[c]
  {
    if c >= |cols| {
      assert padded[c] == "";
    }
  }

  /** The outer loop over the data rows, keeping the records that are not all empty. */
  method BuildRecords(headers: seq<string>, rows: seq<seq<string>>) returns (out: seq<Record>)
    ensures out == Records(headers, rows)
  {
    out := [];
    ghost var all := RowRecords(headers, rows);
    var r := 1;
    while r < |rows|
      invariant 1 <= r && (rows != [] ==> r <= |rows|)
      invariant out == KeepNonEmpty(all[..if rows == [] then 0 else r - 1])
    {
      var record := BuildRecord(headers, rows[r]);
      var allEmpty := forall k | k in record :: record[k] == "";
      assert allEmpty == AllEmpty(record);
      assert record == all[r - 1];
      KeepStep(all, r - 1);
      if !allEmpty {
        out := out + [record];
      }
      r := r + 1;
    }
    assert all[..if rows == [] then 0 else r - 1] == all;
  }

  // ---------------------------------------------------------------------------
  // What a record holds.

  lemma PrefixSnoc<T>(xs: seq<T>, n: nat)
    requires n < |xs|
    ensures xs[..n + 1] == xs[..n] + [xs[n]]
  {
  }

  lemma {:induction false} AssignKeys(keys: seq<string>, vals: seq<string>, n: nat)
    requires n <= |keys| <= |vals|
    ensures forall h :: h in Assign(keys, vals, n) <==> h != Proto && h in keys[..n]
  {
    if n > 0 {
      AssignKeys(keys, vals, n - 1);
      PrefixSnoc(keys, n - 1);
    }
  }

  /** A record has one key per header name other than `__proto__`, and no other. */
  lemma RecordKeys(headers: seq<string>, cols: seq<string>)
    ensures forall h :: h in RecordOf(headers, cols) <==> h != Proto && h in headers
  {
    AssignKeys(headers, InferredCells(cols, |headers|), |headers|);
    assert headers[..|headers|] == headers;
  }

  /** The last header of a name, not followed by another of the same name. */
  predicate LastOfName(headers: seq<string>, c: nat)
    requires c < |headers|
  {
    forall k :: c < k < |headers| ==> headers[k] != headers[c]
  }

  lemma {:induction false} AssignValue(keys: seq<string>, vals: seq<string>, c: nat, n: nat)
    requires c < n <= |keys| <= |vals| && keys[c] != Proto
    requires forall k :: c < k < n ==> keys[k] != keys[c]
    ensures keys[c] in Assign(keys, vals, n) && Assign(keys, vals, n)[keys[c]] == vals[c]
  {
    if n > c + 1 {
      AssignValue(keys, vals, c, n - 1);
    }
  }

  /** The value under a header is the inferred cell of its last column of that name,
      or empty when the row is too short to have that cell. */
  lemma RecordValue(headers: seq<string>, cols: seq<string>, c: nat)
    requires c < |headers| && headers[c] != Proto && LastOfName(headers, c)
    ensures headers[c] in RecordOf(headers, cols)
    ensures RecordOf(headers, cols)[headers[c]] == if c < |cols| then Infer(cols[c]) else ""
  {
    AssignValue(headers, InferredCells(cols, |headers|), c, |headers|);
  }

  /** Cells beyond the header count do not reach the record. */
  lemma RecordIgnoresExtraCells(headers: seq<string>, cols: seq<string>, extra: seq<string>)
    requires |headers| <= |cols|
    ensures RecordOf(headers, cols + extra) == RecordOf(headers, cols)
  {
    var w := |headers|;
    assert InferredCells(cols + extra, w) == InferredCells(cols, w) by {
      forall c | 0 <= c < w ensures (cols + extra)[c] == cols[c] {}
    }
  }

  /** The position of the last occurrence of `x`. */
  function LastIndex(xs: seq<string>, x: string): (c: nat)
    requires x in xs
    ensures c < |xs| && xs[c] == x && forall k :: c < k < |xs| ==> xs[k] != x
  {
    if xs[|xs| - 1] == x then |xs| - 1
    else
      assert x in xs[..|xs| - 1] by {
        var i :| 0 <= i < |xs| && xs[i] == x;
        assert xs[..|xs| - 1][i] == x;
      }
      LastIndex(xs[..|xs| - 1], x)
  }

  /** A record is all empty exactly when every cell that reaches it, the last one
      under each name other than `__proto__`, is present and empty or missing. */
  lemma AllEmptyIff(headers: seq<string>, cols: seq<string>)
    ensures AllEmpty(RecordOf(headers, cols)) <==>
            forall c :: 0 <= c < |headers| && c < |cols| && headers[c] != Proto && LastOfName(headers, c)
                        ==> cols[c] == ""
  {
    var rec := RecordOf(headers, cols);
    RecordKeys(headers, cols);
    if AllEmpty(rec) {
      forall c | 0 <= c < |headers| && c < |cols| && headers[c] != Proto && LastOfName(headers, c)
        ensures cols[c] == ""
      {
        RecordValue(headers, cols, c);
      }
    } else {
      var h :| h in rec && rec[h] != "";
      var c := LastIndex(headers, h);
      RecordValue(headers, cols, c);
      assert c < |cols| && cols[c] != "";
    }
  }

  /** A row with a non-empty cell (whitespace counts) under the last header of its
      name, other than `__proto__`, is kept. */
  lemma NonEmptyCellKeepsRecord(headers: seq<string>, cols: seq<string>, c: nat)
    requires c < |headers| && c < |cols| && headers[c] != Proto && LastOfName(headers, c)
    requires cols[c] != ""
    ensures !AllEmpty(RecordOf(headers, cols))
  {
    AllEmptyIff(headers, cols);
  }

  /** `a,b,c` over the row `x,y`: the missing third cell is padded with empty text. */
  lemma PaddingExample()
    ensures RecordOf(["a", "b", "c"], ["x", "y"]) == map["a" := "x", "b" := "y", "c" := ""]
  {
    var h := ["a", "b", "c"];
    var vals := InferredCells(["x", "y"], 3);
    assert vals[0] == "x" && vals[1] == "y" && vals[2] == "" by {
      TextKept("x");
      TextKept("y");
    }
    assert Assign(h, vals, 1) == map["a" := "x"];
    assert Assign(h, vals, 2) == map["a" := "x", "b" := "y"];
  }

  /** A one-character cell that is neither a digit nor `-` is kept as it is. */
  lemma TextKept(v: string)
    requires |v| == 1 && !IsDigit(v[0]) && v[0] != '-'
    ensures Infer(v) == v
  {
    assert !EqualsIgnoringCase(v, "true") && !EqualsIgnoringCase(v, "false");
    assert ParseNumeral(v).None?;
  }

  // ---------------------------------------------------------------------------
  // Which records are kept, and in which order.

  /** The records of all data rows, in row order. */
  function RowRecords(headers: seq<string>, rows: seq<seq<string>>): (recs: seq<Record>)
    ensures |recs| == if rows == [] then 0 else |rows| - 1
  {
    if rows == [] then []
    else seq(|rows| - 1, i requires 0 <= i < |rows| - 1 => RecordOf(headers, rows[i + 1]))
  }

  /** The records that are not all empty, in their order. */
  function KeepNonEmpty(recs: seq<Record>): (kept: seq<Record>)
    ensures |kept| <= |recs|
  {
    if recs == [] then []
    else (if AllEmpty(recs[0]) then [] else [recs[0]]) + KeepNonEmpty(recs[1..])
  }

  lemma {:induction false} KeepNonEmptySnoc(recs: seq<Record>, rec: Record)
    ensures KeepNonEmpty(recs + [rec]) == KeepNonEmpty(recs) + (if AllEmpty(rec) then [] else [rec])
  {
    if recs != [] {
      assert (recs + [rec])[1..] == recs[1..] + [rec];
      KeepNonEmptySnoc(recs[1..], rec);
    } else {
      assert [] + [rec] == [rec];
    }
  }

  /** One more row record: it is kept exactly when it is not all empty. */
  lemma KeepStep(all: seq<Record>, i: nat)
    requires i < |all|
    ensures KeepNonEmpty(all[..i + 1]) == KeepNonEmpty(all[..i]) + (if AllEmpty(all[i]) then [] else [all[i]])
  {
    PrefixSnoc(all, i);
    KeepNonEmptySnoc(all[..i], all[i]);
  }

  /** The output of `parseCSV` for rows whose first row gave `headers`: the records of
      the data rows in row order, the all-empty ones left out. */
  function Records(headers: seq<string>, rows: seq<seq<string>>): (out: seq<Record>)
    ensures rows == [] ==> out == []
    ensures rows != [] ==> |out| <= |rows| - 1
  {
    KeepNonEmpty(RowRecords(headers, rows))
  }

  lemma {:induction false} KeepNonEmptyMembers(recs: seq<Record>)
    ensures forall x :: x in KeepNonEmpty(recs) <==> x in recs && !AllEmpty(x)
  {
    if recs != [] {
      KeepNonEmptyMembers(recs[1..]);
      assert recs == [recs[0]] + recs[1..];
    }
  }

  /** A record is in the output exactly when some data row gives it and it is not
      all empty. */
  lemma RecordsMembers(headers: seq<string>, rows: seq<seq<string>>)
    ensures forall x :: x in Records(headers, rows) <==> x in RowRecords(headers, rows) && !AllEmpty(x)
  {
    KeepNonEmptyMembers(RowRecords(headers, rows));
  }

  lemma {:induction false} KeepNonEmptyAll(recs: seq<Record>)
    requires forall i :: 0 <= i < |recs| ==> !AllEmpty(recs[i])
    ensures KeepNonEmpty(recs) == recs
  {
    if recs != [] {
      KeepNonEmptyAll(recs[1..]);
      assert [recs[0]] + recs[1..] == recs;
    }
  }

  /** When no data row gives an all-empty record, there is one record per data row,
      in row order. */
  lemma RecordsKeepOrder(headers: seq<string>, rows: seq<seq<string>>)
    requires forall r :: 1 <= r < |rows| ==> !AllEmpty(RecordOf(headers, rows[r]))
    ensures Records(headers, rows) == RowRecords(headers, rows)
  {
    var all := RowRecords(headers, rows);
    if rows != [] {
      assert forall i :: 0 <= i < |all| ==> !AllEmpty(all[i]) by {
        forall i | 0 <= i < |all| ensures !AllEmpty(all[i]) {
          assert !AllEmpty(RecordOf(headers, rows[i + 1]));
        }
      }
    }
    KeepNonEmptyAll(all);
  }

  /** Every record in the output has a value that is not empty, and its keys are
      header names other than `__proto__`. */
  lemma RecordsShape(headers: seq<string>, rows: seq<seq<string>>)
    ensures forall i :: 0 <= i < |Records(headers, rows)| ==>
              !AllEmpty(Records(headers, rows)[i]) &&
              forall k :: k in Records(headers, rows)[i] ==> k in headers && k != Proto
  {
    var out := Records(headers, rows);
    var all := RowRecords(headers, rows);
    RecordsMembers(headers, rows);
    forall i | 0 <= i < |out|
      ensures !AllEmpty(out[i]) && forall k :: k in out[i] ==> k in headers && k != Proto
    {
      assert out[i] in out;
      var j :| 0 <= j < |all| && all[j] == out[i];
      RecordKeys(headers, rows[j + 1]);
    }
  }
}
